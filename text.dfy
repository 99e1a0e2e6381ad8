/**
 * The Python string operations the reader relies on, written out over `seq<char>`:
 * `s.split(sep)`, `sep.join(parts)`, `s.replace(pattern, with)`, `s.strip()`, `s.split()`,
 * `s.startswith(p)`, `sub in s` and the decimal rendering of an `int` in an f-string.
 */
module Text {

  /** Python's `str.isspace()`: the Unicode White_Space characters plus the separators 0x1C-0x1F. */
  predicate IsSpace(c: char) {
    var n := c as int;
    (9 <= n <= 13) || (28 <= n <= 32) || n == 0x85 || n == 0xA0 || n == 0x1680
    || (0x2000 <= n <= 0x200A) || n == 0x2028 || n == 0x2029 || n == 0x202F
    || n == 0x205F || n == 0x3000
  }

  /** `s.startswith(p)` */
  predicate StartsWith(s: string, p: string) {
    |p| <= |s| && s[..|p|] == p
  }

  /** `sub in s` */
  predicate Contains(s: string, sub: string)
    decreases |s|
  {
    StartsWith(s, sub) || (s != [] && Contains(s[1..], sub))
  }

  // ---------------------------------------------------------------------------
  // Two facts about sequences, kept apart from any string function

  lemma ConcatAssoc<T>(a: seq<T>, b: seq<T>, c: seq<T>)
    ensures a + (b + c) == (a + b) + c
  {
  }

  lemma DropConcat<T>(a: seq<T>, b: seq<T>, k: nat)
    requires k <= |a|
    ensures (a + b)[k..] == a[k..] + b
  {
  }

  // ---------------------------------------------------------------------------
  // split(sep), join and replace

  /**
   * `s.split(sep)` for a non-empty separator: scanning from the left, every
   * occurrence of `sep` that does not overlap an earlier one ends a piece.
   */
  function Split(s: string, sep: string): (parts: seq<string>)
    requires sep != []
    ensures |parts| >= 1
    decreases |s|
  {
    if |s| < |sep| then [s]
    else if s[..|sep|] == sep then [[]] + Split(s[|sep|..], sep)
    else
      var rest := Split(s[1..], sep);
      [[s[0]] + rest[0]] + rest[1..]
  }

  /** `sep.join(parts)` */
  function Join(sep: string, parts: seq<string>): string
    decreases |parts|
  {
    if parts == [] then []
    else if |parts| == 1 then parts[0]
    else parts[0] + sep + Join(sep, parts[1..])
  }

  /** `s.replace(pattern, with)` for a non-empty `pattern`: every piece between occurrences is kept. */
  function Replace(s: string, pattern: string, with: string): string
    requires pattern != []
  {
    Join(with, Split(s, pattern))
  }

  lemma JoinHead(sep: string, parts: seq<string>)
    requires |parts| >= 1
    ensures StartsWith(Join(sep, parts), parts[0])
  {
  }

  /** Joining an extra part at the end adds one separator and that part. */
  lemma {:induction false} JoinSnoc(sep: string, parts: seq<string>, x: string)
    requires |parts| >= 1
    ensures Join(sep, parts + [x]) == Join(sep, parts) + sep + x
    decreases |parts|
  {
    if |parts| == 1 {
      assert parts + [x] == [parts[0], x];
    } else {
      assert (parts + [x])[1..] == parts[1..] + [x];
      JoinSnoc(sep, parts[1..], x);
    }
  }

  /** Gluing a character to the front of the first part glues it to the front of the joined string. */
  lemma JoinConsHead(sep: string, c: char, rest: seq<string>)
    requires |rest| >= 1
    ensures Join(sep, [[c] + rest[0]] + rest[1..]) == [c] + Join(sep, rest)
  {
    var parts := [[c] + rest[0]] + rest[1..];
    if |rest| > 1 {
      assert parts[1..] == rest[1..];
    }
  }

  /** An empty first part contributes only its separator. */
  lemma JoinConsEmpty(sep: string, rest: seq<string>)
    requires |rest| >= 1
    ensures Join(sep, [[]] + rest) == sep + Join(sep, rest)
  {
    assert ([[]] + rest)[1..] == rest;
  }

  /** Splitting and joining again with the same separator gives back the string. */
  lemma {:induction false} JoinSplit(s: string, sep: string)
    requires sep != []
    ensures Join(sep, Split(s, sep)) == s
    decreases |s|
  {
    if |s| < |sep| {
    } else if s[..|sep|] == sep {
      var rest := Split(s[|sep|..], sep);
      JoinSplit(s[|sep|..], sep);
      JoinConsEmpty(sep, rest);
      assert s == sep + s[|sep|..];
    } else {
      var rest := Split(s[1..], sep);
      JoinSplit(s[1..], sep);
      JoinConsHead(sep, s[0], rest);
      assert s == [s[0]] + s[1..];
    }
  }

  lemma {:induction false} ShortNotContains(x: string, sub: string)
    requires |x| < |sub|
    ensures !Contains(x, sub)
    decreases |x|
  {
    if x != [] {
      ShortNotContains(x[1..], sub);
    }
  }

  /** When `s` does not start with `sep`, neither does the first piece of `s.split(sep)`. */
  lemma HeadPieceNoSeparator(s: string, sep: string)
    requires sep != [] && |s| >= |sep| && s[..|sep|] != sep
    ensures !StartsWith([s[0]] + Split(s[1..], sep)[0], sep)
  {
    var rest := Split(s[1..], sep);
    JoinSplit(s[1..], sep);
    JoinHead(sep, rest);
    PrefixCons(s, rest[0]);
    PrefixNotStarting(s, [s[0]] + rest[0], sep);
  }

  lemma PrefixCons(s: string, w: string)
    requires s != [] && StartsWith(s[1..], w)
    ensures StartsWith(s, [s[0]] + w)
  {
    var p := [s[0]] + w;
    forall j | 0 <= j < |p| ensures s[j] == p[j] {
      if j > 0 {
        assert s[1..][j - 1] == w[j - 1];
      }
    }
    assert s[..|p|] == p;
  }

  lemma PrefixNotStarting(s: string, p: string, sep: string)
    requires StartsWith(s, p) && !StartsWith(s, sep)
    ensures !StartsWith(p, sep)
  {
    assert |sep| <= |p| ==> s[..|sep|] == p[..|sep|];
  }

  /** No piece of `s.split(sep)` contains `sep`. */
  lemma {:induction false} SplitPiecesFree(s: string, sep: string)
    requires sep != []
    ensures forall i :: 0 <= i < |Split(s, sep)| ==> !Contains(Split(s, sep)[i], sep)
    decreases |s|
  {
    var parts := Split(s, sep);
    if |s| < |sep| {
      ShortNotContains(s, sep);
    } else if s[..|sep|] == sep {
      SplitPiecesFree(s[|sep|..], sep);
      assert !Contains([], sep) by { ShortNotContains([], sep); }
      assert forall i :: 1 <= i < |parts| ==> parts[i] == Split(s[|sep|..], sep)[i - 1];
    } else {
      var rest := Split(s[1..], sep);
      SplitPiecesFree(s[1..], sep);
      var p0 := [s[0]] + rest[0];
      assert p0[1..] == rest[0];
      HeadPieceNoSeparator(s, sep);
      assert parts == [p0] + rest[1..];
      assert !Contains(p0, sep);
      assert forall i :: 1 <= i < |parts| ==> parts[i] == rest[i];
    }
  }

  /** Replacing in the empty string gives the empty string. */
  lemma ReplaceEmpty(pattern: string, with: string)
    requires pattern != []
    ensures Replace([], pattern, with) == []
  {
    assert Split([], pattern) == [[]];
  }

  /** No piece of `s.split(c)` holds the character `c`. */
  lemma SplitCharPiecesFree(s: string, c: char)
    ensures forall i :: 0 <= i < |Split(s, [c])| ==> c !in Split(s, [c])[i]
  {
    var parts := Split(s, [c]);
    SplitPiecesFree(s, [c]);
    forall i | 0 <= i < |parts| ensures c !in parts[i] {
      if c in parts[i] {
        ContainsChar(parts[i], c);
      }
    }
  }

  /** `sub in a + sub + b` */
  lemma {:induction false} ContainsMiddle(a: string, sub: string, b: string)
    ensures Contains(a + sub + b, sub)
    decreases |a|
  {
    if a != [] {
      assert (a + sub + b)[1..] == a[1..] + sub + b;
      ContainsMiddle(a[1..], sub, b);
    }
  }

  /** The character `a` is never directly followed by `b` in `s`. */
  predicate NoPair(s: string, a: char, b: char) {
    forall i :: 0 <= i < |s| - 1 ==> !(s[i] == a && s[i + 1] == b)
  }

  /** A string that lacks either character has no pair of them. */
  lemma NoPairWithout(s: string, a: char, b: char)
    requires a !in s || b !in s
    ensures NoPair(s, a, b)
  {
    forall i | 0 <= i < |s| - 1 ensures !(s[i] == a && s[i + 1] == b) {
      assert s[i] in s && s[i + 1] in s;
    }
  }

  /** A piece without `a` followed by a piece without `b` has no pair. */
  lemma NoPairTwoParts(x: string, y: string, a: char, b: char)
    requires a !in x && b !in y
    ensures NoPair(x + y, a, b)
  {
    NoPairWithout(x, a, b);
    NoPairWithout(y, a, b);
    assert x != [] ==> x[|x| - 1] in x;
    NoPairConcat(x, y, a, b);
  }

  /** Appending a piece without `b` keeps a string free of the pair. */
  lemma NoPairExtend(x: string, y: string, a: char, b: char)
    requires NoPair(x, a, b) && b !in y
    ensures NoPair(x + y, a, b)
  {
    NoPairWithout(y, a, b);
    assert y != [] ==> y[0] in y;
    NoPairConcat(x, y, a, b);
  }

  lemma NoPairConcat(x: string, y: string, a: char, b: char)
    requires NoPair(x, a, b) && NoPair(y, a, b)
    requires x != [] && y != [] ==> !(x[|x| - 1] == a && y[0] == b)
    ensures NoPair(x + y, a, b)
  {
    var s := x + y;
    forall i | 0 <= i < |s| - 1 ensures !(s[i] == a && s[i + 1] == b) {
      if i + 1 < |x| {
        assert s[i] == x[i] && s[i + 1] == x[i + 1];
      } else if i + 1 == |x| {
        assert s[i] == x[|x| - 1] && s[i + 1] == y[0];
      } else {
        assert s[i] == y[i - |x|] && s[i + 1] == y[i + 1 - |x|];
      }
    }
  }

  /** A string in which the first two characters of `sub` never stand side by side lacks `sub`. */
  lemma {:induction false} NoPairNotContains(s: string, sub: string)
    requires |sub| >= 2 && NoPair(s, sub[0], sub[1])
    ensures !Contains(s, sub)
    decreases |s|
  {
    if s != [] {
      assert |sub| <= |s| ==> s[..|sub|][0] == s[0] && s[..|sub|][1] == s[1];
      assert NoPair(s[1..], sub[0], sub[1]) by {
        forall i | 0 <= i < |s[1..]| - 1
          ensures !(s[1..][i] == sub[0] && s[1..][i + 1] == sub[1])
        {
          assert s[1..][i] == s[i + 1] && s[1..][i + 1] == s[i + 2];
        }
      }
      NoPairNotContains(s[1..], sub);
    }
  }

  /** A string without the separator splits into itself. */
  lemma {:induction false} SplitNone(s: string, sep: string)
    requires sep != [] && !Contains(s, sep)
    ensures Split(s, sep) == [s]
    decreases |s|
  {
    if |s| >= |sep| {
      SplitNone(s[1..], sep);
      assert [s[0]] + s[1..] == s;
    }
  }

  /**
   * When the first two characters of `sep` differ and never stand side by side in
   * `before`, splitting `before + sep + tail` cuts right after `before`.
   */
  lemma {:induction false} SplitAtFirst(before: string, sep: string, tail: string)
    requires |sep| >= 2 && sep[0] != sep[1]
    requires NoPair(before, sep[0], sep[1])
    ensures Split(before + sep + tail, sep) == [before] + Split(tail, sep)
    decreases |before|
  {
    var s := before + sep + tail;
    if before == [] {
      assert s[..|sep|] == sep;
      assert s[|sep|..] == tail;
    } else {
      assert s[0] == before[0];
      assert s[1] == if |before| >= 2 then before[1] else sep[0];
      assert s[..|sep|] != sep by {
        assert s[..|sep|][0] == s[0] && s[..|sep|][1] == s[1];
      }
      assert NoPair(before[1..], sep[0], sep[1]) by {
        forall i | 0 <= i < |before[1..]| - 1
          ensures !(before[1..][i] == sep[0] && before[1..][i + 1] == sep[1])
        {
          assert before[1..][i] == before[i + 1] && before[1..][i + 1] == before[i + 2];
        }
      }
      assert s[1..] == before[1..] + sep + tail;
      SplitAtFirst(before[1..], sep, tail);
      assert [before[0]] + before[1..] == before;
    }
  }

  /** A string that contains the separator splits into at least two pieces. */
  lemma SplitOfContaining(s: string, sep: string)
    requires sep != []
    requires Contains(s, sep)
    ensures |Split(s, sep)| >= 2
  {
    if |Split(s, sep)| == 1 {
      JoinSplit(s, sep);
      SplitPiecesFree(s, sep);
    }
  }

  /** The last piece of `s.split(sep)` is what follows the last occurrence the scan finds. */
  lemma SplitLast(s: string, sep: string)
    requires sep != []
    requires Contains(s, sep)
    ensures var parts := Split(s, sep);
      s == Join(sep, parts[..|parts| - 1]) + sep + parts[|parts| - 1]
  {
    var parts := Split(s, sep);
    SplitOfContaining(s, sep);
    JoinSplit(s, sep);
    var init := parts[..|parts| - 1];
    assert parts == init + [parts[|parts| - 1]];
    JoinSnoc(sep, init, parts[|parts| - 1]);
  }

  /** The first piece of `s.split(sep)` is followed either by nothing or by `sep`. */
  lemma SplitFirst(s: string, sep: string)
    requires sep != []
    ensures var p := Split(s, sep)[0];
      StartsWith(s, p) && (|s| == |p| || StartsWith(s[|p|..], sep))
  {
    var parts := Split(s, sep);
    JoinSplit(s, sep);
    if |parts| > 1 {
      assert s == parts[0] + sep + Join(sep, parts[1..]);
      assert s[|parts[0]|..] == sep + Join(sep, parts[1..]);
    }
  }

  /** Splitting on a character that the first piece lacks cuts right after that piece. */
  lemma {:induction false} SplitCharCons(x: string, c: char, y: string)
    requires c !in x
    ensures Split(x + [c] + y, [c]) == [x] + Split(y, [c])
    decreases |x|
  {
    var s := x + [c] + y;
    if x == [] {
      assert s[..1] == [c];
      assert s[1..] == y;
    } else {
      assert s[0] == x[0] && x[0] in x;
      assert s[..1] != [c];
      assert s[1..] == x[1..] + [c] + y;
      SplitCharCons(x[1..], c, y);
      assert [x[0]] + x[1..] == x;
    }
  }

  /** A string without the separator character splits into itself. */
  lemma {:induction false} SplitCharNone(x: string, c: char)
    requires c !in x
    ensures Split(x, [c]) == [x]
    decreases |x|
  {
    if x != [] {
      assert x[0] in x;
      assert x[..1] != [c];
      assert c !in x[1..] by { assert x == [x[0]] + x[1..]; }
      SplitCharNone(x[1..], c);
      assert [x[0]] + x[1..] == x;
    }
  }

  /** For a one-character separator, joining then splitting gives back the parts. */
  lemma {:induction false} SplitJoinChar(parts: seq<string>, c: char)
    requires |parts| >= 1
    requires forall i :: 0 <= i < |parts| ==> c !in parts[i]
    ensures Split(Join([c], parts), [c]) == parts
    decreases |parts|
  {
    if |parts| == 1 {
      SplitCharNone(parts[0], c);
    } else {
      SplitJoinChar(parts[1..], c);
      SplitCharCons(parts[0], c, Join([c], parts[1..]));
      assert [parts[0]] + parts[1..] == parts;
    }
  }

  lemma {:induction false} ContainsChar(p: string, c: char)
    requires c in p
    ensures Contains(p, [c])
    decreases |p|
  {
    if p[0] != c {
      assert c in p[1..] by { assert p == [p[0]] + p[1..]; }
      ContainsChar(p[1..], c);
    }
  }

  lemma {:induction false} JoinFree(sep: string, parts: seq<string>, c: char)
    requires c !in sep
    requires forall i :: 0 <= i < |parts| ==> c !in parts[i]
    ensures c !in Join(sep, parts)
    decreases |parts|
  {
    if |parts| > 1 {
      JoinFree(sep, parts[1..], c);
    }
  }

  lemma {:induction false} SplitFree(s: string, sep: string, c: char)
    requires sep != []
    requires c !in s
    ensures forall i :: 0 <= i < |Split(s, sep)| ==> c !in Split(s, sep)[i]
    decreases |s|
  {
    if |s| < |sep| {
    } else if s[..|sep|] == sep {
      assert c !in s[|sep|..] by { assert s == s[..|sep|] + s[|sep|..]; }
      SplitFree(s[|sep|..], sep, c);
    } else {
      assert c !in s[1..] by { assert s == [s[0]] + s[1..]; }
      SplitFree(s[1..], sep, c);
    }
  }

  /** `s.replace(c, "")` leaves no `c`. */
  lemma ReplaceRemovesChar(s: string, c: char)
    ensures c !in Replace(s, [c], [])
  {
    var parts := Split(s, [c]);
    SplitPiecesFree(s, [c]);
    forall i | 0 <= i < |parts| ensures c !in parts[i] {
      if c in parts[i] {
        ContainsChar(parts[i], c);
      }
    }
    JoinFree([], parts, c);
  }

  /** `replace` adds no character that neither the string nor the replacement has. */
  lemma ReplaceKeepsAbsent(s: string, pattern: string, with: string, c: char)
    requires pattern != []
    requires c !in s && c !in with
    ensures c !in Replace(s, pattern, with)
  {
    SplitFree(s, pattern, c);
    JoinFree(with, Split(s, pattern), c);
  }

  /** A run of `n` spaces. */
  function Spaces(n: nat): (r: string)
    ensures |r| == n && forall i :: 0 <= i < n ==> r[i] == ' '
  {
    seq(n, _ => ' ')
  }

  /** A string that lacks the first character of `sub` does not contain `sub`. */
  lemma {:induction false} HeadAbsentNotContains(s: string, sub: string)
    requires sub != [] && sub[0] !in s
    ensures !Contains(s, sub)
    decreases |s|
  {
    if s != [] {
      assert s[0] != sub[0];
      assert sub[0] !in s[1..] by { assert s == [s[0]] + s[1..]; }
      HeadAbsentNotContains(s[1..], sub);
    }
  }

  /** `replace` leaves a string alone when the pattern's first character does not occur in it. */
  lemma ReplaceAbsent(s: string, pattern: string, with: string)
    requires pattern != [] && pattern[0] !in s
    ensures Replace(s, pattern, with) == s
  {
    HeadAbsentNotContains(s, pattern);
    SplitNone(s, pattern);
  }

  /**
   * One pass of `replace("  ", " ")` shrinks a run of n spaces that ends at a non-space
   * character to ceil(n/2) spaces.
   */
  lemma {:induction false} HalveRun(n: nat, c: char)
    requires c != ' '
    ensures Replace(Spaces(n) + [c], "  ", " ") == Spaces((n + 1) / 2) + [c]
    decreases n
  {
    if n >= 2 {
      HalveRun(n - 2, c);
      ReplaceLeadingPair(Spaces(n - 2) + [c]);
      assert Spaces(n) + [c] == "  " + (Spaces(n - 2) + [c]);
      assert Spaces((n + 1) / 2) + [c] == " " + (Spaces((n - 1) / 2) + [c]);
    } else if n == 1 {
      HalveOneSpace(c);
    } else {
      assert Spaces(n) + [c] == [c];
      assert Split([c], "  ") == [[c]];
    }
  }

  /** A leading double space becomes one space, and the rest is processed on its own. */
  lemma ReplaceLeadingPair(t: string)
    ensures Replace("  " + t, "  ", " ") == " " + Replace(t, "  ", " ")
  {
    var s := "  " + t;
    assert s[..2] == "  ";
    assert s[2..] == t;
    var rest := Split(t, "  ");
    assert Split(s, "  ") == [[]] + rest;
    JoinConsEmpty(" ", rest);
  }

  /** One space before a non-space character stays. */
  lemma HalveOneSpace(c: char)
    requires c != ' '
    ensures Replace(Spaces(1) + [c], "  ", " ") == Spaces(1) + [c]
  {
    var s := Spaces(1) + [c];
    assert s == [' ', c];
    assert s[..2] == s && s[1] == c;
    assert "  "[1] == ' ';
    assert s[..2] != "  ";
    assert s[1..] == [c];
    assert Split(s[1..], "  ") == [[c]];
    assert [s[0]] + [c] == s;
    assert Split(s, "  ") == [s];
  }

  /** A leading non-space character is untouched by `replace("  ", " ")`. */
  lemma ReplaceAfterChar(d: char, t: string)
    requires d != ' '
    ensures Replace([d] + t, "  ", " ") == [d] + Replace(t, "  ", " ")
  {
    var s := [d] + t;
    if t == [] {
      assert Split(s, "  ") == [s];
      ReplaceEmpty("  ", " ");
    } else {
      assert s[..2] != "  " by { assert s[0] == d; }
      assert s[1..] == t;
      var rest := Split(t, "  ");
      assert Split(s, "  ") == [[d] + rest[0]] + rest[1..];
      var parts := [[d] + rest[0]] + rest[1..];
      if |rest| > 1 {
        assert parts[1..] == rest[1..];
        assert Join(" ", rest) == rest[0] + " " + Join(" ", rest[1..]);
      }
    }
  }

  // ---------------------------------------------------------------------------
  // strip() and split() without arguments

  /** `s.lstrip()` */
  function TrimLeft(s: string): (r: string)
    ensures |r| <= |s| && r == s[|s| - |r|..]
    ensures forall i :: 0 <= i < |s| - |r| ==> IsSpace(s[i])
    ensures r != [] ==> !IsSpace(r[0])
    decreases |s|
  {
    if s != [] && IsSpace(s[0]) then TrimLeft(s[1..]) else s
  }

  /** `s.rstrip()` */
  function TrimRight(s: string): (r: string)
    ensures |r| <= |s| && r == s[..|r|]
    ensures forall i :: |r| <= i < |s| ==> IsSpace(s[i])
    ensures r != [] ==> !IsSpace(r[|r| - 1])
    decreases |s|
  {
    if s != [] && IsSpace(s[|s| - 1]) then TrimRight(s[..|s| - 1]) else s
  }

  /** `s.strip()` */
  function Strip(s: string): (r: string)
  {
    TrimRight(TrimLeft(s))
  }

  /** How many whitespace characters `s.lstrip()` removes. */
  function LeadingSpaces(s: string): nat {
    |s| - |TrimLeft(s)|
  }

  /**
   * `s.strip()` is empty exactly for an all-whitespace string; otherwise it starts and ends
   * with a non-whitespace character and is a contiguous part of `s` with only whitespace
   * cut away on either side.
   */
  lemma StripSpec(s: string)
    ensures var r := Strip(s);
      && (r == [] <==> forall i :: 0 <= i < |s| ==> IsSpace(s[i]))
      && var k := LeadingSpaces(s);
      && (r != [] ==> !IsSpace(r[0]) && !IsSpace(r[|r| - 1]))
      && k + |r| <= |s| && r == s[k..k + |r|]
      && (forall i :: 0 <= i < k ==> IsSpace(s[i]))
      && (forall i :: k + |r| <= i < |s| ==> IsSpace(s[i]))
  {
    StripSlice(s);
    var r := Strip(s);
    if r == [] {
      StripEmptyAllSpace(s);
    }
  }

  /** `s.strip()` is `s` less its leading and trailing whitespace. */
  lemma StripSlice(s: string)
    ensures var r := Strip(s);
      var k := LeadingSpaces(s);
      && k + |r| <= |s| && r == s[k..k + |r|]
      && (forall i :: k + |r| <= i < |s| ==> IsSpace(s[i]))
  {
    StripSliceChars(s);
    var l := TrimLeft(s);
    var r := TrimRight(l);
    var k := |s| - |l|;
    forall i | k + |r| <= i < |s| ensures IsSpace(s[i]) {
      assert s[i] == l[i - k];
    }
  }

  lemma StripSliceChars(s: string)
    ensures var r := Strip(s);
      var k := LeadingSpaces(s);
      k + |r| <= |s| && r == s[k..k + |r|]
  {
    var l := TrimLeft(s);
    var r := TrimRight(l);
    var k := |s| - |l|;
    DropTake(s, k, |r|);
  }

  lemma DropTake(s: string, k: nat, n: nat)
    requires k + n <= |s|
    ensures s[k..][..n] == s[k..k + n]
  {
  }

  lemma StripEmptyAllSpace(s: string)
    requires Strip(s) == []
    ensures forall i :: 0 <= i < |s| ==> IsSpace(s[i])
  {
    assert |TrimLeft(s)| == 0;
  }

  /** `s.strip()` keeps no character that `s` lacks. */
  lemma StripKeepsAbsent(s: string, c: char)
    requires c !in s
    ensures c !in Strip(s)
  {
    StripSlice(s);
    var r := Strip(s);
    var k := LeadingSpaces(s);
    forall j | 0 <= j < |r| ensures r[j] != c {
      assert r[j] == s[k + j];
    }
  }

  predicate NoSpace(w: string) {
    forall j :: 0 <= j < |w| ==> !IsSpace(w[j])
  }

  /** The longest prefix of `s` without whitespace. */
  function LeadingWord(s: string): (w: string)
    ensures |w| <= |s| && w == s[..|w|] && NoSpace(w)
    ensures |w| < |s| ==> IsSpace(s[|w|])
    decreases |s|
  {
    if s == [] || IsSpace(s[0]) then [] else [s[0]] + LeadingWord(s[1..])
  }

  /** `s.split()`: the maximal runs of non-whitespace, in order. */
  function Words(s: string): (ws: seq<string>)
    ensures forall i :: 0 <= i < |ws| ==> ws[i] != [] && NoSpace(ws[i])
    ensures ws == [] <==> forall i :: 0 <= i < |s| ==> IsSpace(s[i])
    decreases |s|
  {
    if s == [] then []
    else if IsSpace(s[0]) then
      var ws := Words(s[1..]);
      assert ws == [] ==> forall i :: 0 <= i < |s| ==> IsSpace(s[i]) by {
        if ws == [] {
          forall i | 0 <= i < |s| ensures IsSpace(s[i]) {
            if i > 0 { assert s[i] == s[1..][i - 1]; }
          }
        }
      }
      ws
    else
      var w := LeadingWord(s);
      [w] + Words(s[|w|..])
  }

  /** `' '.join(s.split())` */
  function Collapse(s: string): string {
    Join(" ", Words(s))
  }

  /**
   * A string whose only whitespace is single `' '` characters, each between two
   * non-whitespace characters: no leading, trailing or doubled blanks.
   */
  predicate Normalized(r: string) {
    forall i :: 0 <= i < |r| && IsSpace(r[i]) ==>
      r[i] == ' ' && 0 < i < |r| - 1 && !IsSpace(r[i + 1])
  }

  lemma {:induction false} JoinWordsNormalized(ws: seq<string>)
    requires forall i :: 0 <= i < |ws| ==> ws[i] != [] && NoSpace(ws[i])
    ensures var r := Join(" ", ws);
      Normalized(r) && (ws != [] ==> r != [] && !IsSpace(r[0]))
    decreases |ws|
  {
    if |ws| > 1 {
      JoinWordsNormalized(ws[1..]);
      var w := ws[0];
      var j := Join(" ", ws[1..]);
      var r := w + " " + j;
      assert r == Join(" ", ws);
      forall i | 0 <= i < |r|
        ensures IsSpace(r[i]) ==> r[i] == ' ' && 0 < i < |r| - 1 && !IsSpace(r[i + 1])
      {
        if i < |w| {
          assert r[i] == w[i];
        } else if i == |w| {
          assert r[i + 1] == j[0];
        } else {
          assert r[i] == j[i - |w| - 1];
          if i + 1 < |r| {
            assert r[i + 1] == j[i - |w|];
          }
        }
      }
    }
  }

  /**
   * `' '.join(s.split())` is empty exactly when `s` is all whitespace, and otherwise
   * leaves single spaces between words and no other whitespace.
   */
  lemma CollapseSpec(s: string)
    ensures Collapse(s) == [] <==> forall i :: 0 <= i < |s| ==> IsSpace(s[i])
    ensures Normalized(Collapse(s))
    ensures NonSpaceChars(Collapse(s)) == NonSpaceChars(s)
  {
    JoinWordsNormalized(Words(s));
    WordsChars(s);
    JoinSpaceChars(Words(s));
  }

  /** The non-whitespace characters of `s`, in order. */
  function NonSpaceChars(s: string): (r: string)
    ensures |r| <= |s| && NoSpace(r)
    decreases |s|
  {
    if s == [] then []
    else
      var rest := NonSpaceChars(s[1..]);
      if IsSpace(s[0]) then rest
      else
        assert forall j :: 1 <= j < |rest| + 1 ==> ([s[0]] + rest)[j] == rest[j - 1];
        [s[0]] + rest
  }

  lemma {:induction false} NonSpaceCharsConcat(a: string, b: string)
    ensures NonSpaceChars(a + b) == NonSpaceChars(a) + NonSpaceChars(b)
    decreases |a|
  {
    if a == [] {
      assert a + b == b;
    } else {
      assert (a + b)[1..] == a[1..] + b;
      NonSpaceCharsConcat(a[1..], b);
    }
  }

  lemma {:induction false} NonSpaceCharsOfWord(w: string)
    requires NoSpace(w)
    ensures NonSpaceChars(w) == w
    decreases |w|
  {
    if w != [] {
      NonSpaceCharsOfWord(w[1..]);
    }
  }

  /** Gluing parts with nothing between them. */
  lemma JoinNothingCons(x: string, ws: seq<string>)
    ensures Join("", [x] + ws) == x + Join("", ws)
  {
    if ws != [] {
      assert ([x] + ws)[1..] == ws;
    }
  }

  /** Put back together, the words of `s` are exactly its non-whitespace characters, in order. */
  lemma {:induction false} WordsChars(s: string)
    ensures Join("", Words(s)) == NonSpaceChars(s)
    decreases |s|
  {
    if s != [] {
      if IsSpace(s[0]) {
        WordsChars(s[1..]);
      } else {
        var w := LeadingWord(s);
        var t := s[|w|..];
        WordsChars(t);
        assert s == w + t;
        NonSpaceCharsConcat(w, t);
        NonSpaceCharsOfWord(w);
        JoinNothingCons(w, Words(t));
      }
    }
  }

  /** Joining space-free words with single spaces keeps exactly their characters besides the spaces. */
  lemma {:induction false} JoinSpaceChars(ws: seq<string>)
    requires forall i :: 0 <= i < |ws| ==> NoSpace(ws[i])
    ensures NonSpaceChars(Join(" ", ws)) == Join("", ws)
    decreases |ws|
  {
    if |ws| == 1 {
      NonSpaceCharsOfWord(ws[0]);
    } else if |ws| > 1 {
      var j := Join(" ", ws[1..]);
      JoinSpaceChars(ws[1..]);
      NonSpaceCharsConcat(ws[0] + " ", j);
      NonSpaceCharsConcat(ws[0], " ");
      NonSpaceCharsOfWord(ws[0]);
      assert NonSpaceChars(" ") == [];
      JoinNothingCons(ws[0], ws[1..]);
      assert ws == [ws[0]] + ws[1..];
    }
  }

  /** A string that is already normalized is left as it is: the words of `s` are its own. */
  lemma {:induction false} CollapseNormalized(s: string)
    requires Normalized(s)
    ensures Collapse(s) == s
    decreases |s|
  {
    if s != [] {
      var w := LeadingWord(s);
      assert Words(s) == [w] + Words(s[|w|..]);
      if |w| < |s| {
        var rest := s[|w| + 1..];
        assert s[|w|..][1..] == rest;
        assert Words(s[|w|..]) == Words(rest);
        forall i | 0 <= i < |rest| && IsSpace(rest[i])
          ensures rest[i] == ' ' && 0 < i < |rest| - 1 && !IsSpace(rest[i + 1])
        {
          assert rest[i] == s[|w| + 1 + i];
        }
        CollapseNormalized(rest);
        assert Words(rest) != [];
        assert ([w] + Words(rest))[1..] == Words(rest);
        assert s == w + " " + rest;
      }
    }
  }

  predicate AllSpace(s: string) {
    forall i :: 0 <= i < |s| ==> IsSpace(s[i])
  }

  /** A word stops at the first whitespace character, whatever follows it. */
  lemma {:induction false} LeadingWordAppend(x: string, t: string)
    requires t != [] && IsSpace(t[0])
    ensures LeadingWord(x + t) == LeadingWord(x)
    decreases |x|
  {
    if x == [] {
      assert x + t == t;
    } else if !IsSpace(x[0]) {
      assert (x + t)[1..] == x[1..] + t;
      LeadingWordAppend(x[1..], t);
    }
  }

  lemma {:induction false} LeadingWordWhole(w: string)
    requires NoSpace(w)
    ensures LeadingWord(w) == w
    decreases |w|
  {
    if w != [] {
      LeadingWordWhole(w[1..]);
    }
  }

  /** A non-empty string without whitespace is one word. */
  lemma OneWord(w: string)
    requires w != [] && NoSpace(w)
    ensures Words(w) == [w]
  {
    LeadingWordWhole(w);
    assert w[|w|..] == [];
  }

  /** Leading whitespace adds no word. */
  lemma {:induction false} WordsAfterSpaces(sp: string, y: string)
    requires AllSpace(sp)
    ensures Words(sp + y) == Words(y)
    decreases |sp|
  {
    if sp == [] {
      assert sp + y == y;
    } else {
      assert (sp + y)[1..] == sp[1..] + y;
      WordsAfterSpaces(sp[1..], y);
    }
  }

  /**
   * A run of whitespace is a word boundary: the words of `x + sp + y` are the words of
   * `x` followed by the words of `y`, however long the run is.
   */
  lemma {:induction false} WordsSeparated(x: string, sp: string, y: string)
    requires sp != [] && AllSpace(sp)
    ensures Words(x + sp + y) == Words(x) + Words(y)
    decreases |x|
  {
    if x == [] {
      assert x + sp + y == sp + y;
      WordsAfterSpaces(sp, y);
    } else if IsSpace(x[0]) {
      WordsSeparated(x[1..], sp, y);
      SeparatedSpaceStep(x, sp, y);
    } else {
      var w := LeadingWord(x);
      assert |w| > 0 by { assert w == [x[0]] + LeadingWord(x[1..]); }
      WordsSeparated(x[|w|..], sp, y);
      ConcatAssoc(x[|w|..], sp, y);
      SeparatedWordStep(x, sp + y, Words(y));
      ConcatAssoc(x, sp, y);
    }
  }

  /** The step of WordsSeparated past a leading whitespace character of `x`. */
  lemma SeparatedSpaceStep(x: string, sp: string, y: string)
    requires x != [] && IsSpace(x[0])
    requires Words(x[1..] + sp + y) == Words(x[1..]) + Words(y)
    ensures Words(x + sp + y) == Words(x) + Words(y)
  {
    var s := x + sp + y;
    assert s[0] == x[0];
    DropConcat(x, sp + y, 1);
    ConcatAssoc(x, sp, y);
    ConcatAssoc(x[1..], sp, y);
    WordsSpaceHead(s);
    WordsSpaceHead(x);
  }

  /** The step of WordsSeparated past the leading word of `x`; `t` is the run and what follows it. */
  lemma SeparatedWordStep(x: string, t: string, rest: seq<string>)
    requires x != [] && !IsSpace(x[0]) && t != [] && IsSpace(t[0])
    requires Words(x[|LeadingWord(x)|..] + t) == Words(x[|LeadingWord(x)|..]) + rest
    ensures Words(x + t) == Words(x) + rest
  {
    WordThenRun(x, t, rest);
    WordsWordHead(x);
    ConcatAssoc([LeadingWord(x)], Words(x[|LeadingWord(x)|..]), rest);
  }

  /** The words of `x + t` where `t` begins with whitespace: the leading word of `x`, then the rest. */
  lemma WordThenRun(x: string, t: string, rest: seq<string>)
    requires x != [] && !IsSpace(x[0]) && t != [] && IsSpace(t[0])
    requires Words(x[|LeadingWord(x)|..] + t) == Words(x[|LeadingWord(x)|..]) + rest
    ensures Words(x + t) == [LeadingWord(x)] + (Words(x[|LeadingWord(x)|..]) + rest)
  {
    LeadingWordAppend(x, t);
    WordsWordHead(x + t);
    DropConcat(x, t, |LeadingWord(x)|);
  }

  lemma WordsSpaceHead(s: string)
    requires s != [] && IsSpace(s[0])
    ensures Words(s) == Words(s[1..])
  {
  }

  lemma WordsWordHead(s: string)
    requires s != [] && !IsSpace(s[0])
    ensures Words(s) == [LeadingWord(s)] + Words(s[|LeadingWord(s)|..])
  {
  }

  lemma {:induction false} JoinAppend(sep: string, a: seq<string>, b: seq<string>)
    requires a != [] && b != []
    ensures Join(sep, a + b) == Join(sep, a) + sep + Join(sep, b)
    decreases |a|
  {
    if |a| == 1 {
      assert (a + b)[1..] == b;
    } else {
      assert (a + b)[1..] == a[1..] + b;
      JoinAppend(sep, a[1..], b);
    }
  }

  /**
   * Between two parts that are not blank, a whitespace run of any length becomes exactly
   * one space.
   */
  lemma CollapseSeparated(x: string, sp: string, y: string)
    requires sp != [] && AllSpace(sp) && !AllSpace(x) && !AllSpace(y)
    ensures Collapse(x + sp + y) == Collapse(x) + " " + Collapse(y)
  {
    WordsSeparated(x, sp, y);
    JoinAppend(" ", Words(x), Words(y));
  }

  /** A normalized string holds no whitespace character other than `' '`. */
  lemma NormalizedFree(r: string, c: char)
    requires Normalized(r) && IsSpace(c) && c != ' '
    ensures c !in r
  {
  }

  // ---------------------------------------------------------------------------
  // Decimal rendering of a non-negative int (`f"{n}"`)

  function DigitChar(d: nat): (c: char)
    requires d < 10
    ensures '0' <= c <= '9'
  {
    (('0' as int) + d) as char
  }

  /** `str(n)` for `n >= 0` */
  function NatToString(n: nat): (s: string)
    ensures |s| >= 1 && forall i :: 0 <= i < |s| ==> '0' <= s[i] <= '9'
  {
    if n < 10 then [DigitChar(n)] else NatToString(n / 10) + [DigitChar(n % 10)]
  }

  /** `int(s)` for a string of decimal digits. */
  function ParseDecimal(s: string): nat
    requires forall i :: 0 <= i < |s| ==> '0' <= s[i] <= '9'
  {
    if s == [] then 0
    else ParseDecimal(s[..|s| - 1]) * 10 + (s[|s| - 1] as int - '0' as int)
  }

  /** A decimal rendering reads back as the number: distinct numbers get distinct labels. */
  lemma {:induction false} ParseNatToString(n: nat)
    ensures ParseDecimal(NatToString(n)) == n
  {
    if n >= 10 {
      ParseNatToString(n / 10);
      var s := NatToString(n);
      assert s[..|s| - 1] == NatToString(n / 10);
    }
  }

  lemma NatToStringInjective(m: nat, n: nat)
    requires NatToString(m) == NatToString(n)
    ensures m == n
  {
    ParseNatToString(m);
    ParseNatToString(n);
  }
}

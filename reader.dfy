/**
 * The tool entry point `run`: resolve the credentials (parameter first, environment
 * second), read the page id from the URL, check the credentials against the current-user
 * endpoint, fetch the page and process it, and report either a success envelope or an
 * error envelope with a message. The network and the URL and Base64 libraries are the
 * fields of `Remote`; the environment is passed in.
 */
module Reader {
  import opened Wrappers
  import opened Text
  import opened PageId
  import opened Content

  /** The tool parameters; `url` is required but may be missing, like any dictionary key. */
  datatype Params = Params(url: Option<string>, email: Option<string>, apiToken: Option<string>, debug: bool)

  /** `CONFLUENCE_EMAIL` and `CONFLUENCE_API_TOKEN` from the process environment. */
  datatype Environment = Environment(email: Option<string>, apiToken: Option<string>)

  /** The two parts of `urlparse(url)` that the base URL is built from. */
  datatype UrlParts = UrlParts(scheme: string, netloc: string)

  /**
   * The body of the current-user reply as `response.json()` sees it: not JSON at all (the
   * decode error, a `RequestException`), a JSON object, or some other JSON value.
   */
  datatype JsonBody = NotJson | JsonObject | JsonArray | JsonString | JsonInt | JsonFloat | JsonBool | JsonNull

  /** The outcome of the current-user request: a status code and its body, or a transport failure. */
  datatype Response = HttpStatus(code: int, body: JsonBody) | TransportError(detail: string)

  /** The dictionary `run` returns. */
  datatype Envelope =
    | Success(title: string, pageType: string, statusField: string, content: string, pageId: string, url: string)
    | Error(message: string)

  /**
   * `urlParse` is `urlparse`; `encodeBasic` is Base64 of the UTF-8 bytes of its argument;
   * `authProbe(url, header)` is the GET of the current-user endpoint, with the kind of its
   * body (only looked at on a 200); `fetch(url, header)`
   * is the GET of the content endpoint with its status check and JSON decoding, `Err`
   * carrying the text of the request exception.
   */
  datatype Remote = Remote(
    urlParse: string -> UrlParts,
    encodeBasic: string -> string,
    authProbe: (string, string) -> Response,
    fetch: (string, string) -> Result<Page>)

  const MissingEmailMessage: string := "CONFLUENCE_EMAIL not provided in params or environment variables"
  const MissingTokenMessage: string := "CONFLUENCE_API_TOKEN not provided in params or environment variables"
  const AuthFailedMessage: string := "Authentication failed. Please check your credentials."
  const FetchErrorPrefix: string := "Error fetching content: "
  /** `str(KeyError('url'))` */
  const MissingUrlMessage: string := "'url'"

  /** `params.get(key) or os.getenv(name)` */
  function ResolveCredential(param: Option<string>, env: Option<string>): (r: Option<string>)
    ensures Present(r) <==> Present(param) || Present(env)
    ensures Present(param) ==> r == param
    ensures !Present(param) ==> r == env
  {
    if Present(param) then param else env
  }

  /** `f"{parsed_url.scheme}://{parsed_url.netloc}"` */
  function BaseUrl(parts: UrlParts): string {
    parts.scheme + "://" + parts.netloc
  }

  /** `f"Basic {b64encode(f'{email}:{token}')}"` */
  function BasicHeader(encodeBasic: string -> string, email: string, token: string): string {
    "Basic " + encodeBasic(email + ":" + token)
  }

  function AuthUrl(baseUrl: string): string {
    baseUrl + "/wiki/rest/api/user/current"
  }

  function ContentUrl(baseUrl: string, pageId: string): string {
    baseUrl + "/wiki/rest/api/content/" + pageId + "?expand=body.storage"
  }

  /** Python's name for the type of a decoded JSON value. */
  function JsonTypeName(body: JsonBody): string
    requires body != NotJson
  {
    match body
    case JsonObject => "dict"
    case JsonArray => "list"
    case JsonString => "str"
    case JsonInt => "int"
    case JsonFloat => "float"
    case JsonBool => "bool"
    case JsonNull => "NoneType"
  }

  /** `str(e)` of the `AttributeError` raised by `user_data.get(...)` on a value that is not a dict. */
  function NoGetMessage(body: JsonBody): string
    requires body != NotJson
  {
    "'" + JsonTypeName(body) + "' object has no attribute 'get'"
  }

  /**
   * `test_auth`: `Ok(true)` only for a 200 whose body is a JSON object; `Ok(false)` for any
   * other status, a transport error or a 200 whose body is not JSON; and a 200 with another
   * JSON value makes `user_data.get` raise, which `run` reports with the exception's text.
   */
  function TestAuth(response: Response): (r: Result<bool>)
    ensures r == Ok(true) <==> response == HttpStatus(200, JsonObject)
    ensures r == Ok(false) <==>
      response.TransportError? || response.code != 200 || response.body == NotJson
    ensures r.Err? ==> response.HttpStatus? && r.error == NoGetMessage(response.body)
  {
    match response
    case TransportError(_) => Ok(false)
    case HttpStatus(code, body) =>
      if code != 200 then Ok(false)
      else if body == NotJson then Ok(false)
      else if body == JsonObject then Ok(true)
      else Err(NoGetMessage(body))
  }

  /** `run(params)`: the envelope it returns, its exceptions caught as error envelopes. */
  function Run(params: Params, env: Environment, remote: Remote, svc: Services): Envelope {
    var email := ResolveCredential(params.email, env.email);
    var token := ResolveCredential(params.apiToken, env.apiToken);
    if !Present(email) then Error(MissingEmailMessage)
    else if !Present(token) then Error(MissingTokenMessage)
    else if params.url.None? then Error(MissingUrlMessage)
    else
      var url := params.url.value;
      var baseUrl := BaseUrl(remote.urlParse(url));
      match ExtractPageId(url)
      case Err(e) => Error(e)
      case Ok(pageId) =>
        var header := BasicHeader(remote.encodeBasic, email.value, token.value);
        match TestAuth(remote.authProbe(AuthUrl(baseUrl), header))
        case Err(e) => Error(e)
        case Ok(passed) =>
          if !passed then Error(AuthFailedMessage)
          else
            match remote.fetch(ContentUrl(baseUrl, pageId), header)
            case Err(e) => Error(FetchErrorPrefix + e)
            case Ok(page) =>
              Success(page.title, page.pageType, page.status,
                ProcessedContent(page, baseUrl, header, svc, params.debug), page.id, url)
  }

  /**
   * The checks come in a fixed order, each with its own message: the email, then the token
   * (each from the parameter, or from the environment when the parameter is missing or
   * empty), then the URL, then the page id, then the credential check (the text of the
   * `AttributeError`, or the authentication message), then the fetch (its exception text
   * after the fetch-error prefix).
   */
  lemma RunErrorOrder(params: Params, env: Environment, remote: Remote, svc: Services)
    ensures var r := Run(params, env, remote, svc);
      var emailOk := Present(params.email) || Present(env.email);
      var tokenOk := Present(params.apiToken) || Present(env.apiToken);
      && (!emailOk ==> r == Error(MissingEmailMessage))
      && (emailOk && !tokenOk ==> r == Error(MissingTokenMessage))
      && (emailOk && tokenOk && params.url.None? ==> r == Error(MissingUrlMessage))
      && (emailOk && tokenOk && params.url.Some? && ExtractPageId(params.url.value).Err? ==>
            r == Error(NoPageIdMessage))
    ensures var r := Run(params, env, remote, svc);
      var email := ResolveCredential(params.email, env.email);
      var token := ResolveCredential(params.apiToken, env.apiToken);
      Present(email) && Present(token) && params.url.Some? && ExtractPageId(params.url.value).Ok? ==>
        var baseUrl := BaseUrl(remote.urlParse(params.url.value));
        var header := BasicHeader(remote.encodeBasic, email.value, token.value);
        var auth := TestAuth(remote.authProbe(AuthUrl(baseUrl), header));
        var fetched := remote.fetch(ContentUrl(baseUrl, ExtractPageId(params.url.value).value), header);
        && (auth.Err? ==> r == Error(auth.error))
        && (auth == Ok(false) ==> r == Error(AuthFailedMessage))
        && (auth == Ok(true) && fetched.Err? ==> r == Error(FetchErrorPrefix + fetched.error))
  {
  }

  /**
   * A success envelope is returned exactly when both credentials are present, the URL
   * yields a page id, the current-user request answers 200 with a JSON object and the
   * fetch of that page succeeds; it copies the fetched page's fields (its id, not the one read from the URL)
   * and the URL, and its content is the processed page, with requests authorised by the
   * Basic header of the resolved credentials.
   */
  lemma RunSuccess(params: Params, env: Environment, remote: Remote, svc: Services)
    ensures var r := Run(params, env, remote, svc);
      var email := ResolveCredential(params.email, env.email);
      var token := ResolveCredential(params.apiToken, env.apiToken);
      r.Success? <==>
        && Present(email) && Present(token) && params.url.Some?
        && ExtractPageId(params.url.value).Ok?
        && var baseUrl := BaseUrl(remote.urlParse(params.url.value));
           var header := BasicHeader(remote.encodeBasic, email.value, token.value);
           && remote.authProbe(AuthUrl(baseUrl), header) == HttpStatus(200, JsonObject)
           && remote.fetch(ContentUrl(baseUrl, ExtractPageId(params.url.value).value), header).Ok?
    ensures var r := Run(params, env, remote, svc);
      r.Success? ==>
        var email := ResolveCredential(params.email, env.email).value;
        var token := ResolveCredential(params.apiToken, env.apiToken).value;
        var url := params.url.value;
        var baseUrl := BaseUrl(remote.urlParse(url));
        var header := BasicHeader(remote.encodeBasic, email, token);
        var page := remote.fetch(ContentUrl(baseUrl, ExtractPageId(url).value), header).value;
        r == Success(page.title, page.pageType, page.status,
          ProcessedContent(page, baseUrl, header, svc, params.debug), page.id, url)
  {
  }

  /**
   * When the credential check does not pass, the page is never fetched: the result is the
   * authentication error, or the text of the `AttributeError`, whatever the fetch does.
   */
  lemma AuthFailureSkipsFetch(params: Params, env: Environment, remote: Remote, svc: Services,
                              otherFetch: (string, string) -> Result<Page>, otherSvc: Services)
    requires var email := ResolveCredential(params.email, env.email);
      var token := ResolveCredential(params.apiToken, env.apiToken);
      && Present(email) && Present(token) && params.url.Some?
      && ExtractPageId(params.url.value).Ok?
      && TestAuth(remote.authProbe(AuthUrl(BaseUrl(remote.urlParse(params.url.value))),
                                   BasicHeader(remote.encodeBasic, email.value, token.value))) != Ok(true)
    ensures var email := ResolveCredential(params.email, env.email);
      var token := ResolveCredential(params.apiToken, env.apiToken);
      var response := remote.authProbe(AuthUrl(BaseUrl(remote.urlParse(params.url.value))),
                                       BasicHeader(remote.encodeBasic, email.value, token.value));
      Run(params, env, remote, svc) ==
        (if TestAuth(response).Err? then Error(NoGetMessage(response.body)) else Error(AuthFailedMessage))
    ensures Run(params, env, remote.(fetch := otherFetch), otherSvc) == Run(params, env, remote, svc)
  {
  }

  /**
   * Missing credentials, a missing URL and a URL without a page id are reported before any
   * request: the network and the page processing have no influence on the result.
   */
  lemma ChecksBeforeRequests(params: Params, env: Environment, remote: Remote, svc: Services,
                             otherRemote: Remote, otherSvc: Services)
    requires || !Present(ResolveCredential(params.email, env.email))
             || !Present(ResolveCredential(params.apiToken, env.apiToken))
             || params.url.None?
             || ExtractPageId(params.url.value).Err?
    ensures Run(params, env, remote, svc).Error?
    ensures Run(params, env, otherRemote, otherSvc) == Run(params, env, remote, svc)
  {
  }
}

/**
  URL syntax checks (`validateUrl` and `isValidUrl`).  Parsing a URL is left to
  an injected parser standing for `java.net.URL`: `None` is the
  `MalformedURLException` it throws, `Some` carries the protocol and host it
  extracted.
 */
module Urls {
  import opened Wrappers

  datatype Url = Url(protocol: string, host: string)

  /** What `URL(s)` yields for each string. */
  type UrlParser = string -> Option<Url>

  datatype UrlError =
    | EmptyUrl              // "url is null or empty"
    | MalformedUrl          // MalformedURLException from the URL constructor
    | UnsupportedProtocol   // "Invalid URL or unsupported"

  /** The only protocols a notification may be delivered over. */
  const WebProtocols: set<string> := {"http", "https"}

  /** `isValidUrl`: the URL parses and its protocol is http or https. */
  function IsValidUrl(parse: UrlParser, s: string): (r: Result<bool, UrlError>)
    ensures r.Failure? <==> parse(s).None?
    ensures r.Failure? ==> r.error == MalformedUrl
    ensures r == Success(true) <==> parse(s).Some? && parse(s).value.protocol in WebProtocols
  {
    match parse(s)
    case None => Failure(MalformedUrl)
    case Some(url) => Success("https" == url.protocol || "http" == url.protocol)
  }

  /** `validateUrl`: emptiness first, then the parse, then the protocol. */
  function ValidateUrl(parse: UrlParser, s: string): (r: Outcome<UrlError>)
    ensures r == Fail(EmptyUrl) <==> |s| == 0
    ensures r == Fail(MalformedUrl) <==> |s| > 0 && parse(s).None?
    ensures r == Fail(UnsupportedProtocol)
        <==> |s| > 0 && parse(s).Some? && parse(s).value.protocol !in WebProtocols
    ensures r == Pass <==> |s| > 0 && parse(s).Some? && parse(s).value.protocol in WebProtocols
  {
    if |s| == 0 then Fail(EmptyUrl)
    else match IsValidUrl(parse, s)
      case Failure(e) => Fail(e)
      case Success(ok) => if ok then Pass else Fail(UnsupportedProtocol)
  }

  /** Every accepted URL speaks exactly `http` or `https`; nothing else passes. */
  lemma AcceptedProtocols(parse: UrlParser, s: string)
    requires ValidateUrl(parse, s) == Pass
    ensures parse(s).Some?
    ensures parse(s).value.protocol == "http" || parse(s).value.protocol == "https"
  {
  }

  /** The comparison is exact: no case folding, no prefix match. */
  lemma OtherProtocolsRejected(parse: UrlParser, s: string)
    requires |s| > 0 && parse(s).Some?
    requires parse(s).value.protocol in {"ftp", "file", "HTTP", "Https", "http:", "httpss", ""}
    ensures ValidateUrl(parse, s) == Fail(UnsupportedProtocol)
    ensures IsValidUrl(parse, s) == Success(false)
  {
  }
}

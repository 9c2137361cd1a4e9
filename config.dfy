/**
 * The strategy's options, the Tequila base URI built from them, and the
 * shapes of what goes over HTTP: the POST the strategy sends, the response
 * it gets back, and the three failure kinds it reports.
 */
module Config {
  import opened Wrappers
  import opened Strings
  import opened Codec

  /**
   * The `option` declarations of the strategy. The hashes are kept as
   * ordered entry lists, because their order is the order of the encoded
   * request; `requestInfo` maps a logical name (`name`) to the Tequila
   * attribute that carries it (`displayname`).
   */
  datatype Options = Options(
    host: string,
    requireGroup: Option<string>,
    serviceName: string,
    port: Option<nat>,
    path: string,
    ssl: bool,
    uidField: string,
    requestInfo: seq<Pair>,
    switchaai: bool,
    additionalParameters: seq<Pair>,
    additionalRequestauthParameters: seq<Pair>,
    additionalFetchattributesParameters: seq<Pair>)

  /** The declared defaults. */
  function Defaults(): Options {
    Options(
      host := "tequila.epfl.ch",
      requireGroup := None,
      serviceName := "Omniauth",
      port := None,
      path := "/cgi-bin/tequila",
      ssl := true,
      uidField := "uniqueid",
      requestInfo := [("name", "displayname")],
      switchaai := false,
      additionalParameters := [],
      additionalRequestauthParameters := [],
      additionalFetchattributesParameters := [])
  }

  /** `request_info.values`: the Tequila attribute names, in order. */
  function AttributeNames(requestInfo: seq<Pair>): (names: seq<string>)
    ensures |names| == |requestInfo|
    ensures forall i :: 0 <= i < |requestInfo| ==> names[i] == requestInfo[i].1
  {
    seq(|requestInfo|, i requires 0 <= i < |requestInfo| => requestInfo[i].1)
  }

  /** The options after `tequila_uri` has filled in an unset port. */
  function WithDefaultPort(o: Options): Options {
    if o.port.Some? then o else o.(port := Some(if o.ssl then 443 else 80))
  }

  /** The parts `Addressable::URI.new` is given. */
  datatype Uri = Uri(scheme: string, host: string, port: nat, path: string)

  /**
   * The Tequila base URI: `https` exactly when `ssl` is set; the configured
   * port, or 443 with SSL and 80 without when none is configured.
   */
  function BaseUri(o: Options): (u: Uri)
    ensures u.scheme == (if o.ssl then "https" else "http")
    ensures u.port == (if o.port.Some? then o.port.value else if o.ssl then 443 else 80)
    ensures u.host == o.host && u.path == o.path
  {
    var o' := WithDefaultPort(o);
    Uri(if o'.ssl then "https" else "http", o'.host, o'.port.value, o'.path)
  }

  /** Filling in the default port does not move the base URI, and a second time changes nothing. */
  lemma DefaultPortStable(o: Options)
    ensures WithDefaultPort(o).port.Some?
    ensures BaseUri(WithDefaultPort(o)) == BaseUri(o)
    ensures WithDefaultPort(WithDefaultPort(o)) == WithDefaultPort(o)
    ensures WithDefaultPort(o) == o.(port := WithDefaultPort(o).port)
  {
  }

  /** `URI#to_s`: `scheme://host:port` followed by the path. */
  function UriString(u: Uri): string {
    u.scheme + "://" + u.host + ":" + NatToString(u.port) + u.path
  }

  /** What a POST to Tequila consists of: where it goes, over SSL or not, and its body. */
  datatype Post = Post(host: string, port: nat, useSsl: bool, path: string, body: string)

  /** `tequila_post`: the request to `path` under the base URI. */
  function PostTo(o: Options, path: string, body: string): (p: Post)
    ensures p.host == o.host && p.port == BaseUri(o).port && p.useSsl == o.ssl
    ensures p.path == o.path + path && p.body == body
  {
    var u := BaseUri(o);
    Post(u.host, u.port, o.ssl, u.path + path, body)
  }

  /** An HTTP response: `Net::HTTPResponse#code` is a string such as `"200"`. */
  datatype Response = Response(code: string, body: string)

  /** A response was received and its status is 200. */
  predicate IsOk(response: Option<Response>) {
    response.Some? && response.value.code == "200"
  }

  /**
   * The failure kinds passed to `fail!`. `InvalidInfo` carries the missing
   * attribute names that the strategy writes to its log.
   */
  datatype Failure = InvalidResponse | InvalidKey | InvalidInfo(missing: seq<string>)
}

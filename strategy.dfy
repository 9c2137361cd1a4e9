/**
 * The strategy object: its options (into which building the base URI
 * writes the default port), the memoised base URI and `raw_info`, with the
 * request and callback phases as methods that reach Tequila through a
 * server function.
 */
module Strategy {
  import opened Wrappers
  import opened Strings
  import opened Codec
  import opened Config
  import opened RequestKey
  import opened Attributes

  /** Tequila as the strategy sees it: the answer to a POST, `None` when there is none. */
  type Server = Post -> Option<Response>

  class TequilaStrategy {
    var options: Options
    var tequilaUri: Option<Uri>
    /** `raw_info`: nil until the callback phase decodes an answer. */
    var rawInfo: Option<map<string, string>>

    /** Once memoised, the base URI is the one the options give, and the port is filled in. */
    ghost predicate Valid()
      reads this
    {
      tequilaUri.Some? ==> options.port.Some? && tequilaUri.value == BaseUri(options)
    }

    /** The state once the base URI has been built from the options `o0`. */
    ghost predicate UriBuilt(o0: Options)
      reads this
    {
      options == WithDefaultPort(o0) && tequilaUri == Some(BaseUri(o0))
    }

    constructor (options: Options)
      ensures Valid()
      ensures this.options == options && tequilaUri == None && rawInfo == None
    {
      this.options := options;
      tequilaUri := None;
      rawInfo := None;
    }

    /** `tequila_uri`: built on first use, which fills in the default port. */
    method TequilaUri() returns (u: Uri)
      requires Valid()
      modifies this
      ensures Valid() && UriBuilt(old(options)) && rawInfo == old(rawInfo)
      ensures u == BaseUri(old(options))
    {
      if tequilaUri.None? {
        if options.port.None? {
          options := options.(port := Some(if options.ssl then 443 else 80));
        }
        tequilaUri := Some(Uri(if options.ssl then "https" else "http", options.host, options.port.value, options.path));
      }
      u := tequilaUri.value;
    }

    /** `tequila_post`: the answer to `body` posted to `path` under the base URI. */
    method TequilaPost(server: Server, path: string, body: string) returns (response: Option<Response>)
      requires Valid()
      modifies this
      ensures Valid() && UriBuilt(old(options)) && rawInfo == old(rawInfo)
      ensures response == server(PostTo(old(options), path, body))
    {
      var u := TequilaUri();
      response := server(Post(u.host, u.port, options.ssl, u.path + path, body));
    }

    /** `get_request_key`: the answer to the `/createrequest` POST. */
    method GetRequestKey(server: Server, callbackUrl: string) returns (response: Option<Response>)
      requires Valid()
      modifies this
      ensures Valid() && UriBuilt(old(options)) && rawInfo == old(rawInfo)
      ensures response == server(CreateRequest(old(options), callbackUrl))
    {
      var body := EncodeRequestBody(RequestBodyFields(options, callbackUrl));
      response := TequilaPost(server, "/createrequest", body);
    }

    /** `request_phase`: a redirect to the login page, or the failure that stops it. */
    method RequestPhase(server: Server, callbackUrl: string) returns (outcome: RequestOutcome)
      requires Valid()
      modifies this
      ensures Valid() && UriBuilt(old(options)) && rawInfo == old(rawInfo)
      ensures outcome == RequestPhaseResult(old(options), server(CreateRequest(old(options), callbackUrl)))
    {
      var response := GetRequestKey(server, callbackUrl);
      if response.None? || response.value.code != "200" {
        return RequestFailed(InvalidResponse);
      }
      var key := ExtractKey(response.value.body);
      if key.None? || key.value == "" {
        return RequestFailed(InvalidKey);
      }
      var u := TequilaUri();
      outcome := Redirected(Redirect(302,
        [("Location", UriString(u) + "/requestauth?requestkey=" + key.value), ("Content-Type", "text/plain")],
        [RedirectNotice]));
    }

    /** `fetch_attributes`: the answer to the `/fetchattributes` POST. */
    method FetchAttributes(server: Server, key: string) returns (response: Option<Response>)
      requires Valid()
      modifies this
      ensures Valid() && UriBuilt(old(options)) && rawInfo == old(rawInfo)
      ensures response == server(FetchRequest(old(options), key))
    {
      var body := EncodeRequestBody(FetchBodyFields(options, key));
      response := TequilaPost(server, "/fetchattributes", body);
    }

    /**
     * `callback_phase`: fills `raw_info` from the attributes, checks them
     * and normalises the uid in place. A missing uid field fails as invalid
     * info rather than raising.
     */
    method CallbackPhase(server: Server, key: string) returns (outcome: CallbackOutcome)
      requires Valid()
      modifies this
      ensures Valid() && UriBuilt(old(options))
      ensures outcome == CallbackPhaseResult(old(options), server(FetchRequest(old(options), key)))
      ensures rawInfo == RawInfoAfter(old(options), server(FetchRequest(old(options), key)), old(rawInfo))
    {
      ghost var o0 := options;
      var response := FetchAttributes(server, key);
      assert options.requestInfo == o0.requestInfo && options.uidField == o0.uidField;
      if response.None? || response.value.code != "200" {
        return CallbackFailed(InvalidResponse);
      }
      var raw := ParseAttributes(response.value.body);
      rawInfo := Some(raw);
      ghost var decoded := raw;
      var missing := MissingInfo(options.requestInfo, raw);
      if missing != [] {
        return CallbackFailed(InvalidInfo(missing));
      }
      var uidField := options.uidField;
      if uidField !in raw {
        return CallbackFailed(InvalidInfo([uidField]));
      }
      var uid := raw[uidField];
      if EndsWith(uid, EpflSuffix) {
        raw := raw[uidField := uid[..|uid| - |EpflSuffix|]];
        rawInfo := Some(raw);
      }
      assert raw == NormaliseUid(o0.uidField, decoded) && rawInfo == Some(raw);
      assert Resolve(options, raw) == Resolve(o0, raw);
      outcome := Authenticated(Resolve(options, raw));
    }
  }
}

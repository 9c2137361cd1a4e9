/**
 * The request phase: the `/createrequest` body the strategy sends, the
 * request key it picks out of Tequila's answer, and the redirect to the
 * Tequila login page it answers the browser with.
 */
module RequestKey {
  import opened Wrappers
  import opened Strings
  import opened Codec
  import opened Config

  /** `additional_requestauth_parameters`: the obsolete option stands in while the new one is empty. */
  function RequestauthParameters(o: Options): seq<Pair> {
    if o.additionalRequestauthParameters == [] then o.additionalParameters
    else o.additionalRequestauthParameters
  }

  /** `request_fields`: the attribute names of `request_info`, then the uid field. */
  function RequestedAttributes(o: Options): (names: seq<string>)
    ensures |names| == |o.requestInfo| + 1 && names[|names| - 1] == o.uidField
    ensures forall i :: 0 <= i < |o.requestInfo| ==> names[i] == o.requestInfo[i].1
  {
    AttributeNames(o.requestInfo) + [o.uidField]
  }

  /**
   * `body_fields` as `get_request_key` builds it: an array holding the
   * head hash, to which are pushed a one-hash array for a required group (any non-nil group, the
   * empty string included), one for SWITCHaai, and the additional hash.
   */
  function RequestBodyFields(o: Options, callbackUrl: string): Fields {
    var head := Hash([("urlaccess", callbackUrl), ("service", o.serviceName),
                      ("request", Join(RequestedAttributes(o), ','))]);
    var group := if o.requireGroup.Some? then [List([Hash([("require", "group=" + o.requireGroup.value)])])] else [];
    var aai := if o.switchaai then [List([Hash([("allows", "categorie=shibboleth")])])] else [];
    List([head] + group + aai + [Hash(RequestauthParameters(o))])
  }

  /** The entries of the request body in the order they are sent. */
  function RequestEntries(o: Options, callbackUrl: string): seq<Pair> {
    [("urlaccess", callbackUrl), ("service", o.serviceName), ("request", Join(RequestedAttributes(o), ','))]
    + (if o.requireGroup.Some? then [("require", "group=" + o.requireGroup.value)] else [])
    + (if o.switchaai then [("allows", "categorie=shibboleth")] else [])
    + RequestauthParameters(o)
  }

  /**
   * The nesting does not matter on the wire: the body is the entries'
   * lines in order, the obsolete parameters used only while the new ones
   * are empty.
   */
  lemma RequestBodyOrder(o: Options, callbackUrl: string)
    ensures Flatten(RequestBodyFields(o, callbackUrl)) == RequestEntries(o, callbackUrl)
    ensures Encode(RequestBodyFields(o, callbackUrl)) == EncodeHash(RequestEntries(o, callbackUrl))
  {
    var f := RequestBodyFields(o, callbackUrl);
    var head := [("urlaccess", callbackUrl), ("service", o.serviceName),
                 ("request", Join(RequestedAttributes(o), ','))];
    var group := if o.requireGroup.Some? then [List([Hash([("require", "group=" + o.requireGroup.value)])])] else [];
    var aai := if o.switchaai then [List([Hash([("allows", "categorie=shibboleth")])])] else [];
    var rest := [Hash(RequestauthParameters(o))];
    FlattenSingle(("urlaccess", callbackUrl), head);
    if o.requireGroup.Some? {
      FlattenSingle(("require", "group=" + o.requireGroup.value), head);
    }
    if o.switchaai {
      FlattenSingle(("allows", "categorie=shibboleth"), head);
    }
    FlattenSingle(("service", o.serviceName), RequestauthParameters(o));
    FlattenListAppend([Hash(head)] + group + aai, rest);
    FlattenListAppend([Hash(head)] + group, aai);
    FlattenListAppend([Hash(head)], group);
    EncodeFlatten(f);
  }

  /**
   * Tequila can read the requested attributes back: when no name contains
   * a comma, splitting the `request` value on commas gives the attribute
   * names of `request_info` followed by the uid field.
   */
  lemma RequestValueRoundTrip(o: Options)
    requires forall i :: 0 <= i < |o.requestInfo| ==> ',' !in o.requestInfo[i].1
    requires ',' !in o.uidField
    ensures Split(Join(RequestedAttributes(o), ','), ',') == AttributeNames(o.requestInfo) + [o.uidField]
  {
    var names := RequestedAttributes(o);
    assert forall i :: 0 <= i < |names| ==> ',' !in names[i] by {
      forall i | 0 <= i < |names|
        ensures ',' !in names[i]
      {
        if i < |o.requestInfo| {
          assert names[i] == o.requestInfo[i].1;
        }
      }
    }
    SplitJoin(names, ',');
  }

  /** The POST `get_request_key` makes. */
  function CreateRequest(o: Options, callbackUrl: string): (p: Post)
    ensures p.path == o.path + "/createrequest"
    ensures p.body == EncodeHash(RequestEntries(o, callbackUrl))
  {
    RequestBodyOrder(o, callbackUrl);
    PostTo(o, "/createrequest", Encode(RequestBodyFields(o, callbackUrl)))
  }

  /** With the default options the request asks for `displayname` and `uniqueid` over HTTPS on port 443. */
  lemma DefaultRequest(callbackUrl: string)
    ensures RequestedAttributes(Defaults()) == ["displayname", "uniqueid"]
    ensures RequestEntries(Defaults(), callbackUrl) ==
      [("urlaccess", callbackUrl), ("service", "Omniauth"), ("request", "displayname,uniqueid")]
    ensures CreateRequest(Defaults(), callbackUrl).port == 443 && CreateRequest(Defaults(), callbackUrl).useSsl
  {
    var names := RequestedAttributes(Defaults());
    assert names == ["displayname", "uniqueid"];
    assert Join(names, ',') == "displayname,uniqueid";
    var head := [("urlaccess", callbackUrl), ("service", "Omniauth"), ("request", "displayname,uniqueid")];
    AppendEmpty(head);
  }

  const KeyPrefix := "key="

  /** A line as `^…$` sees it: without the newline that ends it. */
  function LineText(line: string): (t: string)
    ensures t == line || t + "\n" == line
  {
    if line != [] && line[|line| - 1] == '\n' then line[..|line| - 1] else line
  }

  /** `^key=` matches at the start of this line (the prefix holds no newline, so the line's own newline does not matter). */
  predicate IsKeyLine(line: string) {
    StartsWith(line, KeyPrefix)
  }

  /** The position of the first line that starts with `key=`, if any. */
  function KeyLineIndex(ls: seq<string>): (r: Option<nat>)
    ensures r.None? <==> forall i :: 0 <= i < |ls| ==> !IsKeyLine(ls[i])
    ensures r.Some? ==> r.value < |ls| && IsKeyLine(ls[r.value])
    ensures r.Some? ==> forall j :: 0 <= j < r.value ==> !IsKeyLine(ls[j])
  {
    if ls == [] then None
    else if IsKeyLine(ls[0]) then Some(0)
    else match KeyLineIndex(ls[1..])
      case None => None
      case Some(i) => Some(i + 1)
  }

  /** The rest of the first line that starts with `key=`, newline excluded. */
  function FirstKey(ls: seq<string>): Option<string> {
    match KeyLineIndex(ls)
    case None => None
    case Some(i) => Some(LineText(ls[i][|KeyPrefix|..]))
  }

  /**
   * `body[/^key=(.*)$/, 1]`: the key on the first line of the body that
   * starts with `key=`, neither stripped nor checked for later `key=` lines.
   */
  function ExtractKey(body: string): Option<string> {
    FirstKey(Lines(body))
  }

  /** A line's text holds no newline when only its last character may be one. */
  lemma LineTextOneLine(line: string)
    requires line == [] || '\n' !in line[..|line| - 1]
    ensures '\n' !in LineText(line)
  {
    if line != [] && line[|line| - 1] != '\n' {
      assert line == line[..|line| - 1] + [line[|line| - 1]];
    }
  }

  /** The key never holds a newline, so the `Location` header stays one line. */
  lemma ExtractKeyOneLine(body: string)
    ensures ExtractKey(body).Some? ==> '\n' !in ExtractKey(body).value
  {
    var ls := Lines(body);
    if KeyLineIndex(ls).Some? {
      var i := KeyLineIndex(ls).value;
      LinesShape(body);
      var line := ls[i];
      var rest := line[|KeyPrefix|..];
      assert rest != [] ==> rest[..|rest| - 1] == line[..|line| - 1][|KeyPrefix|..];
      LineTextOneLine(rest);
    }
  }

  /** A `key=` line at the top of the body yields its key, whatever follows. */
  lemma KeyOnFirstLine(k: string, rest: string)
    requires '\n' !in k
    ensures ExtractKey(KeyPrefix + k + "\n" + rest) == Some(k)
  {
    var a := KeyPrefix + k;
    KeyLine(k);
    LinesCons(a, rest);
    var ls := [a + "\n"] + Lines(rest);
    assert ls[0] == a + "\n";
  }

  /** The line `key=k` matches, and its key is `k`. */
  lemma KeyLine(k: string)
    requires '\n' !in k
    ensures '\n' !in KeyPrefix + k
    ensures IsKeyLine(KeyPrefix + k + "\n")
    ensures LineText((KeyPrefix + k + "\n")[|KeyPrefix|..]) == k
  {
    var line := KeyPrefix + k + "\n";
    assert line[..|KeyPrefix|] == KeyPrefix;
    assert line[|KeyPrefix|..] == k + "\n";
    assert (k + "\n")[..|k|] == k;
  }

  /** A line that does not start with `key=` is passed over. */
  lemma KeySkipsLine(g: string, rest: string)
    requires '\n' !in g && !StartsWith(g, KeyPrefix)
    ensures ExtractKey(g + "\n" + rest) == ExtractKey(rest)
  {
    LinesCons(g, rest);
    NotKeyLine(g);
    var tail := Lines(rest);
    var ls := [g + "\n"] + tail;
    assert ls[1..] == tail;
    match KeyLineIndex(tail)
    case None =>
    case Some(i) =>
      assert ls[i + 1] == tail[i];
  }

  lemma NotKeyLine(g: string)
    requires !StartsWith(g, KeyPrefix)
    ensures !IsKeyLine(g + "\n")
  {
    var line := g + "\n";
    if |g| >= |KeyPrefix| {
      assert line[..|KeyPrefix|] == g[..|KeyPrefix|];
    } else if |g| == |KeyPrefix| - 1 {
      assert line[|g|] == '\n';
    }
  }

  /** The encoded entry named `key` is a `key=` line. */
  lemma KeyEntryLine(k: string)
    ensures Line(("key", k)) == KeyPrefix + k + "\n"
  {
    assert "key" + "=" == KeyPrefix;
  }

  /**
   * The key is not what decoding the body as attributes would give: of
   * two `key=` lines the first one counts here, where decoding keeps the
   * last.
   */
  lemma KeyIsFirstNotLast(a: string, b: string)
    requires WellFormed(("key", a)) && WellFormed(("key", b))
    ensures ExtractKey(EncodeHash([("key", a), ("key", b)])) == Some(a)
    ensures Decode(EncodeHash([("key", a), ("key", b)])) == map["key" := b]
  {
    DecodeTwoLines(("key", a), ("key", b));
    KeyEntryLine(a);
    KeyOnFirstLine(a, Line(("key", b)));
  }

  /** The text every redirect carries. */
  const RedirectNotice := "You are being redirected to Tequila for sign-in."

  /** The Rack triplet `request_phase` returns: status, headers in order, body parts. */
  datatype Redirect = Redirect(status: nat, headers: seq<Pair>, body: seq<string>)

  datatype RequestOutcome = Redirected(redirect: Redirect) | RequestFailed(failure: Failure)

  /** Where the browser is sent to sign in. */
  function LoginLocation(o: Options, key: string): string {
    UriString(BaseUri(o)) + "/requestauth?requestkey=" + key
  }

  function LoginRedirect(o: Options, key: string): Redirect {
    Redirect(302, [("Location", LoginLocation(o, key)), ("Content-Type", "text/plain")], [RedirectNotice])
  }

  /**
   * What `request_phase` does with the answer to its POST: no answer or a
   * status other than 200 is an invalid response; a missing or empty key is
   * an invalid key; otherwise the browser is redirected with the key.
   */
  function RequestPhaseResult(o: Options, response: Option<Response>): (r: RequestOutcome)
    ensures r == RequestFailed(InvalidResponse) <==> !IsOk(response)
    ensures r == RequestFailed(InvalidKey) <==>
      IsOk(response) && (ExtractKey(response.value.body) == None || ExtractKey(response.value.body) == Some(""))
    ensures r.Redirected? ==>
      && IsOk(response) && ExtractKey(response.value.body).Some?
      && ExtractKey(response.value.body).value != ""
      && r.redirect == LoginRedirect(o, ExtractKey(response.value.body).value)
    ensures r.RequestFailed? ==> !r.failure.InvalidInfo?
  {
    if !IsOk(response) then RequestFailed(InvalidResponse)
    else match ExtractKey(response.value.body)
      case None => RequestFailed(InvalidKey)
      case Some(key) => if key == "" then RequestFailed(InvalidKey) else Redirected(LoginRedirect(o, key))
  }

  /** A 200 answer whose first line is `key=` followed by a non-empty key redirects with that key. */
  lemma RedirectsWithKey(o: Options, k: string, rest: string)
    requires k != "" && '\n' !in k
    ensures RequestPhaseResult(o, Some(Response("200", KeyPrefix + k + "\n" + rest))).Redirected?
    ensures RequestPhaseResult(o, Some(Response("200", KeyPrefix + k + "\n" + rest))).redirect == LoginRedirect(o, k)
  {
    KeyOnFirstLine(k, rest);
  }

  /** A 200 answer `key=REQ42` redirects with `REQ42`; the same body with status 500 is an invalid response. */
  lemma KeyedExample(o: Options, keyed: string)
    requires keyed == "key=REQ42\n"
    ensures RequestPhaseResult(o, Some(Response("200", keyed))) == Redirected(LoginRedirect(o, "REQ42"))
    ensures RequestPhaseResult(o, Some(Response("500", keyed))) == RequestFailed(InvalidResponse)
  {
    assert KeyPrefix + "REQ42" + "\n" + "" == keyed;
    KeyOnFirstLine("REQ42", "");
  }

  /** A 200 answer `nope` carries no key. */
  lemma KeylessExample(o: Options, keyless: string)
    requires keyless == "nope\n"
    ensures RequestPhaseResult(o, Some(Response("200", keyless))) == RequestFailed(InvalidKey)
  {
    assert "nope" + "\n" + "" == keyless;
    assert "nope"[0] != KeyPrefix[0];
    KeySkipsLine("nope", "");
  }

  /**
   * With the default options, whether the port is left unset or given as
   * 443, the login page is `https://tequila.epfl.ch:443/cgi-bin/tequila/requestauth?requestkey=`
   * followed by the key.
   */
  lemma DefaultLoginLocation(key: string)
    ensures LoginLocation(Defaults(), key) ==
      "https" + "://" + "tequila.epfl.ch" + ":" + "443" + "/cgi-bin/tequila" + "/requestauth?requestkey=" + key
    ensures LoginLocation(Defaults().(port := Some(443)), key) == LoginLocation(Defaults(), key)
  {
    DefaultUriString();
  }

  /** The default base URI, piece by piece: `https`, `://`, the EPFL host, `:443`, the Tequila path. */
  lemma DefaultUriString()
    ensures UriString(BaseUri(Defaults())) == "https" + "://" + "tequila.epfl.ch" + ":" + "443" + "/cgi-bin/tequila"
  {
    Port443();
  }

  lemma Port443()
    ensures NatToString(443) == "443"
  {
    assert NatToString(4) == "4";
    assert NatToString(44) == "44";
  }
}

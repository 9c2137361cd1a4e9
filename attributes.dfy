/**
 * The callback phase: the `/fetchattributes` body, the check that every
 * requested attribute came back, the EPFL uid normalisation, and the
 * `uid`/`info`/`extra` view of the attributes that OmniAuth's auth hash
 * is built from.
 */
module Attributes {
  import opened Wrappers
  import opened Strings
  import opened Codec
  import opened Config

  /** The argument `fetch_attributes` encodes: the key hash, then the additional hash. */
  function FetchBodyFields(o: Options, key: string): Fields {
    List([Hash([("key", key)]), Hash(o.additionalFetchattributesParameters)])
  }

  /** The POST `fetch_attributes` makes: a `key=…` line, then the additional parameters. */
  function FetchRequest(o: Options, key: string): (p: Post)
    ensures p.path == o.path + "/fetchattributes"
    ensures p.body == EncodeHash([("key", key)] + o.additionalFetchattributesParameters)
  {
    var extra := o.additionalFetchattributesParameters;
    EncodeFlatten(FetchBodyFields(o, key));
    FlattenSingle(("key", key), extra);
    FlattenListAppend([Hash([("key", key)])], [Hash(extra)]);
    assert FlattenList([Hash([("key", key)])]) == [("key", key)] by {
      AppendEmpty([("key", key)]);
    }
    PostTo(o, "/fetchattributes", Encode(FetchBodyFields(o, key)))
  }

  /**
   * Tequila reads the key back from the body: when no additional
   * parameter is also called `key`, decoding the body maps `key` to it.
   */
  lemma FetchKeyReadBack(o: Options, key: string)
    requires WellFormed(("key", key))
    requires forall i :: 0 <= i < |o.additionalFetchattributesParameters| ==>
      WellFormed(o.additionalFetchattributesParameters[i]) && o.additionalFetchattributesParameters[i].0 != "key"
    ensures "key" in Decode(FetchRequest(o, key).body)
    ensures Decode(FetchRequest(o, key).body)["key"] == key
  {
    var extra := o.additionalFetchattributesParameters;
    var ps := [("key", key)] + extra;
    forall i | 0 <= i < |ps|
      ensures WellFormed(ps[i])
    {
      if i > 0 {
        assert ps[i] == extra[i - 1];
      }
    }
    DecodeEncodeHash(ps);
    var es := Somes(ps);
    forall j | 0 < j < |es|
      ensures !Assigns(es[j], "key")
    {
      assert ps[j] == extra[j - 1];
    }
    AssignSole(es, "key");
  }

  /** `missing_info`: the attribute names of `request_info`, in order, that the response did not define. */
  function MissingInfo(requestInfo: seq<Pair>, raw: map<string, string>): (missing: seq<string>)
    ensures |missing| <= |requestInfo|
    ensures forall a :: a in missing <==> a in AttributeNames(requestInfo) && a !in raw
  {
    if requestInfo == [] then [] else
    var a := requestInfo[0].1;
    var rest := MissingInfo(requestInfo[1..], raw);
    assert AttributeNames(requestInfo) == [a] + AttributeNames(requestInfo[1..]);
    if a in raw then rest else [a] + rest
  }

  /** Nothing is missing exactly when every requested attribute was defined. */
  lemma NothingMissing(requestInfo: seq<Pair>, raw: map<string, string>)
    ensures MissingInfo(requestInfo, raw) == [] <==> forall i :: 0 <= i < |requestInfo| ==> requestInfo[i].1 in raw
  {
    var names := AttributeNames(requestInfo);
    if MissingInfo(requestInfo, raw) != [] {
      var a := MissingInfo(requestInfo, raw)[0];
      assert a in names;
    } else {
      forall i | 0 <= i < |requestInfo|
        ensures requestInfo[i].1 in raw
      {
        assert names[i] in names;
      }
    }
  }

  const EpflSuffix := "@epfl.ch"

  /** The uid normalisation: one trailing `@epfl.ch` is removed, any other uid is kept. */
  function StripEpflSuffix(uid: string): (r: string)
    ensures EndsWith(uid, EpflSuffix) ==> r + EpflSuffix == uid
    ensures !EndsWith(uid, EpflSuffix) ==> r == uid
  {
    if EndsWith(uid, EpflSuffix) then uid[..|uid| - |EpflSuffix|] else uid
  }

  /** An EPFL uid loses exactly its suffix, and only once. */
  lemma StripEpflSuffixOnce(u: string)
    ensures StripEpflSuffix(u + EpflSuffix) == u
    ensures StripEpflSuffix(u + EpflSuffix + EpflSuffix) == u + EpflSuffix
  {
    var v := u + EpflSuffix;
    assert v[|v| - |EpflSuffix|..] == EpflSuffix;
    var w := v + EpflSuffix;
    assert w[|w| - |EpflSuffix|..] == EpflSuffix;
  }

  /**
   * `delete_suffix!` works on the very string `raw_info` holds, so the
   * normalised uid replaces the uid field's value and nothing else changes.
   */
  function NormaliseUid(uidField: string, raw: map<string, string>): (r: map<string, string>)
    ensures r.Keys == raw.Keys
    ensures forall k :: k in raw && k != uidField ==> r[k] == raw[k]
    ensures uidField in raw ==> r[uidField] == StripEpflSuffix(raw[uidField])
  {
    if uidField in raw then raw[uidField := StripEpflSuffix(raw[uidField])] else raw
  }

  /** `raw_info[k]`: `nil` for a name the response did not define. */
  function Lookup(raw: map<string, string>, k: string): (r: Option<string>)
  {
    if k in raw then Some(raw[k]) else None
  }

  /** The `info` block: each logical name of `request_info` with the value of its attribute. */
  function Info(requestInfo: seq<Pair>, raw: map<string, string>): (info: map<string, Option<string>>)
    ensures forall k :: k in info <==> exists i :: 0 <= i < |requestInfo| && requestInfo[i].0 == k
  {
    if requestInfo == [] then map[] else
    var n := |requestInfo| - 1;
    var front := requestInfo[..n];
    assert forall i :: 0 <= i < n ==> front[i] == requestInfo[i];
    Info(front, raw)[requestInfo[n].0 := Lookup(raw, requestInfo[n].1)]
  }

  predicate UniqueNames(requestInfo: seq<Pair>) {
    forall i, j :: 0 <= i < j < |requestInfo| ==> requestInfo[i].0 != requestInfo[j].0
  }

  /** A logical name carries the value of its last entry's attribute. */
  lemma {:induction false} InfoValueAt(requestInfo: seq<Pair>, raw: map<string, string>, i: nat)
    requires i < |requestInfo|
    requires forall j :: i < j < |requestInfo| ==> requestInfo[j].0 != requestInfo[i].0
    ensures Info(requestInfo, raw)[requestInfo[i].0] == Lookup(raw, requestInfo[i].1)
    decreases |requestInfo|
  {
    var n := |requestInfo| - 1;
    if i < n {
      var front := requestInfo[..n];
      assert forall j :: i < j < n ==> front[j] == requestInfo[j];
      InfoValueAt(front, raw, i);
    }
  }

  /** With distinct logical names (a Ruby hash has them), each name carries its own attribute's value. */
  lemma InfoValues(requestInfo: seq<Pair>, raw: map<string, string>)
    requires UniqueNames(requestInfo)
    ensures forall i :: 0 <= i < |requestInfo| ==> Info(requestInfo, raw)[requestInfo[i].0] == Lookup(raw, requestInfo[i].1)
  {
    forall i | 0 <= i < |requestInfo|
      ensures Info(requestInfo, raw)[requestInfo[i].0] == Lookup(raw, requestInfo[i].1)
    {
      InfoValueAt(requestInfo, raw, i);
    }
  }

  /** The `extra` block: every attribute except the uid field and the ones `info` reports. */
  function Extra(uidField: string, requestInfo: seq<Pair>, raw: map<string, string>): (extra: map<string, string>)
  {
    map k | k in raw && k != uidField && k !in AttributeNames(requestInfo) :: raw[k]
  }

  /** The auth hash's `uid`, `info` and `extra`. */
  datatype Identity = Identity(uid: string, info: map<string, Option<string>>, extra: map<string, string>)

  /** `uid`, `info` and `extra` read from the attributes, once the uid field is known to be there. */
  function Resolve(o: Options, raw: map<string, string>): (id: Identity)
    requires o.uidField in raw
  {
    Identity(raw[o.uidField], Info(o.requestInfo, raw), Extra(o.uidField, o.requestInfo, raw))
  }

  /** Each attribute is reported in exactly one of the three places. */
  lemma ResolvePartition(o: Options, raw: map<string, string>)
    requires o.uidField in raw
    ensures forall k :: k in raw ==>
      (k == o.uidField || k in AttributeNames(o.requestInfo) || k in Resolve(o, raw).extra)
    ensures forall k :: k in Resolve(o, raw).extra ==> k in raw && Resolve(o, raw).extra[k] == raw[k]
    ensures o.uidField !in Resolve(o, raw).extra
    ensures forall i :: 0 <= i < |o.requestInfo| ==> o.requestInfo[i].1 !in Resolve(o, raw).extra
  {
    var names := AttributeNames(o.requestInfo);
    assert forall i :: 0 <= i < |o.requestInfo| ==> o.requestInfo[i].1 == names[i];
  }

  /** What the callback phase ends in; `Raised` is an exception escaping from it. */
  datatype CallbackOutcome = Authenticated(identity: Identity) | CallbackFailed(failure: Failure) | Raised(error: string)

  /**
   * `callback_phase` as the code is written: when every requested
   * attribute came back but the uid field did not, `auth_hash.uid` is nil
   * and calling `end_with?` on it raises.
   */
  function CallbackPhaseAsWritten(o: Options, response: Option<Response>): CallbackOutcome {
    if !IsOk(response) then CallbackFailed(InvalidResponse) else
    var raw := Decode(response.value.body);
    var missing := MissingInfo(o.requestInfo, raw);
    if missing != [] then CallbackFailed(InvalidInfo(missing))
    else if o.uidField !in raw then Raised("NoMethodError")
    else Authenticated(Resolve(o, NormaliseUid(o.uidField, raw)))
  }

  /** The default options accept an answer that carries `displayname` but no `uniqueid`, and then raise. */
  lemma MissingUidRaises()
    ensures CallbackPhaseAsWritten(Defaults(), Some(Response("200", "displayname=\n"))) == Raised("NoMethodError")
  {
    assert Line(("displayname", "")) == "displayname=\n";
    DecodeOneLine(("displayname", ""));
    var raw := Decode("displayname=\n");
    assert raw == map["displayname" := ""];
    NothingMissing(Defaults().requestInfo, raw);
  }

  /**
   * `callback_phase` with the uid field treated like any other requested
   * attribute: its absence fails as invalid info, naming the uid field.
   */
  function CallbackPhaseResult(o: Options, response: Option<Response>): (r: CallbackOutcome)
    ensures !r.Raised?
    ensures r == CallbackFailed(InvalidResponse) <==> !IsOk(response)
    ensures r.Authenticated? <==>
      IsOk(response) && MissingInfo(o.requestInfo, Decode(response.value.body)) == []
      && o.uidField in Decode(response.value.body)
    ensures r.Authenticated? ==>
      r.identity == Resolve(o, NormaliseUid(o.uidField, Decode(response.value.body)))
    ensures r.CallbackFailed? && r.failure.InvalidInfo? ==>
      && IsOk(response)
      && var missing := MissingInfo(o.requestInfo, Decode(response.value.body));
      r.failure.missing == (if missing != [] then missing else [o.uidField])
    ensures r.CallbackFailed? ==> !r.failure.InvalidKey?
  {
    if !IsOk(response) then CallbackFailed(InvalidResponse) else
    var raw := Decode(response.value.body);
    var missing := MissingInfo(o.requestInfo, raw);
    if missing != [] then CallbackFailed(InvalidInfo(missing))
    else if o.uidField !in raw then CallbackFailed(InvalidInfo([o.uidField]))
    else Authenticated(Resolve(o, NormaliseUid(o.uidField, raw)))
  }

  /**
   * `raw_info` after the callback phase: untouched (nil on a new strategy)
   * when the response is invalid, otherwise the decoded attributes, with
   * the uid normalised in place once the checks have passed.
   */
  function RawInfoAfter(o: Options, response: Option<Response>, before: Option<map<string, string>>): Option<map<string, string>> {
    if !IsOk(response) then before else
    var raw := Decode(response.value.body);
    Some(if MissingInfo(o.requestInfo, raw) == [] && o.uidField in raw then NormaliseUid(o.uidField, raw) else raw)
  }

  /**
   * The identity is read from `raw_info` as the callback leaves it, and a
   * failed check leaves `raw_info` holding the decoded attributes as they came.
   */
  lemma IdentityFromRawInfo(o: Options, response: Option<Response>, before: Option<map<string, string>>)
    ensures CallbackPhaseResult(o, response).Authenticated? ==>
      && RawInfoAfter(o, response, before).Some?
      && o.uidField in RawInfoAfter(o, response, before).value
      && CallbackPhaseResult(o, response).identity == Resolve(o, RawInfoAfter(o, response, before).value)
    ensures CallbackPhaseResult(o, response).CallbackFailed? && IsOk(response) ==>
      RawInfoAfter(o, response, before) == Some(Decode(response.value.body))
    ensures !IsOk(response) ==> RawInfoAfter(o, response, before) == before
  {
  }

  /** The correction changes nothing except the answer that used to raise. */
  lemma CorrectionAgrees(o: Options, response: Option<Response>)
    ensures !CallbackPhaseAsWritten(o, response).Raised? ==>
      CallbackPhaseResult(o, response) == CallbackPhaseAsWritten(o, response)
    ensures CallbackPhaseAsWritten(o, response).Raised? ==>
      CallbackPhaseResult(o, response) == CallbackFailed(InvalidInfo([o.uidField]))
  {
  }

  /**
   * A successful sign-in reports the normalised uid, a value for every
   * logical name of `request_info` (under distinct names, its attribute's
   * value after the uid normalisation, which also reaches an attribute
   * that is the uid field), and as extra every other attribute with its
   * value.
   */
  lemma AuthenticatedIdentity(o: Options, response: Option<Response>)
    requires CallbackPhaseResult(o, response).Authenticated?
    ensures var raw := Decode(response.value.body);
      var id := CallbackPhaseResult(o, response).identity;
      && id.uid == StripEpflSuffix(raw[o.uidField])
      && (forall k :: k in id.info ==> id.info[k].Some?)
      && (UniqueNames(o.requestInfo) ==>
            forall i :: 0 <= i < |o.requestInfo| ==>
              id.info[o.requestInfo[i].0] == Some(NormaliseUid(o.uidField, raw)[o.requestInfo[i].1]))
      && (forall k :: k in id.extra <==> k in raw && k != o.uidField && k !in AttributeNames(o.requestInfo))
      && (forall k :: k in id.extra ==> id.extra[k] == raw[k])
  {
    var raw := Decode(response.value.body);
    var norm := NormaliseUid(o.uidField, raw);
    var ri := o.requestInfo;
    NothingMissing(ri, raw);
    if UniqueNames(ri) {
      InfoValues(ri, norm);
    }
    var info := Info(ri, norm);
    forall k | k in info
      ensures info[k].Some?
    {
      var i :| 0 <= i < |ri| && ri[i].0 == k;
      InfoSome(ri, norm, k);
    }
  }

  /** When every attribute is present, every logical name has a value. */
  lemma {:induction false} InfoSome(requestInfo: seq<Pair>, raw: map<string, string>, k: string)
    requires forall i :: 0 <= i < |requestInfo| ==> requestInfo[i].1 in raw
    requires k in Info(requestInfo, raw)
    ensures Info(requestInfo, raw)[k].Some?
  {
    var n := |requestInfo| - 1;
    var front := requestInfo[..n];
    if requestInfo[n].0 != k {
      assert forall i :: 0 <= i < n ==> front[i] == requestInfo[i];
      InfoSome(front, raw, k);
    }
  }

  /**
   * With the default options, an answer carrying `uniqueid` and
   * `displayname` signs in with the normalised uid, the display name as
   * `name`, and nothing extra.
   */
  lemma DefaultSignIn(u: string, d: string)
    requires WellFormed(("uniqueid", u)) && WellFormed(("displayname", d))
    ensures CallbackPhaseResult(Defaults(), Some(Response("200", Line(("uniqueid", u)) + Line(("displayname", d))))) ==
      Authenticated(Identity(StripEpflSuffix(u), map["name" := Some(d)], map[]))
  {
    var p, q := ("uniqueid", u), ("displayname", d);
    DecodeTwoLines(p, q);
    var raw := Decode(Line(p) + Line(q));
    assert raw == map["uniqueid" := u, "displayname" := d];
    DefaultIdentity(raw, u, d);
  }

  lemma DefaultIdentity(raw: map<string, string>, u: string, d: string)
    requires raw == map["uniqueid" := u, "displayname" := d]
    ensures MissingInfo(Defaults().requestInfo, raw) == []
    ensures Resolve(Defaults(), NormaliseUid("uniqueid", raw)) ==
      Identity(StripEpflSuffix(u), map["name" := Some(d)], map[])
  {
    var o := Defaults();
    NothingMissing(o.requestInfo, raw);
    var norm := NormaliseUid(o.uidField, raw);
    assert norm == map["uniqueid" := StripEpflSuffix(u), "displayname" := d];
    assert o.requestInfo[..0] == [];
    assert Info(o.requestInfo, norm) == map["name" := Some(d)];
    assert AttributeNames(o.requestInfo) == ["displayname"];
    assert Extra(o.uidField, o.requestInfo, norm) == map[];
  }
}

/**
 * Tequila's wire format: newline-terminated `name=value` lines, as written
 * by `encode_request_body` and read back by the attribute parser of
 * `callback_phase` (lib/omniauth/strategies/tequila.rb).
 */
module Codec {
  import opened Wrappers
  import opened Strings

  /** One `name => value` entry of a Ruby hash; hashes keep insertion order. */
  type Pair = (string, string)

  /**
   * The argument of `encode_request_body`: a hash, or an array whose
   * elements are again hashes or arrays (the request phase nests one level).
   */
  datatype Fields = Hash(pairs: seq<Pair>) | List(items: seq<Fields>)

  /** The line one entry is rendered as: `name=value\n`, with no escaping. */
  function Line(p: Pair): string {
    p.0 + "=" + p.1 + "\n"
  }

  /** The encoding of one hash: its entries' lines in order. */
  function EncodeHash(ps: seq<Pair>): string {
    if ps == [] then "" else Line(ps[0]) + EncodeHash(ps[1..])
  }

  /** `encode_request_body`: arrays are encoded element by element and joined with `''`. */
  function Encode(f: Fields): string
    decreases f
  {
    match f
    case Hash(ps) => EncodeHash(ps)
    case List(items) => EncodeList(items)
  }

  function EncodeList(items: seq<Fields>): string
    decreases items
  {
    if items == [] then "" else Encode(items[0]) + EncodeList(items[1..])
  }

  /** All entries of a nested field structure, in encoding order. */
  function Flatten(f: Fields): seq<Pair>
    decreases f
  {
    match f
    case Hash(ps) => ps
    case List(items) => FlattenList(items)
  }

  function FlattenList(items: seq<Fields>): seq<Pair>
    decreases items
  {
    if items == [] then [] else Flatten(items[0]) + FlattenList(items[1..])
  }

  /** Encoding a hash distributes over concatenation of its entries. */
  lemma {:induction false} EncodeHashAppend(a: seq<Pair>, b: seq<Pair>)
    ensures EncodeHash(a + b) == EncodeHash(a) + EncodeHash(b)
  {
    if a == [] {
      AppendEmpty(b);
    } else {
      EncodeHashAppend(a[1..], b);
      ConsAppend(a, b);
      AppendAssoc(Line(a[0]), EncodeHash(a[1..]), EncodeHash(b));
    }
  }

  lemma {:induction false} EncodeListAppend(a: seq<Fields>, b: seq<Fields>)
    ensures EncodeList(a + b) == EncodeList(a) + EncodeList(b)
  {
    if a == [] {
      AppendEmpty(b);
    } else {
      EncodeListAppend(a[1..], b);
      ConsAppend(a, b);
      AppendAssoc(Encode(a[0]), EncodeList(a[1..]), EncodeList(b));
    }
  }

  /** A hash alone in an array, or in an array within an array, flattens to its entries. */
  lemma FlattenSingle(p: Pair, ps: seq<Pair>)
    ensures FlattenList([List([Hash([p])])]) == [p]
    ensures FlattenList([Hash(ps)]) == ps
  {
    AppendEmpty([p]);
    AppendEmpty(ps);
    assert FlattenList([Hash([p])]) == [p];
  }

  lemma {:induction false} FlattenListAppend(a: seq<Fields>, b: seq<Fields>)
    ensures FlattenList(a + b) == FlattenList(a) + FlattenList(b)
  {
    if a == [] {
      AppendEmpty(b);
      AppendEmpty(FlattenList(b));
    } else {
      ConsAppend(a, b);
      FlattenListAppend(a[1..], b);
      AppendAssoc(Flatten(a[0]), FlattenList(a[1..]), FlattenList(b));
    }
  }

  /**
   * Nesting adds no separator: a field structure encodes exactly as the
   * single hash of all its entries in order.
   */
  lemma {:induction false} EncodeFlatten(f: Fields)
    ensures Encode(f) == EncodeHash(Flatten(f))
    decreases f
  {
    match f
    case Hash(ps) =>
    case List(items) => EncodeListFlatten(items);
  }

  lemma {:induction false} EncodeListFlatten(items: seq<Fields>)
    ensures EncodeList(items) == EncodeHash(FlattenList(items))
    decreases items
  {
    if items != [] {
      EncodeFlatten(items[0]);
      EncodeListFlatten(items[1..]);
      EncodeHashAppend(Flatten(items[0]), FlattenList(items[1..]));
    }
  }

  /** `[{A: 1}, {B: 2}]` encodes to `"A=1\nB=2\n"`; an empty hash encodes to `""`. */
  lemma EncodeExample()
    ensures Encode(List([Hash([("A", "1")]), Hash([("B", "2")])])) == "A=1\nB=2\n"
    ensures Encode(Hash([])) == ""
  {
    var items := [Hash([("A", "1")]), Hash([("B", "2")])];
    assert items[1..][1..] == [];
    assert EncodeHash([("A", "1")]) == "A=1\n";
    assert EncodeHash([("B", "2")]) == "B=2\n";
  }

  /** The `body +=` loop of `encode_request_body` over one hash. */
  method EncodeFields(ps: seq<Pair>) returns (body: string)
    ensures body == EncodeHash(ps)
  {
    body := "";
    var i := 0;
    while i < |ps|
      invariant 0 <= i <= |ps|
      invariant body == EncodeHash(ps[..i])
    {
      var (param, value) := ps[i];
      EncodeHashAppend(ps[..i], [ps[i]]);
      PrefixSnoc(ps, i);
      AppendEmpty(Line(ps[i]));
      AppendAssoc(body, param + "=" + value, "\n");
      body := body + param + "=" + value + "\n";
      i := i + 1;
    }
    assert ps[..|ps|] == ps;
  }

  /** `encode_request_body`: recursion over arrays, the accumulator loop over hashes. */
  method EncodeRequestBody(f: Fields) returns (body: string)
    ensures body == Encode(f)
    decreases f
  {
    match f
    case Hash(ps) =>
      body := EncodeFields(ps);
    case List(items) =>
      body := "";
      var i := 0;
      while i < |items|
        invariant 0 <= i <= |items|
        invariant body == EncodeList(items[..i])
      {
        var part := EncodeRequestBody(items[i]);
        EncodeListAppend(items[..i], [items[i]]);
        PrefixSnoc(items, i);
        AppendEmpty(Encode(items[i]));
        body := body + part;
        i := i + 1;
      }
      assert items[..|items|] == items;
  }

  /**
   * One line of a response as `line.split('=', 2)` sees it: no entry when
   * the line has no `=`; otherwise the key is everything before the first
   * `=`, unstripped, and the value is the stripped rest, later `=` included.
   */
  function ParseLine(line: string): (r: Option<Pair>)
    ensures r.None? <==> '=' !in line
    ensures r.Some? ==>
      && '=' !in r.value.0 && |r.value.0| < |line|
      && line[..|r.value.0|] == r.value.0 && line[|r.value.0|] == '='
      && r.value.1 == Strip(line[|r.value.0| + 1..])
  {
    match FirstIndex(line, '=')
    case None => None
    case Some(i) => Some((line[..i], Strip(line[i + 1..])))
  }

  /** The line defines attribute `k`. */
  predicate Defines(line: string, k: string) {
    ParseLine(line).Some? && ParseLine(line).value.0 == k
  }

  /** What each line contributes, in order: `Some` entry, or `None` for a line without `=`. */
  function Entries(ls: seq<string>): (es: seq<Option<Pair>>)
    ensures |es| == |ls| && forall i :: 0 <= i < |ls| ==> es[i] == ParseLine(ls[i])
  {
    seq(|ls|, i requires 0 <= i < |ls| => ParseLine(ls[i]))
  }

  /** Entry `e` assigns attribute `k`. */
  predicate Assigns(e: Option<Pair>, k: string) {
    e.Some? && e.value.0 == k
  }

  /** The hash built by assigning the entries in turn (`raw_info[key] = value`); `None` changes nothing. */
  function Assign(es: seq<Option<Pair>>): map<string, string> {
    if es == [] then map[] else
    var m := Assign(es[..|es| - 1]);
    var e := es[|es| - 1];
    if e.Some? then m[e.value.0 := e.value.1] else m
  }

  lemma AssignSnoc(es: seq<Option<Pair>>, e: Option<Pair>)
    ensures Assign(es + [e]) == if e.Some? then Assign(es)[e.value.0 := e.value.1] else Assign(es)
  {
    PrefixSnoc(es + [e], |es|);
    assert (es + [e])[..|es|] == es;
  }

  /**
   * An attribute is in the hash exactly when some entry assigns it, and its
   * value is that of the last entry that does.
   */
  lemma {:induction false} AssignSpec(es: seq<Option<Pair>>, k: string)
    ensures k in Assign(es) <==> exists i :: 0 <= i < |es| && Assigns(es[i], k)
    ensures k in Assign(es) ==> exists i :: (0 <= i < |es| && es[i] == Some((k, Assign(es)[k]))
      && forall j :: i < j < |es| ==> !Assigns(es[j], k))
    decreases |es|
  {
    if es != [] {
      var n := |es|;
      var es', e := es[..n - 1], es[n - 1];
      PrefixSnoc(es, n - 1);
      assert es[..n] == es;
      AssignSnoc(es', e);
      AssignSpec(es', k);
      assert forall i :: 0 <= i < n - 1 ==> es[i] == es'[i];
      if Assigns(e, k) {
        assert es[n - 1] == Some((k, Assign(es)[k]));
      } else if k in Assign(es) {
        var i :| 0 <= i < n - 1 && es'[i] == Some((k, Assign(es')[k]))
          && forall j :: i < j < n - 1 ==> !Assigns(es'[j], k);
        assert es[i] == Some((k, Assign(es)[k]));
        assert forall j :: i < j < n ==> !Assigns(es[j], k);
      }
    }
  }

  /** An entry that contributes nothing can be dropped. */
  lemma {:induction false} AssignSkips(a: seq<Option<Pair>>, b: seq<Option<Pair>>)
    ensures Assign(a + [None] + b) == Assign(a + b)
    decreases |b|
  {
    if b == [] {
      AppendEmpty(a);
      AppendEmpty(a + [None]);
      AssignSnoc(a, None);
    } else {
      var b', e := b[..|b| - 1], b[|b| - 1];
      AssignSkips(a, b');
      PrefixSnoc(b, |b| - 1);
      assert b[..|b|] == b;
      AppendAssoc(a + [None], b', [e]);
      AppendAssoc(a, b', [e]);
      AssignSnoc(a + [None] + b', e);
      AssignSnoc(a + b', e);
    }
  }

  /** The attributes of a `fetchattributes` response body. */
  function Decode(body: string): map<string, string> {
    Assign(Entries(Lines(body)))
  }

  /** The `each_line` loop of `callback_phase` filling `raw_info`. */
  method ParseAttributes(body: string) returns (raw: map<string, string>)
    ensures raw == Decode(body)
  {
    var lines := Lines(body);
    ghost var es := Entries(lines);
    raw := map[];
    var i := 0;
    while i < |lines|
      invariant 0 <= i <= |lines|
      invariant raw == Assign(es[..i])
    {
      var item := ParseLine(lines[i]);
      AssignSnoc(es[..i], item);
      PrefixSnoc(es, i);
      if item.Some? {
        raw := raw[item.value.0 := item.value.1];
      }
      i := i + 1;
    }
    assert es[..|lines|] == es;
  }

  /**
   * Decoding, line by line: an attribute is decoded exactly when some line
   * defines it, and its value is the one given by the last such line.
   */
  lemma {:induction false} DecodeSpec(body: string, k: string)
    ensures k in Decode(body) <==> exists i :: 0 <= i < |Lines(body)| && Defines(Lines(body)[i], k)
    ensures k in Decode(body) ==> exists i :: (0 <= i < |Lines(body)|
      && ParseLine(Lines(body)[i]) == Some((k, Decode(body)[k]))
      && forall j :: i < j < |Lines(body)| ==> !Defines(Lines(body)[j], k))
  {
    var ls := Lines(body);
    var es := Entries(ls);
    AssignSpec(es, k);
    assert forall i :: 0 <= i < |ls| ==> (Defines(ls[i], k) <==> Assigns(es[i], k));
  }

  lemma EntriesAppend(a: seq<string>, b: seq<string>)
    ensures Entries(a + b) == Entries(a) + Entries(b)
  {
  }

  /** A line without `=` contributes nothing, wherever it stands among the lines. */
  lemma DecodeSkipsLine(a: seq<string>, line: string, b: seq<string>)
    requires '=' !in line
    ensures Assign(Entries(a + [line] + b)) == Assign(Entries(a + b))
  {
    EntriesAppend(a + [line], b);
    EntriesAppend(a, [line]);
    EntriesAppend(a, b);
    assert Entries([line]) == [None];
    AssignSkips(Entries(a), Entries(b));
  }

  function Somes(ps: seq<Pair>): (es: seq<Option<Pair>>)
    ensures |es| == |ps| && forall i :: 0 <= i < |ps| ==> es[i] == Some(ps[i])
  {
    seq(|ps|, i requires 0 <= i < |ps| => Some(ps[i]))
  }

  /** The hash built by assigning the entries in order: a later duplicate overwrites. */
  function ToMap(ps: seq<Pair>): map<string, string> {
    Assign(Somes(ps))
  }

  /** Keys of `ToMap` are the entries' names; with unique names each entry keeps its value. */
  lemma ToMapUnique(ps: seq<Pair>)
    requires forall i, j :: 0 <= i < j < |ps| ==> ps[i].0 != ps[j].0
    ensures forall k :: k in ToMap(ps) <==> exists i :: 0 <= i < |ps| && ps[i].0 == k
    ensures forall i :: 0 <= i < |ps| ==> ToMap(ps)[ps[i].0] == ps[i].1
  {
    var es := Somes(ps);
    forall k ensures k in ToMap(ps) <==> exists i :: 0 <= i < |ps| && ps[i].0 == k {
      AssignSpec(es, k);
      assert forall i :: 0 <= i < |ps| ==> (Assigns(es[i], k) <==> ps[i].0 == k);
    }
    forall i | 0 <= i < |ps| ensures ToMap(ps)[ps[i].0] == ps[i].1 {
      var k := ps[i].0;
      AssignSpec(es, k);
      assert Assigns(es[i], k);
      var i0 :| 0 <= i0 < |es| && es[i0] == Some((k, Assign(es)[k]))
        && forall j :: i0 < j < |es| ==> !Assigns(es[j], k);
      assert i0 == i;
    }
  }

  /** An entry the wire format carries intact: no `=` or newline in the name, no newline or outer whitespace in the value. */
  predicate WellFormed(p: Pair) {
    '=' !in p.0 && '\n' !in p.0 && '\n' !in p.1 && Strip(p.1) == p.1
  }

  lemma ParseLineOfLine(p: Pair)
    requires WellFormed(p)
    ensures ParseLine(Line(p)) == Some(p)
  {
    FirstIndexAfter(p.0, '=', p.1 + "\n");
    assert Line(p) == p.0 + ['='] + (p.1 + "\n");
    assert Line(p)[..|p.0|] == p.0;
    assert Line(p)[|p.0| + 1..] == p.1 + "\n";
    StripNewline(p.1);
  }

  function LinesOf(ps: seq<Pair>): (ls: seq<string>)
    ensures |ls| == |ps| && forall i :: 0 <= i < |ps| ==> ls[i] == Line(ps[i])
  {
    seq(|ps|, i requires 0 <= i < |ps| => Line(ps[i]))
  }

  /** The line of a clean entry holds no newline before its end. */
  lemma EntryText(p: Pair)
    requires WellFormed(p)
    ensures '\n' !in p.0 + "=" + p.1
    ensures Line(p) == (p.0 + "=" + p.1) + "\n"
  {
    var a := p.0 + "=" + p.1;
    forall j | 0 <= j < |a|
      ensures a[j] != '\n'
    {
      if j < |p.0| {
        assert a[j] == p.0[j];
      } else if j > |p.0| {
        assert a[j] == p.1[j - |p.0| - 1];
      }
    }
  }

  /** Each encoded entry comes back as one line of `each_line`. */
  lemma {:induction false} LinesOfEncodeHash(ps: seq<Pair>)
    requires forall i :: 0 <= i < |ps| ==> WellFormed(ps[i])
    ensures Lines(EncodeHash(ps)) == LinesOf(ps)
  {
    if ps != [] {
      var p, rest := ps[0], EncodeHash(ps[1..]);
      LinesOfEncodeHash(ps[1..]);
      var a := p.0 + "=" + p.1;
      EntryText(p);
      assert EncodeHash(ps) == Line(p) + rest;
      assert Line(p) + rest == a + "\n" + rest;
      LinesCons(a, rest);
      assert LinesOf(ps) == [Line(p)] + LinesOf(ps[1..]);
    }
  }

  /**
   * Round trip: decoding the encoding of well-formed entries gives the hash
   * that assigning them in order would build (with unique names, the
   * original mapping; see ToMapUnique).
   */
  lemma DecodeEncodeHash(ps: seq<Pair>)
    requires forall i :: 0 <= i < |ps| ==> WellFormed(ps[i])
    ensures Decode(EncodeHash(ps)) == ToMap(ps)
  {
    LinesOfEncodeHash(ps);
    forall i | 0 <= i < |ps| ensures ParseLine(LinesOf(ps)[i]) == Some(ps[i]) {
      ParseLineOfLine(ps[i]);
    }
    assert Entries(LinesOf(ps)) == Somes(ps);
  }

  /** Round trip through a nested field structure. */
  lemma DecodeEncode(f: Fields)
    requires forall i :: 0 <= i < |Flatten(f)| ==> WellFormed(Flatten(f)[i])
    ensures Decode(Encode(f)) == ToMap(Flatten(f))
  {
    EncodeFlatten(f);
    DecodeEncodeHash(Flatten(f));
  }

  /** A single clean line decodes to exactly its entry (`"key=abc123\n"` gives `{key: abc123}`). */
  lemma DecodeOneLine(p: Pair)
    requires WellFormed(p)
    ensures Decode(Line(p)) == map[p.0 := p.1]
  {
    DecodeEncodeHash([p]);
    AppendEmpty(Line(p));
    assert EncodeHash([p]) == Line(p) + EncodeHash([]);
    assert Somes([p]) == [] + [Some(p)];
    AssignSnoc([], Some(p));
  }

  /** Two entries encode as their two lines. */
  lemma EncodeTwo(p: Pair, q: Pair)
    ensures EncodeHash([p, q]) == Line(p) + Line(q)
  {
    assert [p, q][1..] == [q];
    assert EncodeHash([q]) == Line(q) + EncodeHash([]);
    AppendEmpty(Line(q));
  }

  /** Assigning two entries in order: the second wins under a shared name. */
  lemma ToMapTwo(p: Pair, q: Pair)
    ensures ToMap([p, q]) == map[p.0 := p.1][q.0 := q.1]
  {
    var es := Somes([p, q]);
    assert es == [Some(p)] + [Some(q)];
    AssignSnoc([Some(p)], Some(q));
    assert [Some(p)] == [] + [Some(p)];
    AssignSnoc([], Some(p));
  }

  /** Two clean lines decode to both entries, the second winning when the names agree. */
  lemma DecodeTwoLines(p: Pair, q: Pair)
    requires WellFormed(p) && WellFormed(q)
    ensures EncodeHash([p, q]) == Line(p) + Line(q)
    ensures Decode(Line(p) + Line(q)) == map[p.0 := p.1][q.0 := q.1]
  {
    EncodeTwo(p, q);
    DecodeEncodeHash([p, q]);
    ToMapTwo(p, q);
  }

  /** A name assigned by the first entry alone keeps that entry's value. */
  lemma {:induction false} AssignSole(es: seq<Option<Pair>>, k: string)
    requires |es| > 0 && Assigns(es[0], k)
    requires forall j :: 0 < j < |es| ==> !Assigns(es[j], k)
    ensures k in Assign(es) && Assign(es)[k] == es[0].value.1
    decreases |es|
  {
    var n := |es| - 1;
    if n > 0 {
      var front := es[..n];
      assert forall j :: 0 < j < n ==> front[j] == es[j];
      AssignSole(front, k);
    }
  }

  /** A leading line without `=` is skipped: the rest decodes as if it were not there. */
  lemma DecodeSkipsGarbage(g: string, rest: string)
    requires '=' !in g && '\n' !in g
    ensures Decode(g + "\n" + rest) == Decode(rest)
  {
    var l0, ls := g + "\n", Lines(rest);
    LinesCons(g, rest);
    assert forall c :: c in l0 ==> c in g || c == '\n';
    assert ParseLine(l0) == None;
    EntriesAppend([l0], ls);
    assert Entries([l0]) == [None];
    AssignSkips([], Entries(ls));
    AppendEmpty([None] + Entries(ls));
    AppendEmpty(Entries(ls));
    AppendEmpty<Option<Pair>>([None]);
  }
}

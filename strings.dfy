/**
 * The few Ruby `String` operations the strategy relies on, on `seq<char>`:
 * `strip`, `start_with?`/`end_with?`, the first occurrence of a character
 * (the split point of `split('=', 2)`), `each_line`, `Array#join` and the
 * decimal rendering of a port number.
 */
module Strings {
  import opened Wrappers

  // Generic facts about sequences, stated once so that proofs about strings need not rederive them.

  lemma ConsAppend<T>(a: seq<T>, b: seq<T>)
    requires a != []
    ensures (a + b)[0] == a[0] && (a + b)[1..] == a[1..] + b
  {
  }

  lemma AppendAssoc<T>(x: seq<T>, y: seq<T>, z: seq<T>)
    ensures x + (y + z) == (x + y) + z
  {
  }

  lemma PrefixSnoc<T>(s: seq<T>, i: nat)
    requires i < |s|
    ensures s[..i + 1] == s[..i] + [s[i]]
  {
  }

  lemma AppendEmpty<T>(a: seq<T>)
    ensures a + [] == a && [] + a == a
  {
  }

  /** The characters Ruby's `String#strip` removes at both ends. */
  predicate IsSpace(c: char) {
    c == '\0' || c == '\t' || c == '\n' || c == '\U{B}' || c == '\U{C}' || c == '\r' || c == ' '
  }

  predicate StartsWith(s: string, prefix: string) {
    |prefix| <= |s| && s[..|prefix|] == prefix
  }

  predicate EndsWith(s: string, suffix: string) {
    |suffix| <= |s| && s[|s| - |suffix|..] == suffix
  }

  /** Leading whitespace removed: the result is a suffix of `s` that does not start with a space. */
  function TrimLeft(s: string): (r: string)
    ensures |r| <= |s| && r == s[|s| - |r|..]
    ensures forall j :: 0 <= j < |s| - |r| ==> IsSpace(s[j])
    ensures r != [] ==> !IsSpace(r[0])
  {
    if s != [] && IsSpace(s[0]) then TrimLeft(s[1..]) else s
  }

  /** Trailing whitespace removed: the result is a prefix of `s` that does not end with a space. */
  function TrimRight(s: string): (r: string)
    ensures |r| <= |s| && r == s[..|r|]
    ensures forall j :: |r| <= j < |s| ==> IsSpace(s[j])
    ensures r != [] ==> !IsSpace(r[|r| - 1])
  {
    if s != [] && IsSpace(s[|s| - 1]) then TrimRight(s[..|s| - 1]) else s
  }

  /** Number of whitespace characters at the start of `s`. */
  function LeadingSpaces(s: string): (n: nat)
    ensures n <= |s| && TrimLeft(s) == s[n..]
  {
    |s| - |TrimLeft(s)|
  }

  /** Ruby's `String#strip`. */
  function Strip(s: string): string {
    TrimRight(TrimLeft(s))
  }

  /**
   * What `strip` leaves: the slice of `s` between its leading and trailing
   * whitespace runs, neither starting nor ending with whitespace.
   */
  lemma StripSlice(s: string)
    ensures LeadingSpaces(s) + |Strip(s)| <= |s|
    ensures Strip(s) == s[LeadingSpaces(s)..LeadingSpaces(s) + |Strip(s)|]
    ensures forall j :: 0 <= j < LeadingSpaces(s) ==> IsSpace(s[j])
    ensures forall j :: LeadingSpaces(s) + |Strip(s)| <= j < |s| ==> IsSpace(s[j])
    ensures Strip(s) != [] ==> !IsSpace(Strip(s)[0]) && !IsSpace(Strip(s)[|Strip(s)| - 1])
  {
    var l := TrimLeft(s);
    assert forall j :: LeadingSpaces(s) <= j < |s| ==> s[j] == l[j - LeadingSpaces(s)];
  }

  /** A string is its own strip exactly when it has no whitespace at either end. */
  lemma StripFixpoint(s: string)
    ensures Strip(s) == s <==> (s == [] || (!IsSpace(s[0]) && !IsSpace(s[|s| - 1])))
  {
    if s != [] && !IsSpace(s[0]) && !IsSpace(s[|s| - 1]) {
      assert TrimLeft(s) == s;
      assert TrimRight(s) == s;
    }
  }

  /** Stripping twice is stripping once. */
  lemma StripIdempotent(s: string)
    ensures Strip(Strip(s)) == Strip(s)
  {
    StripSlice(s);
    StripFixpoint(Strip(s));
  }

  lemma TrimLeftKeeps(v: string, t: string)
    requires v != [] && !IsSpace(v[0])
    ensures TrimLeft(v + t) == v + t
  {
  }

  lemma TrimRightNewline(v: string)
    requires v == [] || !IsSpace(v[|v| - 1])
    ensures TrimRight(v + "\n") == v
  {
    var w := v + "\n";
    assert w[..|w| - 1] == v;
  }

  /** A value that is already stripped comes back unchanged from a line that adds a newline to it. */
  lemma StripNewline(v: string)
    requires Strip(v) == v
    ensures Strip(v + "\n") == v
  {
    if v == [] {
      assert TrimLeft("\n") == [];
    } else {
      TrimLeftKeeps(v, "\n");
      TrimRightNewline(v);
    }
  }

  /** The position of the first `c` in `s`, if any. */
  function FirstIndex(s: string, c: char): (r: Option<nat>)
    ensures r.None? <==> c !in s
    ensures r.Some? ==> r.value < |s| && s[r.value] == c && c !in s[..r.value]
  {
    if s == [] then None
    else if s[0] == c then Some(0)
    else match FirstIndex(s[1..], c)
      case None => None
      case Some(i) => assert s[1..][..i] == s[1..i + 1]; Some(i + 1)
  }

  /** The first `c` is found right after a prefix free of `c`. */
  lemma {:induction false} FirstIndexAfter(a: string, c: char, b: string)
    requires c !in a
    ensures FirstIndex(a + [c] + b, c) == Some(|a|)
  {
    if a != [] {
      FirstIndexAfter(a[1..], c, b);
      assert (a + [c] + b)[1..] == a[1..] + [c] + b;
    }
  }

  /**
   * Length of the first line of `s` as Ruby's `each_line` cuts it: up to and
   * including the first newline, or all of `s` when there is none.
   */
  function LineLength(s: string): (n: nat)
    ensures n <= |s| && (s != [] ==> n > 0)
    ensures n > 0 ==> '\n' !in s[..n - 1]
    ensures n < |s| ==> n > 0 && s[n - 1] == '\n'
    ensures n == |s| && n > 0 ==> '\n' !in s[..n - 1] && (s[n - 1] == '\n' || '\n' !in s)
  {
    match FirstIndex(s, '\n')
    case None => |s|
    case Some(i) => i + 1
  }

  /** Ruby's `String#each_line` with the default separator: every line keeps its newline. */
  function Lines(s: string): seq<string>
    decreases |s|
  {
    if s == [] then [] else
    var n := LineLength(s);
    [s[..n]] + Lines(s[n..])
  }

  function Concat(ls: seq<string>): string {
    if ls == [] then [] else ls[0] + Concat(ls[1..])
  }

  lemma ConcatCons(x: string, ls: seq<string>)
    ensures Concat([x] + ls) == x + Concat(ls)
  {
    assert ([x] + ls)[1..] == ls;
  }

  /** Splitting into lines loses and adds nothing. */
  lemma {:induction false} LinesConcat(s: string)
    ensures Concat(Lines(s)) == s
    decreases |s|
  {
    if s != [] {
      var n := LineLength(s);
      LinesConcat(s[n..]);
      ConcatCons(s[..n], Lines(s[n..]));
      assert s == s[..n] + s[n..];
    }
  }

  /** Shape of the lines: none empty, a newline only at the end of a line, and at the end of every line but the last. */
  lemma {:induction false} LinesShape(s: string)
    ensures forall i :: 0 <= i < |Lines(s)| ==> Lines(s)[i] != []
    ensures forall i :: 0 <= i < |Lines(s)| ==> '\n' !in Lines(s)[i][..|Lines(s)[i]| - 1]
    ensures forall i :: 0 <= i < |Lines(s)| - 1 ==> Lines(s)[i][|Lines(s)[i]| - 1] == '\n'
    decreases |s|
  {
    if s != [] {
      var n := LineLength(s);
      var first, tail := s[..n], Lines(s[n..]);
      LinesShape(s[n..]);
      assert Lines(s) == [first] + tail;
      assert first[..n - 1] == s[..n - 1];
      assert n < |s| ==> tail != [];
    }
  }

  /** A newline-terminated line without any other newline is cut off on its own. */
  lemma LinesCons(a: string, rest: string)
    requires '\n' !in a
    ensures Lines(a + "\n" + rest) == [a + "\n"] + Lines(rest)
  {
    var s := a + "\n" + rest;
    FirstIndexAfter(a, '\n', rest);
    assert s[..|a| + 1] == a + "\n";
    assert s[|a| + 1..] == rest;
  }

  /** Ruby's `Array#join(sep)`. */
  function Join(xs: seq<string>, sep: char): string {
    if xs == [] then []
    else if |xs| == 1 then xs[0]
    else xs[0] + [sep] + Join(xs[1..], sep)
  }

  /** The pieces of `s` between the occurrences of `sep`; the empty string is one empty piece. */
  function Split(s: string, sep: char): (r: seq<string>)
    ensures |r| > 0
    decreases |s|
  {
    match FirstIndex(s, sep)
    case None => [s]
    case Some(i) => [s[..i]] + Split(s[i + 1..], sep)
  }

  /** Joining pieces free of the separator can be undone by splitting on it. */
  lemma {:induction false} SplitJoin(xs: seq<string>, sep: char)
    requires |xs| > 0
    requires forall i :: 0 <= i < |xs| ==> sep !in xs[i]
    ensures Split(Join(xs, sep), sep) == xs
  {
    if |xs| > 1 {
      var rest := Join(xs[1..], sep);
      SplitJoin(xs[1..], sep);
      FirstIndexAfter(xs[0], sep, rest);
      var s := xs[0] + [sep] + rest;
      assert s[..|xs[0]|] == xs[0];
      assert s[|xs[0]| + 1..] == rest;
    }
  }

  function DigitChar(d: nat): (c: char)
    requires d < 10
  {
    "0123456789"[d]
  }

  predicate IsDigit(c: char) {
    '0' <= c <= '9'
  }

  /** Value of a decimal numeral. */
  function DigitsValue(s: string): nat
    requires forall i :: 0 <= i < |s| ==> IsDigit(s[i])
  {
    if s == [] then 0 else
    assert IsDigit(s[|s| - 1]);
    10 * DigitsValue(s[..|s| - 1]) + (s[|s| - 1] as int - '0' as int)
  }

  /** Ruby's `Integer#to_s` on a natural number: the decimal numeral of `n`, with no leading zero. */
  function NatToString(n: nat): (s: string)
    ensures |s| > 0 && forall i :: 0 <= i < |s| ==> IsDigit(s[i])
    ensures DigitsValue(s) == n
    ensures s[0] == '0' ==> s == "0"
  {
    var last := [DigitChar(n % 10)];
    var s := if n < 10 then last else NatToString(n / 10) + last;
    assert s[..|s| - 1] == (if n < 10 then [] else NatToString(n / 10));
    s
  }
}

/** The parameter text of the `open` command: key=value pairs joined with '^', where a '^'
    separates only if key bytes and '=' follow it. */
module OpenParams {
  import opened Machine

  const EQ: byte := 61
  const CARET: byte := 94

  type Params = map<Bytes, Bytes>

  predicate IsKeyByte(b: byte)
  {
    65 <= b <= 90 || 97 <= b <= 122 || 48 <= b <= 57 || b == 95
  }

  /** The end of the run of key bytes that starts at j. */
  function RunEnd(s: Bytes, j: nat): (e: nat)
    requires j <= |s|
    ensures j <= e <= |s|
    ensures forall i :: j <= i < e ==> IsKeyByte(s[i])
    ensures e < |s| ==> !IsKeyByte(s[e])
    decreases |s| - j
  {
    if j < |s| && IsKeyByte(s[j]) then RunEnd(s, j + 1) else j
  }

  /** A '^' at i that is followed by key bytes and '='. */
  predicate SepAt(s: Bytes, i: nat)
  {
    i < |s| && s[i] == CARET && (var e := RunEnd(s, i + 1); e < |s| && s[e] == EQ)
  }

  predicate PatternFree(s: Bytes) { forall i :: 0 <= i < |s| ==> !SepAt(s, i) }

  function FirstSep(s: Bytes, from: nat): (r: Option<nat>)
    requires from <= |s|
    ensures r.Some? ==> from <= r.value < |s| && SepAt(s, r.value)
    ensures forall i :: from <= i < (if r.Some? then r.value else |s|) ==> !SepAt(s, i)
    decreases |s| - from
  {
    if from == |s| then None else if SepAt(s, from) then Some(from) else FirstSep(s, from + 1)
  }

  /** strings.IndexByte */
  function IndexOf(s: Bytes, b: byte): (r: Option<nat>)
    ensures r.Some? ==> r.value < |s| && s[r.value] == b && b !in s[..r.value]
    ensures r.None? ==> b !in s
  {
    if s == [] then None
    else if s[0] == b then Some(0)
    else match IndexOf(s[1..], b)
      case None => None
      case Some(i) => assert s[..i + 1] == [s[0]] + s[1..][..i]; Some(i + 1)
  }

  function ParseInto(out: Params, params: Bytes): Params
    decreases |params|
  {
    var eq := IndexOf(params, EQ);
    if eq.None? || eq.value == 0 then out
    else
      var key := params[..eq.value];
      var rest := params[eq.value + 1..];
      match FirstSep(rest, 0)
      case None => out[key := rest]
      case Some(next) => ParseInto(out[key := rest[..next]], rest[next + 1..])
  }

  function Parse(params: Bytes): Params { ParseInto(map[], params) }

  /** The inner scan of the source for the next separator. */
  method ScanSep(rest: Bytes) returns (next: Option<nat>)
    ensures next == FirstSep(rest, 0)
  {
    for i := 0 to |rest|
      invariant FirstSep(rest, i) == FirstSep(rest, 0)
    {
      if i < |rest| - 1 && rest[i] == CARET {
        var j := i + 1;
        while j < |rest| && IsKeyByte(rest[j])
          invariant i + 1 <= j <= |rest|
          invariant RunEnd(rest, j) == RunEnd(rest, i + 1)
        {
          j := j + 1;
        }
        if j < |rest| && rest[j] == EQ {
          return Some(i);
        }
      }
    }
    next := None;
  }

  /** ParseOpenParams: the remaining text shrinks at every pair. */
  method ParseOpenParams(params: Bytes) returns (out: Params)
    ensures out == Parse(params)
  {
    out := map[];
    var text := params;
    while |text| > 0
      invariant ParseInto(out, text) == Parse(params)
      decreases |text|
    {
      var eq := IndexOf(text, EQ);
      if eq.None? || eq.value == 0 {
        return;
      }
      var key, rest := text[..eq.value], text[eq.value + 1..];
      var next := ScanSep(rest);
      if next.None? {
        out := out[key := rest];
        return;
      }
      out := out[key := rest[..next.value]];
      text := rest[next.value + 1..];
    }
  }

  // ---- Parsing inverts joining ----

  datatype Pair = Pair(key: Bytes, value: Bytes)

  function Show(p: Pair): Bytes { p.key + [EQ] + p.value }

  function JoinPairs(ps: seq<Pair>): Bytes
  {
    if ps == [] then []
    else if |ps| == 1 then Show(ps[0])
    else Show(ps[0]) + [CARET] + JoinPairs(ps[1..])
  }

  function AddAll(out: Params, ps: seq<Pair>): Params
    decreases |ps|
  {
    if ps == [] then out else AddAll(out[ps[0].key := ps[0].value], ps[1..])
  }

  predicate AllKeyBytes(k: Bytes) { k != [] && forall i :: 0 <= i < |k| ==> IsKeyByte(k[i]) }

  /** The first key may be any text without '='; a key after '^' consists of key bytes. */
  predicate KeysOk(ps: seq<Pair>)
  {
    && (ps != [] ==> ps[0].key != [] && EQ !in ps[0].key)
    && forall i :: 1 <= i < |ps| ==> AllKeyBytes(ps[i].key)
  }

  predicate ValuesOk(ps: seq<Pair>) { forall i :: 0 <= i < |ps| ==> PatternFree(ps[i].value) }

  lemma RunEndIs(s: Bytes, j: nat, e: nat)
    requires j <= e <= |s| && (forall i :: j <= i < e ==> IsKeyByte(s[i])) && (e < |s| ==> !IsKeyByte(s[e]))
    ensures RunEnd(s, j) == e
  {
  }

  lemma IndexOfIs(s: Bytes, b: byte, i: nat)
    requires i < |s| && s[i] == b && b !in s[..i]
    ensures IndexOf(s, b) == Some(i)
  {
  }

  /** A separator inside a prefix is one in the whole text, and conversely when the prefix
      ends just before a '^'. */
  lemma SepInPrefix(v: Bytes, tail: Bytes, i: nat)
    requires i < |v| && (tail != [] ==> tail[0] == CARET)
    ensures SepAt(v, i) <==> SepAt(v + tail, i)
  {
    if v[i] == CARET { RunEndIs(v + tail, i + 1, RunEnd(v, i + 1)); }
  }

  lemma SepBefore(s: Bytes, n: nat, i: nat)
    requires i < n <= |s| && SepAt(s[..n], i)
    ensures SepAt(s, i)
  {
    RunEndIs(s, i + 1, RunEnd(s[..n], i + 1));
  }

  lemma SepAtKey(v: Bytes, k: Bytes, rest: Bytes)
    requires forall i :: 0 <= i < |k| ==> IsKeyByte(k[i])
    ensures SepAt(v + [CARET] + (k + [EQ] + rest), |v|)
  {
    RunEndIs(v + [CARET] + (k + [EQ] + rest), |v| + 1, |v| + 1 + |k|);
  }

  lemma FirstSepIs(s: Bytes, n: nat)
    requires n < |s| && SepAt(s, n) && forall i :: 0 <= i < n ==> !SepAt(s, i)
    ensures FirstSep(s, 0) == Some(n)
  {
    var r := FirstSep(s, 0);
    assert r.Some?;
  }

  lemma ParseHead(out: Params, key: Bytes, rest: Bytes)
    requires key != [] && EQ !in key
    ensures ParseInto(out, key + [EQ] + rest) ==
      match FirstSep(rest, 0)
      case None => out[key := rest]
      case Some(next) => ParseInto(out[key := rest[..next]], rest[next + 1..])
  {
    var text := key + [EQ] + rest;
    assert text[..|key|] == key && text[|key| + 1..] == rest;
    IndexOfIs(text, EQ, |key|);
  }

  lemma NoEarlierSep(s: Bytes, n: nat)
    requires n < |s| && s[n] == CARET && PatternFree(s[..n])
    ensures forall i :: 0 <= i < n ==> !SepAt(s, i)
  {
    assert s == s[..n] + s[n..];
    forall i | 0 <= i < n ensures !SepAt(s, i) { SepInPrefix(s[..n], s[n..], i); }
  }

  /** A pattern-free value ends at the '^' before the next key. */
  lemma ValueEnds(v: Bytes, k: Bytes, after: Bytes)
    requires PatternFree(v) && AllKeyBytes(k)
    ensures FirstSep(v + [CARET] + (k + [EQ] + after), 0) == Some(|v|)
  {
    var rest := v + [CARET] + (k + [EQ] + after);
    SepAtKey(v, k, after);
    assert rest[..|v|] == v;
    NoEarlierSep(rest, |v|);
    FirstSepIs(rest, |v|);
  }

  lemma JoinedHead(ps: seq<Pair>) returns (after: Bytes)
    requires ps != []
    ensures JoinPairs(ps) == ps[0].key + [EQ] + after
  {
    after := if |ps| == 1 then ps[0].value else ps[0].value + [CARET] + JoinPairs(ps[1..]);
  }

  /** One pair followed by more text is split off at its '^'. */
  lemma ParsePair(out: Params, p: Pair, k: Bytes, after: Bytes)
    requires p.key != [] && EQ !in p.key && PatternFree(p.value) && AllKeyBytes(k)
    ensures ParseInto(out, Show(p) + [CARET] + (k + [EQ] + after)) == ParseInto(out[p.key := p.value], k + [EQ] + after)
  {
    var next := k + [EQ] + after;
    var rest := p.value + [CARET] + next;
    assert Show(p) + [CARET] + next == p.key + [EQ] + rest;
    ParseHead(out, p.key, rest);
    ValueEnds(p.value, k, after);
    assert rest[..|p.value|] == p.value && rest[|p.value| + 1..] == next;
  }

  lemma KeysTail(ps: seq<Pair>)
    requires |ps| > 1 && KeysOk(ps) && ValuesOk(ps)
    ensures KeysOk(ps[1..]) && ValuesOk(ps[1..]) && AllKeyBytes(ps[1].key)
  {
    assert EQ !in ps[1].key;
  }

  /** Parsing a joined list adds its pairs in order. */
  lemma {:induction false} ParseJoined(out: Params, ps: seq<Pair>)
    requires KeysOk(ps) && ValuesOk(ps)
    ensures ParseInto(out, JoinPairs(ps)) == AddAll(out, ps)
    decreases |ps|
  {
    if |ps| == 1 {
      ParseHead(out, ps[0].key, ps[0].value);
      assert AddAll(out, ps) == out[ps[0].key := ps[0].value];
    } else if |ps| > 1 {
      var more := ps[1..];
      KeysTail(ps);
      var after := JoinedHead(more);
      ParsePair(out, ps[0], more[0].key, after);
      ParseJoined(out[ps[0].key := ps[0].value], more);
    }
  }

  // ---- What parsing can yield ----

  predicate ValuesFree(m: Params) { forall k :: k in m ==> PatternFree(m[k]) }

  lemma FirstPartFree(s: Bytes, n: nat)
    requires n <= |s| && forall i :: 0 <= i < n ==> !SepAt(s, i)
    ensures PatternFree(s[..n])
  {
    forall i | 0 <= i < n ensures !SepAt(s[..n], i) {
      if SepAt(s[..n], i) { SepBefore(s, n, i); }
    }
  }

  lemma {:induction false} ParsedValuesFree(out: Params, params: Bytes)
    requires ValuesFree(out)
    ensures ValuesFree(ParseInto(out, params))
    decreases |params|
  {
    var eq := IndexOf(params, EQ);
    if eq.Some? && eq.value > 0 {
      var key, rest := params[..eq.value], params[eq.value + 1..];
      var r := FirstSep(rest, 0);
      if r.Some? {
        FirstPartFree(rest, r.value);
        ParsedValuesFree(out[key := rest[..r.value]], rest[r.value + 1..]);
      }
    }
  }

  predicate DistinctKeys(ps: seq<Pair>)
  {
    forall i, j :: 0 <= i < j < |ps| ==> ps[i].key != ps[j].key
  }

  lemma {:induction false} AddAllKeeps(out: Params, ps: seq<Pair>, k: Bytes)
    requires k in out && forall i :: 0 <= i < |ps| ==> ps[i].key != k
    ensures k in AddAll(out, ps) && AddAll(out, ps)[k] == out[k]
    decreases |ps|
  {
    if ps != [] { AddAllKeeps(out[ps[0].key := ps[0].value], ps[1..], k); }
  }

  lemma {:induction false} AddAllHas(out: Params, ps: seq<Pair>, i: nat)
    requires i < |ps| && DistinctKeys(ps)
    ensures ps[i].key in AddAll(out, ps) && AddAll(out, ps)[ps[i].key] == ps[i].value
    decreases |ps|
  {
    var out' := out[ps[0].key := ps[0].value];
    if i == 0 {
      AddAllKeeps(out', ps[1..], ps[0].key);
    } else {
      AddAllHas(out', ps[1..], i - 1);
    }
  }

  /** For distinct well-formed keys, parsing recovers every pair exactly when no value
      contains a '^' followed by key bytes and '='. */
  lemma OpenParamsRoundTripIff(ps: seq<Pair>)
    requires KeysOk(ps) && DistinctKeys(ps)
    ensures Parse(JoinPairs(ps)) == AddAll(map[], ps) <==> ValuesOk(ps)
    ensures forall i :: 0 <= i < |ps| ==>
      ps[i].key in AddAll(map[], ps) && AddAll(map[], ps)[ps[i].key] == ps[i].value
  {
    if ValuesOk(ps) { ParseJoined(map[], ps); }
    ParsedValuesFree(map[], JoinPairs(ps));
    forall i | 0 <= i < |ps|
      ensures ps[i].key in AddAll(map[], ps) && AddAll(map[], ps)[ps[i].key] == ps[i].value
    {
      AddAllHas(map[], ps, i);
    }
  }
}

/** The event hash (pkg/contract/contract.go, pkg/contract/__init__.py) and what a chain tip pins down. */
module EventHash {
  import opened Bytes
  import opened Decimal
  import ES = EventStore
  import MC = ModelChecker

  const BAR: byte := 0x7c

  datatype Fields = Fields(traceId: bytes, seqNo: uint64, kind: bytes, payloadHash: bytes, prevHash: bytes)

  /** The text that is hashed: five fields joined by bars. Python's f-string builds the same text. */
  function Raw(f: Fields): bytes {
    f.traceId + [BAR] + Digits(f.seqNo) + [BAR] + f.kind + [BAR] + f.payloadHash + [BAR] + f.prevHash
  }

  /** HashPayload: 64 lower-case hex digits. */
  function HashText(sha: Sha256, x: bytes): (h: bytes)
    ensures |h| == 64 && forall c <- h :: IsLowerHexDigit(c)
  {
    ToHex(sha(x))
  }

  /** HashEvent. */
  function HashEvent(sha: Sha256, traceId: bytes, seqNo: uint64, kind: bytes, payload: bytes, prevHash: bytes): bytes {
    HashText(sha, Raw(Fields(traceId, seqNo, kind, HashText(sha, payload), prevHash)))
  }

  // ---------------------------------------------------------------- the joined text is unambiguous

  lemma CutFirst(a: bytes, x: bytes, b: bytes, y: bytes)
    requires a + [BAR] + x == b + [BAR] + y && BAR !in a && BAR !in b
    ensures a == b && x == y
  {
    var s, t := a + [BAR] + x, b + [BAR] + y;
    assert s[|a|] == BAR && t[|b|] == BAR;
    assert forall i :: 0 <= i < |a| ==> s[i] == a[i];
    assert forall i :: 0 <= i < |b| ==> t[i] == b[i];
    assert |a| == |b|;
    assert s[..|a|] == a && t[..|b|] == b && s[|a| + 1..] == x && t[|b| + 1..] == y;
  }

  lemma CutLast(a: bytes, x: bytes, b: bytes, y: bytes)
    requires a + [BAR] + x == b + [BAR] + y && BAR !in x && BAR !in y
    ensures a == b && x == y
  {
    var s, t := a + [BAR] + x, b + [BAR] + y;
    assert s[|a|] == BAR && t[|b|] == BAR;
    assert forall i :: |a| < i < |s| ==> s[i] == x[i - |a| - 1];
    assert forall i :: |b| < i < |t| ==> t[i] == y[i - |b| - 1];
    assert |a| == |b|;
    assert s[..|a|] == a && t[..|b|] == b && s[|a| + 1..] == x && t[|b| + 1..] == y;
  }

  /** Hash fields hold hex digits, as the code only ever puts there. */
  predicate HexFields(f: Fields) {
    && (forall c <- f.payloadHash :: IsLowerHexDigit(c))
    && (forall c <- f.prevHash :: IsLowerHexDigit(c))
  }

  lemma NoBarInDigits(v: nat)
    ensures BAR !in Digits(v)
  {
  }

  /** It is enough that trace IDs, or else that event types, are free of bars. */
  lemma RawInjective(f: Fields, g: Fields)
    requires Raw(f) == Raw(g) && HexFields(f) && HexFields(g)
    requires (BAR !in f.traceId && BAR !in g.traceId) || (BAR !in f.kind && BAR !in g.kind)
    ensures f == g
  {
    hide Digits;
    NoBarInDigits(f.seqNo);
    NoBarInDigits(g.seqNo);
    var df, dg := Digits(f.seqNo), Digits(g.seqNo);
    assert BAR !in f.payloadHash && BAR !in g.payloadHash && BAR !in f.prevHash && BAR !in g.prevHash;
    var f3, g3 := f.traceId + [BAR] + df + [BAR] + f.kind, g.traceId + [BAR] + dg + [BAR] + g.kind;
    CutLast(f3 + [BAR] + f.payloadHash, f.prevHash, g3 + [BAR] + g.payloadHash, g.prevHash);
    CutLast(f3, f.payloadHash, g3, g.payloadHash);
    if BAR !in f.traceId && BAR !in g.traceId {
      assert f3 == f.traceId + [BAR] + (df + [BAR] + f.kind) && g3 == g.traceId + [BAR] + (dg + [BAR] + g.kind);
      CutFirst(f.traceId, df + [BAR] + f.kind, g.traceId, dg + [BAR] + g.kind);
      CutFirst(df, f.kind, dg, g.kind);
    } else {
      CutLast(f.traceId + [BAR] + df, f.kind, g.traceId + [BAR] + dg, g.kind);
      CutLast(f.traceId, df, g.traceId, dg);
    }
    DigitsInjective(f.seqNo, g.seqNo);
  }

  lemma SplitFirst(a: bytes, rest: bytes, n: nat)
    requires BAR !in a && n > 1
    ensures MC.Split(a + [BAR] + rest, BAR, n) == MC.Prepend([a], MC.Split(rest, BAR, n - 1))
  {
    var s := a + [BAR] + rest;
    assert s[|a|] == BAR && forall k :: 0 <= k < |a| ==> s[k] == a[k];
    MC.SplitStep(s, BAR, n, 0, |a|);
    assert s[0..] == s && s[0..|a|] == a && s[|a| + 1..] == rest;
  }

  /** Where each field stands in the text that is hashed: cut at its first four bars, it gives trace ID, decimal number,
      event type, payload hash and previous hash, in this order. */
  lemma HashEventReads(sha: Sha256, traceId: bytes, seqNo: uint64, kind: bytes, payload: bytes, prevHash: bytes)
    requires BAR !in traceId && BAR !in kind
    ensures exists text: bytes ::
      && HashEvent(sha, traceId, seqNo, kind, payload, prevHash) == ToHex(sha(text))
      && MC.Split(text, 0x7c, 5) == Some([traceId, Digits(seqNo), kind, ToHex(sha(payload)), prevHash])
    ensures ParseDigits(Digits(seqNo)) == seqNo
  {
    hide Digits, MC.Split;
    NoBarInDigits(seqNo);
    DigitsExact(seqNo);
    var d, h := Digits(seqNo), HashText(sha, payload);
    var text := Raw(Fields(traceId, seqNo, kind, h, prevHash));
    var t3 := h + [BAR] + prevHash;
    var t2 := kind + [BAR] + t3;
    var t1 := d + [BAR] + t2;
    BarsRegroup(traceId, d, kind, h, prevHash);
    assert BAR !in h;
    SplitFirst(traceId, t1, 5);
    SplitFirst(d, t2, 4);
    SplitFirst(kind, t3, 3);
    SplitFirst(h, prevHash, 2);
    LastSplit(prevHash);
    assert text == traceId + [BAR] + t1;
    assert [traceId] + ([d] + ([kind] + ([h] + [prevHash]))) == [traceId, d, kind, h, prevHash];
    assert MC.Split(text, 0x7c, 5) == Some([traceId, d, kind, h, prevHash]);
  }

  lemma LastSplit(s: bytes)
    ensures MC.Split(s, BAR, 1) == Some([s])
  {
  }

  lemma BarsRegroup(a: bytes, b: bytes, c: bytes, d: bytes, e: bytes)
    ensures a + [BAR] + b + [BAR] + c + [BAR] + d + [BAR] + e
         == a + [BAR] + (b + [BAR] + (c + [BAR] + (d + [BAR] + e)))
  {
  }

  ghost predicate Over(f: Fields, traceBytes: set<byte>, kindBytes: set<byte>) {
    HexFields(f) && (forall c <- f.traceId :: c in traceBytes) && (forall c <- f.kind :: c in kindBytes)
  }

  /** For alphabets that contain the digits, the joined text is unambiguous exactly when bars are kept out of
      trace IDs or out of event types. */
  lemma UnambiguousIff(traceBytes: set<byte>, kindBytes: set<byte>)
    requires forall c: byte | IsDigit(c) :: c in traceBytes && c in kindBytes
    ensures (forall f, g | Over(f, traceBytes, kindBytes) && Over(g, traceBytes, kindBytes) && Raw(f) == Raw(g) ::
               f == g)
       <==> BAR !in traceBytes || BAR !in kindBytes
  {
    if BAR !in traceBytes || BAR !in kindBytes {
      forall f, g | Over(f, traceBytes, kindBytes) && Over(g, traceBytes, kindBytes) && Raw(f) == Raw(g)
        ensures f == g
      {
        RawInjective(f, g);
      }
    } else {
      var one, two: byte := 0x31, 0x32;
      assert IsDigit(one) && IsDigit(two);
      var f, g := Fields([BAR, one], 2, [], [], []), Fields([], 1, [two, BAR], [], []);
      assert Digits(2) == [two] && Digits(1) == [one];
      assert Raw(f) == [BAR, one, BAR, two, BAR, BAR, BAR] == Raw(g);
      assert Over(f, traceBytes, kindBytes) && Over(g, traceBytes, kindBytes) && f != g;
    }
  }

  // ---------------------------------------------------------------- a tip hash fixes its history

  /** A stored event with the contents its hash was computed from. */
  datatype Record = Record(core: ES.Event, kind: bytes, payload: bytes)

  function Cores(rs: seq<Record>): (es: seq<ES.Event>)
    ensures |es| == |rs| && forall i :: 0 <= i < |rs| ==> es[i] == rs[i].core
  {
    seq(|rs|, i requires 0 <= i < |rs| => rs[i].core)
  }

  function FieldsOf(sha: Sha256, r: Record): Fields {
    Fields(r.core.traceId, r.core.seqNo, r.kind, HashText(sha, r.payload), r.core.prevHash)
  }

  /** A record of trace `t` whose hash is the event hash of its contents. Only the trace ID must be free of bars. */
  ghost predicate HashedRecord(sha: Sha256, t: bytes, r: Record) {
    && r.core.traceId == t && BAR !in t
    && r.core.eventHash == HashEvent(sha, t, r.core.seqNo, r.kind, r.payload, r.core.prevHash)
  }

  /** One trace, chained as the store demands, of hashed records. */
  ghost predicate HashedTrace(sha: Sha256, t: bytes, rs: seq<Record>) {
    ES.Chained(Cores(rs)) && forall r <- rs :: HashedRecord(sha, t, r)
  }

  /** The last record carries the hash before it; only a first record carries none. */
  lemma LastLinked(sha: Sha256, t: bytes, rs: seq<Record>)
    requires HashedTrace(sha, t, rs) && rs != []
    ensures var n := |rs| - 1;
      && rs[n].core.traceId == t
      && (n == 0 <==> rs[n].core.prevHash == [])
      && (n > 0 ==> rs[n].core.prevHash == rs[n - 1].core.eventHash)
  {
    hide Raw;
    var n := |rs| - 1;
    assert rs[n] in rs && ES.Linked(Cores(rs), n);
    if n > 0 { assert rs[n - 1] in rs; }
  }

  /** Everything the hash function was applied to for a trace. */
  ghost function Hashed(sha: Sha256, rs: seq<Record>): set<bytes> {
    (set r <- rs :: r.payload) + (set r <- rs :: Raw(FieldsOf(sha, r)))
  }

  ghost predicate NoCollision(sha: Sha256, inputs: set<bytes>) {
    forall x, y :: x in inputs && y in inputs && sha(x) == sha(y) ==> x == y
  }

  lemma HashTextInjective(sha: Sha256, inputs: set<bytes>, x: bytes, y: bytes)
    requires NoCollision(sha, inputs) && x in inputs && y in inputs && HashText(sha, x) == HashText(sha, y)
    ensures x == y
  {
    HexInjective(sha(x), sha(y));
  }

  lemma HashedPrefix(sha: Sha256, t: bytes, rs: seq<Record>)
    requires HashedTrace(sha, t, rs) && rs != []
    ensures HashedTrace(sha, t, rs[..|rs| - 1]) && Hashed(sha, rs[..|rs| - 1]) <= Hashed(sha, rs)
  {
    var n := |rs| - 1;
    var front := rs[..n];
    forall k | 0 <= k < n ensures ES.Linked(Cores(front), k) {
      assert ES.Linked(Cores(rs), k);
    }
    forall x | x in Hashed(sha, front) ensures x in Hashed(sha, rs) {
      var r :| r in front && (x == r.payload || x == Raw(FieldsOf(sha, r)));
      assert r in rs;
    }
  }

  /** Equal hashes of two records mean equal records, if the hash function does not collide on what was hashed. */
  lemma EqualHashEqualRecord(sha: Sha256, t: bytes, rs: seq<Record>, t': bytes, rs': seq<Record>)
    requires HashedTrace(sha, t, rs) && HashedTrace(sha, t', rs') && rs != [] && rs' != []
    requires NoCollision(sha, Hashed(sha, rs) + Hashed(sha, rs'))
    requires rs[|rs| - 1].core.eventHash == rs'[|rs'| - 1].core.eventHash
    ensures rs[|rs| - 1] == rs'[|rs'| - 1]
  {
    var r, r' := rs[|rs| - 1], rs'[|rs'| - 1];
    var inputs := Hashed(sha, rs) + Hashed(sha, rs');
    assert r in rs && r' in rs';
    PrevIsHex(sha, t, rs);
    PrevIsHex(sha, t', rs');
    hide Raw, HashText, Hashed;
    HashedOwn(sha, rs, r);
    HashedOwn(sha, rs', r');
    HashTextInjective(sha, inputs, Raw(FieldsOf(sha, r)), Raw(FieldsOf(sha, r')));
    RawInjective(FieldsOf(sha, r), FieldsOf(sha, r'));
    HashTextInjective(sha, inputs, r.payload, r'.payload);
  }

  lemma HashedOwn(sha: Sha256, rs: seq<Record>, r: Record)
    requires r in rs
    ensures r.payload in Hashed(sha, rs) && Raw(FieldsOf(sha, r)) in Hashed(sha, rs)
  {
  }

  lemma PrevIsHex(sha: Sha256, t: bytes, rs: seq<Record>)
    requires HashedTrace(sha, t, rs) && rs != []
    ensures HexFields(FieldsOf(sha, rs[|rs| - 1]))
  {
    hide Raw;
    var n := |rs| - 1;
    assert ES.Linked(Cores(rs), n);
    if n > 0 { assert rs[n - 1] in rs; }
  }

  /** A tip hash fixes the whole history behind it: trace, length, types, payloads and hashes. */
  lemma {:induction false} TipFixesTrace(sha: Sha256, t: bytes, rs: seq<Record>, t': bytes, rs': seq<Record>)
    requires HashedTrace(sha, t, rs) && HashedTrace(sha, t', rs')
    requires rs != [] && rs' != []
    requires NoCollision(sha, Hashed(sha, rs) + Hashed(sha, rs'))
    requires rs[|rs| - 1].core.eventHash == rs'[|rs'| - 1].core.eventHash
    ensures t == t' && rs == rs'
    decreases |rs|
  {
    hide Raw, HashText, Hashed, HashedTrace, NoCollision;
    var n, n' := |rs| - 1, |rs'| - 1;
    EqualHashEqualRecord(sha, t, rs, t', rs');
    LastLinked(sha, t, rs);
    LastLinked(sha, t', rs');
    if n > 0 {
      HashedPrefix(sha, t, rs);
      HashedPrefix(sha, t', rs');
      FewerInputs(sha, Hashed(sha, rs[..n]) + Hashed(sha, rs'[..n']), Hashed(sha, rs) + Hashed(sha, rs'));
      TipFixesTrace(sha, t, rs[..n], t', rs'[..n']);
    }
    assert rs == rs[..n] + [rs[n]] && rs' == rs'[..n'] + [rs'[n']];
  }

  lemma FewerInputs(sha: Sha256, few: set<bytes>, many: set<bytes>)
    requires few <= many && NoCollision(sha, many)
    ensures NoCollision(sha, few)
  {
  }

  /** `rs` are the events of trace `t` in a store, with contents that hash to their event hashes. */
  ghost predicate Annotates(sha: Sha256, s: ES.Store, t: bytes, rs: seq<Record>) {
    Cores(rs) == ES.Trace(s.log, t) && forall r <- rs :: HashedRecord(sha, t, r)
  }

  /** In store terms: two stores whose tips for two traces agree hold the same events for them. */
  lemma TipFixesHistory(sha: Sha256, es: seq<ES.Event>, t: bytes, rs: seq<Record>,
                        es': seq<ES.Event>, t': bytes, rs': seq<Record>)
    requires Annotates(sha, ES.Run(es), t, rs) && Annotates(sha, ES.Run(es'), t', rs')
    requires NoCollision(sha, Hashed(sha, rs) + Hashed(sha, rs'))
    requires t in ES.Run(es).lastHash && t' in ES.Run(es').lastHash
    requires ES.Run(es).lastHash[t] == ES.Run(es').lastHash[t']
    ensures t == t' && rs == rs' && ES.Trace(ES.Run(es).log, t) == ES.Trace(ES.Run(es').log, t')
  {
    hide HashedRecord, Hashed, ES.Run, ES.Trace;
    ES.RunIsValid(es);
    ES.RunIsValid(es');
    assert ES.TraceValid(ES.Run(es), t) && ES.TraceValid(ES.Run(es'), t');
    TipFixesTrace(sha, t, rs, t', rs');
  }
}

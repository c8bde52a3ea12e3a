/** The binary entry format of the write-ahead log (pkg/wal/wal.go): printer, parser, and
    what survives a round trip. */
module WalCodec {
  import opened Bytes

  datatype WALEntry = WALEntry(seqNo: uint64, traceId: bytes, eventHash: bytes, prevHash: bytes,
                               payload: bytes, checksum: bytes)

  datatype WalError = Corruption | InvalidFormat | Closed | SeekFailed

  /** Bytes before the payload, and the least size of a whole frame. */
  const HEADER: nat := 92
  const MIN_FRAME: nat := 124

  // ---------------------------------------------------------------- fields

  /** Go's copy into a zeroed 16-byte buffer. */
  function PadTrace(t: bytes): (p: bytes)
    ensures |p| == 16
  {
    if |t| >= 16 then t[..16] else t + Zeros(16 - |t|)
  }

  /** bytes.TrimRight(t, "\x00"). */
  function TrimZeros(t: bytes): (r: bytes)
    ensures r <= t
  {
    if t == [] || t[|t| - 1] != 0 then t else TrimZeros(t[..|t| - 1])
  }

  /** The 32 bytes stored for a hash text: anything but 64 characters is stored as zeros. */
  function HashField(h: bytes): (f: bytes)
    ensures |f| == 32
  {
    if |h| == 64 then FromHex(h) else Zeros(32)
  }

  /** The texts a trace ID and a hash come back as. */
  function StoredTrace(t: bytes): bytes {
    TrimZeros(PadTrace(t))
  }

  function StoredHash(h: bytes): (r: bytes)
    ensures |r| == 64
  {
    ToHex(HashField(h))
  }

  /** hexToBytes: fails exactly when the text is not 64 characters long. */
  method HexToBytes(hex: bytes) returns (r: Option<bytes>)
    ensures r == if |hex| == 64 then Some(HashField(hex)) else None
  {
    if |hex| != 64 {
      return None;
    }
    var out := new byte[32](_ => 0);
    for i := 0 to 32
      invariant forall k :: 0 <= k < i ==> out[k] == HexToByte(hex[2 * k], hex[2 * k + 1])
    {
      out[i] := HexToByte(hex[i * 2], hex[i * 2 + 1]);
    }
    forall k | 0 <= k < 32 ensures out[k] == FromHex(hex)[k] {
      FromHexAt(hex, k);
    }
    assert out[..] == FromHex(hex);
    r := Some(out[..]);
  }

  lemma {:induction false} FromHexAt(h: bytes, k: nat)
    requires |h| % 2 == 0 && k < |h| / 2
    ensures FromHex(h)[k] == HexToByte(h[2 * k], h[2 * k + 1])
  {
    if k > 0 {
      FromHexAt(h[2..], k - 1);
    }
  }

  // ---------------------------------------------------------------- printing

  function Header(e: WALEntry): (h: bytes)
    ensures |h| == HEADER
  {
    BigEndian(e.seqNo, 8) + PadTrace(e.traceId) + HashField(e.eventHash) + HashField(e.prevHash)
    + BigEndian(|e.payload| % U32, 4)
  }

  function Body(e: WALEntry): bytes {
    Header(e) + e.payload
  }

  function Encoding(sha: Sha256, e: WALEntry): (raw: bytes)
    ensures |raw| == MIN_FRAME + |e.payload|
  {
    Body(e) + sha(Body(e))
  }

  /** WALEntry.Encode: the buffer is filled field by field, then sealed with its hash. */
  method Encode(sha: Sha256, e: WALEntry) returns (data: bytes)
    ensures data == Encoding(sha, e)
  {
    hide PadTrace, BigEndian, FromHex;
    var buf: bytes := [];
    buf := buf + BigEndian(e.seqNo, 8);
    buf := buf + PadTrace(e.traceId);
    var eh := HexToBytes(e.eventHash);
    if eh.Some? {
      buf := buf + eh.value;
    } else {
      buf := buf + Zeros(32);
    }
    var ph := HexToBytes(e.prevHash);
    if ph.Some? {
      buf := buf + ph.value;
    } else {
      buf := buf + Zeros(32);
    }
    buf := buf + BigEndian(|e.payload| % U32, 4);
    assert buf == Header(e);
    buf := buf + e.payload;
    var sum := sha(buf);
    data := buf + sum;
  }

  // ---------------------------------------------------------------- parsing

  /** The payload length a header claims. */
  function ClaimedLength(raw: bytes): (n: nat)
    requires |raw| >= HEADER
    ensures n < U32
  {
    FromBigEndianRoundTrip(raw[88..92]);
    FieldWidths();
    FromBigEndian(raw[88..92])
  }

  /** Size of the frame at the front of `raw`. */
  function FrameSize(raw: bytes): nat
    requires |raw| >= HEADER
  {
    MIN_FRAME + ClaimedLength(raw)
  }

  function Fields(raw: bytes): WALEntry
    requires |raw| >= HEADER && FrameSize(raw) <= |raw|
  {
    var off := HEADER + ClaimedLength(raw);
    FromBigEndianRoundTrip(raw[..8]);
    FieldWidths();
    WALEntry(FromBigEndian(raw[..8]), TrimZeros(raw[8..24]), ToHex(raw[24..56]), ToHex(raw[56..88]),
             raw[HEADER..off], ToHex(raw[off..off + 32]))
  }

  /** The frame at the front carries the hash of everything before its last 32 bytes. */
  predicate Sealed(sha: Sha256, raw: bytes)
    requires |raw| >= HEADER && FrameSize(raw) <= |raw|
  {
    var off := HEADER + ClaimedLength(raw);
    raw[off..off + 32] == sha(raw[..off])
  }

  function Decoding(sha: Sha256, raw: bytes): Result<WALEntry, WalError> {
    if |raw| < MIN_FRAME || |raw| < FrameSize(raw) then Err(InvalidFormat)
    else if !Sealed(sha, raw) then Err(Corruption)
    else Ok(Fields(raw))
  }

  /** DecodeEntry: a cursor moves over the fields; checksums are compared as hex text. */
  method DecodeEntry(sha: Sha256, raw: bytes) returns (r: Result<WALEntry, WalError>)
    ensures r == Decoding(sha, raw)
  {
    if |raw| < MIN_FRAME {
      return Err(InvalidFormat);
    }
    FieldWidths();
    var off := 0;
    FromBigEndianRoundTrip(raw[off..off + 8]);
    var seqNo: uint64 := FromBigEndian(raw[off..off + 8]);
    off := off + 8;
    var traceId := TrimZeros(raw[off..off + 16]);
    off := off + 16;
    var eventHash := ToHex(raw[off..off + 32]);
    off := off + 32;
    var prevHash := ToHex(raw[off..off + 32]);
    off := off + 32;
    var payloadLen := FromBigEndian(raw[off..off + 4]);
    off := off + 4;
    if off + payloadLen + 32 > |raw| {
      return Err(InvalidFormat);
    }
    var payload := raw[off..off + payloadLen];
    off := off + payloadLen;
    var storedChecksum := ToHex(raw[off..off + 32]);
    var entry := WALEntry(seqNo, traceId, eventHash, prevHash, payload, storedChecksum);
    var computedSum := sha(raw[..off]);
    var expectedChecksum := ToHex(computedSum);
    if storedChecksum != expectedChecksum {
      return Err(Corruption);
    }
    HexInjective(raw[off..off + 32], computedSum);
    r := Ok(entry);
  }

  // ---------------------------------------------------------------- what a round trip keeps

  /** The entry a stored entry comes back as. */
  function Norm(sha: Sha256, e: WALEntry): WALEntry {
    WALEntry(e.seqNo, StoredTrace(e.traceId), StoredHash(e.eventHash), StoredHash(e.prevHash), e.payload,
             ToHex(sha(Body(e))))
  }

  lemma {:induction false} TrimPad(t: bytes)
    requires |t| <= 16
    ensures TrimZeros(t + Zeros(16 - |t|)) == TrimZeros(t)
    decreases 16 - |t|
  {
    var p := t + Zeros(16 - |t|);
    if |t| < 16 {
      TrimPad(t + [0]);
      assert (t + [0]) + Zeros(15 - |t|) == p;
      assert (t + [0])[..|t|] == t;
    } else {
      assert p == t;
    }
  }

  lemma {:induction false} PadTrim(t: bytes)
    requires |t| <= 16
    ensures TrimZeros(t) + Zeros(16 - |TrimZeros(t)|) == t + Zeros(16 - |t|)
  {
    if t != [] && t[|t| - 1] == 0 {
      PadTrim(t[..|t| - 1]);
      assert t[..|t| - 1] + Zeros(17 - |t|) == t + Zeros(16 - |t|);
    }
  }

  /** A trace ID that fits its field: at most 16 bytes, the last one not zero. */
  predicate TraceFits(t: bytes) {
    |t| <= 16 && (t == [] || t[|t| - 1] != 0)
  }

  /** Trace IDs survive exactly when they fit. */
  lemma TraceSurvives(t: bytes)
    ensures StoredTrace(t) == t <==> TraceFits(t)
  {
    if |t| <= 16 {
      TrimPad(t);
      assert PadTrace(t) == t + Zeros(16 - |t|);
      if t != [] && t[|t| - 1] == 0 {
        assert |TrimZeros(t)| < |t|;
      }
    }
  }

  lemma PadOfTrim(t: bytes)
    requires |t| == 16
    ensures PadTrace(TrimZeros(t)) == t
  {
    PadTrim(t);
    assert t + Zeros(0) == t;
    var r := TrimZeros(t);
    if |r| == 16 { assert r[..16] == r == t; }
  }

  lemma HashFieldOfHex(b: bytes)
    requires |b| == 32
    ensures HashField(ToHex(b)) == b
  {
    HexRoundTrip(b);
  }

  /** Storing the recovered entry writes the same bytes again. */
  lemma BodyOfNorm(sha: Sha256, e: WALEntry)
    ensures Body(Norm(sha, e)) == Body(e)
  {
    PadOfTrim(PadTrace(e.traceId));
    HashFieldOfHex(HashField(e.eventHash));
    HashFieldOfHex(HashField(e.prevHash));
  }

  lemma NormIdempotent(sha: Sha256, e: WALEntry)
    ensures Norm(sha, Norm(sha, e)) == Norm(sha, e)
    ensures Encoding(sha, Norm(sha, e)) == Encoding(sha, e)
  {
    BodyOfNorm(sha, e);
    PadOfTrim(PadTrace(e.traceId));
    HashFieldOfHex(HashField(e.eventHash));
    HashFieldOfHex(HashField(e.prevHash));
  }

  predicate IsHexHash(h: bytes) {
    |h| == 64 && forall c <- h :: IsLowerHexDigit(c)
  }

  lemma HashSurvives(h: bytes)
    ensures StoredHash(h) == h <==> IsHexHash(h)
  {
    if |h| == 64 { HexTextRoundTrip(h); }
  }

  predicate Storable(e: WALEntry) {
    TraceFits(e.traceId) && IsHexHash(e.eventHash) && IsHexHash(e.prevHash)
  }

  /** An entry comes back unchanged, apart from its checksum, exactly when it is storable. */
  lemma NormFixpoint(sha: Sha256, e: WALEntry)
    ensures Norm(sha, e).(checksum := e.checksum) == e <==> Storable(e)
  {
    TraceSurvives(e.traceId);
    HashSurvives(e.eventHash);
    HashSurvives(e.prevHash);
  }

  // ---------------------------------------------------------------- round trips

  /** The five header fields sit at fixed offsets. */
  lemma FiveFields(a: bytes, b: bytes, c: bytes, d: bytes, f: bytes, rest: bytes)
    requires |a| == 8 && |b| == 16 && |c| == 32 && |d| == 32 && |f| == 4
    ensures var raw := a + b + c + d + f + rest;
      raw[..8] == a && raw[8..24] == b && raw[24..56] == c && raw[56..88] == d && raw[88..92] == f
  {
    var raw := a + b + c + d + f + rest;
    assert raw[..8] == a;
    assert raw[8..24] == b;
    assert raw[24..56] == c;
    assert raw[56..88] == d;
    assert raw[88..92] == f;
  }

  lemma HeaderSlices(sha: Sha256, e: WALEntry, rest: bytes)
    ensures var raw := Encoding(sha, e) + rest;
      && raw[..8] == BigEndian(e.seqNo, 8) && raw[8..24] == PadTrace(e.traceId)
      && raw[24..56] == HashField(e.eventHash) && raw[56..88] == HashField(e.prevHash)
      && raw[88..92] == BigEndian(|e.payload| % U32, 4)
  {
    hide PadTrace, HashField, BigEndian;
    var tail := e.payload + sha(Body(e)) + rest;
    assert Encoding(sha, e) + rest == Header(e) + tail;
    FiveFields(BigEndian(e.seqNo, 8), PadTrace(e.traceId), HashField(e.eventHash), HashField(e.prevHash),
               BigEndian(|e.payload| % U32, 4), tail);
  }

  /** A frame announces its own size, whatever follows it. */
  lemma FrameSizeOfEncoding(sha: Sha256, e: WALEntry, rest: bytes)
    requires |e.payload| < U32
    ensures FrameSize(Encoding(sha, e) + rest) == |Encoding(sha, e)|
  {
    HeaderSlices(sha, e, rest);
    hide Encoding, BigEndian, FromBigEndian, PadTrace, HashField;
    FieldWidths();
    BigEndianRoundTrip(|e.payload|, 4);
  }

  /** Decoding what was encoded gives the normal form, exactly when the length field can hold the length. */
  lemma DecodeOfEncode(sha: Sha256, e: WALEntry)
    ensures Decoding(sha, Encoding(sha, e)) == Ok(Norm(sha, e)) <==> |e.payload| < U32
  {
    var raw := Encoding(sha, e);
    if |e.payload| < U32 {
      assert raw + [] == raw;
      HeaderSlices(sha, e, []);
      FrameSizeOfEncoding(sha, e, []);
      FieldWidths();
      BigEndianRoundTrip(e.seqNo, 8);
      var off := HEADER + |e.payload|;
      assert raw[..off] == Body(e);
      assert raw[off..off + 32] == sha(Body(e));
      assert raw[HEADER..off] == e.payload;
    }
  }

  /** Every accepted byte string starts with the encoding of the entry it decodes to. */
  lemma EncodeOfDecode(sha: Sha256, raw: bytes)
    requires Decoding(sha, raw).Ok?
    ensures var e := Decoding(sha, raw).value;
      && |e.payload| == ClaimedLength(raw) < U32
      && Encoding(sha, e) == raw[..MIN_FRAME + |e.payload|]
      && Norm(sha, e) == e
  {
    hide Header, PadTrace, TrimZeros, HashField, ToHex, BigEndian, FromBigEndian;
    var e := Fields(raw);
    var off := HEADER + ClaimedLength(raw);
    HeaderOfFields(raw);
    assert Body(e) == raw[..off];
    assert Encoding(sha, e) == raw[..off] + raw[off..off + 32];
    PadOfTrim(raw[8..24]);
    HashFieldOfHex(raw[24..56]);
    HashFieldOfHex(raw[56..88]);
  }

  lemma HeaderOfFields(raw: bytes)
    requires |raw| >= HEADER && FrameSize(raw) <= |raw|
    ensures Header(Fields(raw)) == raw[..92]
    ensures |Fields(raw).payload| == ClaimedLength(raw)
  {
    hide PadTrace, TrimZeros, HashField, ToHex, BigEndian, FromBigEndian;
    var e := Fields(raw);
    assert BigEndian(e.seqNo, 8) == raw[..8] by { FromBigEndianRoundTrip(raw[..8]); }
    assert PadTrace(e.traceId) == raw[8..24] by { PadOfTrim(raw[8..24]); }
    assert HashField(e.eventHash) == raw[24..56] by { HashFieldOfHex(raw[24..56]); }
    assert HashField(e.prevHash) == raw[56..88] by { HashFieldOfHex(raw[56..88]); }
    assert BigEndian(|e.payload| % U32, 4) == raw[88..92] by { FromBigEndianRoundTrip(raw[88..92]); }
    FiveJoin(raw);
  }

  lemma FiveJoin(raw: bytes)
    requires |raw| >= HEADER
    ensures raw[..8] + raw[8..24] + raw[24..56] + raw[56..88] + raw[88..92] == raw[..92]
  {
    assert raw[..8] + raw[8..24] == raw[..24];
    assert raw[..24] + raw[24..56] == raw[..56];
    assert raw[..56] + raw[56..88] == raw[..88];
    assert raw[..88] + raw[88..92] == raw[..92];
  }

  /** No encoding is a proper prefix of another. */
  lemma PrefixFree(sha: Sha256, e: WALEntry, f: WALEntry)
    requires |e.payload| < U32 && |f.payload| < U32
    requires Encoding(sha, e) <= Encoding(sha, f)
    ensures Encoding(sha, e) == Encoding(sha, f)
    ensures Norm(sha, e) == Norm(sha, f)
  {
    hide Encoding, Decoding, Norm, FrameSize;
    var rest := Encoding(sha, f)[|Encoding(sha, e)|..];
    assert Encoding(sha, f) == Encoding(sha, e) + rest;
    FrameSizeOfEncoding(sha, e, rest);
    FrameSizeOfEncoding(sha, f, []);
    assert Encoding(sha, f) + [] == Encoding(sha, f);
    DecodeOfEncode(sha, e);
    DecodeOfEncode(sha, f);
  }

  // ---------------------------------------------------------------- the layout, byte by byte

  lemma PadTraceAt(t: bytes, i: nat)
    requires i < 16
    ensures PadTrace(t)[i] == if i < |t| then t[i] else 0
  {
  }

  /** A trace ID comes back as its first 16 bytes without trailing zeros. */
  lemma {:induction false} TrimZerosOnly(t: bytes)
    ensures var r := TrimZeros(t);
      r <= t && (r == [] || r[|r| - 1] != 0) && forall i :: |r| <= i < |t| ==> t[i] == 0
  {
    if t != [] && t[|t| - 1] == 0 {
      TrimZerosOnly(t[..|t| - 1]);
    }
  }

  lemma StoredTraceIsPrefix(t: bytes)
    ensures var r := StoredTrace(t);
      && r <= t && |r| <= 16 && (r == [] || r[|r| - 1] != 0)
      && forall i :: |r| <= i < |t| && i < 16 ==> t[i] == 0
  {
    TrimZerosOnly(PadTrace(t));
    var r := StoredTrace(t);
    TraceField(t);
    assert r == PadTrace(t)[..|r|];
    assert t[..|r|] == r;
  }

  /** A hash text is stored as 32 bytes, two hex digits each, and anything else as zeros. */
  lemma HashFieldAt(h: bytes, i: nat)
    requires i < 32
    ensures HashField(h)[i] == if |h| == 64 then HexToByte(h[2 * i], h[2 * i + 1]) else 0
  {
    if |h| == 64 { FromHexAt(h, i); }
  }

  /** `f` is `v`, most significant byte first. */
  ghost predicate IsBigEndian(f: bytes, v: nat) {
    forall i :: 0 <= i < |f| ==> f[i] == (v / Pow256(|f| - 1 - i)) % 256
  }

  lemma BigEndianField(v: nat, n: nat)
    ensures IsBigEndian(BigEndian(v, n), v)
  {
    forall i | 0 <= i < n ensures BigEndian(v, n)[i] == (v / Pow256(n - 1 - i)) % 256 {
      BigEndianByte(v, n, i);
    }
  }

  /** The first 16 bytes of the trace ID, filled up with zeros. */
  ghost predicate IsTraceField(f: bytes, t: bytes) {
    |f| == 16 && forall i :: 0 <= i < 16 ==> f[i] == if i < |t| then t[i] else 0
  }

  lemma TraceField(t: bytes)
    ensures IsTraceField(PadTrace(t), t)
  {
    forall i | 0 <= i < 16 ensures PadTrace(t)[i] == if i < |t| then t[i] else 0 { PadTraceAt(t, i); }
  }

  /** The 32 bytes of a 64-digit hash text, two digits each, or zeros. */
  ghost predicate IsHashField(f: bytes, h: bytes) {
    |f| == 32 && forall i :: 0 <= i < 32 ==> f[i] == if |h| == 64 then HexToByte(h[2 * i], h[2 * i + 1]) else 0
  }

  lemma HashFieldIs(h: bytes)
    ensures IsHashField(HashField(h), h)
  {
    hide HashField, HexToByte;
    forall i | 0 <= i < 32 ensures HashField(h)[i] == if |h| == 64 then HexToByte(h[2 * i], h[2 * i + 1]) else 0 {
      HashFieldAt(h, i);
    }
  }

  /** Where every field of an encoding stands: number, trace ID, event hash, previous hash, payload length, payload,
      and the hash of all bytes before it. */
  lemma EncodingLayout(sha: Sha256, e: WALEntry)
    ensures var raw, n := Encoding(sha, e), |e.payload|;
      && |raw| == 124 + n
      && IsBigEndian(raw[..8], e.seqNo)
      && IsTraceField(raw[8..24], e.traceId)
      && IsHashField(raw[24..56], e.eventHash)
      && IsHashField(raw[56..88], e.prevHash)
      && IsBigEndian(raw[88..92], n % 0x1_0000_0000)
      && raw[92..92 + n] == e.payload
      && raw[92 + n..] == sha(raw[..92 + n])
  {
    var raw := Encoding(sha, e);
    var body := Body(e);
    assert raw[..|body|] == body && raw[|body|..] == sha(body) && body[92..] == e.payload by {
      hide Header;
    }
    assert raw[92..92 + |e.payload|] == raw[..|body|][92..];
    HeaderSlices(sha, e, []);
    assert raw + [] == raw;
    hide Encoding, Body, Header, IsBigEndian, IsTraceField, IsHashField, PadTrace, HashField, BigEndian;
    BigEndianField(e.seqNo, 8);
    TraceField(e.traceId);
    HashFieldIs(e.eventHash);
    HashFieldIs(e.prevHash);
    BigEndianField(|e.payload| % U32, 4);
  }

  /** The length a header claims, from its four bytes. */
  function LengthField(raw: bytes): nat
    requires |raw| >= 92
  {
    256 * (256 * (256 * (raw[88] as int) + raw[89] as int) + raw[90] as int) + raw[91] as int
  }

  lemma ClaimedLengthIs(raw: bytes)
    requires |raw| >= HEADER
    ensures ClaimedLength(raw) == LengthField(raw)
  {
    var b := raw[88..92];
    assert b[..3][..2] == raw[88..90] && raw[88..90][..1] == [raw[88]] && [raw[88]][..0] == [];
    assert FromBigEndian([raw[88]]) == raw[88] as int;
    assert FromBigEndian(raw[88..90]) == 256 * (raw[88] as int) + raw[89] as int;
    assert b[..3] == raw[88..91] && raw[88..91][..2] == raw[88..90];
    assert FromBigEndian(raw[88..91]) == 256 * FromBigEndian(raw[88..90]) + raw[90] as int;
    assert FromBigEndian(b) == 256 * FromBigEndian(raw[88..91]) + raw[91] as int;
  }

  /** Which inputs DecodeEntry accepts, and which error the others get. */
  lemma DecodingVerdict(sha: Sha256, raw: bytes)
    ensures Decoding(sha, raw) == Err(InvalidFormat) <==> |raw| < 124 || |raw| < 124 + LengthField(raw)
    ensures Decoding(sha, raw) == Err(Corruption) <==>
      && |raw| >= 124 && |raw| >= 124 + LengthField(raw)
      && var n := 92 + LengthField(raw); raw[n..n + 32] != sha(raw[..n])
  {
    hide Fields;
    if |raw| >= HEADER { ClaimedLengthIs(raw); }
  }
}

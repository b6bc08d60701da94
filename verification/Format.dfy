/** Encode and Decode: what they compute, and the loops that compute it. */
module Format {
  import opened Outcome
  import opened Bytes
  import opened Seqs
  import opened Layout

  const PRESENT: byte := 0
  const RESERVED: byte := 1
  const CODEC_NONE: byte := 0
  const CODEC_XZ: byte := 1

  datatype Slice = Slice(arch: seq<byte>, status: byte, codec: byte, rawLen: uint64, data: seq<byte>)

  datatype Blob = Blob(slices: seq<Slice>)

  // ---------- Encode

  /** `copy` into a zeroed [8]byte. */
  function PadName(arch: seq<byte>): Name {
    if |arch| >= 8 then arch[..8] else arch + Zeros(8 - |arch|)
  }

  /** The bytes of `name` before its first NUL. */
  function TrimNul(name: seq<byte>): (r: seq<byte>)
    ensures |r| <= |name| && r == name[..|r|]
    ensures 0 !in r
    ensures |r| < |name| ==> name[|r|] == 0
  {
    if name == [] || name[0] == 0 then [] else [name[0]] + TrimNul(name[1..])
  }

  function PayloadLen(ss: seq<Slice>): nat {
    if ss == [] then 0 else PayloadLen(ss[..|ss| - 1]) + |ss[|ss| - 1].data|
  }

  function Payload(ss: seq<Slice>): (p: seq<byte>)
    ensures |p| == PayloadLen(ss)
  {
    if ss == [] then [] else Payload(ss[..|ss| - 1]) + ss[|ss| - 1].data
  }

  function EncodedLen(b: Blob): nat {
    INDEX_START + ENTRY_LEN * |b.slices| + PayloadLen(b.slices) + TRAILER_LEN
  }

  /** The offset the index loop has accumulated, in Go's `uint64`, when it reaches slice `i`. */
  function OffsetAt(ss: seq<Slice>, i: nat): uint64
    requires i <= |ss|
  {
    if i == 0 then 0 else ToU64(OffsetAt(ss, i - 1) + ToU64(|ss[i - 1].data|))
  }

  function EntryFor(s: Slice, offset: uint64): Entry {
    Entry(PadName(s.arch), s.status, s.codec, Zeros(6), offset, ToU64(|s.data|), s.rawLen)
  }

  function EntriesOf(ss: seq<Slice>): (es: seq<Entry>)
    ensures |es| == |ss|
    ensures forall i {:trigger es[i]} :: 0 <= i < |ss| ==> es[i] == EntryFor(ss[i], OffsetAt(ss, i))
  {
    seq(|ss|, i requires 0 <= i < |ss| => EntryFor(ss[i], OffsetAt(ss, i)))
  }

  function FrameOf(b: Blob): (f: Frame)
    ensures f.Size() == EncodedLen(b)
  {
    Frame(EntriesOf(b.slices), Payload(b.slices))
  }

  function SliceError(s: Slice): Option<Error> {
    if |s.arch| > 8 then Some(ArchTooLong)
    else if s.codec != CODEC_NONE && s.codec != CODEC_XZ then Some(UnknownCodec)
    else None
  }

  function FirstError(ss: seq<Slice>): Option<Error> {
    if ss == [] then None
    else if SliceError(ss[0]).Some? then SliceError(ss[0])
    else FirstError(ss[1..])
  }

  function Encode(w: Width, b: Blob): Result<seq<byte>, Error> {
    if |b.slices| > 0xFFFF then Err(TooManySlices)
    else if FirstError(b.slices).Some? then Err(FirstError(b.slices).value)
    else if EncodedLen(b) > w.MaxInt() then Err(SizeOverflow)
    else Ok(FormatFrame(FrameOf(b)))
  }

  /** Go's `append`, which panics when the new length does not fit `int`. */
  function Append(w: Width, out: seq<byte>, more: seq<byte>): Result<seq<byte>, Error> {
    if |out| + |more| > w.MaxInt() then Err(SizeOverflow) else Ok(out + more)
  }

  lemma {:induction false} PayloadLenPrefix(ss: seq<Slice>, i: nat)
    requires i <= |ss|
    ensures PayloadLen(ss[..i]) <= PayloadLen(ss)
    ensures i < |ss| ==> PayloadLen(ss[..i]) + |ss[i].data| == PayloadLen(ss[..i + 1]) <= PayloadLen(ss)
    decreases |ss| - i
  {
    if i == |ss| {
      assert ss[..i] == ss;
    } else {
      PrefixSnoc(ss, i);
      PayloadLenPrefix(ss, i + 1);
    }
  }

  lemma {:induction false} PayloadPrefix(ss: seq<Slice>, i: nat)
    requires i <= |ss|
    ensures Payload(ss[..0]) == []
    ensures Payload(ss[..i]) <= Payload(ss)
    ensures i < |ss| ==> Payload(ss[..i + 1]) == Payload(ss[..i]) + ss[i].data
    decreases |ss| - i
  {
    if i == |ss| {
      assert ss[..i] == ss;
    } else {
      PrefixSnoc(ss, i);
      PayloadPrefix(ss, i + 1);
      PrefixTrans(Payload(ss[..i]), Payload(ss[..i + 1]), Payload(ss));
    }
  }

  /** One round of the index loop: the fields appended in order are the entry. */
  method AppendEntry(buf: seq<byte>, s: Slice, offset: uint64) returns (out: seq<byte>)
    ensures out == buf + FormatEntry(EntryFor(s, offset))
  {
    out := buf + PadName(s.arch);
    out := out + [s.status];
    out := out + [s.codec];
    out := out + Zeros(6);
    out := out + LE(offset, 8);
    out := out + LE(ToU64(|s.data|), 8);
    out := out + LE(s.rawLen, 8);
  }

  /** First pass: check every slice and add up the payload in wrapping `int` arithmetic. */
  method MeasurePayload(w: Width, ss: seq<Slice>) returns (r: Result<int, Error>)
    ensures r == if FirstError(ss).Some? then Err(FirstError(ss).value) else Ok(w.Wrap(PayloadLen(ss)))
  {
    hide Width.Wrap;
    WrapOfSize(w, 0);
    var payloadLen := 0;
    for i := 0 to |ss|
      invariant FirstError(ss) == FirstError(ss[i..])
      invariant payloadLen == w.Wrap(PayloadLen(ss[..i]))
    {
      if |ss[i].arch| > 8 {
        return Err(ArchTooLong);
      }
      if ss[i].codec != CODEC_NONE && ss[i].codec != CODEC_XZ {
        return Err(UnknownCodec);
      }
      PrefixSnoc(ss, i);
      WrapAbsorbs(w, PayloadLen(ss[..i]), |ss[i].data|);
      payloadLen := w.Wrap(payloadLen + |ss[i].data|);
    }
    assert ss[..|ss|] == ss;
    return Ok(payloadLen);
  }

  /** `offset += uint64(len(s.Data))`. */
  method Advance(ss: seq<Slice>, i: nat, offset: uint64) returns (next: uint64)
    requires i < |ss| && offset == OffsetAt(ss, i)
    ensures next == OffsetAt(ss, i + 1)
  {
    next := ToU64(offset + ToU64(|ss[i].data|));
  }

  /** Second pass: the index, with a running `uint64` offset. */
  method AppendIndex(buf: seq<byte>, ss: seq<Slice>) returns (out: seq<byte>)
    ensures out == buf + Index(EntriesOf(ss))
  {
    hide FormatEntry, EntryFor, ToU64, Index;
    ghost var es := EntriesOf(ss);
    var offset: uint64;
    out, offset := buf, 0;
    for i := 0 to |ss|
      invariant out == buf + Index(es[..i])
      invariant offset == OffsetAt(ss, i)
    {
      IndexSnoc(es, i);
      out := AppendEntry(out, ss[i], offset);
      offset := Advance(ss, i, offset);
    }
    assert es[..|ss|] == es;
  }

  lemma IndexSnoc(es: seq<Entry>, i: nat)
    requires i < |es|
    ensures Index(es[..i + 1]) == Index(es[..i]) + FormatEntry(es[i])
  {
    hide FormatEntry;
    PrefixSnoc(es, i);
  }

  /** Third pass: the payload region. */
  method AppendPayload(w: Width, buf: seq<byte>, ss: seq<Slice>) returns (r: Result<seq<byte>, Error>)
    requires |buf| <= w.MaxInt()
    ensures r == Append(w, buf, Payload(ss))
  {
    hide Payload;
    PayloadPrefix(ss, 0);
    var out := buf;
    for i := 0 to |ss|
      invariant out == buf + Payload(ss[..i]) && |out| <= w.MaxInt()
    {
      PayloadPrefix(ss, i);
      PayloadPrefix(ss, i + 1);
      out :- Append(w, out, ss[i].data);
    }
    assert ss[..|ss|] == ss;
    return Ok(out);
  }

  /** Encode as the source writes it: the total computed up front in wrapping
      `int` arithmetic, then an append-only buffer. When the true size does not
      fit `int`, either `make` or a later `append` panics. */
  method EncodeLoop(w: Width, b: Blob) returns (r: Result<seq<byte>, Error>)
    ensures r == Encode(w, b)
  {
    var count := |b.slices|;
    if count > 0xFFFF {
      return Err(TooManySlices);
    }
    var payloadLen :- MeasurePayload(w, b.slices);
    var total := w.Wrap(payloadLen + (MAGIC_LEN + 2 + count * ENTRY_LEN + TRAILER_LEN));
    WrapAbsorbs(w, PayloadLen(b.slices), MAGIC_LEN + 2 + count * ENTRY_LEN + TRAILER_LEN);
    assert total == w.Wrap(EncodedLen(b));
    if total < 0 {
      WrapOfSize(w, EncodedLen(b));
      return Err(SizeOverflow);
    }
    // Header and index take under 3 MB, so only the payload and trailer can outgrow `int`.
    var out := MAGIC + LE(count, 2);
    out := AppendIndex(out, b.slices);
    out :- AppendPayload(w, out, b.slices);
    out :- Append(w, out, LE(total, 8));
    out :- Append(w, out, TRAILER_MAGIC);
    WrapOfSize(w, EncodedLen(b));
    if |out| != total {
      assert false;  // the source's internal length check cannot fail
    }
    assert out == FormatFrame(FrameOf(b));
    return Ok(out);
  }

  // ---------- Decode

  /** The range an entry names once its fields are cut down to `int`. */
  predicate InRange(w: Width, e: Entry, size: nat) {
    w.Low(e.offset) + w.Low(e.length) <= size
  }

  function SliceOf(w: Width, e: Entry, payload: seq<byte>): Slice
    requires InRange(w, e, |payload|)
  {
    var start := w.Low(e.offset);
    var data := payload[start..start + w.Low(e.length)];
    Slice(TrimNul(e.name), e.status, e.codec, e.rawLen, data)
  }

  predicate AllInRange(w: Width, f: Frame) {
    forall i :: 0 <= i < |f.entries| ==> InRange(w, f.entries[i], |f.payload|)
  }

  function BlobOf(w: Width, f: Frame): (b: Blob)
    requires AllInRange(w, f)
    ensures |b.slices| == |f.entries|
    ensures forall i :: 0 <= i < |f.entries| ==> b.slices[i] == SliceOf(w, f.entries[i], f.payload)
  {
    Blob(seq(|f.entries|, i requires 0 <= i < |f.entries| => SliceOf(w, f.entries[i], f.payload)))
  }

  function Decode(w: Width, d: seq<byte>): Result<Blob, Error> {
    var f :- ParseFrame(d);
    if AllInRange(w, f) then Ok(BlobOf(w, f)) else Err(OutOfRange)
  }

  /** The arithmetic of the range check: `o` and `l` are the low bits of the
      fields, and each of the two sums has wrapped at most once. */
  lemma SignedRange(max: nat, ps: nat, pe: nat, o: nat, l: nat, start: int, end: int)
    requires ps <= pe <= max && o < 2 * (max + 1) && l < 2 * (max + 1)
    requires var so := if o <= max then o else o - 2 * (max + 1);
             start == (if ps + so <= max then ps + so else ps + so - 2 * (max + 1)) && ps <= start
    requires var sl := if l <= max then l else l - 2 * (max + 1);
             end == if start + sl <= max then start + sl else start + sl - 2 * (max + 1)
    ensures (end <= pe && start <= end) <==> o + l <= pe - ps
    ensures end <= pe && start <= end ==> start == ps + o && end == start + l
  {
  }

  /** The three comparisons of the source, on `int` values that may have wrapped,
      decide exactly whether the truncated range lies inside the payload region;
      no wrap-around slips past them, and the bounds they leave are the ranges'. */
  lemma RangeCheck(w: Width, payloadStart: nat, payloadEnd: nat, offset: uint64, length: uint64)
    requires payloadStart <= payloadEnd <= w.MaxInt()
    ensures var start := w.Wrap(payloadStart + w.Wrap(offset));
            var end := w.Wrap(start + w.Wrap(length));
            var rejected := start < payloadStart || end > payloadEnd || end < start;
            && (!rejected <==> w.Low(offset) + w.Low(length) <= payloadEnd - payloadStart)
            && (!rejected ==> start == payloadStart + w.Low(offset) && end == start + w.Low(length))
            && (w == W64 ==> (!rejected <==> offset + length <= payloadEnd - payloadStart))
  {
    hide Width.Wrap, Width.Low;
    var start := w.Wrap(payloadStart + w.Wrap(offset));
    var end := w.Wrap(start + w.Wrap(length));
    WrapIsSigned(w, offset);
    WrapIsSigned(w, length);
    WrapOnce(w, payloadStart + w.Wrap(offset));
    if start >= payloadStart {
      WrapOnce(w, start + w.Wrap(length));
      SignedRange(w.MaxInt(), payloadStart, payloadEnd, w.Low(offset), w.Low(length), start, end);
    }
    AllBits(offset);
    AllBits(length);
  }

  /** One round of the decode loop. Its slice expression is in bounds whenever it is reached. */
  method DecodeEntry(w: Width, d: seq<byte>, payloadStart: nat, e: seq<byte>) returns (r: Result<Slice, Error>)
    requires payloadStart + TRAILER_LEN <= |d| <= w.MaxInt() && |e| == ENTRY_LEN
    ensures var payload := d[payloadStart..|d| - TRAILER_LEN];
            r == if InRange(w, ParseEntry(e), |payload|) then Ok(SliceOf(w, ParseEntry(e), payload))
                 else Err(OutOfRange)
  {
    hide TrimNul, FromLE, Width.Wrap, Width.Low;
    var payloadEnd := |d| - TRAILER_LEN;
    var arch := TrimNul(e[0..8]);
    var status, codec := e[8], e[9];
    var offset, length, rawLen := U64(e[16..24]), U64(e[24..32]), U64(e[32..40]);

    var start := w.Wrap(payloadStart + w.Wrap(offset));
    var end := w.Wrap(start + w.Wrap(length));
    RangeCheck(w, payloadStart, payloadEnd, offset, length);
    if start < payloadStart || end > payloadEnd || end < start {
      return Err(OutOfRange);
    }
    var payload: seq<byte> := [];
    if length > 0 {
      payload := d[start..end];
    }
    SliceOfSlice(d, payloadStart, payloadEnd, start - payloadStart, end - payloadStart);
    return Ok(Slice(arch, status, codec, rawLen, payload));
  }

  /** Decode as the source writes it, on every byte string whose length fits the host's `int`. */
  method DecodeLoop(w: Width, d: seq<byte>) returns (r: Result<Blob, Error>)
    requires |d| <= w.MaxInt()
    ensures r == Decode(w, d)
  {
    if |d| < MAGIC_LEN + 2 + TRAILER_LEN {
      return Err(TooShort);
    }
    if d[..MAGIC_LEN] != MAGIC {
      if d[..MAGIC_LEN] == MAGIC_V1 {
        return Err(OldVersion);
      }
      return Err(BadMagic);
    }
    if d[|d| - MAGIC_LEN..] != TRAILER_MAGIC {
      return Err(BadTrailerMagic);
    }
    if U64(d[|d| - TRAILER_LEN..|d| - MAGIC_LEN]) != |d| {
      return Err(BadTrailerLength);
    }
    var count := U16(d[MAGIC_LEN..MAGIC_LEN + 2]);
    var payloadStart := INDEX_START + count * ENTRY_LEN;
    if payloadStart + TRAILER_LEN > |d| {
      return Err(IndexOverrun);
    }
    assert ParseFrame(d) == Ok(Frame(ParseIndex(d, count), d[payloadStart..|d| - TRAILER_LEN]));
    r := DecodeEntries(w, d, count, payloadStart);
  }

  /** The loop of Decode, which stops at the first entry that is out of range. */
  method DecodeEntries(w: Width, d: seq<byte>, count: nat, payloadStart: nat) returns (r: Result<Blob, Error>)
    requires payloadStart == INDEX_START + count * ENTRY_LEN
    requires payloadStart + TRAILER_LEN <= |d| <= w.MaxInt()
    ensures var f := Frame(ParseIndex(d, count), d[payloadStart..|d| - TRAILER_LEN]);
            r == if AllInRange(w, f) then Ok(BlobOf(w, f)) else Err(OutOfRange)
  {
    hide ParseEntry, SliceOf, InRange;
    ghost var f := Frame(ParseIndex(d, count), d[payloadStart..|d| - TRAILER_LEN]);
    var slices: seq<Slice> := [];
    for i := 0 to count
      invariant |slices| == i
      invariant forall j :: 0 <= j < i ==> InRange(w, f.entries[j], |f.payload|)
      invariant forall j :: 0 <= j < i ==> slices[j] == SliceOf(w, f.entries[j], f.payload)
    {
      var e := d[INDEX_START + i * ENTRY_LEN..INDEX_START + (i + 1) * ENTRY_LEN];
      assert e == EntryBytes(d, i);
      var s :- DecodeEntry(w, d, payloadStart, e);
      slices := slices + [s];
    }
    assert slices == BlobOf(w, f).slices;
    return Ok(Blob(slices));
  }
}

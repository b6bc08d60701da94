/** Per-slice compression, over an arbitrary xz encoder and decoder. */
module Compression {
  import opened Outcome
  import opened Bytes
  import opened Layout
  import opened Format

  /** An encoder (which may fail) and a decoder (which may reject). */
  datatype Xz = Xz(enc: seq<byte> -> Option<seq<byte>>, dec: seq<byte> -> Option<seq<byte>>)

  /** All that is assumed of them: streams are not empty and decode to what was
      encoded. Nothing is assumed about their size. */
  ghost predicate Lawful(xz: Xz) {
    forall raw :: xz.enc(raw).Some? ==>
      xz.enc(raw).value != [] && xz.dec(xz.enc(raw).value) == Some(raw)
  }

  /** How a slice's data is stored. */
  datatype Stored = Stored(codec: byte, data: seq<byte>)

  function Compress(xz: Xz, raw: seq<byte>): Result<Stored, Error> {
    match xz.enc(raw)
    case None => Err(CompressFailed)
    case Some(comp) => Ok(if |comp| >= |raw| then Stored(CODEC_NONE, raw) else Stored(CODEC_XZ, comp))
  }

  function Decompress(xz: Xz, codec: byte, data: seq<byte>, rawLen: uint64): Result<seq<byte>, Error> {
    if codec == CODEC_NONE then Ok(data)
    else if codec == CODEC_XZ then
      match xz.dec(data)
      case None => Err(CorruptStream)
      case Some(out) => if ToU64(|out|) != rawLen then Err(LengthMismatch) else Ok(out)
    else Err(UnknownCodec)
  }

  predicate Embedded(s: Slice) { s.status == PRESENT && s.data != [] }

  function CompressSlice(xz: Xz, s: Slice): Result<Slice, Error> {
    if !Embedded(s) then Ok(Slice(s.arch, s.status, CODEC_NONE, 0, s.data))
    else if s.codec != CODEC_NONE then Err(AlreadyCompressed)
    else
      var Stored(codec, data) :- Compress(xz, s.data);
      Ok(Slice(s.arch, s.status, codec, ToU64(|s.data|), data))
  }

  function FirstFailure(xz: Xz, ss: seq<Slice>): (f: Option<Error>)
    ensures f.None? ==> forall i :: 0 <= i < |ss| ==> CompressSlice(xz, ss[i]).Ok?
  {
    if ss == [] then None
    else if CompressSlice(xz, ss[0]).Err? then Some(CompressSlice(xz, ss[0]).error)
    else
      assert forall i :: 0 < i < |ss| ==> ss[i] == ss[1..][i - 1];
      FirstFailure(xz, ss[1..])
  }

  function CompressBlob(xz: Xz, raw: Blob): Result<Blob, Error> {
    var ss := raw.slices;
    match FirstFailure(xz, ss)
    case Some(e) => Err(e)
    case None => Ok(Blob(seq(|ss|, i requires 0 <= i < |ss| => CompressSlice(xz, ss[i]).value)))
  }

  /** CompressBlob as the source writes it: a slice table of the final size,
      filled in place, abandoned at the first slice that fails. */
  method CompressBlobLoop(xz: Xz, raw: Blob) returns (r: Result<Blob, Error>)
    ensures r == CompressBlob(xz, raw)
  {
    var ss := raw.slices;
    var out := new Slice[|ss|];
    for i := 0 to |ss|
      invariant FirstFailure(xz, ss) == FirstFailure(xz, ss[i..])
      invariant forall j :: 0 <= j < i ==> CompressSlice(xz, ss[j]) == Ok(out[j])
    {
      var s := ss[i];
      assert ss[i..][1..] == ss[i + 1..];
      if s.status != PRESENT || |s.data| == 0 {
        out[i] := Slice(s.arch, s.status, CODEC_NONE, 0, s.data);
        continue;
      }
      if s.codec != CODEC_NONE {
        return Err(AlreadyCompressed);
      }
      var c := Compress(xz, s.data);
      if c.Err? {
        return Err(c.error);
      }
      out[i] := Slice(s.arch, s.status, c.value.codec, ToU64(|s.data|), c.value.data);
    }
    assert FirstFailure(xz, ss[|ss|..]).None?;
    assert out[..] == CompressBlob(xz, raw).value.slices;
    return Ok(Blob(out[..]));
  }

  // ---------- Lossless, and never larger

  /** Data of a length Go can represent. */
  ghost predicate Representable(b: Blob) {
    forall i :: 0 <= i < |b.slices| ==> |b.slices[i].data| <= W64.MaxInt()
  }

  /** What compression keeps of one slice, for any encoder whatsoever. */
  ghost predicate Faithful(s: Slice, c: Slice) {
    && c.arch == s.arch && c.status == s.status
    && c.codec <= CODEC_XZ
    && |c.data| <= |s.data|
    && (c.codec == CODEC_XZ <==> |c.data| < |s.data|)
    && (c.codec == CODEC_NONE ==> c.data == s.data)
  }

  lemma CompressSliceFaithful(xz: Xz, s: Slice)
    requires CompressSlice(xz, s).Ok?
    ensures Faithful(s, CompressSlice(xz, s).value)
  {
  }

  lemma CompressSliceLossless(xz: Xz, s: Slice)
    requires Lawful(xz) && CompressSlice(xz, s).Ok? && |s.data| <= W64.MaxInt() && Embedded(s)
    ensures var c := CompressSlice(xz, s).value;
            && Embedded(c) && c.rawLen == |s.data|
            && Decompress(xz, c.codec, c.data, c.rawLen) == Ok(s.data)
  {
    SizeExact(W64, |s.data|);
    assert xz.enc(s.data).Some?;
  }

  /** Count, order, names and status survive, and every embedded native comes back
      from its stored bytes under its recorded length. */
  lemma CompressionLossless(xz: Xz, raw: Blob, c: Blob)
    requires Lawful(xz) && CompressBlob(xz, raw) == Ok(c) && Representable(raw)
    ensures |c.slices| == |raw.slices|
    ensures forall i :: 0 <= i < |c.slices| ==>
              && Faithful(raw.slices[i], c.slices[i])
              && (Embedded(raw.slices[i]) <==> Embedded(c.slices[i]))
              && (Embedded(raw.slices[i]) ==>
                    && c.slices[i].rawLen == |raw.slices[i].data|
                    && Decompress(xz, c.slices[i].codec, c.slices[i].data, c.slices[i].rawLen)
                       == Ok(raw.slices[i].data))
  {
    forall i | 0 <= i < |c.slices| && Embedded(raw.slices[i])
      ensures var s := c.slices[i];
              && Embedded(s) && s.rawLen == |raw.slices[i].data|
              && Decompress(xz, s.codec, s.data, s.rawLen) == Ok(raw.slices[i].data)
    {
      CompressSliceLossless(xz, raw.slices[i]);
    }
  }

  ghost predicate AllFaithful(raw: seq<Slice>, c: seq<Slice>) {
    |raw| == |c| && forall i :: 0 <= i < |raw| ==> Faithful(raw[i], c[i])
  }

  lemma {:induction false} PayloadShrinks(raw: seq<Slice>, c: seq<Slice>)
    requires AllFaithful(raw, c)
    ensures PayloadLen(c) <= PayloadLen(raw)
    ensures PayloadLen(c) < PayloadLen(raw) <==> exists i :: 0 <= i < |c| && c[i].codec == CODEC_XZ
  {
    if raw != [] {
      var last := |raw| - 1;
      PayloadShrinks(raw[..last], c[..last]);
      if exists i :: 0 <= i < |c| && c[i].codec == CODEC_XZ {
        var i :| 0 <= i < |c| && c[i].codec == CODEC_XZ;
        assert i < last ==> c[..last][i].codec == CODEC_XZ;
      }
    }
  }

  /** The encoded blob never grows, and it shrinks exactly when some slice took xz:
      true of every encoder, lawful or not. */
  lemma CompressionNeverGrows(xz: Xz, raw: Blob, c: Blob)
    requires CompressBlob(xz, raw) == Ok(c)
    ensures EncodedLen(c) <= EncodedLen(raw)
    ensures EncodedLen(c) < EncodedLen(raw) <==> exists i :: 0 <= i < |c.slices| && c.slices[i].codec == CODEC_XZ
  {
    forall i | 0 <= i < |raw.slices| ensures Faithful(raw.slices[i], c.slices[i]) {
      CompressSliceFaithful(xz, raw.slices[i]);
    }
    PayloadShrinks(raw.slices, c.slices);
  }

  // ---------- What is stored, and when it fails

  /** What CompressBlob makes of a slice, given what the encoder makes of its data: a
      native is stored as its stream exactly when that is shorter, under its own length;
      a slot without a native is carried through, marked as stored verbatim. */
  ghost predicate StoredAs(xz: Xz, s: Slice, c: Slice) {
    && c.arch == s.arch && c.status == s.status
    && (s.status == 0 && s.data != [] ==>
          && s.codec == 0 && xz.enc(s.data).Some?
          && (c.codec == 1 <==> |xz.enc(s.data).value| < |s.data|)
          && (c.codec == 1 ==> c.data == xz.enc(s.data).value)
          && (c.codec != 1 ==> c.codec == 0 && c.data == s.data)
          && (|s.data| < TWO_64 ==> c.rawLen == |s.data|))
    && (s.status != 0 || s.data == [] ==> c.codec == 0 && c.rawLen == 0 && c.data == s.data)
  }

  /** The errors a slice can cause: it is compressed already, or the encoder fails. */
  ghost predicate Refused(xz: Xz, s: Slice, e: Error) {
    && s.status == 0 && s.data != []
    && (if s.codec != 0 then e == AlreadyCompressed else e == CompressFailed && xz.enc(s.data) == None)
  }

  lemma CompressSliceExactly(xz: Xz, s: Slice)
    ensures CompressSlice(xz, s).Ok? ==> StoredAs(xz, s, CompressSlice(xz, s).value)
    ensures CompressSlice(xz, s).Err? ==> Refused(xz, s, CompressSlice(xz, s).error)
    ensures CompressSlice(xz, s).Ok? ==> forall e :: !Refused(xz, s, e)
  {
  }

  /** CompressBlob succeeds if and only if no slice is refused; then every slice is
      stored as its stream or verbatim, whichever is shorter. For any encoder. */
  lemma CompressExactly(xz: Xz, raw: Blob)
    ensures CompressBlob(xz, raw).Ok? <==>
              forall i :: 0 <= i < |raw.slices| && raw.slices[i].status == 0 && raw.slices[i].data != [] ==>
                raw.slices[i].codec == 0 && xz.enc(raw.slices[i].data).Some?
    ensures CompressBlob(xz, raw).Ok? ==>
              var c := CompressBlob(xz, raw).value;
              |c.slices| == |raw.slices| && forall i :: 0 <= i < |c.slices| ==> StoredAs(xz, raw.slices[i], c.slices[i])
  {
    hide CompressSlice, StoredAs;
    forall i | 0 <= i < |raw.slices|
      ensures CompressSlice(xz, raw.slices[i]).Ok? ==>
                StoredAs(xz, raw.slices[i], CompressSlice(xz, raw.slices[i]).value)
      ensures CompressSlice(xz, raw.slices[i]).Ok? <==> forall e :: !Refused(xz, raw.slices[i], e)
    {
      CompressSliceExactly(xz, raw.slices[i]);
    }
    var f := FirstRefused(xz, raw.slices);
    if f < |raw.slices| {
      CompressSliceExactly(xz, raw.slices[f]);
    }
    forall i | 0 <= i < |raw.slices|
      ensures (forall e :: !Refused(xz, raw.slices[i], e)) <==>
                (raw.slices[i].status == 0 && raw.slices[i].data != [] ==>
                   raw.slices[i].codec == 0 && xz.enc(raw.slices[i].data).Some?)
    {
      assert Refused(xz, raw.slices[i], AlreadyCompressed) || Refused(xz, raw.slices[i], CompressFailed)
             || forall e :: !Refused(xz, raw.slices[i], e);
    }
  }

  /** When it fails, the first slice that is refused decides the error. */
  lemma {:induction false} FirstRefused(xz: Xz, ss: seq<Slice>) returns (f: nat)
    ensures f <= |ss| && forall i :: 0 <= i < f ==> CompressSlice(xz, ss[i]).Ok?
    ensures f < |ss| ==> CompressSlice(xz, ss[f]).Err?
    ensures FirstFailure(xz, ss) == if f < |ss| then Some(CompressSlice(xz, ss[f]).error) else None
  {
    hide CompressSlice;
    f := 0;
    if ss != [] && CompressSlice(xz, ss[0]).Ok? {
      f := FirstRefused(xz, ss[1..]);
      f := f + 1;
    }
  }

  lemma CompressRefuses(xz: Xz, raw: Blob, e: Error)
    ensures CompressBlob(xz, raw) == Err(e) <==>
              exists f :: 0 <= f < |raw.slices| && Refused(xz, raw.slices[f], e)
                          && forall i, e' :: 0 <= i < f ==> !Refused(xz, raw.slices[i], e')
  {
    hide CompressSlice, StoredAs;
    var f := FirstRefused(xz, raw.slices);
    forall i | 0 <= i < |raw.slices|
      ensures CompressSlice(xz, raw.slices[i]).Err? ==>
                Refused(xz, raw.slices[i], CompressSlice(xz, raw.slices[i]).error)
      ensures CompressSlice(xz, raw.slices[i]).Ok? ==> forall e :: !Refused(xz, raw.slices[i], e)
    {
      CompressSliceExactly(xz, raw.slices[i]);
    }
  }
}

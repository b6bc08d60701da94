/** Canonical images: building, splitting, and reconstructing for another architecture. */
module SelfImage {
  import opened Outcome
  import opened Bytes
  import opened Layout
  import opened Format
  import opened FormatLaws
  import opened NormalForm
  import opened Compression

  const ELF_MAGIC: seq<byte> := [0x7F, 0x45, 0x4C, 0x46]

  function BuildCanonical(w: Width, native: seq<byte>, b: Blob): Result<seq<byte>, Error> {
    var enc :- Encode(w, b);
    Append(w, native, enc)
  }

  /** BuildCanonical as the source writes it: two appends to an empty buffer. */
  method BuildCanonicalBuffer(w: Width, native: seq<byte>, b: Blob) returns (r: Result<seq<byte>, Error>)
    requires |native| <= w.MaxInt()
    ensures r == BuildCanonical(w, native, b)
  {
    hide Encode;
    var enc :- EncodeLoop(w, b);
    var out: seq<byte> := [];
    out := out + native;
    assert out == native;
    out :- Append(w, out, enc);
    return Ok(out);
  }

  /** An image cut in two: the leading native and the parsed blob. */
  datatype Split = Split(native: seq<byte>, blob: Blob)

  function SplitCanonical(w: Width, image: seq<byte>): Result<Split, Error> {
    if |image| < TRAILER_LEN then Err(TooShort)
    else if image[|image| - MAGIC_LEN..] != TRAILER_MAGIC then Err(NoTrailer)
    else
      var blobLen := U64(image[|image| - TRAILER_LEN..|image| - MAGIC_LEN]);
      if blobLen == 0 || blobLen > |image| then Err(BadTrailerLength)
      else
        var blobStart := |image| - blobLen;
        var b :- Decode(w, image[blobStart..]);
        Ok(Split(image[..blobStart], b))
  }

  /** The first slice named `target`. */
  function Find(ss: seq<Slice>, target: seq<byte>): Option<Slice> {
    if ss == [] then None
    else if ss[0].arch == target then Some(ss[0])
    else Find(ss[1..], target)
  }

  /** The slice found is the first with that name; without one, no slice has it. */
  lemma {:induction false} FindIsFirst(ss: seq<Slice>, target: seq<byte>)
    returns (i: nat)
    ensures i <= |ss| && forall j :: 0 <= j < i ==> ss[j].arch != target
    ensures Find(ss, target) == if i < |ss| then Some(ss[i]) else None
    ensures i < |ss| ==> ss[i].arch == target
  {
    if ss == [] {
      i := 0;
    } else if ss[0].arch == target {
      i := 0;
    } else {
      i := FindIsFirst(ss[1..], target);
      assert forall j :: 1 <= j < |ss| ==> ss[j] == ss[1..][j - 1];
      i := i + 1;
    }
  }

  /** The native an image's blob holds for `target`. */
  function NativeOf(xz: Xz, b: Blob, target: seq<byte>): Result<seq<byte>, Error> {
    match Find(b.slices, target)
    case None => Err(MissingArch)
    case Some(s) =>
      if s.status != PRESENT || s.data == [] then Err(ReservedArch)
      else
        var native :- Decompress(xz, s.codec, s.data, s.rawLen);
        if !(ELF_MAGIC <= native) then Err(NotElf) else Ok(native)
  }

  function Reconstruct(w: Width, xz: Xz, image: seq<byte>, target: seq<byte>): Result<seq<byte>, Error> {
    var Split(_, b) :- SplitCanonical(w, image);
    var native :- NativeOf(xz, b, target);
    BuildCanonical(w, native, b)
  }

  /** canonical(target), as a function of the blob alone: which host asks, and what
      native it carries in front of the blob, play no part. */
  function Canonical(w: Width, xz: Xz, b: Blob, target: seq<byte>): Result<seq<byte>, Error> {
    var native :- NativeOf(xz, b, target);
    BuildCanonical(w, native, b)
  }

  // ---------- Splitting

  /** A byte string that ends in an accepted blob splits there, whatever precedes it. */
  lemma SplitAt(w: Width, native: seq<byte>, enc: seq<byte>)
    requires Decode(w, enc).Ok?
    ensures SplitCanonical(w, native + enc) == Ok(Split(native, Decode(w, enc).value))
  {
    hide AllInRange, BlobOf, ParseIndex;
    var image := native + enc;
    assert image[|image| - MAGIC_LEN..] == enc[|enc| - MAGIC_LEN..];
    assert image[|image| - TRAILER_LEN..|image| - MAGIC_LEN] == enc[|enc| - TRAILER_LEN..|enc| - MAGIC_LEN];
    assert image[|native|..] == enc && image[..|native|] == native;
  }

  /** Building then splitting gives back the native and the blob, for every native -
      one that contains magics or trailers, or is itself a canonical image - and
      every host that can hold the image. */
  lemma SplitOfBuild(w: Width, reader: Width, native: seq<byte>, b: Blob, image: seq<byte>)
    requires BuildCanonical(w, native, b) == Ok(image) && |image| <= reader.MaxInt()
    ensures SplitCanonical(reader, image) == Ok(Split(native, Normalize(b)))
  {
    hide FormatFrame, FrameOf, ParseFrame;
    var enc := Encode(w, b).value;
    DecodeOfEncode(w, reader, b, enc);
    SplitAt(reader, native, enc);
  }

  /** Whatever image is accepted, its native and its blob's bytes are that image cut in two. */
  lemma SplitRejoins(w: Width, image: seq<byte>)
    requires SplitCanonical(w, image).Ok?
    ensures var Split(native, b) := SplitCanonical(w, image).value;
            && |native| <= |image|
            && native + image[|native|..] == image
            && Decode(w, image[|native|..]) == Ok(b)
  {
  }

  /** The host's own bytes never matter: more bytes in front only lengthen the native. */
  lemma PrefixOnlyExtendsNative(w: Width, more: seq<byte>, image: seq<byte>)
    requires SplitCanonical(w, image).Ok?
    ensures var Split(native, b) := SplitCanonical(w, image).value;
            SplitCanonical(w, more + image) == Ok(Split(more + native, b))
  {
    hide Decode;
    SplitRejoins(w, image);
    var native := SplitCanonical(w, image).value.native;
    var enc := image[|native|..];
    SplitAt(w, more + native, enc);
    assert more + image == more + native + enc;
  }

  /** Blobs glued behind one another, outermost last. */
  function Nest(w: Width, native: seq<byte>, bs: seq<Blob>): Result<seq<byte>, Error> {
    if bs == [] then Ok(native)
    else
      var inner :- Nest(w, native, bs[..|bs| - 1]);
      BuildCanonical(w, inner, bs[|bs| - 1])
  }

  datatype Peeled = Peeled(native: seq<byte>, blobs: seq<Blob>)

  /** Split once per layer. */
  function Peel(w: Width, image: seq<byte>, layers: nat): Result<Peeled, Error> {
    if layers == 0 then Ok(Peeled(image, []))
    else
      var Split(inner, b) :- SplitCanonical(w, image);
      var Peeled(native, bs) :- Peel(w, inner, layers - 1);
      Ok(Peeled(native, bs + [b]))
  }

  /** Nested images come apart one layer at a time, to any depth. */
  lemma {:induction false} PeelOfNest(w: Width, native: seq<byte>, bs: seq<Blob>)
    requires Nest(w, native, bs).Ok?
    requires forall i :: 0 <= i < |bs| ==> NulFree(bs[i])
    ensures Peel(w, Nest(w, native, bs).value, |bs|) == Ok(Peeled(native, bs))
  {
    hide BuildCanonical, SplitCanonical, Normalize, NulFree;
    if bs != [] {
      var last := |bs| - 1;
      var inner := Nest(w, native, bs[..last]).value;
      PeelOfNest(w, native, bs[..last]);
      BuiltSize(w, inner, bs[last]);
      SplitOfBuild(w, w, inner, bs[last], Nest(w, native, bs).value);
      NormalizeKeeps(bs[last]);
      assert bs == bs[..last] + [bs[last]];
    }
  }

  lemma BuiltSize(w: Width, native: seq<byte>, b: Blob)
    requires BuildCanonical(w, native, b).Ok?
    ensures |BuildCanonical(w, native, b).value| <= w.MaxInt()
  {
  }

  // ---------- Reconstruction

  /** From any image that holds `b`, on any host able to hold the image,
      Reconstruct yields canonical(target) of `b`, or fails as it does. */
  lemma ReconstructIsCanonical(w: Width, host: Width, xz: Xz, native: seq<byte>, b: Blob, image: seq<byte>, target: seq<byte>)
    requires BuildCanonical(w, native, b) == Ok(image) && |image| <= host.MaxInt() && NulFree(b)
    ensures Reconstruct(host, xz, image, target) == Canonical(host, xz, b, target)
  {
    hide SplitCanonical, BuildCanonical, NativeOf, Normalize, NulFree;
    SplitOfBuild(w, host, native, b, image);
    NormalizeKeeps(b);
  }

  /** Two hosts of different widths build the same bytes, or the image is too big for one of them. */
  lemma BuildAtBothWidths(w1: Width, w2: Width, native: seq<byte>, b: Blob)
    requires BuildCanonical(w1, native, b).Ok?
    ensures BuildCanonical(w2, native, b) ==
              if |BuildCanonical(w1, native, b).value| <= w2.MaxInt() then BuildCanonical(w1, native, b)
              else Err(SizeOverflow)
  {
    hide FormatFrame, FrameOf, FirstError;
  }

  lemma CanonicalAtBothWidths(w1: Width, w2: Width, xz: Xz, b: Blob, target: seq<byte>)
    requires Canonical(w1, xz, b, target).Ok?
    ensures Canonical(w2, xz, b, target) ==
              if |Canonical(w1, xz, b, target).value| <= w2.MaxInt() then Canonical(w1, xz, b, target)
              else Err(SizeOverflow)
  {
    hide BuildCanonical, NativeOf;
    BuildAtBothWidths(w1, w2, NativeOf(xz, b, target).value, b);
  }

  lemma SplitNames(w: Width, image: seq<byte>)
    requires SplitCanonical(w, image).Ok?
    ensures NulFree(SplitCanonical(w, image).value.blob)
  {
    hide ParseFrame, AllInRange;
    var start := |SplitCanonical(w, image).value.native|;
    SplitRejoins(w, image);
  }

  /** Absorption: an image that was itself reconstructed is as good a source as the
      one it came from. For any accepted image whatever - not only ones Encode built -
      every further target gives the same outcome, bytes or error, from both; and a
      host of another width that can hold the new image draws on the same blob. */
  lemma ReconstructAbsorbs(w: Width, host: Width, xz: Xz, image: seq<byte>, via: seq<byte>,
                           image': seq<byte>, target: seq<byte>)
    requires Reconstruct(w, xz, image, via) == Ok(image') && |image'| <= host.MaxInt()
    ensures Reconstruct(w, xz, image', target) == Reconstruct(w, xz, image, target)
    ensures Reconstruct(host, xz, image', target) ==
              Canonical(host, xz, SplitCanonical(w, image).value.blob, target)
  {
    hide SplitCanonical, BuildCanonical, NativeOf, NulFree;
    var b := SplitCanonical(w, image).value.blob;
    SplitNames(w, image);
    var native := NativeOf(xz, b, via).value;
    BuiltSize(w, native, b);
    ReconstructIsCanonical(w, w, xz, native, b, image', target);
    ReconstructIsCanonical(w, host, xz, native, b, image', target);
  }

  /** Whatever a 64-bit build decides, a 32-bit one decides too, or the result is too big for it. */
  lemma BuildOnNarrowHost(native: seq<byte>, b: Blob)
    ensures var wide := BuildCanonical(W64, native, b);
            BuildCanonical(W32, native, b) ==
              if wide.Ok? && |wide.value| > W32.MaxInt() then Err(SizeOverflow) else wide
  {
    hide FormatFrame, FrameOf, FirstError;
  }

  /** Width independence of the reconstruct law: given any image a 64-bit host accepts
      and a 32-bit host can hold, the 32-bit host reconstructs the same bytes, or fails
      the same way, or fails because the result does not fit its `int`. */
  lemma ReconstructOnNarrowHost(xz: Xz, image: seq<byte>, target: seq<byte>)
    requires |image| <= W32.MaxInt() && SplitCanonical(W64, image).Ok?
    ensures SplitCanonical(W32, image) == SplitCanonical(W64, image)
    ensures var wide := Reconstruct(W64, xz, image, target);
            Reconstruct(W32, xz, image, target) ==
              if wide.Ok? && |wide.value| > W32.MaxInt() then Err(SizeOverflow) else wide
  {
    hide Decode, BuildCanonical, NativeOf;
    var Split(native, b) := SplitCanonical(W64, image).value;
    SplitRejoins(W64, image);
    WidthIndependence(image[|native|..]);
    if NativeOf(xz, b, target).Ok? {
      BuildOnNarrowHost(NativeOf(xz, b, target).value, b);
    }
  }

  /** One hop: the image runs on a host of some width and is rebuilt there for a target. */
  datatype Hop = Hop(width: Width, target: seq<byte>)

  /** A chain of hops; a host whose `int` cannot hold the image cannot read it. */
  function Travel(xz: Xz, image: seq<byte>, route: seq<Hop>): Result<seq<byte>, Error>
    decreases |route|
  {
    if route == [] then Ok(image)
    else if |image| > route[0].width.MaxInt() then Err(SizeOverflow)
    else
      var image' :- Reconstruct(route[0].width, xz, image, route[0].target);
      Travel(xz, image', route[1..])
  }

  /** Path independence: after any chain of hops over hosts of any widths, the bytes
      are canonical(last target) of the blob the chain started from. */
  lemma {:induction false} TravelIsCanonical(xz: Xz, native: seq<byte>, b: Blob, w: Width, image: seq<byte>, route: seq<Hop>)
    requires BuildCanonical(w, native, b) == Ok(image) && NulFree(b)
    requires route != [] && Travel(xz, image, route).Ok?
    ensures var last := route[|route| - 1];
            Travel(xz, image, route) == Canonical(last.width, xz, b, last.target)
    decreases |route|
  {
    hide SplitCanonical, BuildCanonical, NativeOf, NulFree, Reconstruct;
    var hop := route[0];
    ReconstructIsCanonical(w, hop.width, xz, native, b, image, hop.target);
    if |route| > 1 {
      var image' := Reconstruct(hop.width, xz, image, hop.target).value;
      var native' := NativeOf(xz, b, hop.target).value;
      TravelIsCanonical(xz, native', b, hop.width, image', route[1..]);
    } else {
      assert Travel(xz, Reconstruct(hop.width, xz, image, hop.target).value, route[1..])
             == Reconstruct(hop.width, xz, image, hop.target);
    }
  }

  // ---------- The law through compression

  /** What an uncompressed blob says about a target. */
  function RawNative(raw: Blob, target: seq<byte>): Result<seq<byte>, Error> {
    match Find(raw.slices, target)
    case None => Err(MissingArch)
    case Some(s) =>
      if !Embedded(s) then Err(ReservedArch)
      else if !(ELF_MAGIC <= s.data) then Err(NotElf)
      else Ok(s.data)
  }

  lemma {:induction false} FindCompressed(xz: Xz, raw: seq<Slice>, c: seq<Slice>, target: seq<byte>)
    requires |raw| == |c|
    requires forall i :: 0 <= i < |raw| ==> CompressSlice(xz, raw[i]) == Ok(c[i])
    ensures Find(raw, target).None? <==> Find(c, target).None?
    ensures Find(raw, target).Some? ==>
              CompressSlice(xz, Find(raw, target).value) == Ok(Find(c, target).value)
  {
    if raw != [] {
      CompressSliceFaithful(xz, raw[0]);
      FindCompressed(xz, raw[1..], c[1..], target);
    }
  }

  /** Compression hides nothing: the compressed blob gives every target exactly the
      native, or the refusal, that the raw blob gives. */
  lemma NativeThroughCompression(xz: Xz, raw: Blob, c: Blob, target: seq<byte>)
    requires Lawful(xz) && CompressBlob(xz, raw) == Ok(c) && Representable(raw)
    ensures NativeOf(xz, c, target) == RawNative(raw, target)
  {
    hide CompressSlice, Lawful;
    FindCompressed(xz, raw.slices, c.slices, target);
    if Find(raw.slices, target).Some? {
      var s := Find(raw.slices, target).value;
      var i := FindIsFirst(raw.slices, target);
      CompressSliceFaithful(xz, s);
      if Embedded(s) {
        CompressSliceLossless(xz, s);
      } else {
        CompressReserved(xz, s);
      }
    }
  }

  lemma CompressReserved(xz: Xz, s: Slice)
    requires CompressSlice(xz, s).Ok? && !Embedded(s)
    ensures !Embedded(CompressSlice(xz, s).value)
  {
  }

  /** The reconstruct law. From an image with any bytes at all in front of the
      compressed blob, on a host of any width that can hold it, asking for a target
      gives its raw native followed by the same compressed blob - or fails exactly
      when the raw blob has no such slice, a reserved or empty one, or no ELF. */
  lemma ReconstructLaw(w: Width, host: Width, xz: Xz, raw: Blob, c: Blob,
                       prefix: seq<byte>, image: seq<byte>, target: seq<byte>)
    requires Lawful(xz) && CompressBlob(xz, raw) == Ok(c) && Representable(raw) && NulFree(raw)
    requires BuildCanonical(w, prefix, c) == Ok(image) && |image| <= host.MaxInt()
    ensures Reconstruct(host, xz, image, target) ==
              if RawNative(raw, target).Err? then Err(RawNative(raw, target).error)
              else BuildCanonical(host, RawNative(raw, target).value, c)
  {
    hide BuildCanonical, NativeOf, RawNative, Reconstruct, Lawful;
    CompressKeepsNames(xz, raw, c);
    ReconstructIsCanonical(w, host, xz, prefix, c, image, target);
    NativeThroughCompression(xz, raw, c, target);
  }

  lemma CompressKeepsNames(xz: Xz, raw: Blob, c: Blob)
    requires CompressBlob(xz, raw) == Ok(c) && NulFree(raw)
    ensures NulFree(c)
  {
    forall i | 0 <= i < |raw.slices| ensures c.slices[i].arch == raw.slices[i].arch {
      CompressSliceFaithful(xz, raw.slices[i]);
    }
  }

  // ---------- Exactly what reconstructs

  /** Slice `i` is the first named `target`. */
  ghost predicate FirstNamed(ss: seq<Slice>, target: seq<byte>, i: int) {
    0 <= i < |ss| && ss[i].arch == target && forall j :: 0 <= j < i ==> ss[j].arch != target
  }

  /** What the slice stores is `raw`: verbatim, or as a stream that decodes to exactly
      the recorded number of bytes. */
  ghost predicate Stores(xz: Xz, s: Slice, raw: seq<byte>) {
    if s.codec == 0 then raw == s.data
    else s.codec == 1 && xz.dec(s.data) == Some(raw) && |raw| == s.rawLen
  }

  /** A present slice that stores an ELF: 0x7F, E, L, F. */
  ghost predicate Yields(xz: Xz, s: Slice, native: seq<byte>) {
    s.status == 0 && s.data != [] && Stores(xz, s, native) && [0x7F] + Ascii("ELF") <= native
  }

  /** The decoder's output is of a length Go can represent. */
  ghost predicate RepresentableOutput(xz: Xz) {
    forall data :: xz.dec(data).Some? ==> |xz.dec(data).value| < TWO_64
  }

  /** Every outcome of decompressing a slice, exactly. */
  lemma DecompressExactly(xz: Xz, s: Slice)
    requires RepresentableOutput(xz)
    ensures var r := Decompress(xz, s.codec, s.data, s.rawLen);
            && (forall raw :: r == Ok(raw) <==> Stores(xz, s, raw))
            && (r == Err(CorruptStream) <==> s.codec == 1 && xz.dec(s.data) == None)
            && (r == Err(LengthMismatch) <==> s.codec == 1 && xz.dec(s.data).Some? && |xz.dec(s.data).value| != s.rawLen)
            && (r == Err(UnknownCodec) <==> s.codec > 1)
            && (r.Err? ==> r.error in {CorruptStream, LengthMismatch, UnknownCodec})
  {
    if xz.dec(s.data).Some? {
      assert |xz.dec(s.data).value| < TWO_64;
    }
  }

  lemma FoundIsFirstNamed(ss: seq<Slice>, target: seq<byte>)
    ensures Find(ss, target).None? <==> forall i :: 0 <= i < |ss| ==> ss[i].arch != target
    ensures forall i :: FirstNamed(ss, target, i) ==> Find(ss, target) == Some(ss[i])
    ensures Find(ss, target).Some? ==> exists i :: FirstNamed(ss, target, i)
  {
    var k := FindIsFirst(ss, target);
    if k < |ss| {
      assert FirstNamed(ss, target, k);
    }
  }

  /** What the outcome for a target has to be when `s` is the slice with its name. */
  ghost predicate Answers(xz: Xz, s: Slice, r: Result<seq<byte>, Error>) {
    var present := s.status == 0 && s.data != [];
    && (forall native :: r == Ok(native) <==> Yields(xz, s, native))
    && (r == Err(ReservedArch) <==> !present)
    && (r == Err(UnknownCodec) <==> present && s.codec > 1)
    && (r == Err(CorruptStream) <==> present && s.codec == 1 && xz.dec(s.data) == None)
    && (r == Err(LengthMismatch) <==>
          present && s.codec == 1 && xz.dec(s.data).Some? && |xz.dec(s.data).value| != s.rawLen)
    && (r == Err(NotElf) <==> present && exists raw :: Stores(xz, s, raw) && !([0x7F] + Ascii("ELF") <= raw))
  }

  lemma NativeOutcome(xz: Xz, b: Blob, target: seq<byte>)
    requires RepresentableOutput(xz) && Find(b.slices, target).Some?
    ensures NativeOf(xz, b, target) != Err(MissingArch)
    ensures Answers(xz, Find(b.slices, target).value, NativeOf(xz, b, target))
  {
    hide Decompress, RepresentableOutput, Stores;
    assert ELF_MAGIC == [0x7F] + Ascii("ELF");
    var s, r := Find(b.slices, target).value, NativeOf(xz, b, target);
    DecompressExactly(xz, s);
    if r.Ok? {
      assert Decompress(xz, s.codec, s.data, s.rawLen) == Ok(r.value);
    }
  }

  /** Every outcome for a target, exactly, for an arbitrary blob and decoder: the first
      slice with its name decides, and gives a native only when it stores an ELF. */
  lemma NativeExactly(xz: Xz, b: Blob, target: seq<byte>)
    requires RepresentableOutput(xz)
    ensures NativeOf(xz, b, target) == Err(MissingArch) <==>
              forall i :: 0 <= i < |b.slices| ==> b.slices[i].arch != target
    ensures forall i :: FirstNamed(b.slices, target, i) ==> Answers(xz, b.slices[i], NativeOf(xz, b, target))
  {
    hide RepresentableOutput, Answers, FirstNamed, Decompress;
    FoundIsFirstNamed(b.slices, target);
    if Find(b.slices, target).Some? {
      NativeOutcome(xz, b, target);
    }
  }

  /** Exactly when an accepted image reconstructs, and what it gives: the native that the
      first slice named `target` yields, followed by the encoding of the image's blob, if
      both fit. */
  lemma ReconstructExactly(w: Width, xz: Xz, image: seq<byte>, target: seq<byte>, r: seq<byte>)
    requires RepresentableOutput(xz) && SplitCanonical(w, image).Ok?
    ensures var b := SplitCanonical(w, image).value.blob;
            Reconstruct(w, xz, image, target) == Ok(r) <==>
              exists i, native :: FirstNamed(b.slices, target, i) && Yields(xz, b.slices[i], native)
                                  && Encode(w, b).Ok? && r == native + Encode(w, b).value && |r| <= w.MaxInt()
  {
    hide SplitCanonical, NativeOf, Encode, RepresentableOutput, Yields;
    var b := SplitCanonical(w, image).value.blob;
    NativeExactly(xz, b, target);
    FoundIsFirstNamed(b.slices, target);
    if Reconstruct(w, xz, image, target) == Ok(r) {
      FoundWhenOk(xz, b, target);
      var i :| FirstNamed(b.slices, target, i);
      assert Answers(xz, b.slices[i], NativeOf(xz, b, target));
    }
  }

  lemma FoundWhenOk(xz: Xz, b: Blob, target: seq<byte>)
    requires NativeOf(xz, b, target).Ok?
    ensures Find(b.slices, target).Some?
  {
  }

  /** Every error of SplitCanonical, exactly; the bytes behind the split decide the rest. */
  lemma SplitRefuses(w: Width, image: seq<byte>)
    ensures |image| < 16 ==> SplitCanonical(w, image) == Err(TooShort)
    ensures SplitCanonical(w, image) == Err(NoTrailer) <==>
              |image| >= 16 && image[|image| - 8..] != Ascii("FATBLOBZ")
    ensures |image| >= 16 && image[|image| - 8..] == Ascii("FATBLOBZ") ==>
              var size := FromLE(image[|image| - 16..|image| - 8]);
              SplitCanonical(w, image) ==
                if size == 0 || size > |image| then Err(BadTrailerLength)
                else match Decode(w, image[|image| - size..]) {
                       case Err(e) => Err(e)
                       case Ok(b) => Ok(Split(image[..|image| - size], b))
                     }
  {
    hide FromLE;
    Magics();
  }

  // ---------- The hypotheses can be met

  const AMD64: seq<byte> := [0x61, 0x6D, 0x64, 0x36, 0x34]

  /** The smallest blob with something to reconstruct. */
  const SAMPLE := Blob([Slice(AMD64, PRESENT, CODEC_NONE, 0, ELF_MAGIC)])

  /** From any head that leaves room, the sample blob's image reconstructs. */
  lemma SampleReconstructs(w: Width, xz: Xz, head: seq<byte>)
    requires |head| + 70 <= w.MaxInt()
    ensures NulFree(SAMPLE) && BuildCanonical(w, head, SAMPLE).Ok?
    ensures Reconstruct(w, xz, BuildCanonical(w, head, SAMPLE).value, AMD64) == BuildCanonical(w, ELF_MAGIC, SAMPLE)
    ensures BuildCanonical(w, ELF_MAGIC, SAMPLE).Ok?
  {
    hide FormatFrame, Reconstruct, FirstError;
    assert PayloadLen(SAMPLE.slices) == PayloadLen(SAMPLE.slices[..0]) + 4 == 4;
    EncodeAccepts(w, SAMPLE);
    assert NativeOf(xz, SAMPLE, AMD64) == Ok(ELF_MAGIC);
    BuiltSize(w, head, SAMPLE);
    ReconstructIsCanonical(w, w, xz, head, SAMPLE, BuildCanonical(w, head, SAMPLE).value, AMD64);
  }
}

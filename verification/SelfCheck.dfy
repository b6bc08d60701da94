/** The self-check and the inventory of the shipped program. */
module SelfCheck {
  import opened Outcome
  import opened Bytes
  import opened Hashes
  import opened Layout
  import opened Format
  import opened FormatLaws
  import opened NormalForm
  import opened Compression
  import opened SelfImage

  /** The ways cmdVerify can end: an error (or, for SizeOverflow, a panic), two other
      refusals, and two reports of success. */
  datatype Verdict = Failed(error: Error) | LengthsDiffer | NotCanonical | IsCanonical | BlobOnly

  function Verify(w: Width, xz: Xz, digests: Digests, image: seq<byte>, current: seq<byte>): Verdict {
    match SplitCanonical(w, image)
    case Err(e) => Failed(e)
    case Ok(Split(native, b)) =>
      match BuildCanonical(w, native, b)
      case Err(e) => Failed(e)
      case Ok(again) =>
        if |again| != |image| then LengthsDiffer
        else
          match Reconstruct(w, xz, image, current)
          case Err(SizeOverflow) => Failed(SizeOverflow)
          case Err(_) => BlobOnly
          case Ok(recon) =>
            if digests.sha256(recon) != digests.sha256(image) then NotCanonical else IsCanonical
  }

  /** An image that is its own reconstruction splits into what it was rebuilt from. */
  lemma SelfReconstruction(w: Width, xz: Xz, image: seq<byte>, current: seq<byte>)
    requires Reconstruct(w, xz, image, current) == Ok(image)
    ensures SplitCanonical(w, image).Ok?
    ensures var Split(native, b) := SplitCanonical(w, image).value;
            && NativeOf(xz, b, current) == Ok(native)
            && BuildCanonical(w, native, b) == Ok(image)
  {
    hide SplitCanonical, BuildCanonical, NativeOf, Normalize, NulFree;
    var b := SplitCanonical(w, image).value.blob;
    var native := NativeOf(xz, b, current).value;
    SplitNames(w, image);
    BuiltSize(w, native, b);
    SplitOfBuild(w, w, native, b, image);
  }

  /** "Image is canonical" is exact: it is reported if and only if rebuilding the image
      for the current architecture gives the same bytes. */
  lemma VerifyExact(w: Width, xz: Xz, digests: Digests, image: seq<byte>, current: seq<byte>)
    requires Separates(digests.sha256, image)
    ensures Verify(w, xz, digests, image, current) == IsCanonical <==>
              Reconstruct(w, xz, image, current) == Ok(image)
  {
    hide SplitCanonical, BuildCanonical, NativeOf;
    if Reconstruct(w, xz, image, current) == Ok(image) {
      SelfReconstruction(w, xz, image, current);
    }
  }

  /** Every way the self-check can fail, exactly: the image does not split, its blob does
      not encode, the lengths differ, or the current architecture does not fit `int`. */
  lemma VerifyRefuses(w: Width, xz: Xz, digests: Digests, image: seq<byte>, current: seq<byte>, e: Error)
    ensures var split, v := SplitCanonical(w, image), Verify(w, xz, digests, image, current);
            && (v == LengthsDiffer <==>
                  split.Ok? && BuildCanonical(w, split.value.native, split.value.blob).Ok?
                  && |BuildCanonical(w, split.value.native, split.value.blob).value| != |image|)
            && (v == Failed(e) <==>
                  if split.Err? then split.error == e
                  else if BuildCanonical(w, split.value.native, split.value.blob).Err?
                  then BuildCanonical(w, split.value.native, split.value.blob).error == e
                  else v != LengthsDiffer && e == SizeOverflow && Reconstruct(w, xz, image, current) == Err(SizeOverflow))
            && (v == BlobOnly <==>
                  && split.Ok? && BuildCanonical(w, split.value.native, split.value.blob).Ok? && v != LengthsDiffer
                  && Reconstruct(w, xz, image, current).Err? && Reconstruct(w, xz, image, current) != Err(SizeOverflow))
  {
    hide SplitCanonical, BuildCanonical, Reconstruct;
  }

  /** Soundness: a canonical image is, byte for byte, the decompressed slice of the
      current architecture followed by the encoding of its blob. */
  lemma VerifySound(w: Width, xz: Xz, digests: Digests, image: seq<byte>, current: seq<byte>)
    requires Separates(digests.sha256, image)
    requires Verify(w, xz, digests, image, current) == IsCanonical
    ensures var Split(native, b) := SplitCanonical(w, image).value;
            && NativeOf(xz, b, current) == Ok(native)
            && Encode(w, b).Ok?
            && image == native + Encode(w, b).value
  {
    hide SplitCanonical, NativeOf, Encode, Verify, Reconstruct;
    VerifyExact(w, xz, digests, image, current);
    SelfReconstruction(w, xz, image, current);
  }

  /** Completeness: whatever Reconstruct emits on one host - so whatever `extract` writes
      and teleport installs - passes on every host of its own architecture that can hold
      it, whatever the two widths and the digest. */
  lemma VerifyComplete(w: Width, host: Width, xz: Xz, digests: Digests, image: seq<byte>, target: seq<byte>,
                       image': seq<byte>)
    requires Reconstruct(w, xz, image, target) == Ok(image') && |image'| <= host.MaxInt()
    ensures Verify(host, xz, digests, image', target) == IsCanonical
  {
    hide SplitCanonical, BuildCanonical, NativeOf;
    var b := SplitCanonical(w, image).value.blob;
    ReconstructAbsorbs(w, host, xz, image, target, image', target);
    CanonicalAtBothWidths(w, host, xz, b, target);
    SelfReconstruction(host, xz, image', target);
  }

  /** The whole decision table on images that were built on any host, whatever their head:
      the blob's slice for the current architecture decides. In particular a slice that
      is present but does not decompress, or holds no ELF, still ends in success. */
  lemma VerifyOnBuilt(w: Width, host: Width, xz: Xz, digests: Digests, head: seq<byte>, b: Blob, image: seq<byte>,
                      current: seq<byte>)
    requires BuildCanonical(w, head, b) == Ok(image) && |image| <= host.MaxInt()
    requires NulFree(b) && Separates(digests.sha256, image)
    ensures Verify(host, xz, digests, image, current) ==
              match NativeOf(xz, b, current) {
                case Ok(native) =>
                  if native == head then IsCanonical
                  else if BuildCanonical(host, native, b).Ok? then NotCanonical
                  else Failed(SizeOverflow)
                case Err(_) => BlobOnly
              }
  {
    hide SplitCanonical, BuildCanonical, NativeOf, Normalize, NulFree;
    SplitOfBuild(w, host, head, b, image);
    BuildAtBothWidths(w, host, head, b);
    NormalizeKeeps(b);
    NativeErrors(xz, b, current);
    if NativeOf(xz, b, current).Ok? {
      BuiltHeads(host, head, NativeOf(xz, b, current).value, b);
    }
  }

  lemma NativeErrors(xz: Xz, b: Blob, target: seq<byte>)
    ensures NativeOf(xz, b, target) != Err(SizeOverflow)
  {
    hide Find;
  }

  lemma BuiltHeads(w: Width, n1: seq<byte>, n2: seq<byte>, b: Blob)
    requires BuildCanonical(w, n1, b).Ok?
    ensures BuildCanonical(w, n1, b) == BuildCanonical(w, n2, b) <==> n1 == n2
    ensures BuildCanonical(w, n2, b).Ok? || BuildCanonical(w, n2, b) == Err(SizeOverflow)
  {
    hide Encode;
    var enc := Encode(w, b).value;
    assert n1 == (n1 + enc)[..|n1|] && n2 == (n2 + enc)[..|n2|];
  }

  /** What the "blob round-trips" report is worth. The check behind it compares only
      lengths; the bytes round-trip if and only if the attached blob is canonical. */
  lemma RoundTripReport(w: Width, xz: Xz, digests: Digests, image: seq<byte>, current: seq<byte>)
    requires |image| <= w.MaxInt()
    requires Verify(w, xz, digests, image, current) == BlobOnly
    ensures var Split(native, b) := SplitCanonical(w, image).value;
            var attached := image[|native|..];
            && Decode(w, attached) == Ok(b)
            && |Encode(w, b).value| == |attached|
            && (BuildCanonical(w, native, b) == Ok(image) <==> CanonicalFrame(ParseFrame(attached).value))
  {
    hide FormatFrame, CanonicalFrame, AllInRange, BlobOf, Reconstruct, ParseFrame, FirstError;
    var Split(native, b) := SplitCanonical(w, image).value;
    SplitRejoins(w, image);
    var attached := image[|native|..];
    ReencodeFixedPoint(w, attached);
    SameTail(native, Encode(w, b).value, attached);
  }

  lemma BuiltLength(w: Width, native: seq<byte>, b: Blob)
    requires BuildCanonical(w, native, b).Ok?
    ensures |BuildCanonical(w, native, b).value| == |native| + EncodedLen(b)
  {
    hide FirstError;
  }

  lemma AttachedLength(w: Width, attached: seq<byte>)
    requires Decode(w, attached).Ok?
    ensures ParseFrame(attached).Ok? && |attached| == ParseFrame(attached).value.Size()
    ensures |Decode(w, attached).value.slices| == |ParseFrame(attached).value.entries|
  {
    hide AllInRange, ParseFrame, FormatFrame;
    FormatOfParse(attached);
  }

  /** What the length comparison decides: the slices' lengths add up to the payload region. */
  lemma LengthCheckExact(w: Width, image: seq<byte>)
    requires SplitCanonical(w, image).Ok?
    requires var Split(native, b) := SplitCanonical(w, image).value; BuildCanonical(w, native, b).Ok?
    ensures var Split(native, b) := SplitCanonical(w, image).value;
            && ParseFrame(image[|native|..]).Ok?
            && (|BuildCanonical(w, native, b).value| == |image| <==>
                  PayloadLen(b.slices) == |ParseFrame(image[|native|..]).value.payload|)
  {
    hide SplitCanonical, BuildCanonical, Decode, ParseFrame, PayloadLen;
    var Split(native, b) := SplitCanonical(w, image).value;
    SplitRejoins(w, image);
    BuiltLength(w, native, b);
    AttachedLength(w, image[|native|..]);
  }

  lemma SameTail(head: seq<byte>, t1: seq<byte>, t2: seq<byte>)
    ensures head + t1 == head + t2 <==> t1 == t2
  {
    assert (head + t1)[|head|..] == t1 && (head + t2)[|head|..] == t2;
  }

  /** One reserved slot whose reserved bytes are not zero. */
  const DIRTY := Frame([Entry(Zeros(8), RESERVED, CODEC_NONE, [1, 0, 0, 0, 0, 0], 0, 0, 0)], [])

  /** So the report can be wrong: a program with these 66 bytes behind it is accepted as
      round-tripping on every host and architecture, and it does not round-trip. */
  lemma RoundTripReportCanBeWrong(w: Width, xz: Xz, digests: Digests, head: seq<byte>, current: seq<byte>)
    requires |head| + 66 <= w.MaxInt()
    ensures var image := head + FormatFrame(DIRTY);
            && Verify(w, xz, digests, image, current) == BlobOnly
            && SplitCanonical(w, image).Ok? && SplitCanonical(w, image).value.native == head
            && BuildCanonical(w, head, SplitCanonical(w, image).value.blob) != Ok(image)
  {
    hide FormatFrame, CanonicalFrame, SplitCanonical, BuildCanonical, Decode, BlobOf, ParseFrame, Verify;
    var attached := FormatFrame(DIRTY);
    var image, b := head + attached, BlobOf(w, DIRTY);
    DirtyDecodes(w);
    SplitAt(w, head, attached);
    DirtyReport(w, xz, digests, head, current);
    RoundTripReport(w, xz, digests, image, current);
    assert image[|head|..] == attached;
    ParseOfFormat(DIRTY);
    DirtyIsNotCanonical();
  }

  lemma DirtyReport(w: Width, xz: Xz, digests: Digests, head: seq<byte>, current: seq<byte>)
    requires |head| + 66 <= w.MaxInt()
    requires SplitCanonical(w, head + FormatFrame(DIRTY)) == Ok(Split(head, BlobOf(w, DIRTY)))
    ensures Verify(w, xz, digests, head + FormatFrame(DIRTY), current) == BlobOnly
  {
    hide FormatFrame, SplitCanonical, BlobOf, Encode, Verify, NativeOf;
    DirtyBlob(w);
    var b := BlobOf(w, DIRTY);
    NothingEmbedded(xz, b, current);
    NativeErrors(xz, b, current);
    VerifyRefuses(w, xz, digests, head + FormatFrame(DIRTY), current, SizeOverflow);
  }

  lemma NothingEmbedded(xz: Xz, b: Blob, current: seq<byte>)
    requires forall i :: 0 <= i < |b.slices| ==> !Embedded(b.slices[i])
    ensures NativeOf(xz, b, current).Err?
  {
    var i := FindIsFirst(b.slices, current);
  }

  lemma DirtyBlob(w: Width)
    ensures AllInRange(w, DIRTY)
    ensures BlobOf(w, DIRTY) == Blob([Slice([], RESERVED, CODEC_NONE, 0, [])])
    ensures Encode(w, BlobOf(w, DIRTY)).Ok? && |Encode(w, BlobOf(w, DIRTY)).value| == DIRTY.Size()
  {
    var b := BlobOf(w, DIRTY);
    assert b.slices == [Slice([], RESERVED, CODEC_NONE, 0, [])];
    assert PayloadLen(b.slices) == PayloadLen(b.slices[..0]) + 0 == 0;
    EncodeAccepts(w, b);
  }

  lemma DirtyDecodes(w: Width)
    ensures Decode(w, FormatFrame(DIRTY)) == Ok(BlobOf(w, DIRTY))
  {
    hide FormatFrame, BlobOf;
    ParseOfFormat(DIRTY);
    DirtyBlob(w);
  }

  lemma DirtyIsNotCanonical()
    ensures !CanonicalFrame(DIRTY)
  {
    assert DIRTY.entries[0].reserved[0] != Zeros(6)[0];
    assert !CanonicalEntry(DIRTY.entries[0], SumLengths(DIRTY.entries[..0]));
  }

  /** A blob whose only slice is marked present and stored as the stream [0]. */
  const CORRUPT := Blob([Slice(AMD64, PRESENT, CODEC_XZ, 5, [0])])

  /** When [0] is not a stream, the self-check of an amd64 image with that amd64 slice
      reports success. */
  lemma CorruptSlicePasses(w: Width, xz: Xz, digests: Digests, head: seq<byte>, image: seq<byte>)
    requires xz.dec([0]).None?
    requires BuildCanonical(w, head, CORRUPT) == Ok(image) && Separates(digests.sha256, image)
    ensures Find(CORRUPT.slices, AMD64) == Some(CORRUPT.slices[0]) && Embedded(CORRUPT.slices[0])
    ensures Verify(w, xz, digests, image, AMD64) == BlobOnly
  {
    hide FormatFrame, Verify;
    assert NativeOf(xz, CORRUPT, AMD64) == Err(CorruptStream);
    BuiltSize(w, head, CORRUPT);
    VerifyOnBuilt(w, w, xz, digests, head, CORRUPT, image, AMD64);
  }

  // ---------- Inventory

  datatype ArchEntry = ArchEntry(arch: seq<byte>, present: bool, size: nat, sha256: string, status: byte)

  function EntryOf(digests: Digests, s: Slice): ArchEntry {
    if Embedded(s) then ArchEntry(s.arch, true, |s.data|, digests.sha256(s.data), s.status)
    else ArchEntry(s.arch, false, |s.data|, "", s.status)
  }

  function EntriesFor(digests: Digests, ss: seq<Slice>): (es: seq<ArchEntry>)
    ensures |es| == |ss| && forall i :: 0 <= i < |ss| ==> es[i] == EntryOf(digests, ss[i])
  {
    seq(|ss|, i requires 0 <= i < |ss| => EntryOf(digests, ss[i]))
  }

  /** An entry tells a slice's name, stored size and status, and the digest of its stored
      bytes when it is present and not empty. */
  ghost predicate Tells(digests: Digests, e: ArchEntry, s: Slice) {
    && e.arch == s.arch && e.size == |s.data| && e.status == s.status
    && (e.present <==> s.status == 0 && s.data != [])
    && e.sha256 == if e.present then digests.sha256(s.data) else ""
  }

  /** The inventory loop: one entry per slice, in order. */
  method Inventory(w: Width, digests: Digests, image: seq<byte>) returns (r: Result<seq<ArchEntry>, Error>)
    ensures r.Err? <==> SplitCanonical(w, image).Err?
    ensures r.Ok? ==>
              var ss := SplitCanonical(w, image).value.blob.slices;
              |r.value| == |ss| && forall i :: 0 <= i < |ss| ==> Tells(digests, r.value[i], ss[i])
    ensures r == match SplitCanonical(w, image) {
                   case Err(e) => Err(e)
                   case Ok(Split(_, b)) => Ok(EntriesFor(digests, b.slices))
                 }
  {
    hide SplitCanonical;
    var split :- SplitCanonical(w, image);
    var ss := split.blob.slices;
    var entries: seq<ArchEntry> := [];
    for i := 0 to |ss|
      invariant |entries| == i
      invariant forall j :: 0 <= j < i ==> entries[j] == EntryOf(digests, ss[j])
    {
      var s := ss[i];
      var present, sha := false, "";
      if s.status == PRESENT && |s.data| > 0 {
        present := true;
        sha := digests.sha256(s.data);
      }
      entries := entries + [ArchEntry(s.arch, present, |s.data|, sha, s.status)];
    }
    assert entries == EntriesFor(digests, ss);
    return Ok(entries);
  }

  function FindEntry(es: seq<ArchEntry>, target: seq<byte>): Option<ArchEntry> {
    if es == [] then None
    else if es[0].arch == target then Some(es[0])
    else FindEntry(es[1..], target)
  }

  lemma {:induction false} EntryOfFound(digests: Digests, ss: seq<Slice>, target: seq<byte>)
    ensures FindEntry(EntriesFor(digests, ss), target) ==
              match Find(ss, target) { case None => None case Some(s) => Some(EntryOf(digests, s)) }
  {
    if ss != [] {
      assert EntriesFor(digests, ss)[1..] == EntriesFor(digests, ss[1..]);
      EntryOfFound(digests, ss[1..], target);
    }
  }

  /** The inventory foretells reconstruction: a target it does not list is missing, one
      it lists as absent is refused as reserved, and nothing else is. */
  lemma InventoryForetells(w: Width, xz: Xz, digests: Digests, image: seq<byte>, target: seq<byte>)
    requires SplitCanonical(w, image).Ok?
    ensures var entry := FindEntry(EntriesFor(digests, SplitCanonical(w, image).value.blob.slices), target);
            && (Reconstruct(w, xz, image, target) == Err(MissingArch) <==> entry.None?)
            && (Reconstruct(w, xz, image, target) == Err(ReservedArch) <==> entry.Some? && !entry.value.present)
  {
    hide SplitCanonical, Encode, NativeOf, Find, FindEntry, EntriesFor;
    var b := SplitCanonical(w, image).value.blob;
    EntryOfFound(digests, b.slices, target);
    NativeAbsent(xz, b, target);
    EncodeRefuses(w, b);
  }

  lemma NativeAbsent(xz: Xz, b: Blob, target: seq<byte>)
    ensures NativeOf(xz, b, target) == Err(MissingArch) <==> Find(b.slices, target).None?
    ensures NativeOf(xz, b, target) == Err(ReservedArch) <==>
              Find(b.slices, target).Some? && !Embedded(Find(b.slices, target).value)
  {
    hide Find;
  }
}

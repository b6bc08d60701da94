/** Exactly when Assemble succeeds, what it leaves behind, and the error otherwise - in
    terms of the input directory alone. */
module FatBuildExact {
  import opened Outcome
  import opened Bytes
  import opened Hashes
  import opened Layout
  import opened Format
  import opened FormatLaws
  import opened Compression
  import opened SelfImage
  import opened FatBuild
  import opened FatBuildLaws
  import opened ArchDetect

  // ---------- The slot of an architecture

  ghost predicate HasNative(dir: InputDir, x: string) { Buildable(x) && x in dir && dir[x].Native? }

  ghost predicate Unreadably(dir: InputDir, x: string) { Buildable(x) && x in dir && dir[x].Broken? }

  /** An arch that cannot be built for is a reserved slot, status 1; a native is a present
      one, status 0; a missing native gives none, and an unreadable one an error. */
  lemma SlotExactly(dir: InputDir, x: string)
    requires IsAscii(x)
    ensures SlotOf(dir, x) ==
              if !Buildable(x) then Ok(Some(Slice(Ascii(x), 1, 0, 0, [])))
              else if HasNative(dir, x) then Ok(Some(Slice(Ascii(x), 0, 0, 0, dir[x].data)))
              else if Unreadably(dir, x) then Err(Unreadable)
              else Ok(None)
  {
    LookupExactly(x);
  }

  ghost predicate AnyUnreadable(dir: InputDir, order: seq<string>) {
    exists x :: x in order && Unreadably(dir, x)
  }

  lemma AnyUnreadableSnoc(dir: InputDir, order: seq<string>)
    requires order != []
    ensures var last := |order| - 1;
            AnyUnreadable(dir, order) <==> AnyUnreadable(dir, order[..last]) || Unreadably(dir, order[last])
  {
    hide Unreadably;
    var last := |order| - 1;
    assert order == order[..last] + [order[last]];
    if AnyUnreadable(dir, order[..last]) {
      var x :| x in order[..last] && Unreadably(dir, x);
      assert x in order;
    }
    if Unreadably(dir, order[last]) {
      assert order[last] in order;
    }
  }

  /** Reading fails if and only if a native that is needed cannot be read. */
  lemma {:induction false} ReadsExactly(dir: InputDir, order: seq<string>)
    requires AsciiNames(order)
    ensures RawSlices(dir, order) == Err(Unreadable) <==> AnyUnreadable(dir, order)
    ensures RawSlices(dir, order).Err? ==> RawSlices(dir, order).error == Unreadable
  {
    hide SlotOf, AnyUnreadable;
    if order != [] {
      var last := |order| - 1;
      ReadsExactly(dir, order[..last]);
      SlotExactly(dir, order[last]);
      AnyUnreadableSnoc(dir, order);
    } else {
      NoneUnreadable(dir);
    }
  }

  lemma NoneUnreadable(dir: InputDir)
    ensures !AnyUnreadable(dir, [])
  {
  }

  ghost predicate Gives(dir: InputDir, x: string, native: seq<byte>) { x in dir && dir[x] == Native(native) }

  /** With all five natives there, the blob has these six slices in this order. */
  lemma FullBuild(dir: InputDir, n386: seq<byte>, amd64: seq<byte>, arm: seq<byte>, arm64: seq<byte>, riscv64: seq<byte>)
    requires Gives(dir, "386", n386) && Gives(dir, "amd64", amd64) && Gives(dir, "arm", arm)
    requires Gives(dir, "arm64", arm64) && Gives(dir, "riscv64", riscv64)
    ensures AsciiNames(FixedArchOrder())
    ensures RawSlices(dir, FixedArchOrder()) ==
              Ok([Slice(Ascii("386"), 0, 0, 0, n386), Slice(Ascii("amd64"), 0, 0, 0, amd64),
                  Slice(Ascii("arm"), 0, 0, 0, arm), Slice(Ascii("arm64"), 0, 0, 0, arm64),
                  Slice(Ascii("riscv64"), 0, 0, 0, riscv64), Slice(Ascii("riscv32"), 1, 0, 0, [])])
  {
    hide RawSlices, Gives, Buildable;
    OrderIsAscii();
    assert FixedArchOrder() == ["386", "amd64", "arm", "arm64", "riscv64", "riscv32"];
    PresentSnoc(dir, "386", n386, [], ["386"]);
    PresentSnoc(dir, "amd64", amd64, ["386"], ["386", "amd64"]);
    PresentSnoc(dir, "arm", arm, ["386", "amd64"], ["386", "amd64", "arm"]);
    PresentSnoc(dir, "arm64", arm64, ["386", "amd64", "arm"], ["386", "amd64", "arm", "arm64"]);
    PresentSnoc(dir, "riscv64", riscv64, ["386", "amd64", "arm", "arm64"], ["386", "amd64", "arm", "arm64", "riscv64"]);
    ReservedSnoc(dir, "riscv32", ["386", "amd64", "arm", "arm64", "riscv64"], FixedArchOrder());
    var ss := RawSlices(dir, FixedArchOrder()).value;
    assert ss == [Slice(Ascii("386"), 0, 0, 0, n386), Slice(Ascii("amd64"), 0, 0, 0, amd64),
                  Slice(Ascii("arm"), 0, 0, 0, arm), Slice(Ascii("arm64"), 0, 0, 0, arm64),
                  Slice(Ascii("riscv64"), 0, 0, 0, riscv64), Slice(Ascii("riscv32"), 1, 0, 0, [])];
  }

  lemma PresentSnoc(dir: InputDir, x: string, native: seq<byte>, init: seq<string>, order: seq<string>)
    requires AsciiNames(init) && order == init + [x]
    requires x in ["386", "amd64", "arm", "arm64", "riscv64"] && Gives(dir, x, native)
    ensures IsAscii(x) && AsciiNames(order) && RawSlices(dir, []) == Ok([])
    ensures RawSlices(dir, init).Ok? ==>
              RawSlices(dir, order) == Ok(RawSlices(dir, init).value + [Slice(Ascii(x), 0, 0, 0, native)])
  {
    hide SlotOf;
    assert order[..|order| - 1] == init;
    assert IsAscii(x);
    SlotExactly(dir, x);
  }

  lemma ReservedSnoc(dir: InputDir, x: string, init: seq<string>, order: seq<string>)
    requires AsciiNames(init) && order == init + [x] && x == "riscv32"
    ensures IsAscii(x) && AsciiNames(order)
    ensures RawSlices(dir, init).Ok? ==>
              RawSlices(dir, order) == Ok(RawSlices(dir, init).value + [Slice(Ascii(x), 1, 0, 0, [])])
  {
    hide SlotOf;
    assert order[..|order| - 1] == init;
    assert IsAscii(x);
    SlotExactly(dir, x);
  }

  /** Every slice is the slot of an arch in the order. */
  lemma SliceHasArch(dir: InputDir, order: seq<string>, raw: seq<Slice>, i: nat) returns (x: string)
    requires AsciiNames(order) && RawSlices(dir, order) == Ok(raw) && i < |raw|
    ensures x in order && SlotOf(dir, x) == Ok(Some(raw[i]))
    ensures raw[i].codec == 0 && raw[i].arch == Ascii(x)
    ensures (raw[i].status == 0 && raw[i].data != []) <==> Emitted(dir, x)
    ensures Emitted(dir, x) ==> raw[i].data == dir[x].data
  {
    hide RawSlices, Kept, SlotOf;
    SlicesFollowOrder(dir, order);
    x := order[Kept(dir, order)[i]];
    SlotExactly(dir, x);
  }

  /** Every emitted arch has its slice. */
  lemma ArchHasSlice(dir: InputDir, order: seq<string>, raw: seq<Slice>, x: string) returns (i: nat)
    requires AsciiNames(order) && Distinct(order) && RawSlices(dir, order) == Ok(raw)
    requires x in order && Emitted(dir, x)
    ensures i < |raw| && raw[i] == Slice(Ascii(x), 0, 0, 0, dir[x].data)
  {
    hide RawSlices, Emitted;
    EmittedIsSlice(dir, order, x);
    i := FindIsFirst(raw, Ascii(x));
  }

  // ---------- The size of the blob

  /** The stored form of a native is its stream or itself, whichever is shorter. */
  ghost function StoredLen(xz: Xz, data: seq<byte>): nat {
    if data == [] || xz.enc(data) == None then 0
    else if |xz.enc(data).value| < |data| then |xz.enc(data).value| else |data|
  }

  ghost function SlotLen(xz: Xz, dir: InputDir, x: string): nat {
    if !Buildable(x) then 40 else if HasNative(dir, x) then 40 + StoredLen(xz, dir[x].data) else 0
  }

  ghost function SlotsLen(xz: Xz, dir: InputDir, order: seq<string>): nat {
    if order == [] then 0 else SlotsLen(xz, dir, order[..|order| - 1]) + SlotLen(xz, dir, order[|order| - 1])
  }

  /** Header, 40 bytes per slot, the stored natives, trailer. */
  ghost function BlobLen(xz: Xz, dir: InputDir, order: seq<string>): nat { 26 + SlotsLen(xz, dir, order) }

  ghost predicate AllStored(xz: Xz, raw: seq<Slice>, c: seq<Slice>) {
    |raw| == |c| && forall i :: 0 <= i < |raw| ==> StoredAs(xz, raw[i], c[i])
  }

  lemma SlotStored(xz: Xz, dir: InputDir, x: string, s: Slice, c: Slice)
    requires IsAscii(x) && SlotOf(dir, x) == Ok(Some(s)) && StoredAs(xz, s, c)
    ensures 40 + |c.data| == SlotLen(xz, dir, x)
    ensures c.arch == Ascii(x) && c.codec <= 1
  {
    hide SlotOf;
    SlotExactly(dir, x);
  }

  lemma SlotEmpty(xz: Xz, dir: InputDir, x: string)
    requires IsAscii(x) && SlotOf(dir, x) == Ok(None)
    ensures SlotLen(xz, dir, x) == 0
  {
    hide SlotOf;
    SlotExactly(dir, x);
  }

  lemma {:induction false} StoredSize(xz: Xz, dir: InputDir, order: seq<string>, raw: seq<Slice>, c: seq<Slice>)
    requires AsciiNames(order) && RawSlices(dir, order) == Ok(raw) && AllStored(xz, raw, c)
    ensures 40 * |c| + PayloadLen(c) == SlotsLen(xz, dir, order)
    ensures |c| <= |order|
  {
    hide SlotOf, StoredAs, SlotLen;
    if order != [] {
      var last := |order| - 1;
      var init := RawSlices(dir, order[..last]).value;
      var slot := SlotOf(dir, order[last]).value;
      StoredSize(xz, dir, order[..last], init, c[..|init|]);
      if slot.Some? {
        SlotStored(xz, dir, order[last], slot.value, c[|init|]);
      } else {
        SlotEmpty(xz, dir, order[last]);
        assert c[..|init|] == c;
      }
    }
  }

  // ---------- When it succeeds

  /** Names that a blob can hold, not too many, each once. */
  ghost predicate FitOrder(order: seq<string>) {
    AsciiNames(order) && Distinct(order) && |order| <= 0xFFFF && forall x :: x in order ==> |x| <= 8
  }

  ghost predicate Unencodable(xz: Xz, dir: InputDir, x: string) {
    HasNative(dir, x) && dir[x].data != [] && xz.enc(dir[x].data) == None
  }

  /** The blob, and every image around it, fits `int`. */
  ghost predicate Fits(w: Width, xz: Xz, dir: InputDir, order: seq<string>) {
    && BlobLen(xz, dir, order) <= w.MaxInt()
    && forall x :: x in order && Emitted(dir, x) ==> |dir[x].data| + BlobLen(xz, dir, order) <= w.MaxInt()
  }

  lemma {:induction false} EmitsExactly(w: Width, digests: Digests, b: Blob, ss: seq<Slice>,
                                       files: map<seq<byte>, seq<byte>>)
    requires Encode(w, b).Ok?
    ensures EmitAll(w, digests, b, ss, files).failure.None? <==>
              forall i :: 0 <= i < |ss| && Embedded(ss[i]) ==> |ss[i].data| + |Encode(w, b).value| <= w.MaxInt()
    ensures var failure := EmitAll(w, digests, b, ss, files).failure;
            failure.Some? ==> failure.value == SizeOverflow
  {
    hide Encode, FileName;
    if ss != [] {
      var init := ss[..|ss| - 1];
      EmitsExactly(w, digests, b, init, files);
      assert forall i :: 0 <= i < |init| ==> init[i] == ss[i];
    }
  }

  ghost predicate AnyUnencodable(xz: Xz, dir: InputDir, order: seq<string>) {
    exists x :: x in order && Unencodable(xz, dir, x)
  }

  /** CompressBlob on the slices fails only when the encoder does. */
  lemma CompressesExactly(xz: Xz, dir: InputDir, order: seq<string>, raw: seq<Slice>)
    requires AsciiNames(order) && Distinct(order) && RawSlices(dir, order) == Ok(raw)
    ensures CompressBlob(xz, Blob(raw)).Err? <==> AnyUnencodable(xz, dir, order)
    ensures CompressBlob(xz, Blob(raw)).Err? ==> CompressBlob(xz, Blob(raw)) == Err(CompressFailed)
  {
    hide RawSlices, CompressBlob, StoredAs;
    var r := CompressBlob(xz, Blob(raw));
    CompressExactly(xz, Blob(raw));
    if r.Err? {
      CompressRefuses(xz, Blob(raw), r.error);
      var i :| 0 <= i < |raw| && Refused(xz, raw[i], r.error);
      var x := SliceHasArch(dir, order, raw, i);
      assert Unencodable(xz, dir, x);
    }
    if AnyUnencodable(xz, dir, order) {
      var x :| x in order && Unencodable(xz, dir, x);
      var i := ArchHasSlice(dir, order, raw, x);
      assert raw[i].status == 0 && raw[i].data != [] && xz.enc(raw[i].data).None?;
    }
  }

  /** The encoding of the compressed slices has the expected length, and fails only by size. */
  lemma EncodesExactly(w: Width, xz: Xz, dir: InputDir, order: seq<string>, raw: seq<Slice>, b: Blob)
    requires FitOrder(order) && RawSlices(dir, order) == Ok(raw) && CompressBlob(xz, Blob(raw)) == Ok(b)
    ensures Encode(w, b).Ok? <==> BlobLen(xz, dir, order) <= w.MaxInt()
    ensures Encode(w, b).Ok? ==> |Encode(w, b).value| == BlobLen(xz, dir, order)
    ensures Encode(w, b).Err? ==> Encode(w, b) == Err(SizeOverflow)
  {
    hide RawSlices, CompressBlob, FormatFrame, FirstError, StoredAs, SlotOf, PayloadLen, FirstBad;
    CompressExactly(xz, Blob(raw));
    StoredSize(xz, dir, order, raw, b.slices);
    forall i | 0 <= i < |b.slices| ensures |b.slices[i].arch| <= 8 && b.slices[i].codec <= 1 {
      var x := SliceHasArch(dir, order, raw, i);
      SlotStored(xz, dir, x, raw[i], b.slices[i]);
    }
    EncodeAccepts(w, b);
    EncodeRefuses(w, b);
    NoFirstBad(b.slices);
  }

  lemma NoFirstBad(ss: seq<Slice>)
    requires forall i :: 0 <= i < |ss| ==> Encodable(ss[i])
    ensures forall i :: !FirstBad(ss, i)
  {
  }

  /** The outcome of Assemble, from the input directory: which error there is, if any -
      an unreadable native, then an encoder that fails, then a size that does not fit. */
  lemma AssembleOutcome(w: Width, xz: Xz, digests: Digests, dir: InputDir, order: seq<string>,
                        before: map<seq<byte>, seq<byte>>)
    requires FitOrder(order)
    ensures var r := Assembled(w, xz, digests, dir, order, before).0;
            var unreadable, unencodable := AnyUnreadable(dir, order), AnyUnencodable(xz, dir, order);
            && (r == Err(Unreadable) <==> unreadable)
            && (r == Err(CompressFailed) <==> !unreadable && unencodable)
            && (r == Err(SizeOverflow) <==> !unreadable && !unencodable && !Fits(w, xz, dir, order))
            && (r.Ok? <==> !unreadable && !unencodable && Fits(w, xz, dir, order))
  {
    hide RawSlices, CompressBlob, Encode, EmitAll, AnyUnreadable, AnyUnencodable, BlobLen, Emitted;
    ReadsExactly(dir, order);
    if RawSlices(dir, order).Ok? {
      var raw := RawSlices(dir, order).value;
      CompressesExactly(xz, dir, order, raw);
      if CompressBlob(xz, Blob(raw)).Ok? {
        var b := CompressBlob(xz, Blob(raw)).value;
        EncodesExactly(w, xz, dir, order, raw, b);
        if Encode(w, b).Ok? {
          EmitsExactly(w, digests, b, raw, before);
          ImagesFit(w, dir, order, raw, BlobLen(xz, dir, order));
        }
      }
    }
  }

  lemma ImagesFit(w: Width, dir: InputDir, order: seq<string>, raw: seq<Slice>, size: nat)
    requires AsciiNames(order) && Distinct(order) && RawSlices(dir, order) == Ok(raw)
    ensures (forall i :: 0 <= i < |raw| && Embedded(raw[i]) ==> |raw[i].data| + size <= w.MaxInt()) <==>
            (forall x :: x in order && Emitted(dir, x) ==> |dir[x].data| + size <= w.MaxInt())
  {
    hide RawSlices, SlotOf;
    if forall i :: 0 <= i < |raw| && Embedded(raw[i]) ==> |raw[i].data| + size <= w.MaxInt() {
      forall x | x in order && Emitted(dir, x) ensures |dir[x].data| + size <= w.MaxInt() {
        var i := ArchHasSlice(dir, order, raw, x);
        assert Embedded(raw[i]);
      }
    }
    if forall x :: x in order && Emitted(dir, x) ==> |dir[x].data| + size <= w.MaxInt() {
      forall i | 0 <= i < |raw| && Embedded(raw[i]) ensures |raw[i].data| + size <= w.MaxInt() {
        var x := SliceHasArch(dir, order, raw, i);
      }
    }
  }

  // ---------- What it leaves behind

  ghost function ImageName(x: string): seq<byte>
    requires IsAscii(x)
  {
    Ascii("go-teleport-self.") + Ascii(x)
  }

  /** The record of an arch in the manifest. */
  ghost predicate RecordOf(digests: Digests, dir: InputDir, x: string, a: ArtifactInfo, files: map<seq<byte>, seq<byte>>)
    requires IsAscii(x)
  {
    if Emitted(dir, x) then
      && ImageName(x) in files
      && a == ArtifactInfo(Ascii(x), ImageName(x), true, |files[ImageName(x)]|,
                           digests.sha256(files[ImageName(x)]), digests.md5(files[ImageName(x)]))
    else a == ArtifactInfo(Ascii(x), [], false, 0, "", "")
  }

  ghost predicate SaysVersion2(m: Manifest) { m.format == Ascii("FATBLOB") + [2] }

  /** Every image is there, and no other file changed. */
  ghost predicate HoldsImages(dir: InputDir, order: seq<string>, enc: seq<byte>,
                              before: map<seq<byte>, seq<byte>>, files: map<seq<byte>, seq<byte>>)
    requires AsciiNames(order)
  {
    && (forall x :: x in order && Emitted(dir, x) ==> ImageName(x) in files && files[ImageName(x)] == dir[x].data + enc)
    && forall f :: (forall x :: x in order && Emitted(dir, x) ==> f != ImageName(x)) ==> SameFile(f, before, files)
  }

  /** There is a record for every slot, in order. */
  ghost predicate HoldsRecords(digests: Digests, dir: InputDir, order: seq<string>, records: seq<ArtifactInfo>,
                               files: map<seq<byte>, seq<byte>>)
    requires AsciiNames(order)
  {
    var ks := Kept(dir, order);
    && |records| == |ks|
    && forall k :: 0 <= k < |ks| ==> ks[k] < |order| && RecordOf(digests, dir, order[ks[k]], records[k], files)
  }

  /** What a finished build leaves: for every arch that can be built for and has a
      non-empty native, that native followed by the blob under the arch's file name; no
      other file changed; and a manifest that says version 2, gives the blob's size and
      digest, and has a record for every slot, in order. */
  lemma BuildLeaves(w: Width, xz: Xz, digests: Digests, dir: InputDir, order: seq<string>,
                    before: map<seq<byte>, seq<byte>>, m: Manifest, files: map<seq<byte>, seq<byte>>)
    returns (enc: seq<byte>)
    requires Finished(w, xz, digests, dir, order, before, m, files) && FitOrder(order)
    ensures |enc| == m.blobSize == BlobLen(xz, dir, order)
    ensures m.blobSha256 == digests.sha256(enc) && SaysVersion2(m)
    ensures HoldsImages(dir, order, enc, before, files)
    ensures HoldsRecords(digests, dir, order, m.artifacts, files)
  {
    hide RawSlices, CompressBlob, Encode, Assembled, FirstError, Written, Emitted, HoldsImages, HoldsRecords, Records,
         BlobLen;
    var raw, b := FinishedBlobs(w, xz, digests, dir, order, before, m, files);
    enc := Encode(w, b).value;
    EncodesExactly(w, xz, dir, order, raw.slices, b);
    EncodedBytes(w, b, enc);
    ImagesAreThere(w, dir, order, raw, b, before, files);
    RecordsAreThere(digests, dir, order, raw, m.artifacts, files);
  }

  lemma RecordsAreThere(digests: Digests, dir: InputDir, order: seq<string>, raw: Blob, records: seq<ArtifactInfo>,
                        files: map<seq<byte>, seq<byte>>)
    requires AsciiNames(order) && RawSlices(dir, order) == Ok(raw.slices) && |records| == |raw.slices|
    requires forall i :: 0 <= i < |raw.slices| ==> Records(digests, raw.slices[i], records[i], files)
    ensures HoldsRecords(digests, dir, order, records, files)
  {
    hide RawSlices, Kept, SlotOf, Emitted, Records, RecordOf;
    SlicesFollowOrder(dir, order);
    var ks := Kept(dir, order);
    forall k | 0 <= k < |ks| ensures ks[k] < |order| && RecordOf(digests, dir, order[ks[k]], records[k], files) {
      SlotName(dir, order[ks[k]]);
      RecordIs(digests, dir, order[ks[k]], raw.slices[k], records[k], files);
    }
  }

  lemma ImagesAreThere(w: Width, dir: InputDir, order: seq<string>, raw: Blob, b: Blob,
                       before: map<seq<byte>, seq<byte>>, files: map<seq<byte>, seq<byte>>)
    requires AsciiNames(order) && Distinct(order) && RawSlices(dir, order) == Ok(raw.slices)
    requires Written(w, b, raw.slices, before, files) && Encode(w, b).Ok?
    ensures HoldsImages(dir, order, Encode(w, b).value, before, files)
  {
    hide RawSlices, Encode, Written, SameFile, Emitted, ImageName;
    forall x | x in order && Emitted(dir, x)
      ensures IsAscii(x) && ImageName(x) in files && x in dir && dir[x].Native?
      ensures files[ImageName(x)] == dir[x].data + Encode(w, b).value
    {
      ImageIsThere(w, dir, order, raw, b, before, files, x);
    }
    forall f | forall x :: x in order && Emitted(dir, x) ==> f != ImageName(x) ensures SameFile(f, before, files) {
      OthersKept(w, dir, order, raw, b, before, files, f);
    }
  }

  lemma ImageIsThere(w: Width, dir: InputDir, order: seq<string>, raw: Blob, b: Blob,
                     before: map<seq<byte>, seq<byte>>, files: map<seq<byte>, seq<byte>>, x: string)
    requires AsciiNames(order) && Distinct(order) && RawSlices(dir, order) == Ok(raw.slices)
    requires Written(w, b, raw.slices, before, files) && x in order && Emitted(dir, x) && Encode(w, b).Ok?
    ensures x in dir && dir[x].Native?
    ensures ImageName(x) in files && files[ImageName(x)] == dir[x].data + Encode(w, b).value
  {
    hide RawSlices, Encode, Written;
    SliceImage(w, dir, order, raw, b, before, files, x);
  }

  lemma RecordIs(digests: Digests, dir: InputDir, x: string, s: Slice, a: ArtifactInfo, files: map<seq<byte>, seq<byte>>)
    requires IsAscii(x) && s.arch == Ascii(x) && (Embedded(s) <==> Emitted(dir, x)) && Records(digests, s, a, files)
    ensures RecordOf(digests, dir, x, a, files)
  {
    hide Emitted;
  }

  lemma OthersKept(w: Width, dir: InputDir, order: seq<string>, raw: Blob, b: Blob,
                   before: map<seq<byte>, seq<byte>>, files: map<seq<byte>, seq<byte>>, f: seq<byte>)
    requires AsciiNames(order) && RawSlices(dir, order) == Ok(raw.slices)
    requires Written(w, b, raw.slices, before, files)
    requires forall x :: x in order && Emitted(dir, x) ==> f != ImageName(x)
    ensures SameFile(f, before, files)
  {
    hide RawSlices, Emitted, HasImage, SameFile, Kept, SlotOf;
    SlicesFollowOrder(dir, order);
    forall i | 0 <= i < |raw.slices| ensures !NamedBy(f, raw.slices[i]) {
      SlotName(dir, order[Kept(dir, order)[i]]);
    }
  }

  /** When an image does not fit, those before it stay written, and it is the first. */
  lemma {:induction false} EmitStopsAt(w: Width, digests: Digests, b: Blob, ss: seq<Slice>,
                                       before: map<seq<byte>, seq<byte>>) returns (f: nat)
    requires DistinctArchs(ss) && Encode(w, b).Ok? && EmitAll(w, digests, b, ss, before).failure.Some?
    ensures f < |ss| && Embedded(ss[f]) && |ss[f].data| + |Encode(w, b).value| > w.MaxInt()
    ensures forall i :: 0 <= i < f && Embedded(ss[i]) ==> |ss[i].data| + |Encode(w, b).value| <= w.MaxInt()
    ensures Written(w, b, ss[..f], before, EmitAll(w, digests, b, ss, before).files)
  {
    hide Encode, FileName, Written;
    var last := |ss| - 1;
    var init := ss[..last];
    if EmitAll(w, digests, b, init, before).failure.Some? {
      f := EmitStopsAt(w, digests, b, init, before);
      assert init[..f] == ss[..f];
      assert forall i :: 0 <= i <= f ==> init[i] == ss[i];
    } else {
      f := last;
      EmitsExactly(w, digests, b, init, before);
      EmitAllWrites(w, digests, b, init, before);
      assert forall i :: 0 <= i < f ==> init[i] == ss[i];
    }
  }

  /** What a failed build leaves: the images before the first that does not fit, and
      nothing at all when it fails for another reason or the blob itself does not fit. */
  lemma FailedBuildLeaves(w: Width, xz: Xz, digests: Digests, dir: InputDir, order: seq<string>,
                          before: map<seq<byte>, seq<byte>>) returns (f: nat)
    requires FitOrder(order) && Assembled(w, xz, digests, dir, order, before).0.Err?
    ensures var (r, files) := Assembled(w, xz, digests, dir, order, before);
            if r != Err(SizeOverflow) || BlobLen(xz, dir, order) > w.MaxInt() then files == before
            else
              && RawSlices(dir, order).Ok? && CompressBlob(xz, Blob(RawSlices(dir, order).value)).Ok?
              && var raw := RawSlices(dir, order).value;
                 f < |raw| && Written(w, CompressBlob(xz, Blob(raw)).value, raw[..f], before, files)
                 && Embedded(raw[f]) && |raw[f].data| + BlobLen(xz, dir, order) > w.MaxInt()
  {
    hide RawSlices, CompressBlob, Encode, EmitAll, BlobLen, Written, Emitted, AnyUnreadable, AnyUnencodable;
    f := 0;
    AssembleOutcome(w, xz, digests, dir, order, before);
    if RawSlices(dir, order).Ok? {
      var raw := RawSlices(dir, order).value;
      if CompressBlob(xz, Blob(raw)).Ok? {
        var b := CompressBlob(xz, Blob(raw)).value;
        EncodesExactly(w, xz, dir, order, raw, b);
        if Encode(w, b).Ok? {
          RawArchsDistinct(dir, order);
          EmitsExactly(w, digests, b, raw, before);
          f := EmitStopsAt(w, digests, b, raw, before);
        }
      } else {
        CompressesExactly(xz, dir, order, raw);
      }
    } else {
      ReadsExactly(dir, order);
    }
  }

  /** The fixed order is one that all of this is about. */
  lemma FixedOrderFits()
    ensures FitOrder(FixedArchOrder())
  {
    FixedOrderIsFit();
    forall x | x in FixedArchOrder() ensures |x| <= 8 {
      var i :| 0 <= i < |FixedArchOrder()| && FixedArchOrder()[i] == x;
    }
  }
}

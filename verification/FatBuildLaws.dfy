/** What a finished Assemble guarantees about the directory it leaves. */
module FatBuildLaws {
  import opened Outcome
  import opened Bytes
  import opened Hashes
  import opened Format
  import opened FormatLaws
  import opened Compression
  import opened SelfImage
  import opened FatBuild
  import ArchDetect

  ghost predicate Distinct(order: seq<string>) {
    forall i, j :: 0 <= i < j < |order| ==> order[i] != order[j]
  }

  // ---------- The slices follow the fixed order

  /** The positions in `order` whose archs contribute a slice. */
  function Kept(dir: InputDir, order: seq<string>): seq<nat>
    requires AsciiNames(order)
  {
    if order == [] then []
    else
      var last := |order| - 1;
      var ks := Kept(dir, order[..last]);
      if SlotOf(dir, order[last]).Ok? && SlotOf(dir, order[last]).value.Some? then ks + [last] else ks
  }

  /** Slice `k` is the one that the arch at position `ks[k]` contributes. */
  ghost predicate Follows(dir: InputDir, order: seq<string>, ss: seq<Slice>, ks: seq<nat>)
    requires AsciiNames(order)
  {
    && |ks| == |ss|
    && (forall k :: 0 <= k < |ks| ==> ks[k] < |order| && SlotOf(dir, order[ks[k]]) == Ok(Some(ss[k])))
    && (forall j, k :: 0 <= j < k < |ks| ==> ks[j] < ks[k])
  }

  /** The slices are a subsequence of the fixed order, without gaps other than missing natives. */
  lemma {:induction false} SlicesFollowOrder(dir: InputDir, order: seq<string>)
    requires AsciiNames(order) && RawSlices(dir, order).Ok?
    ensures Follows(dir, order, RawSlices(dir, order).value, Kept(dir, order))
  {
    hide SlotOf;
    if order != [] {
      var last := |order| - 1;
      SlicesFollowOrder(dir, order[..last]);
      assert forall i :: 0 <= i < last ==> order[..last][i] == order[i];
    }
  }

  lemma SlotName(dir: InputDir, arch: string)
    requires IsAscii(arch) && SlotOf(dir, arch).Ok? && SlotOf(dir, arch).value.Some?
    ensures var s := SlotOf(dir, arch).value.value;
            && s.arch == Ascii(arch) && s.codec == CODEC_NONE
            && (Embedded(s) <==> Emitted(dir, arch))
            && (Embedded(s) ==> s.data == dir[arch].data)
  {
    ArchDetect.LookupExactly(arch);
  }

  /** The archs that get an image: buildable, with a native file that is not empty. */
  predicate Emitted(dir: InputDir, arch: string) {
    ArchDetect.Buildable(arch) && arch in dir && dir[arch].Native? && dir[arch].data != []
  }

  ghost predicate DistinctArchs(ss: seq<Slice>) {
    forall i, j :: 0 <= i < j < |ss| ==> ss[i].arch != ss[j].arch
  }

  lemma RawArchsDistinct(dir: InputDir, order: seq<string>)
    requires AsciiNames(order) && Distinct(order) && RawSlices(dir, order).Ok?
    ensures DistinctArchs(RawSlices(dir, order).value)
  {
    hide SlotOf, RawSlices, Kept;
    var ss, ks := RawSlices(dir, order).value, Kept(dir, order);
    SlicesFollowOrder(dir, order);
    forall i, j | 0 <= i < j < |ss| ensures ss[i].arch != ss[j].arch {
      SlotName(dir, order[ks[i]]);
      SlotName(dir, order[ks[j]]);
      AsciiInjective(order[ks[i]], order[ks[j]]);
    }
  }

  // ---------- Looking a target up in the slices

  lemma {:induction false} FindSnoc(ss: seq<Slice>, s: Slice, target: seq<byte>)
    ensures Find(ss + [s], target) ==
              if Find(ss, target).Some? then Find(ss, target)
              else if s.arch == target then Some(s) else None
  {
    if ss == [] {
      assert ss + [s] == [s];
      assert Find([s][1..], target) == None;
    } else {
      assert (ss + [s])[1..] == ss[1..] + [s];
      FindSnoc(ss[1..], s, target);
    }
  }

  lemma FindExtend(ss: seq<Slice>, slot: Option<Slice>, target: seq<byte>)
    ensures Find(Extend(ss, slot), target) ==
              if Find(ss, target).Some? then Find(ss, target)
              else if slot.Some? && slot.value.arch == target then slot else None
  {
    if slot.Some? {
      FindSnoc(ss, slot.value, target);
    }
  }

  /** A name outside the order finds nothing. */
  lemma {:induction false} FindUnlisted(dir: InputDir, order: seq<string>, target: seq<byte>)
    requires AsciiNames(order) && RawSlices(dir, order).Ok?
    requires forall i :: 0 <= i < |order| ==> Ascii(order[i]) != target
    ensures Find(RawSlices(dir, order).value, target) == None
  {
    hide SlotOf;
    if order != [] {
      var last := |order| - 1;
      FindUnlisted(dir, order[..last], target);
      var slot := SlotOf(dir, order[last]).value;
      FindExtend(RawSlices(dir, order[..last]).value, slot, target);
      if slot.Some? {
        SlotName(dir, order[last]);
      }
    }
  }

  /** A listed arch finds exactly the slot it contributes. */
  lemma {:induction false} FindListed(dir: InputDir, order: seq<string>, i: nat)
    requires AsciiNames(order) && Distinct(order) && i < |order| && RawSlices(dir, order).Ok?
    ensures SlotOf(dir, order[i]).Ok?
    ensures Find(RawSlices(dir, order).value, Ascii(order[i])) == SlotOf(dir, order[i]).value
  {
    hide SlotOf;
    var last := |order| - 1;
    var init := order[..last];
    var target := Ascii(order[i]);
    var slot := SlotOf(dir, order[last]).value;
    FindExtend(RawSlices(dir, init).value, slot, target);
    if slot.Some? {
      SlotName(dir, order[last]);
      AsciiInjective(order[i], order[last]);
    }
    if i < last {
      FindListed(dir, init, i);
    } else {
      forall j | 0 <= j < last ensures Ascii(init[j]) != target {
        AsciiInjective(init[j], order[last]);
      }
      FindUnlisted(dir, init, target);
    }
  }

  // ---------- The files written

  lemma FileNameInjective(a: seq<byte>, b: seq<byte>)
    ensures FileName(a) == FileName(b) <==> a == b
  {
    var p := Ascii("go-teleport-self.");
    assert (p + a)[|p|..] == a && (p + b)[|p|..] == b;
  }

  /** The image of `s` is on disk under its name. */
  ghost predicate HasImage(w: Width, b: Blob, s: Slice, files: map<seq<byte>, seq<byte>>) {
    Embedded(s) ==>
      && FileName(s.arch) in files
      && BuildCanonical(w, s.data, b) == Ok(files[FileName(s.arch)])
  }

  ghost predicate NamedBy(f: seq<byte>, s: Slice) { Embedded(s) && FileName(s.arch) == f }

  ghost predicate SameFile(f: seq<byte>, before: map<seq<byte>, seq<byte>>, after: map<seq<byte>, seq<byte>>) {
    (f in after <==> f in before) && (f in before ==> after[f] == before[f])
  }

  /** Each embedded slice has its image under its name, and no other file changed. */
  ghost predicate Written(w: Width, b: Blob, ss: seq<Slice>, before: map<seq<byte>, seq<byte>>,
                          after: map<seq<byte>, seq<byte>>) {
    && (forall i :: 0 <= i < |ss| ==> HasImage(w, b, ss[i], after))
    && (forall f :: (forall i :: 0 <= i < |ss| ==> !NamedBy(f, ss[i])) ==> SameFile(f, before, after))
  }

  lemma WriteOne(w: Width, digests: Digests, b: Blob, s: Slice, prior: Emission)
    requires prior.failure.None? && EmitOne(w, digests, b, s, prior).failure.None?
    ensures var after := EmitOne(w, digests, b, s, prior).files;
            && HasImage(w, b, s, after)
            && (forall f :: !NamedBy(f, s) ==> SameFile(f, prior.files, after))
  {
    hide BuildCanonical, FileName;
  }

  lemma OtherImageKept(w: Width, b: Blob, s: Slice, t: Slice,
                       files: map<seq<byte>, seq<byte>>, after: map<seq<byte>, seq<byte>>)
    requires HasImage(w, b, t, files) && s.arch != t.arch
    requires forall f :: !NamedBy(f, s) ==> SameFile(f, files, after)
    ensures HasImage(w, b, t, after)
  {
    hide BuildCanonical, FileName;
    FileNameInjective(s.arch, t.arch);
    assert SameFile(FileName(t.arch), files, after);
  }

  lemma {:induction false} EmitAllWrites(w: Width, digests: Digests, b: Blob, ss: seq<Slice>,
                                        files: map<seq<byte>, seq<byte>>)
    requires DistinctArchs(ss) && EmitAll(w, digests, b, ss, files).failure.None?
    ensures Written(w, b, ss, files, EmitAll(w, digests, b, ss, files).files)
  {
    hide HasImage, NamedBy, EmitOne, BuildCanonical, FileName;
    if ss == [] {
      assert forall f :: SameFile(f, files, files);
    } else {
      var last := |ss| - 1;
      var init, s := ss[..last], ss[last];
      EmitAllWrites(w, digests, b, init, files);
      var prior := EmitAll(w, digests, b, init, files);
      var after := EmitAll(w, digests, b, ss, files).files;
      WriteOne(w, digests, b, s, prior);
      forall i | 0 <= i < last ensures HasImage(w, b, ss[i], after) {
        assert init[i] == ss[i];
        OtherImageKept(w, b, s, ss[i], prior.files, after);
      }
      forall f | forall i :: 0 <= i < |ss| ==> !NamedBy(f, ss[i]) ensures SameFile(f, files, after) {
        assert forall i :: 0 <= i < last ==> init[i] == ss[i];
        assert SameFile(f, files, prior.files);
      }
    }
  }

  // ---------- The records in the manifest

  /** Record `a` describes what was done for slice `s`. */
  ghost predicate Records(digests: Digests, s: Slice, a: ArtifactInfo, files: map<seq<byte>, seq<byte>>) {
    && a.arch == s.arch
    && (a.present <==> Embedded(s))
    && (a.present ==>
          && a.file == FileName(s.arch) && a.file in files
          && a.size == |files[a.file]|
          && a.sha256 == digests.sha256(files[a.file]) && a.md5 == digests.md5(files[a.file]))
    && (!a.present ==> a == ArtifactInfo(s.arch, [], false, 0, "", ""))
  }

  lemma RecordOne(w: Width, digests: Digests, b: Blob, s: Slice, prior: Emission)
    requires prior.failure.None? && EmitOne(w, digests, b, s, prior).failure.None?
    ensures var done := EmitOne(w, digests, b, s, prior);
            && |done.artifacts| == |prior.artifacts| + 1 && prior.artifacts <= done.artifacts
            && Records(digests, s, done.artifacts[|prior.artifacts|], done.files)
  {
    hide BuildCanonical, FileName;
  }

  lemma OtherRecordKept(digests: Digests, s: Slice, t: Slice, a: ArtifactInfo,
                        files: map<seq<byte>, seq<byte>>, after: map<seq<byte>, seq<byte>>)
    requires Records(digests, t, a, files) && s.arch != t.arch
    requires forall f :: !NamedBy(f, s) ==> SameFile(f, files, after)
    ensures Records(digests, t, a, after)
  {
    hide FileName;
    FileNameInjective(s.arch, t.arch);
    assert SameFile(FileName(t.arch), files, after);
  }

  /** The manifest has one record per slice, in order; each record of a written image
      gives the size and digests of the very file on disk. */
  lemma {:induction false} EmitAllRecords(w: Width, digests: Digests, b: Blob, ss: seq<Slice>,
                                         files: map<seq<byte>, seq<byte>>)
    requires DistinctArchs(ss) && EmitAll(w, digests, b, ss, files).failure.None?
    ensures var done := EmitAll(w, digests, b, ss, files);
            && |done.artifacts| == |ss|
            && forall i :: 0 <= i < |ss| ==> Records(digests, ss[i], done.artifacts[i], done.files)
  {
    hide Records, NamedBy, EmitOne, BuildCanonical, FileName;
    if ss != [] {
      var last := |ss| - 1;
      var init, s := ss[..last], ss[last];
      EmitAllRecords(w, digests, b, init, files);
      var prior := EmitAll(w, digests, b, init, files);
      var done := EmitAll(w, digests, b, ss, files);
      WriteOne(w, digests, b, s, prior);
      RecordOne(w, digests, b, s, prior);
      forall i | 0 <= i < last ensures Records(digests, ss[i], done.artifacts[i], done.files) {
        assert init[i] == ss[i];
        OtherRecordKept(digests, s, ss[i], prior.artifacts[i], prior.files, done.files);
      }
    }
  }

  // ---------- The finished build

  /** The native of an emitted arch. */
  function NativeFor(dir: InputDir, arch: string): seq<byte>
    requires Emitted(dir, arch)
  {
    dir[arch].data
  }

  /** Where the image of an arch goes. */
  function ImageFile(arch: string): seq<byte>
    requires IsAscii(arch)
  {
    FileName(Ascii(arch))
  }

  ghost predicate FitsHost(w: Width, dir: InputDir) {
    forall arch :: arch in dir && dir[arch].Native? ==> |dir[arch].data| <= w.MaxInt()
  }

  /** Assemble over `order` succeeded with manifest `m`, leaving `files`. */
  ghost predicate Finished(w: Width, xz: Xz, digests: Digests, dir: InputDir, order: seq<string>,
                           before: map<seq<byte>, seq<byte>>, m: Manifest, files: map<seq<byte>, seq<byte>>) {
    && AsciiNames(order) && Distinct(order) && FitsHost(w, dir)
    && Assembled(w, xz, digests, dir, order, before) == (Ok(m), files)
  }

  /** The raw and the compressed blob of a finished build. */
  lemma FinishedBlobs(w: Width, xz: Xz, digests: Digests, dir: InputDir, order: seq<string>,
                      before: map<seq<byte>, seq<byte>>, m: Manifest, files: map<seq<byte>, seq<byte>>)
    returns (raw: Blob, b: Blob)
    requires Finished(w, xz, digests, dir, order, before, m, files)
    ensures RawSlices(dir, order) == Ok(raw.slices) && CompressBlob(xz, raw) == Ok(b) && Encode(w, b).Ok?
    ensures Written(w, b, raw.slices, before, files)
    ensures m.blobSize == |Encode(w, b).value| && m.blobSha256 == digests.sha256(Encode(w, b).value)
    ensures m.format == Encode(w, b).value[..8]
    ensures |m.artifacts| == |raw.slices|
    ensures forall i :: 0 <= i < |raw.slices| ==> Records(digests, raw.slices[i], m.artifacts[i], files)
  {
    hide RawSlices, CompressBlob, Encode, EmitAll, Written, Records;
    raw := Blob(RawSlices(dir, order).value);
    b := CompressBlob(xz, raw).value;
    RawArchsDistinct(dir, order);
    EmitAllWrites(w, digests, b, raw.slices, before);
    EmitAllRecords(w, digests, b, raw.slices, before);
    EncodedBytes(w, b, Encode(w, b).value);
    Magics();
  }

  /** An emitted arch is one of the embedded slices. */
  lemma EmittedIsSlice(dir: InputDir, order: seq<string>, x: string)
    requires AsciiNames(order) && Distinct(order) && RawSlices(dir, order).Ok?
    requires x in order && Emitted(dir, x)
    ensures IsAscii(x)
    ensures var s := Slice(Ascii(x), PRESENT, CODEC_NONE, 0, NativeFor(dir, x));
            Embedded(s) && Find(RawSlices(dir, order).value, Ascii(x)) == Some(s)
  {
    hide RawSlices;
    var i :| 0 <= i < |order| && order[i] == x;
    FindListed(dir, order, i);
  }

  /** Every emitted image is its native followed by one shared blob, whose size and
      digest the manifest records. */
  lemma ImagesShareOneBlob(w: Width, xz: Xz, digests: Digests, dir: InputDir, order: seq<string>,
                           before: map<seq<byte>, seq<byte>>, m: Manifest, files: map<seq<byte>, seq<byte>>)
    returns (enc: seq<byte>)
    requires Finished(w, xz, digests, dir, order, before, m, files)
    ensures |enc| == m.blobSize && digests.sha256(enc) == m.blobSha256
    ensures forall x :: x in order && Emitted(dir, x) ==>
              && IsAscii(x) && ImageFile(x) in files
              && files[ImageFile(x)] == NativeFor(dir, x) + enc
  {
    hide RawSlices, CompressBlob, Encode, FileName, Emitted, Assembled;
    var raw, b := FinishedBlobs(w, xz, digests, dir, order, before, m, files);
    enc := Encode(w, b).value;
    forall x | x in order && Emitted(dir, x)
      ensures IsAscii(x) && ImageFile(x) in files && files[ImageFile(x)] == NativeFor(dir, x) + enc
    {
      EmittedIsSlice(dir, order, x);
      var s := Find(raw.slices, Ascii(x)).value;
      var i := FindIsFirst(raw.slices, Ascii(x));
      assert HasImage(w, b, raw.slices[i], files);
    }
  }

  lemma {:induction false} RawNamesNulFree(dir: InputDir, order: seq<string>)
    requires AsciiNames(order) && RawSlices(dir, order).Ok?
    requires forall i :: 0 <= i < |order| ==> 0 !in Ascii(order[i])
    ensures NulFree(Blob(RawSlices(dir, order).value))
  {
    hide SlotOf, RawSlices, Kept;
    var ss, ks := RawSlices(dir, order).value, Kept(dir, order);
    SlicesFollowOrder(dir, order);
    forall k | 0 <= k < |ss| ensures 0 !in ss[k].arch {
      SlotName(dir, order[ks[k]]);
    }
  }

  /** The target is an emitted arch whose native is an ELF. */
  ghost predicate Reconstructible(dir: InputDir, order: seq<string>, target: seq<byte>)
    requires AsciiNames(order)
  {
    exists i :: 0 <= i < |order| && Ascii(order[i]) == target
                && Emitted(dir, order[i]) && ELF_MAGIC <= NativeFor(dir, order[i])
  }

  lemma RawNativeListed(dir: InputDir, order: seq<string>, raw: Blob, i: nat)
    requires AsciiNames(order) && Distinct(order) && RawSlices(dir, order) == Ok(raw.slices) && i < |order|
    ensures RawNative(raw, Ascii(order[i])).Ok? <==>
              Emitted(dir, order[i]) && ELF_MAGIC <= NativeFor(dir, order[i])
    ensures RawNative(raw, Ascii(order[i])).Ok? ==>
              RawNative(raw, Ascii(order[i])) == Ok(NativeFor(dir, order[i]))
  {
    hide RawSlices, SlotOf;
    FindListed(dir, order, i);
    if SlotOf(dir, order[i]).value.Some? {
      SlotName(dir, order[i]);
    } else {
      SlotMissing(dir, order[i]);
    }
  }

  lemma SlotMissing(dir: InputDir, arch: string)
    requires IsAscii(arch) && SlotOf(dir, arch) == Ok(None)
    ensures !Emitted(dir, arch)
  {
    ArchDetect.LookupExactly(arch);
  }

  /** RawNative on the assembled slices says exactly which targets can be rebuilt. */
  lemma RawNativeDecides(dir: InputDir, order: seq<string>, raw: Blob, target: seq<byte>)
    requires AsciiNames(order) && Distinct(order) && RawSlices(dir, order) == Ok(raw.slices)
    ensures RawNative(raw, target).Ok? <==> Reconstructible(dir, order, target)
  {
    hide RawSlices, Emitted, RawNative;
    if exists i :: 0 <= i < |order| && Ascii(order[i]) == target {
      var i :| 0 <= i < |order| && Ascii(order[i]) == target;
      RawNativeListed(dir, order, raw, i);
      forall j | 0 <= j < |order| && Ascii(order[j]) == target ensures j == i {
        AsciiInjective(order[i], order[j]);
      }
    } else {
      FindUnlisted(dir, order, target);
      RawNativeMissing(raw, target);
    }
  }

  lemma RawNativeMissing(raw: Blob, target: seq<byte>)
    requires Find(raw.slices, target) == None
    ensures RawNative(raw, target).Err?
  {
  }

  /** Assemble decides exactly what can be rebuilt. On any host that can hold the
      emitted image of any arch `x`, Reconstruct succeeds for a target if and only if an
      image was emitted for it, its native is an ELF, and the host can hold that image
      too; it then gives that very file. */
  lemma AssembleDecides(w: Width, host: Width, xz: Xz, digests: Digests, dir: InputDir, order: seq<string>,
                        before: map<seq<byte>, seq<byte>>, m: Manifest, files: map<seq<byte>, seq<byte>>,
                        x: string, target: seq<byte>)
    requires Lawful(xz) && Finished(w, xz, digests, dir, order, before, m, files)
    requires forall i :: 0 <= i < |order| ==> 0 !in Ascii(order[i])
    requires x in order && Emitted(dir, x)
    requires IsAscii(x) && ImageFile(x) in files ==> |files[ImageFile(x)]| <= host.MaxInt()
    ensures IsAscii(x) && ImageFile(x) in files
    ensures Reconstructible(dir, order, target) ==> FileName(target) in files
    ensures var got := Reconstruct(host, xz, files[ImageFile(x)], target);
            && (got.Ok? <==> Reconstructible(dir, order, target) && |files[FileName(target)]| <= host.MaxInt())
            && (got.Ok? ==> got == Ok(files[FileName(target)]))
  {
    hide RawSlices, CompressBlob, BuildCanonical, Emitted, Assembled, FileName, Reconstruct, RawNative, Lawful;
    var raw, b := FinishedBlobs(w, xz, digests, dir, order, before, m, files);
    RawSliceSizes(w, dir, order);
    RawNamesNulFree(dir, order);
    RawNativeDecides(dir, order, raw, target);
    SliceImage(w, dir, order, raw, b, before, files, x);
    RawIsRepresentable(w, raw);
    ReconstructLaw(w, host, xz, raw, b, NativeFor(dir, x), files[ImageFile(x)], target);
    if Reconstructible(dir, order, target) {
      var i :| 0 <= i < |order| && Ascii(order[i]) == target
               && Emitted(dir, order[i]) && ELF_MAGIC <= NativeFor(dir, order[i]);
      RawNativeListed(dir, order, raw, i);
      SliceImage(w, dir, order, raw, b, before, files, order[i]);
      BuildAtBothWidths(w, host, NativeFor(dir, order[i]), b);
    }
  }

  lemma RawIsRepresentable(w: Width, raw: Blob)
    requires forall i :: 0 <= i < |raw.slices| ==> |raw.slices[i].data| <= w.MaxInt()
    ensures Representable(raw)
  {
  }

  lemma SliceImage(w: Width, dir: InputDir, order: seq<string>, raw: Blob, b: Blob,
                   before: map<seq<byte>, seq<byte>>, files: map<seq<byte>, seq<byte>>, x: string)
    requires AsciiNames(order) && Distinct(order) && RawSlices(dir, order) == Ok(raw.slices)
    requires Written(w, b, raw.slices, before, files) && x in order && Emitted(dir, x)
    ensures IsAscii(x) && ImageFile(x) in files
    ensures BuildCanonical(w, NativeFor(dir, x), b) == Ok(files[ImageFile(x)])
  {
    hide RawSlices, BuildCanonical, FileName, Emitted;
    EmittedIsSlice(dir, order, x);
    var s := Find(raw.slices, Ascii(x)).value;
    var i := FindIsFirst(raw.slices, Ascii(x));
    assert HasImage(w, b, raw.slices[i], files);
  }

  /** One blob behind a whole build: every emitted image is built from it, it gives a
      native to exactly the reconstructible targets, and the images of those are its
      canonical images - so any of them can start a chain of deployments. */
  lemma EmittedIsCanonical(w: Width, xz: Xz, digests: Digests, dir: InputDir, order: seq<string>,
                           before: map<seq<byte>, seq<byte>>, m: Manifest, files: map<seq<byte>, seq<byte>>)
    returns (b: Blob)
    requires Lawful(xz) && Finished(w, xz, digests, dir, order, before, m, files)
    requires forall i :: 0 <= i < |order| ==> 0 !in Ascii(order[i])
    ensures NulFree(b)
    ensures forall x :: x in order && Emitted(dir, x) ==>
              && IsAscii(x) && ImageFile(x) in files
              && BuildCanonical(w, NativeFor(dir, x), b) == Ok(files[ImageFile(x)])
    ensures forall target :: NativeOf(xz, b, target).Ok? <==> Reconstructible(dir, order, target)
    ensures forall i :: 0 <= i < |order| && Reconstructible(dir, order, Ascii(order[i])) ==>
              && ImageFile(order[i]) in files
              && Canonical(w, xz, b, Ascii(order[i])) == Ok(files[ImageFile(order[i])])
  {
    hide RawSlices, CompressBlob, BuildCanonical, Emitted, Assembled, FileName, RawNative, Lawful, NativeOf, NulFree;
    var raw;
    raw, b := FinishedBlobs(w, xz, digests, dir, order, before, m, files);
    RawSliceSizes(w, dir, order);
    RawIsRepresentable(w, raw);
    RawNamesNulFree(dir, order);
    CompressKeepsNames(xz, raw, b);
    forall x | x in order && Emitted(dir, x)
      ensures IsAscii(x) && ImageFile(x) in files
      ensures BuildCanonical(w, NativeFor(dir, x), b) == Ok(files[ImageFile(x)])
    {
      SliceImage(w, dir, order, raw, b, before, files, x);
    }
    forall target ensures NativeOf(xz, b, target) == RawNative(raw, target)
                  ensures RawNative(raw, target).Ok? <==> Reconstructible(dir, order, target) {
      NativeThroughCompression(xz, raw, b, target);
      RawNativeDecides(dir, order, raw, target);
    }
    forall i | 0 <= i < |order| && Reconstructible(dir, order, Ascii(order[i]))
      ensures ImageFile(order[i]) in files
      ensures Canonical(w, xz, b, Ascii(order[i])) == Ok(files[ImageFile(order[i])])
    {
      assert NativeOf(xz, b, Ascii(order[i])) == RawNative(raw, Ascii(order[i]));
      RawNativeListed(dir, order, raw, i);
    }
  }

  /** The fixed order itself meets what the laws ask of an order. */
  lemma FixedOrderIsFit()
    ensures AsciiNames(ArchDetect.FixedArchOrder()) && Distinct(ArchDetect.FixedArchOrder())
    ensures forall i :: 0 <= i < 6 ==>
              0 !in Ascii(ArchDetect.FixedArchOrder()[i]) && |ArchDetect.FixedArchOrder()[i]| <= 8
  {
    forall i | 0 <= i < 6 ensures 0 !in Ascii(ArchDetect.FixedArchOrder()[i]) {
      var a := ArchDetect.FixedArchOrder()[i];
      assert ArchDetect.Plain(a);
    }
  }
}

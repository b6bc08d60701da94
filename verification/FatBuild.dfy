/** Assembling the shared blob and every canonical image from the native binaries. */
module FatBuild {
  import opened Outcome
  import opened Bytes
  import opened Seqs
  import opened Hashes
  import opened Layout
  import opened Format
  import opened Compression
  import opened SelfImage
  import ArchDetect

  /** What reading `native.<arch>` gives. */
  datatype Input = Missing | Broken | Native(data: seq<byte>)

  /** The input directory; an arch it does not map has no file. */
  type InputDir = map<string, Input>

  function Read(dir: InputDir, arch: string): Input {
    if arch in dir then dir[arch] else Missing
  }

  datatype ArtifactInfo = ArtifactInfo(arch: seq<byte>, file: seq<byte>, present: bool,
                                       size: nat, sha256: string, md5: string)

  datatype Manifest = Manifest(format: seq<byte>, blobSize: nat, blobSha256: string, artifacts: seq<ArtifactInfo>)

  function FileName(arch: seq<byte>): seq<byte> { Ascii("go-teleport-self.") + arch }

  // ---------- The slices, in the fixed order

  predicate Supported(arch: string) {
    ArchDetect.Lookup(arch).Some? && ArchDetect.Lookup(arch).value.supported
  }

  /** The slice an arch contributes: a reserved slot, its native, or - in a partial build - none. */
  function SlotOf(dir: InputDir, arch: string): Result<Option<Slice>, Error>
    requires IsAscii(arch)
  {
    if !Supported(arch) then Ok(Some(Slice(Ascii(arch), RESERVED, CODEC_NONE, 0, [])))
    else match Read(dir, arch)
      case Missing => Ok(None)
      case Broken => Err(Unreadable)
      case Native(data) => Ok(Some(Slice(Ascii(arch), PRESENT, CODEC_NONE, 0, data)))
  }

  predicate AsciiNames(order: seq<string>) {
    forall i :: 0 <= i < |order| ==> IsAscii(order[i])
  }

  function Extend(ss: seq<Slice>, slot: Option<Slice>): seq<Slice> {
    match slot case None => ss case Some(s) => ss + [s]
  }

  function RawSlices(dir: InputDir, order: seq<string>): Result<seq<Slice>, Error>
    requires AsciiNames(order)
  {
    if order == [] then Ok([])
    else
      var last := |order| - 1;
      var ss :- RawSlices(dir, order[..last]);
      var slot :- SlotOf(dir, order[last]);
      Ok(Extend(ss, slot))
  }

  lemma {:induction false} RawSlicesStop(dir: InputDir, order: seq<string>, i: nat)
    requires AsciiNames(order) && i <= |order| && RawSlices(dir, order[..i]).Err?
    ensures RawSlices(dir, order) == RawSlices(dir, order[..i])
    decreases |order| - i
  {
    if i == |order| {
      assert order[..i] == order;
    } else {
      PrefixSnoc(order, i);
      RawSlicesStop(dir, order, i + 1);
    }
  }

  // ---------- Writing the images

  datatype Emission = Emission(files: map<seq<byte>, seq<byte>>, artifacts: seq<ArtifactInfo>, failure: Option<Error>)

  function EmitOne(w: Width, digests: Digests, b: Blob, s: Slice, prior: Emission): Emission {
    if !Embedded(s) then prior.(artifacts := prior.artifacts + [ArtifactInfo(s.arch, [], false, 0, "", "")])
    else match BuildCanonical(w, s.data, b)
      case Err(e) => prior.(failure := Some(e))
      case Ok(image) =>
        var info := ArtifactInfo(s.arch, FileName(s.arch), true, |image|, digests.sha256(image), digests.md5(image));
        Emission(prior.files[FileName(s.arch) := image], prior.artifacts + [info], None)
  }

  function EmitAll(w: Width, digests: Digests, b: Blob, ss: seq<Slice>, files: map<seq<byte>, seq<byte>>): Emission {
    if ss == [] then Emission(files, [], None)
    else
      var prior := EmitAll(w, digests, b, ss[..|ss| - 1], files);
      if prior.failure.Some? then prior else EmitOne(w, digests, b, ss[|ss| - 1], prior)
  }

  lemma {:induction false} EmitAllStop(w: Width, digests: Digests, b: Blob, ss: seq<Slice>,
                                      files: map<seq<byte>, seq<byte>>, i: nat)
    requires i <= |ss| && EmitAll(w, digests, b, ss[..i], files).failure.Some?
    ensures EmitAll(w, digests, b, ss, files) == EmitAll(w, digests, b, ss[..i], files)
    decreases |ss| - i
  {
    hide BuildCanonical, EmitOne;
    if i == |ss| {
      assert ss[..i] == ss;
    } else {
      PrefixSnoc(ss, i);
      EmitAllStop(w, digests, b, ss, files, i + 1);
    }
  }

  /** Assemble as a function: the result, and the output directory it leaves behind. */
  function Assembled(w: Width, xz: Xz, digests: Digests, dir: InputDir, order: seq<string>,
                     files: map<seq<byte>, seq<byte>>)
    : (Result<Manifest, Error>, map<seq<byte>, seq<byte>>)
    requires AsciiNames(order)
  {
    match RawSlices(dir, order)
    case Err(e) => (Err(e), files)
    case Ok(raw) =>
      match CompressBlob(xz, Blob(raw))
      case Err(e) => (Err(e), files)
      case Ok(b) =>
        match Encode(w, b)
        case Err(e) => (Err(e), files)
        case Ok(enc) =>
          var done := EmitAll(w, digests, b, raw, files);
          (if done.failure.Some? then Err(done.failure.value)
           else Ok(Manifest(MAGIC, |enc|, digests.sha256(enc), done.artifacts)),
           done.files)
  }

  lemma OrderIsAscii()
    ensures AsciiNames(ArchDetect.FixedArchOrder())
  {
  }

  /** The output directory. */
  class OutDir {
    var files: map<seq<byte>, seq<byte>>
    var manifest: Option<Manifest>

    constructor ()
      ensures files == map[] && manifest == None
    {
      files, manifest := map[], None;
    }
  }

  /** The first loop of Assemble: read the natives in the fixed order. */
  method ReadSlices(dir: InputDir, order: seq<string>) returns (r: Result<seq<Slice>, Error>)
    requires AsciiNames(order)
    ensures r == RawSlices(dir, order)
  {
    hide Supported;
    var slices: seq<Slice> := [];
    for i := 0 to |order|
      invariant RawSlices(dir, order[..i]) == Ok(slices)
    {
      PrefixSnoc(order, i);
      var arch := order[i];
      if !Supported(arch) {
        slices := slices + [Slice(Ascii(arch), RESERVED, CODEC_NONE, 0, [])];
        continue;
      }
      match Read(dir, arch) {
        case Missing =>
          continue;
        case Broken =>
          RawSlicesStop(dir, order, i + 1);
          return Err(Unreadable);
        case Native(data) =>
          slices := slices + [Slice(Ascii(arch), PRESENT, CODEC_NONE, 0, data)];
      }
    }
    assert order[..|order|] == order;
    return Ok(slices);
  }

  /** The second loop: write one image per embedded slice and record every slot.
      When an image cannot be built, the ones before it stay written. */
  method WriteImages(w: Width, digests: Digests, b: Blob, ss: seq<Slice>, out: OutDir)
    returns (r: Result<seq<ArtifactInfo>, Error>)
    requires forall i :: 0 <= i < |ss| ==> |ss[i].data| <= w.MaxInt()
    modifies out`files
    ensures var done := EmitAll(w, digests, b, ss, old(out.files));
            && out.files == done.files
            && r == if done.failure.Some? then Err(done.failure.value) else Ok(done.artifacts)
  {
    hide BuildCanonical, FileName;
    ghost var before := out.files;
    var artifacts: seq<ArtifactInfo> := [];
    for i := 0 to |ss|
      invariant EmitAll(w, digests, b, ss[..i], before) == Emission(out.files, artifacts, None)
    {
      PrefixSnoc(ss, i);
      var s := ss[i];
      if s.status != PRESENT || |s.data| == 0 {
        artifacts := artifacts + [ArtifactInfo(s.arch, [], false, 0, "", "")];
        continue;
      }
      var built := BuildCanonicalBuffer(w, s.data, b);
      if built.Err? {
        EmitAllStop(w, digests, b, ss, before, i + 1);
        return Err(built.error);
      }
      var image := built.value;
      out.files := out.files[FileName(s.arch) := image];
      artifacts := artifacts + [ArtifactInfo(s.arch, FileName(s.arch), true, |image|,
                                             digests.sha256(image), digests.md5(image))];
    }
    assert ss[..|ss|] == ss;
    return Ok(artifacts);
  }

  lemma {:induction false} RawSliceSizes(w: Width, dir: InputDir, order: seq<string>)
    requires AsciiNames(order) && RawSlices(dir, order).Ok?
    requires forall arch :: arch in dir && dir[arch].Native? ==> |dir[arch].data| <= w.MaxInt()
    ensures forall i :: 0 <= i < |RawSlices(dir, order).value| ==> |RawSlices(dir, order).value[i].data| <= w.MaxInt()
  {
    hide Supported;
    if order != [] {
      RawSliceSizes(w, dir, order[..|order| - 1]);
    }
  }

  method Assemble(w: Width, xz: Xz, digests: Digests, dir: InputDir, out: OutDir)
    returns (r: Result<Manifest, Error>)
    requires forall arch :: arch in dir && dir[arch].Native? ==> |dir[arch].data| <= w.MaxInt()
    modifies out
    ensures AsciiNames(ArchDetect.FixedArchOrder())
    ensures (r, out.files) == Assembled(w, xz, digests, dir, ArchDetect.FixedArchOrder(), old(out.files))
    ensures out.manifest == if r.Ok? then Some(r.value) else old(out.manifest)
  {
    hide RawSlices, EmitAll, CompressBlob, Encode;
    OrderIsAscii();
    var slices :- ReadSlices(dir, ArchDetect.FixedArchOrder());
    RawSliceSizes(w, dir, ArchDetect.FixedArchOrder());
    var b :- CompressBlobLoop(xz, Blob(slices));
    var enc :- EncodeLoop(w, b);
    var artifacts :- WriteImages(w, digests, b, slices, out);
    var m := Manifest(MAGIC, |enc|, digests.sha256(enc), artifacts);
    out.manifest := Some(m);
    return Ok(m);
  }
}

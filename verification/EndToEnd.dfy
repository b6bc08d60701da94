/** From the assembler's output directory to the disks of a fleet. */
module EndToEnd {
  import opened Outcome
  import opened Bytes
  import opened Hashes
  import opened Format
  import opened FormatLaws
  import opened Compression
  import opened SelfImage
  import opened FatBuild
  import opened FatBuildLaws
  import opened TeleportLaws
  import opened Fleet
  import ArchDetect

  /** A run of Assemble over `order`: what it read, what it returned, and the output
      directory before and after. */
  datatype Build = Build(w: Width, xz: Xz, digests: Digests, dir: InputDir, order: seq<string>,
                         before: map<seq<byte>, seq<byte>>, m: Manifest, files: map<seq<byte>, seq<byte>>)

  ghost predicate Done(p: Build) {
    && Lawful(p.xz) && Finished(p.w, p.xz, p.digests, p.dir, p.order, p.before, p.m, p.files)
    && forall i :: 0 <= i < |p.order| ==> 0 !in Ascii(p.order[i])
  }

  /** The images it wrote. */
  ghost function Images(p: Build): set<seq<byte>>
    requires AsciiNames(p.order)
  {
    set x | x in p.order && Emitted(p.dir, x) && ImageFile(x) in p.files :: p.files[ImageFile(x)]
  }

  // ---------- The blob of the build

  /** What the build's blob gives for a target: the very file of that architecture, or nothing. */
  ghost predicate GivesFile(p: Build, b: Blob, target: seq<byte>)
    requires AsciiNames(p.order)
  {
    var image := Canonical(W64, p.xz, b, target);
    && (image.Ok? <==> Reconstructible(p.dir, p.order, target))
    && (image.Ok? ==> FileName(target) in p.files && image.value == p.files[FileName(target)]
                      && image.value in Images(p))
  }

  /** The blob that a build shares among its images. */
  ghost predicate SharedBlob(p: Build, b: Blob)
    requires AsciiNames(p.order)
  {
    && NulFree(b) && BuiltFrom(b, Images(p))
    && forall target :: GivesFile(p, b, target)
  }

  lemma BuildSharesBlob(p: Build) returns (b: Blob)
    requires Done(p)
    ensures SharedBlob(p, b)
  {
    hide Assembled, BuildCanonical, Emitted, NativeOf, NulFree, Lawful, FileName, Canonical, GivesFile;
    b := EmittedIsCanonical(p.w, p.xz, p.digests, p.dir, p.order, p.before, p.m, p.files);
    forall target ensures GivesFile(p, b, target) {
      BlobGivesFile(p, b, target);
    }
  }

  lemma BlobGivesFile(p: Build, b: Blob, target: seq<byte>)
    requires AsciiNames(p.order)
    requires NativeOf(p.xz, b, target).Ok? <==> Reconstructible(p.dir, p.order, target)
    requires forall i :: 0 <= i < |p.order| && Reconstructible(p.dir, p.order, Ascii(p.order[i])) ==>
               && ImageFile(p.order[i]) in p.files
               && Canonical(p.w, p.xz, b, Ascii(p.order[i])) == Ok(p.files[ImageFile(p.order[i])])
    ensures GivesFile(p, b, target)
  {
    hide Emitted, FileName, NativeOf, BuildCanonical;
    if NativeOf(p.xz, b, target).Ok? {
      var i :| 0 <= i < |p.order| && Ascii(p.order[i]) == target && Emitted(p.dir, p.order[i]);
      CanonicalFits(p.w, p.xz, b, target);
      CanonicalAtBothWidths(p.w, W64, p.xz, b, target);
    }
  }

  // ---------- The fleet

  /** The host holds, ready to run, exactly the file the build wrote for its architecture. */
  ghost predicate HoldsBuilt(p: Build, host: Host, path: seq<string>)
    requires AsciiNames(p.order)
  {
    var arch := ArchDetect.FromUname(host.machine.uname);
    && arch.Some? && IsAscii(arch.value) && Reconstructible(p.dir, p.order, Ascii(arch.value))
    && path in host.disk.files && path in host.disk.executable
    && var image := Ascii("go-teleport-self.") + Ascii(arch.value);
       image in p.files && host.disk.files[path] == p.files[image]
  }

  /** So does every host whose latest deployment reported success. */
  ghost predicate Delivered(p: Build, f: Fleet)
    requires AsciiNames(p.order)
  {
    forall h :: h in f.installed ==> h in f.hosts && HoldsBuilt(p, f.hosts[h], f.installed[h])
  }

  lemma DeliveredIsGood(p: Build, b: Blob, f: Fleet)
    requires AsciiNames(p.order) && SharedBlob(p, b)
    ensures Delivered(p, f) <==> Good(p.xz, b, f)
  {
    hide ArchDetect.FromUname, Canonical, Reconstructible, Images, NulFree;
    forall h | h in f.installed && h in f.hosts
      ensures HoldsBuilt(p, f.hosts[h], f.installed[h]) <==> HoldsCanonical(p.xz, b, f.hosts[h], f.installed[h])
    {
      var arch := ArchDetect.FromUname(f.hosts[h].machine.uname);
      assert arch.Some? && IsAscii(arch.value) ==> GivesFile(p, b, Ascii(arch.value));
    }
  }

  /** md5 is hexadecimal, and nothing else has the digest of an image of the build. */
  ghost predicate TrustedImages(p: Build)
    requires AsciiNames(p.order)
  {
    HexDigests(p.digests) && forall image :: image in Images(p) ==> Separates(p.digests.md5, image)
  }

  lemma TrustedBlob(p: Build, b: Blob)
    requires AsciiNames(p.order) && SharedBlob(p, b) && TrustedImages(p)
    ensures TrustedMd5(p.xz, p.digests, b)
  {
    hide Canonical, Reconstructible, FileName, Images, HexDigests, Separates;
    forall target | Canonical(W64, p.xz, b, target).Ok?
      ensures Separates(p.digests.md5, Canonical(W64, p.xz, b, target).value)
    {
      assert GivesFile(p, b, target);
    }
  }

  /** End to end. Take any finished build and any fleet - with nothing installed yet, or
      with what such runs left - and let its hosts deploy to one another in any order,
      each step started from an image of the build or from what an earlier step installed,
      over connections that lose commands and corrupt uploads. Then every host whose latest
      deployment reported success holds, byte for byte, the file that the build wrote for
      the architecture that host had all along. */
  lemma FleetHoldsBuild(p: Build, f: Fleet, steps: seq<Step>)
    requires Done(p) && TrustedImages(p)
    requires Delivered(p, f) && SafeDirs(steps) && AllVouched(p.xz, p.digests, Images(p), f, steps)
    ensures Delivered(p, Run(p.xz, p.digests, f, steps))
    ensures var after := Run(p.xz, p.digests, f, steps);
            forall h :: h in after.installed ==>
              && h in f.hosts && h in after.hosts && after.hosts[h].machine == f.hosts[h].machine
  {
    hide Run, Delivered, SharedBlob, TrustedImages, SafeDirs, AllVouched, Images, Good;
    var b := BuildSharesBlob(p);
    SharedBlobParts(p, b);
    DeliveredIsGood(p, b, f);
    TrustedBlob(p, b);
    VouchedRunCarries(p.xz, p.digests, b, Images(p), f, steps);
    RunKeepsGood(p.xz, p.digests, b, f, steps);
    RunKeepsMachines(p.xz, p.digests, f, steps);
    DeliveredIsGood(p, b, Run(p.xz, p.digests, f, steps));
    DeliveredHosts(p, Run(p.xz, p.digests, f, steps));
  }

  lemma SharedBlobParts(p: Build, b: Blob)
    requires AsciiNames(p.order) && SharedBlob(p, b)
    ensures NulFree(b) && BuiltFrom(b, Images(p))
  {
  }

  lemma DeliveredHosts(p: Build, f: Fleet)
    requires AsciiNames(p.order) && Delivered(p, f)
    ensures forall h :: h in f.installed ==> h in f.hosts
  {
  }
}

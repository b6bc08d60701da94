/** Many hosts that deploy to one another, over connections that lose and corrupt data. */
module Fleet {
  import opened Outcome
  import opened Bytes
  import opened Hashes
  import opened Format
  import opened FormatLaws
  import opened Compression
  import opened SelfImage
  import opened Shell
  import opened Paths
  import opened RemoteHost
  import opened Teleport
  import opened TeleportLaws
  import ArchDetect

  datatype Host = Host(machine: Machine, disk: Disk)

  /** `installed` maps the hosts whose latest deployment reported success to the file it installed. */
  datatype Fleet = Fleet(hosts: map<nat, Host>, installed: map<nat, seq<string>>)

  /** The program in the file `program` of `source` deploys itself to `dest`. */
  datatype Step = Step(source: nat, program: seq<string>, dest: nat, destDir: string, channel: Channel)

  /** The running program's own bytes, when its host can hold them. */
  function SelfOf(f: Fleet, h: nat, program: seq<string>): Option<seq<byte>> {
    if h in f.hosts && program in f.hosts[h].disk.files then
      var image := f.hosts[h].disk.files[program];
      if |image| <= f.hosts[h].machine.width.MaxInt() then Some(image) else None
    else None
  }

  function Apply(xz: Xz, digests: Digests, f: Fleet, s: Step): Fleet {
    match SelfOf(f, s.source, s.program)
    case None => f
    case Some(image) =>
      if s.dest !in f.hosts then f
      else
        var dest := f.hosts[s.dest];
        var (r, disk) := Deployed(f.hosts[s.source].machine.width, xz, digests, image,
                                  dest.machine, dest.disk, s.channel, s.destDir);
        Fleet(f.hosts[s.dest := dest.(disk := disk)],
              if r.Ok? then f.installed[s.dest := Target(dest.machine.env, s.destDir)]
              else f.installed - {s.dest})
  }

  function Run(xz: Xz, digests: Digests, f: Fleet, steps: seq<Step>): Fleet {
    if steps == [] then f
    else Apply(xz, digests, Run(xz, digests, f, steps[..|steps| - 1]), steps[|steps| - 1])
  }

  // ---------- Safety

  /** A host whose latest deployment succeeded holds canonical(its architecture) of `b`, ready to run. */
  ghost predicate HoldsCanonical(xz: Xz, b: Blob, host: Host, path: seq<string>) {
    var arch := ArchDetect.FromUname(host.machine.uname);
    && arch.Some? && IsAscii(arch.value)
    && path in host.disk.files && path in host.disk.executable
    && Canonical(W64, xz, b, Ascii(arch.value)) == Ok(host.disk.files[path])
  }

  ghost predicate Good(xz: Xz, b: Blob, f: Fleet) {
    forall h :: h in f.installed ==> h in f.hosts && HoldsCanonical(xz, b, f.hosts[h], f.installed[h])
  }

  /** What is assumed of md5: hex output, and no collision with a canonical image. */
  ghost predicate TrustedMd5(xz: Xz, digests: Digests, b: Blob) {
    && HexDigests(digests)
    && forall target :: Canonical(W64, xz, b, target).Ok? ==> Separates(digests.md5, Canonical(W64, xz, b, target).value)
  }

  /** On a host of width `w`, the image splits to the blob - whatever comes before the blob. */
  ghost predicate CarriesBlob(w: Width, b: Blob, image: seq<byte>) {
    SplitCanonical(w, image).Ok? && SplitCanonical(w, image).value.blob == b
  }

  /** The program that a step runs, if there is one to run, carries the blob. */
  ghost predicate SourceCarries(b: Blob, f: Fleet, s: Step) {
    var self := SelfOf(f, s.source, s.program);
    self.Some? ==> CarriesBlob(f.hosts[s.source].machine.width, b, self.value)
  }

  /** Every step of the run starts from a program that carries the blob when it starts. */
  ghost predicate SourcesCarry(xz: Xz, digests: Digests, b: Blob, f: Fleet, steps: seq<Step>) {
    steps != [] ==>
      var init := steps[..|steps| - 1];
      && SourcesCarry(xz, digests, b, f, init)
      && SourceCarries(b, Run(xz, digests, f, init), steps[|steps| - 1])
  }

  ghost predicate SafeDirs(steps: seq<Step>) {
    forall i :: 0 <= i < |steps| ==> ShellSafe(steps[i].destDir)
  }

  lemma CanonicalFits(w: Width, xz: Xz, b: Blob, target: seq<byte>)
    requires Canonical(w, xz, b, target).Ok?
    ensures |Canonical(w, xz, b, target).value| <= w.MaxInt() <= W64.MaxInt()
  {
    hide NativeOf, Encode;
  }

  /** A host running anything that carries `b` rebuilds, if it succeeds, canonical(target) - whatever its width. */
  lemma RebuildsCanonical(w: Width, xz: Xz, b: Blob, image: seq<byte>, target: seq<byte>)
    requires CarriesBlob(w, b, image)
    ensures Reconstruct(w, xz, image, target) == Canonical(w, xz, b, target)
    ensures Reconstruct(w, xz, image, target).Ok? ==>
              Canonical(W64, xz, b, target) == Reconstruct(w, xz, image, target)
  {
    hide NativeOf, BuildCanonical, SplitCanonical;
    if Canonical(w, xz, b, target).Ok? {
      CanonicalAtBothWidths(w, W64, xz, b, target);
      CanonicalFits(w, xz, b, target);
    }
  }

  lemma DeploySound(w: Width, xz: Xz, digests: Digests, b: Blob, image: seq<byte>, dest: Host, ch: Channel,
                    destDir: string)
    requires CarriesBlob(w, b, image) && TrustedMd5(xz, digests, b) && ShellSafe(destDir)
    requires Deployed(w, xz, digests, image, dest.machine, dest.disk, ch, destDir).0.Ok?
    ensures HoldsCanonical(xz, b,
              dest.(disk := Deployed(w, xz, digests, image, dest.machine, dest.disk, ch, destDir).1),
              Target(dest.machine.env, destDir))
  {
    hide CarriesBlob, Reconstruct, Install, ArchDetect.FromUname, Deployed, Canonical, ShellSafe, HexDigests, Target;
    var m := dest.machine;
    var arch, data := DeployedIsInstall(w, xz, digests, image, m, dest.disk, ch, destDir);
    RebuildsCanonical(w, xz, b, image, Ascii(arch));
    assert Separates(digests.md5, Canonical(W64, xz, b, Ascii(arch)).value);
    SafeInstallSound(m, digests, dest.disk, ch, destDir, arch, data);
  }

  /** One step keeps the fleet good, whatever its connection does and however it ends,
      and whatever program it started from, as long as that carries the blob. */
  lemma StepKeepsGood(xz: Xz, digests: Digests, b: Blob, f: Fleet, s: Step)
    requires Good(xz, b, f) && SourceCarries(b, f, s) && TrustedMd5(xz, digests, b) && ShellSafe(s.destDir)
    ensures Good(xz, b, Apply(xz, digests, f, s))
  {
    hide Deployed, Canonical, CarriesBlob, ShellSafe, ArchDetect.FromUname, TrustedMd5, Target, HoldsCanonical;
    var self := SelfOf(f, s.source, s.program);
    if self.Some? && s.dest in f.hosts {
      var w, dest := f.hosts[s.source].machine.width, f.hosts[s.dest];
      if Deployed(w, xz, digests, self.value, dest.machine, dest.disk, s.channel, s.destDir).0.Ok? {
        DeploySound(w, xz, digests, b, self.value, dest, s.channel, s.destDir);
      }
    }
  }

  /** Whole-run safety. After any sequence of deployments between any hosts of any
      widths, each started from a program that carries the blob, over connections that
      cut short or corrupt uploads and lose commands and answers at will, every host whose
      latest deployment reported success holds exactly canonical(its architecture). */
  lemma {:induction false} RunKeepsGood(xz: Xz, digests: Digests, b: Blob, f: Fleet, steps: seq<Step>)
    requires Good(xz, b, f) && SourcesCarry(xz, digests, b, f, steps)
    requires TrustedMd5(xz, digests, b) && SafeDirs(steps)
    ensures Good(xz, b, Run(xz, digests, f, steps))
  {
    hide Apply, Good, TrustedMd5, ShellSafe, SourceCarries;
    if steps != [] {
      var last := |steps| - 1;
      RunKeepsGood(xz, digests, b, f, steps[..last]);
      StepKeepsGood(xz, digests, b, Run(xz, digests, f, steps[..last]), steps[last]);
    }
  }

  // ---------- Which programs carry the blob

  /** A built image carries its blob on every host that can hold it. */
  lemma BuiltCarries(w: Width, host: Width, native: seq<byte>, b: Blob, image: seq<byte>)
    requires BuildCanonical(w, native, b) == Ok(image) && |image| <= host.MaxInt() && NulFree(b)
    ensures CarriesBlob(host, b, image)
  {
    hide BuildCanonical, SplitCanonical, Normalize, NulFree;
    SplitOfBuild(w, host, native, b, image);
    NormalizeKeeps(b);
  }

  /** The program that a step runs, if there is one to run, is the one last installed
      there with success, or is one of `images`. */
  ghost predicate Vouched(images: set<seq<byte>>, f: Fleet, s: Step) {
    var self := SelfOf(f, s.source, s.program);
    self.Some? ==> (s.source in f.installed && f.installed[s.source] == s.program) || self.value in images
  }

  ghost predicate AllVouched(xz: Xz, digests: Digests, images: set<seq<byte>>, f: Fleet, steps: seq<Step>) {
    steps != [] ==>
      var init := steps[..|steps| - 1];
      && AllVouched(xz, digests, images, f, init)
      && Vouched(images, Run(xz, digests, f, init), steps[|steps| - 1])
  }

  /** Images built from `b`, around any native on a host of any width. */
  ghost predicate BuiltFrom(b: Blob, images: set<seq<byte>>) {
    forall image :: image in images ==> exists w, native :: BuildCanonical(w, native, b) == Ok(image)
  }

  lemma VouchedCarries(xz: Xz, b: Blob, images: set<seq<byte>>, f: Fleet, s: Step)
    requires Good(xz, b, f) && NulFree(b) && BuiltFrom(b, images) && Vouched(images, f, s)
    ensures SourceCarries(b, f, s)
  {
    hide BuildCanonical, NativeOf, CarriesBlob, NulFree, ArchDetect.FromUname;
    var self := SelfOf(f, s.source, s.program);
    if self.Some? {
      var host := f.hosts[s.source].machine.width;
      if self.value in images {
        var w, native :| BuildCanonical(w, native, b) == Ok(self.value);
        BuiltCarries(w, host, native, b, self.value);
      } else {
        var arch := ArchDetect.FromUname(f.hosts[s.source].machine.uname).value;
        BuiltCarries(W64, host, NativeOf(xz, b, Ascii(arch)).value, b, self.value);
      }
    }
  }

  /** So nothing has to be assumed about later sources: in a run whose every step starts
      from one of the images the blob was built into, or from what an earlier step
      installed, every source carries the blob. */
  lemma {:induction false} VouchedRunCarries(xz: Xz, digests: Digests, b: Blob, images: set<seq<byte>>,
                                            f: Fleet, steps: seq<Step>)
    requires Good(xz, b, f) && NulFree(b) && BuiltFrom(b, images) && AllVouched(xz, digests, images, f, steps)
    requires TrustedMd5(xz, digests, b) && SafeDirs(steps)
    ensures SourcesCarry(xz, digests, b, f, steps)
  {
    hide Run, Good, NulFree, BuiltFrom, Vouched, TrustedMd5, ShellSafe, SourceCarries;
    if steps != [] {
      var last := |steps| - 1;
      VouchedRunCarries(xz, digests, b, images, f, steps[..last]);
      RunKeepsGood(xz, digests, b, f, steps[..last]);
      VouchedCarries(xz, b, images, Run(xz, digests, f, steps[..last]), steps[last]);
    }
  }

  /** The result does not depend on the path: hosts of the same architecture that any
      two runs, from any good fleets of the same blob, left installed hold the same bytes. */
  lemma PathIndependence(xz: Xz, digests: Digests, b: Blob, f1: Fleet, steps1: seq<Step>, h1: nat,
                         f2: Fleet, steps2: seq<Step>, h2: nat)
    requires Good(xz, b, f1) && Good(xz, b, f2) && TrustedMd5(xz, digests, b)
    requires SourcesCarry(xz, digests, b, f1, steps1) && SourcesCarry(xz, digests, b, f2, steps2)
    requires SafeDirs(steps1) && SafeDirs(steps2)
    requires h1 in Run(xz, digests, f1, steps1).installed && h2 in Run(xz, digests, f2, steps2).installed
    ensures var r1, r2 := Run(xz, digests, f1, steps1), Run(xz, digests, f2, steps2);
            && h1 in r1.hosts && h2 in r2.hosts
            && r1.installed[h1] in r1.hosts[h1].disk.files && r2.installed[h2] in r2.hosts[h2].disk.files
            && (ArchDetect.FromUname(r1.hosts[h1].machine.uname) == ArchDetect.FromUname(r2.hosts[h2].machine.uname) ==>
                  r1.hosts[h1].disk.files[r1.installed[h1]] == r2.hosts[h2].disk.files[r2.installed[h2]])
  {
    hide Run, Canonical, SourcesCarry, TrustedMd5, ArchDetect.FromUname, SafeDirs;
    RunKeepsGood(xz, digests, b, f1, steps1);
    RunKeepsGood(xz, digests, b, f2, steps2);
  }

  /** Hosts never change architecture or width, and none appear or vanish. */
  lemma {:induction false} RunKeepsMachines(xz: Xz, digests: Digests, f: Fleet, steps: seq<Step>)
    ensures Run(xz, digests, f, steps).hosts.Keys == f.hosts.Keys
    ensures forall h :: h in f.hosts ==> Run(xz, digests, f, steps).hosts[h].machine == f.hosts[h].machine
  {
    hide Deployed;
    if steps != [] {
      RunKeepsMachines(xz, digests, f, steps[..|steps| - 1]);
    }
  }

  /** The fleet a blob starts from: one machine with its own canonical image. */
  lemma OriginIsGood(w: Width, xz: Xz, b: Blob, origin: nat, arch: string, hosts: map<nat, Host>, path: seq<string>)
    requires origin in hosts && IsA(hosts[origin].machine, arch)
    requires path in hosts[origin].disk.files && path in hosts[origin].disk.executable
    requires Canonical(w, xz, b, Ascii(arch)) == Ok(hosts[origin].disk.files[path])
    ensures Good(xz, b, Fleet(hosts, map[origin := path]))
  {
    hide Canonical, ArchDetect.FromUname;
    CanonicalFits(w, xz, b, Ascii(arch));
    CanonicalAtBothWidths(w, W64, xz, b, Ascii(arch));
  }

  // ---------- Progress

  /** Everything but the source is in place for a step to succeed: its destination is of
      a known architecture, the connection is faultless, and the disk admits the image. */
  ghost predicate Receptive(xz: Xz, b: Blob, f: Fleet, s: Step) {
    && SelfOf(f, s.source, s.program).Some? && s.dest in f.hosts && ShellSafe(s.destDir)
    && var dest := f.hosts[s.dest];
       var arch := ArchDetect.FromUname(dest.machine.uname);
       && arch.Some? && IsAscii(arch.value)
       && Admits(dest.machine.env, dest.disk, s.destDir)
       && Unescaped(Meaning(dest.machine.env, RemotePath(s.destDir)))
       && var wanted := Canonical(f.hosts[s.source].machine.width, xz, b, Ascii(arch.value));
          wanted.Ok? && Faultless(s.channel, wanted.value)
  }

  /** A program that carries the blob really is a source: over a faultless connection, to
      a host of a known architecture whose disk admits it, its deployment is reported
      successful - provided md5sum does not have to escape the file's name. */
  lemma CarrierDeploys(xz: Xz, digests: Digests, b: Blob, f: Fleet, s: Step)
    requires SourceCarries(b, f, s) && Receptive(xz, b, f, s) && HexDigests(digests)
    ensures var after := Apply(xz, digests, f, s);
            && s.dest in after.installed
            && after.installed[s.dest] == Target(f.hosts[s.dest].machine.env, s.destDir)
  {
    hide Reconstruct, Install, Canonical, CarriesBlob, ShellSafe, HexDigests, ArchDetect.FromUname, Admits, Meaning,
         RemotePath, Unescaped, Faultless, Deployed, Target;
    var image := SelfOf(f, s.source, s.program).value;
    var source, dest := f.hosts[s.source], f.hosts[s.dest];
    var arch := ArchDetect.FromUname(dest.machine.uname).value;
    RebuildsCanonical(source.machine.width, xz, b, image, Ascii(arch));
    DeployOutcome(source.machine.width, xz, digests, image, dest.machine, dest.disk, s.channel, s.destDir);
    var data := Reconstruct(source.machine.width, xz, image, Ascii(arch)).value;
    InstallCompletes(dest.machine, digests, dest.disk, s.channel, s.destDir, arch, data);
    FaultlessAsks(s.channel, data);
  }

  lemma FaultlessAsks(ch: Channel, data: seq<byte>)
    requires Faultless(ch, data)
    ensures ch.uname == Clean
  {
  }

  /** In particular, every host that a deployment to it left installed carries the blob. */
  lemma GoodHostDeploys(xz: Xz, digests: Digests, b: Blob, f: Fleet, s: Step)
    requires Good(xz, b, f) && NulFree(b) && Receptive(xz, b, f, s) && HexDigests(digests)
    requires s.source in f.installed && f.installed[s.source] == s.program
    ensures s.dest in Apply(xz, digests, f, s).installed
  {
    hide Good, NulFree, Receptive, HexDigests, Apply, SourceCarries, SelfOf;
    VouchedCarries(xz, b, {}, f, s);
    CarrierDeploys(xz, digests, b, f, s);
  }

  /** Every step of the run is ready to succeed when it starts. */
  ghost predicate AllReady(xz: Xz, digests: Digests, b: Blob, f: Fleet, steps: seq<Step>) {
    steps != [] ==>
      var init, last := steps[..|steps| - 1], steps[|steps| - 1];
      && AllReady(xz, digests, b, f, init)
      && SourceCarries(b, Run(xz, digests, f, init), last) && Receptive(xz, b, Run(xz, digests, f, init), last)
  }

  /** A step changes its destination and no other host. */
  lemma StepKeepsOthers(xz: Xz, digests: Digests, f: Fleet, s: Step, h: nat)
    requires h != s.dest
    ensures var after := Apply(xz, digests, f, s);
            && (h in after.hosts <==> h in f.hosts) && (h in f.hosts ==> after.hosts[h] == f.hosts[h])
            && (h in after.installed <==> h in f.installed)
            && (h in f.installed ==> after.installed[h] == f.installed[h])
  {
    hide Deployed;
  }

  /** Whole-run progress: after a run of steps that were all ready, every destination is
      installed, whatever came in between. */
  lemma {:induction false} RunDelivers(xz: Xz, digests: Digests, b: Blob, f: Fleet, steps: seq<Step>)
    requires AllReady(xz, digests, b, f, steps) && HexDigests(digests)
    ensures forall i :: 0 <= i < |steps| ==> steps[i].dest in Run(xz, digests, f, steps).installed
    ensures forall h :: h in f.installed ==> h in Run(xz, digests, f, steps).installed
  {
    hide Apply, SourceCarries, Receptive, HexDigests;
    if steps != [] {
      var last := |steps| - 1;
      var prior := Run(xz, digests, f, steps[..last]);
      RunDelivers(xz, digests, b, f, steps[..last]);
      CarrierDeploys(xz, digests, b, prior, steps[last]);
      forall h | h in prior.installed ensures h in Run(xz, digests, f, steps).installed {
        if h != steps[last].dest {
          StepKeepsOthers(xz, digests, prior, steps[last], h);
        }
      }
      forall i | 0 <= i < |steps| ensures steps[i].dest in Run(xz, digests, f, steps).installed {
        if i < last {
          assert steps[..last][i] == steps[i];
        }
      }
    }
  }
}

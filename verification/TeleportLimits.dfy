/** For which destinations a reported success is right, and for which nothing but the
    target file can change: both exactly, over every disk a host can have. */
module TeleportLimits {
  import opened Outcome
  import opened Bytes
  import opened Hashes
  import opened Shell
  import opened Paths
  import opened RemoteHost
  import opened Teleport
  import opened TeleportLaws

  // ---------- Disks

  /** A disk is a tree: there is a root, directories lie in directories, and so do files,
      which are no directories. */
  ghost predicate Tree(d: Disk) {
    && [] in d.dirs
    && (forall p, i :: p in d.dirs && 0 <= i <= |p| ==> p[..i] in d.dirs)
    && (forall p :: p in d.files ==> p != [] && p !in d.dirs && p[..|p| - 1] in d.dirs)
  }

  lemma MkdirKeepsTree(env: Env, d: Disk, operand: string)
    requires Tree(d)
    ensures Tree(Mkdir(env, d, operand).disk)
    ensures Mkdir(env, d, operand).stdout.Some? ==> Resolve(env, operand) in Mkdir(env, d, operand).disk.dirs
  {
    hide Resolve;
    var path := Resolve(env, operand);
    var after := Mkdir(env, d, operand).disk;
    if Mkdir(env, d, operand).stdout.Some? {
      assert path[..|path|] == path;
      forall p, i | p in after.dirs && 0 <= i <= |p| ensures p[..i] in after.dirs {
        if p !in d.dirs {
          var k :| 0 <= k <= |path| && p == path[..k];
          assert p[..i] == path[..i];
        }
      }
    }
  }

  lemma CatKeepsTree(env: Env, d: Disk, operand: string, bytes: seq<byte>)
    requires Tree(d)
    ensures Tree(Cat(env, d, operand, bytes).disk)
  {
    hide Resolve;
  }

  /** Nothing lies inside a file. */
  lemma NothingInsideFile(d: Disk, file: seq<string>, p: seq<string>)
    requires Tree(d) && file in d.files && file <= p
    ensures p !in d.dirs
    ensures p in d.files ==> p == file
  {
    assert p[..|file|] == file;
    if |p| > |file| {
      assert p[..|p| - 1][..|file|] == file;
    }
  }

  lemma UploadedTree(env: Env, d0: Disk, ch: Channel, destDir: string, data: seq<byte>)
    requires Tree(d0)
    ensures var up := Uploaded(env, d0, ch, destDir, data);
            && Tree(up.disk)
            && (up.stdout.Some? ==> Resolve(env, Meaning(env, destDir)) in up.disk.dirs)
  {
    hide Tree, Mkdir, Cat, Meaning, RemotePath, Resolve;
    var file := Meaning(env, RemotePath(destDir));
    MkdirKeepsTree(env, d0, Meaning(env, destDir));
    var d1 := Through(ch.mkdir, d0, Mkdir(env, d0, Meaning(env, destDir))).disk;
    CatKeepsTree(env, d1, file, ch.received(data));
    CatKeepsDirs(env, d1, file, ch.received(data));
    var d2 := Through(ch.put, d1, Cat(env, d1, file, ch.received(data))).disk;
    ChmodKeepsTree(env, d2, file);
  }

  lemma ChmodKeepsTree(env: Env, d: Disk, operand: string)
    ensures Chmod(env, d, operand).disk.dirs == d.dirs
    ensures Tree(Chmod(env, d, operand).disk) <==> Tree(d)
  {
  }

  // ---------- When a reported success is right

  /** Every reported success means that the bytes arrived and nothing else changed. */
  ghost predicate SuccessIsRight(m: Machine, digests: Digests, destDir: string) {
    forall d0, ch, arch, data ::
      Tree(d0) && Install(m, digests, d0, ch, destDir, arch, data).0.Ok? ==>
        Holds(Target(m.env, destDir), data, d0, Install(m, digests, d0, ch, destDir, arch, data).1)
  }

  /** Files can lie at all the operands beside the target and its directory, and md5sum
      prints the name of the first as it is. */
  ghost predicate Decoys(env: Env, destDir: string, operands: seq<string>) {
    && operands != [] && Unescaped(operands[0])
    && !IsOption(Meaning(env, destDir)) && !IsOption(Meaning(env, RemotePath(destDir)))
    && forall i :: 0 <= i < |operands| ==> CanHoldFile(env, destDir, operands, operands[i])
  }

  ghost predicate CanHoldFile(env: Env, destDir: string, operands: seq<string>, operand: string) {
    var path := Resolve(env, operand);
    && operand != []
    && !(path <= Resolve(env, Meaning(env, destDir)))
    && !(Target(env, destDir) < path)
    && forall j :: 0 <= j < |operands| ==> !(Resolve(env, operands[j]) < path)
  }

  /** The directories above the files `paths`. */
  ghost function Above(paths: seq<seq<string>>): (dirs: set<seq<string>>)
    ensures forall p :: p in dirs <==> p == [] || exists i :: 0 <= i < |paths| && p < paths[i]
  {
    var dirs := {[]} + set i, j | 0 <= i < |paths| && 0 <= j < |paths[i]| :: paths[i][..j];
    assert forall p, i :: 0 <= i < |paths| && p < paths[i] ==> p == paths[i][..|p|];
    dirs
  }

  /** A disk that holds `data` at every path md5sum will be given, and nothing else. */
  ghost function DecoyDisk(paths: seq<seq<string>>, data: seq<byte>): Disk {
    Disk(Above(paths), map i | 0 <= i < |paths| :: paths[i] := data, {})
  }

  function ResolveAll(env: Env, operands: seq<string>): (paths: seq<seq<string>>)
    ensures |paths| == |operands|
    ensures forall i :: 0 <= i < |operands| ==> paths[i] == Resolve(env, operands[i])
  {
    seq(|operands|, i requires 0 <= i < |operands| => Resolve(env, operands[i]))
  }

  lemma DecoyDiskIsTree(paths: seq<seq<string>>, data: seq<byte>)
    requires forall i :: 0 <= i < |paths| ==> paths[i] != []
    requires forall i, j :: 0 <= i < |paths| && 0 <= j < |paths| ==> !(paths[j] < paths[i])
    ensures Tree(DecoyDisk(paths, data))
  {
    var d := DecoyDisk(paths, data);
    forall p, i | p in d.dirs && 0 <= i <= |p| ensures p[..i] in d.dirs {
      if p != [] {
        var k :| 0 <= k < |paths| && p < paths[k];
        assert p[..i] < paths[k];
      }
    }
    forall p | p in d.files ensures p != [] && p !in d.dirs && p[..|p| - 1] in d.dirs {
      var k :| 0 <= k < |paths| && paths[k] == p;
      assert p[..|p| - 1] < paths[k];
    }
  }

  /** A connection that loses nothing and replaces every upload by `bad`. */
  function ReplacingChannel(bad: seq<byte>): Channel { Channel(Clean, Clean, Clean, Clean, Clean, data => bad) }

  lemma DecoyFiles(paths: seq<seq<string>>, data: seq<byte>)
    ensures forall p :: p in DecoyDisk(paths, data).files <==> p in paths
    ensures forall p :: p in paths ==> DecoyDisk(paths, data).files[p] == data
  {
  }

  /** A disk admits a destination that its files and directories keep clear of. */
  lemma ClearAdmits(env: Env, d: Disk, destDir: string)
    requires env.home != []
    requires !IsOption(Meaning(env, destDir)) && !IsOption(Meaning(env, RemotePath(destDir)))
    requires forall p :: p in d.files ==> !(p <= Resolve(env, Meaning(env, destDir)))
    requires Target(env, destDir) !in d.dirs
    ensures Admits(env, d, destDir)
  {
    hide Resolve, Meaning, RemotePath, IsOption;
    var dir := Resolve(env, Meaning(env, destDir));
    forall i | 0 <= i <= |dir| ensures dir[..i] !in d.files {
      assert dir[..i] <= dir;
    }
    assert destDir != [] by { EmptyIsOption(env); }
    PathAgreement(env, destDir);
  }

  lemma DecoysAdmit(env: Env, destDir: string, operands: seq<string>, data: seq<byte>)
    requires Decoys(env, destDir, operands) && env.home != []
    ensures var d := DecoyDisk(ResolveAll(env, operands), data);
            && Tree(d) && Admits(env, d, destDir)
            && forall i :: 0 <= i < |operands| ==>
                 Resolve(env, operands[i]) in d.files && d.files[Resolve(env, operands[i])] == data
  {
    hide Resolve, Meaning, RemotePath, Tree, DecoyDisk, IsOption, Admits, Target;
    var dir := Resolve(env, Meaning(env, destDir));
    var paths := ResolveAll(env, operands);
    forall i | 0 <= i < |paths|
      ensures paths[i] != [] && !(paths[i] <= dir) && !(Target(env, destDir) < paths[i])
      ensures forall j :: 0 <= j < |paths| ==> !(paths[j] < paths[i])
    {
      assert CanHoldFile(env, destDir, operands, operands[i]);
      assert [] <= dir;
    }
    DecoyDiskIsTree(paths, data);
    DecoyFiles(paths, data);
    DecoyDirs(paths, data);
    TargetNotEmpty(env, destDir);
    ClearAdmits(env, DecoyDisk(paths, data), destDir);
  }

  lemma TargetNotEmpty(env: Env, destDir: string)
    requires !IsOption(Meaning(env, destDir)) && env.home != []
    ensures Target(env, destDir) != []
  {
    hide Resolve, Meaning, RemotePath;
    assert destDir != [] by { EmptyIsOption(env); }
    PathAgreement(env, destDir);
  }

  lemma DecoyDirs(paths: seq<seq<string>>, data: seq<byte>)
    ensures forall p :: p in DecoyDisk(paths, data).dirs ==> p == [] || exists q :: q in paths && p < q
  {
    forall p | p in Above(paths) && p != [] ensures exists q :: q in paths && p < q {
      var i :| 0 <= i < |paths| && p < paths[i];
      assert paths[i] in paths;
    }
  }

  /** Where md5sum is given words of which the first is another file than the one uploaded,
      and files can lie at them, any bytes at all are installed and success is reported. */
  lemma SuccessCanMislead(m: Machine, digests: Digests, destDir: string, operands: seq<string>,
                          arch: string, data: seq<byte>, bad: seq<byte>)
    requires HexDigests(digests) && m.env.home != []
    requires Md5Args(m.env, RemotePath(destDir)) == Some(Line(operands, [])) && Decoys(m.env, destDir, operands)
    requires !ChecksTarget(m.env, destDir)
    ensures var d0 := DecoyDisk(ResolveAll(m.env, operands), data);
            var (r, after) := Install(m, digests, d0, ReplacingChannel(bad), destDir, arch, data);
            && Tree(d0) && r.Ok?
            && Target(m.env, destDir) in after.files && after.files[Target(m.env, destDir)] == bad
  {
    hide Exec, Resolve, Meaning, RemotePath, Md5Args, FirstField, IsHex, DecoyDisk, Tree, Install, Uploaded, Md5Rows,
         Admits;
    var env, p, ch := m.env, RemotePath(destDir), ReplacingChannel(bad);
    var d0 := DecoyDisk(ResolveAll(env, operands), data);
    ArgsNulFree(env, destDir);
    DecoysAdmit(env, destDir, operands, data);
    InstallIs(m, digests, d0, ch, destDir, arch, data);
    UploadedOn(env, d0, ch, destDir, data);
    var d := Uploaded(env, d0, ch, destDir, data).disk;
    ExecMd5sum(m, digests, d, p, []);
    forall i | 0 <= i < |operands| ensures Readable(env, d, operands[i]) {
      assert CanHoldFile(env, destDir, operands, operands[i]);
    }
    Md5Answer(m, digests, d, operands, [], digests.md5(data));
  }

  lemma ArgsNulFree(env: Env, destDir: string)
    requires Md5Args(env, RemotePath(destDir)).Some?
    ensures '\0' !in destDir && '\0' !in RemotePath(destDir)
  {
    hide Scan, RemotePath;
    RemotePathNul(destDir);
    if '\0' in RemotePath(destDir) {
      ScanNul(RemotePath(destDir), Between);
    }
  }

  /** Only then can a success be reported at all: md5sum reads files at its operands. */
  lemma SuccessNeedsDecoys(m: Machine, digests: Digests, d0: Disk, ch: Channel, destDir: string,
                           arch: string, data: seq<byte>)
    requires HexDigests(digests) && Tree(d0) && m.env.home != []
    requires Md5Args(m.env, RemotePath(destDir)).Some? && Install(m, digests, d0, ch, destDir, arch, data).0.Ok?
    ensures Md5Args(m.env, RemotePath(destDir)).value.outs == []
    ensures Decoys(m.env, destDir, Md5Args(m.env, RemotePath(destDir)).value.words)
  {
    hide Exec, Resolve, Meaning, RemotePath, ReadLine, FirstField, IsHex, Tree, Install, Uploaded, Md5Rows;
    var env, p := m.env, RemotePath(destDir);
    var Line(operands, outs) := Md5Args(env, p).value;
    ArgsNulFree(env, destDir);
    InstallIs(m, digests, d0, ch, destDir, arch, data);
    UploadedHolds(env, d0, ch, destDir, data);
    UploadedTree(env, d0, ch, destDir, data);
    var d := Uploaded(env, d0, ch, destDir, data).disk;
    ExecMd5sum(m, digests, d, p, []);
    NoAnswer(digests.md5(data));
    ProgramIsRead(env, destDir);
    Md5Answer(m, digests, d, operands, [], digests.md5(data));
    forall i | 0 <= i < |operands| ensures CanHoldFile(env, destDir, operands, operands[i]) {
      FileHeld(env, destDir, operands, i, d);
    }
  }

  lemma FileHeld(env: Env, destDir: string, operands: seq<string>, i: nat, d: Disk)
    requires Tree(d) && Target(env, destDir) in d.files && Resolve(env, Meaning(env, destDir)) in d.dirs
    requires AllReadable(env, d, operands) && i < |operands|
    ensures CanHoldFile(env, destDir, operands, operands[i])
  {
    hide Tree, Resolve, Meaning;
    var path := Resolve(env, operands[i]);
    assert Readable(env, d, operands[i]);
    if path <= Resolve(env, Meaning(env, destDir)) {
      NothingInsideFile(d, path, Resolve(env, Meaning(env, destDir)));
    }
    if Target(env, destDir) < path {
      NothingInsideFile(d, Target(env, destDir), path);
    }
    forall j | 0 <= j < |operands| ensures !(Resolve(env, operands[j]) < path) {
      assert Readable(env, d, operands[j]);
      if Resolve(env, operands[j]) < path {
        NothingInsideFile(d, Resolve(env, operands[j]), path);
      }
    }
  }

  /** The md5sum line always holds more than the command. */
  lemma ProgramIsRead(env: Env, destDir: string)
    requires ReadLine(env, RemotePath(destDir)).Some?
    ensures ReadLine(env, RemotePath(destDir)).value != Line([], [])
  {
    hide Scan, TrimSlashes;
    var p := RemotePath(destDir);
    assert p[|p| - 1] == PROGRAM[|PROGRAM| - 1] == 'f';
    ScanFindsWord(env, p);
  }

  /** Exactly when a reported success is right, for every destination whose md5sum line
      this model reads: when md5sum's output is redirected, so that no success is ever
      reported; when the first file it is given is the uploaded one; or when no disk can
      hold files at what it is given. */
  lemma SuccessRightExactly(m: Machine, digests: Digests, destDir: string)
    requires HexDigests(digests) && (forall y :: Separates(digests.md5, y)) && m.env.home != []
    requires Md5Args(m.env, RemotePath(destDir)).Some?
    ensures var Line(operands, outs) := Md5Args(m.env, RemotePath(destDir)).value;
            SuccessIsRight(m, digests, destDir) <==>
              outs != [] || ChecksTarget(m.env, destDir) || !Decoys(m.env, destDir, operands)
  {
    hide Install, RemotePath, Md5Args, Decoys, ChecksTarget, Holds, HexDigests, Separates, Target, Tree;
    var Line(operands, outs) := Md5Args(m.env, RemotePath(destDir)).value;
    if outs != [] || ChecksTarget(m.env, destDir) || !Decoys(m.env, destDir, operands) {
      forall d0, ch, arch, data | Tree(d0) && Install(m, digests, d0, ch, destDir, arch, data).0.Ok?
        ensures Holds(Target(m.env, destDir), data, d0, Install(m, digests, d0, ch, destDir, arch, data).1)
      {
        SuccessNeedsDecoys(m, digests, d0, ch, destDir, arch, data);
        assert Separates(digests.md5, data);
        InstallSound(m, digests, d0, ch, destDir, arch, data);
      }
    } else {
      var data: seq<byte> := [0];
      SuccessCanMislead(m, digests, destDir, operands, "", data, []);
      var d0 := DecoyDisk(ResolveAll(m.env, operands), data);
      MisledIsWrong(Target(m.env, destDir), data, [], d0,
                    Install(m, digests, d0, ReplacingChannel([]), destDir, "", data).1);
    }
  }

  lemma MisledIsWrong(path: seq<string>, data: seq<byte>, bad: seq<byte>, before: Disk, after: Disk)
    requires path in after.files && after.files[path] == bad && bad != data
    ensures !Holds(path, data, before, after)
  {
  }

  // ---------- When nothing but the target file can change

  /** Whatever the disk and the connection, only the target file can change. */
  ghost predicate OnlyTargetChanges(m: Machine, digests: Digests, destDir: string) {
    forall d0, ch, arch, data ::
      Tree(d0) ==> OnlyTouches(Target(m.env, destDir), d0, Install(m, digests, d0, ch, destDir, arch, data).1)
  }

  /** A redirection that no disk with the uploaded file on it allows. */
  ghost predicate Blocked(env: Env, destDir: string, out: string) {
    var path := Resolve(env, out);
    out == [] || path <= Resolve(env, Meaning(env, destDir)) || Target(env, destDir) < path
  }

  /** The redirections go to the uploaded file, up to one that is blocked, if any is. */
  ghost predicate Harmless(env: Env, destDir: string, outs: seq<string>) {
    outs != [] && !Blocked(env, destDir, outs[0]) ==>
      Resolve(env, outs[0]) == Target(env, destDir) && Harmless(env, destDir, outs[1..])
  }

  /** The first other file that a redirection goes to. */
  ghost function Overwritten(env: Env, destDir: string, outs: seq<string>): (path: seq<string>)
    requires !Harmless(env, destDir, outs)
    ensures path != Target(env, destDir) && !(Target(env, destDir) < path)
    ensures !(path <= Resolve(env, Meaning(env, destDir)))
  {
    var path := Resolve(env, outs[0]);
    if path != Target(env, destDir) then path else Overwritten(env, destDir, outs[1..])
  }

  lemma BlockedFails(env: Env, destDir: string, d: Disk, out: string)
    requires Tree(d) && Target(env, destDir) in d.files && Resolve(env, Meaning(env, destDir)) in d.dirs
    requires Blocked(env, destDir, out)
    ensures Cat(env, d, out, []) == Ran(None, d)
  {
    hide Resolve, Meaning, RemotePath;
    var path, dir := Resolve(env, out), Resolve(env, Meaning(env, destDir));
    if path <= dir {
      assert dir[..|path|] == path;
    } else if Target(env, destDir) < path {
      NothingInsideFile(d, Target(env, destDir), path[..|path| - 1]);
    }
  }

  lemma {:induction false} OpenHarmless(env: Env, destDir: string, d: Disk, outs: seq<string>)
    requires Tree(d) && Target(env, destDir) in d.files && Resolve(env, Meaning(env, destDir)) in d.dirs
    requires Harmless(env, destDir, outs)
    ensures OnlyTouches(Target(env, destDir), d, OpenAll(env, d, outs).disk)
    ensures OpenAll(env, d, outs).stdout.Some? && outs != [] ==> Resolve(env, outs[|outs| - 1]) == Target(env, destDir)
    decreases |outs|
  {
    hide Resolve, Meaning, Tree, Target;
    if outs != [] {
      if Blocked(env, destDir, outs[0]) {
        BlockedFails(env, destDir, d, outs[0]);
      } else {
        CatKeepsTree(env, d, outs[0], []);
        OpenHarmless(env, destDir, Cat(env, d, outs[0], []).disk, outs[1..]);
      }
    }
  }

  lemma {:induction false} OpenKeepsFiles(env: Env, d: Disk, outs: seq<string>)
    ensures forall p :: p in d.files ==> p in OpenAll(env, d, outs).disk.files
    decreases |outs|
  {
    hide Resolve;
    if outs != [] {
      OpenKeepsFiles(env, Cat(env, d, outs[0], []).disk, outs[1..]);
    }
  }

  lemma {:induction false} OpenHarmful(env: Env, destDir: string, d: Disk, outs: seq<string>)
    requires !Harmless(env, destDir, outs)
    requires var target := Target(env, destDir); target != [] && target !in d.dirs && target[..|target| - 1] in d.dirs
    requires var path := Overwritten(env, destDir, outs); path != [] && path !in d.dirs && path[..|path| - 1] in d.dirs
    ensures Overwritten(env, destDir, outs) in OpenAll(env, d, outs).disk.files
    decreases |outs|
  {
    hide Resolve, Meaning, Target;
    var after := Cat(env, d, outs[0], []).disk;
    if Resolve(env, outs[0]) == Target(env, destDir) {
      OpenHarmful(env, destDir, after, outs[1..]);
    } else {
      OpenKeepsFiles(env, after, outs[1..]);
    }
  }

  lemma Md5sumTouches(m: Machine, digests: Digests, destDir: string, d: Disk, operands: seq<string>, outs: seq<string>)
    requires Tree(d) && Target(m.env, destDir) in d.files && Resolve(m.env, Meaning(m.env, destDir)) in d.dirs
    requires Harmless(m.env, destDir, outs)
    ensures OnlyTouches(Target(m.env, destDir), d, Md5sum(m, digests, d, operands, outs, []).disk)
  {
    hide Resolve, Meaning, Tree, Target, OpenAll, Md5Rows, AllReadable, Harmless;
    OpenHarmless(m.env, destDir, d, outs);
    if outs == [] {
      SameTouchesNothing(Target(m.env, destDir), d);
    }
  }

  lemma Md5sumOverwrites(m: Machine, digests: Digests, d: Disk, operands: seq<string>, outs: seq<string>, p: seq<string>)
    requires outs != [] && p in OpenAll(m.env, d, outs).disk.files
    ensures p in Md5sum(m, digests, d, operands, outs, []).disk.files
  {
    hide Resolve, OpenAll, Md5Rows, AllReadable;
  }

  lemma TouchesOnlyTarget(m: Machine, digests: Digests, d0: Disk, ch: Channel, destDir: string,
                          arch: string, data: seq<byte>)
    requires Md5Args(m.env, RemotePath(destDir)).Some? && Tree(d0)
    requires var outs := Md5Args(m.env, RemotePath(destDir)).value.outs;
             || Harmless(m.env, destDir, outs)
             || IsOption(Meaning(m.env, destDir)) || IsOption(Meaning(m.env, RemotePath(destDir)))
    ensures OnlyTouches(Target(m.env, destDir), d0, Install(m, digests, d0, ch, destDir, arch, data).1)
  {
    hide Exec, Resolve, Meaning, RemotePath, Md5Args, FirstField, Tree, Install, Uploaded, Md5sum, Harmless, Target,
         IsOption;
    var Line(operands, outs) := Md5Args(m.env, RemotePath(destDir)).value;
    ArgsNulFree(m.env, destDir);
    InstallIs(m, digests, d0, ch, destDir, arch, data);
    UploadedHolds(m.env, d0, ch, destDir, data);
    UploadedTree(m.env, d0, ch, destDir, data);
    var up := Uploaded(m.env, d0, ch, destDir, data);
    ExecMd5sum(m, digests, up.disk, RemotePath(destDir), []);
    if up.stdout.Some? {
      Md5sumTouches(m, digests, destDir, up.disk, operands, outs);
    }
  }

  /** A harmful redirection overwrites a file that is not the target, on a disk with
      nothing but the directories above it. */
  lemma TouchesAnother(m: Machine, digests: Digests, destDir: string, arch: string, data: seq<byte>)
    requires Md5Args(m.env, RemotePath(destDir)).Some? && m.env.home != []
    requires !Harmless(m.env, destDir, Md5Args(m.env, RemotePath(destDir)).value.outs)
    requires !IsOption(Meaning(m.env, destDir)) && !IsOption(Meaning(m.env, RemotePath(destDir)))
    ensures var path := Overwritten(m.env, destDir, Md5Args(m.env, RemotePath(destDir)).value.outs);
            var d0 := Disk(Above([path]), map[], {});
            && Tree(d0)
            && path in Install(m, digests, d0, ReplacingChannel(data), destDir, arch, data).1.files
  {
    hide Exec, Resolve, Meaning, RemotePath, Md5Args, FirstField, Install, Uploaded, Md5sum, Harmless, IsOption, Overwritten,
         OpenAll;
    var env, ch := m.env, ReplacingChannel(data);
    var Line(operands, outs) := Md5Args(env, RemotePath(destDir)).value;
    var path, dir, target := Overwritten(env, destDir, outs), Resolve(env, Meaning(env, destDir)), Target(env, destDir);
    var d0 := Disk(Above([path]), map[], {});
    assert [] <= dir;
    AboveIsTree(path);
    ArgsNulFree(env, destDir);
    assert destDir != [] by { EmptyIsOption(env); }
    PathAgreement(env, destDir);
    assert target == dir + [PROGRAM];
    InstallIs(m, digests, d0, ch, destDir, arch, data);
    UploadedOn(env, d0, ch, destDir, data);
    UploadedTree(env, d0, ch, destDir, data);
    UploadedHolds(env, d0, ch, destDir, data);
    var d := Uploaded(env, d0, ch, destDir, data).disk;
    ExecMd5sum(m, digests, d, RemotePath(destDir), []);
    RoomFor(env, destDir, d0, path);
    OpenHarmful(env, destDir, d, outs);
    assert outs != [] by { EmptyIsHarmless(env, destDir); }
    Md5sumOverwrites(m, digests, d, operands, outs, path);
  }

  lemma EmptyIsHarmless(env: Env, destDir: string)
    ensures Harmless(env, destDir, [])
  {
  }

  lemma AboveIsTree(path: seq<string>)
    requires path != []
    ensures Tree(Disk(Above([path]), map[], {}))
    ensures path[..|path| - 1] in Above([path]) && path !in Above([path])
    ensures forall p :: p in Above([path]) ==> p <= path && p != path
  {
    var paths := [path];
    assert path[..|path| - 1] < paths[0];
    forall p, i | p in Above(paths) && 0 <= i <= |p| ensures p[..i] in Above(paths) {
      if p != [] {
        assert p < paths[0];
        assert p[..i] < paths[0];
      }
    }
  }

  /** Making the destination directory leaves room for the file at `path`. */
  lemma RoomFor(env: Env, destDir: string, d0: Disk, path: seq<string>)
    requires path != [] && path !in d0.dirs && path[..|path| - 1] in d0.dirs
    requires !(path <= Resolve(env, Meaning(env, destDir)))
    ensures var dirs := Mkdir(env, d0, Meaning(env, destDir)).disk.dirs;
            path !in dirs && path[..|path| - 1] in dirs
  {
    hide Resolve, Meaning;
    var dir := Resolve(env, Meaning(env, destDir));
    forall i | 0 <= i <= |dir| ensures dir[..i] != path {
      assert dir[..i] <= dir;
    }
  }

  /** Exactly when nothing but the target file can change, for every destination whose
      md5sum line this model reads: when it redirects nowhere else, or when the
      destination is an option to mkdir or chmod, which then refuse it. */
  lemma OnlyTargetExactly(m: Machine, digests: Digests, destDir: string)
    requires m.env.home != [] && Md5Args(m.env, RemotePath(destDir)).Some?
    ensures OnlyTargetChanges(m, digests, destDir) <==>
              || Harmless(m.env, destDir, Md5Args(m.env, RemotePath(destDir)).value.outs)
              || IsOption(Meaning(m.env, destDir)) || IsOption(Meaning(m.env, RemotePath(destDir)))
  {
    hide Install, RemotePath, Md5Args, Meaning, IsOption, Harmless, Target, Tree, Overwritten, OnlyTouches;
    var outs := Md5Args(m.env, RemotePath(destDir)).value.outs;
    if || Harmless(m.env, destDir, outs)
       || IsOption(Meaning(m.env, destDir)) || IsOption(Meaning(m.env, RemotePath(destDir))) {
      forall d0, ch, arch, data | Tree(d0)
        ensures OnlyTouches(Target(m.env, destDir), d0, Install(m, digests, d0, ch, destDir, arch, data).1)
      {
        TouchesOnlyTarget(m, digests, d0, ch, destDir, arch, data);
      }
    } else {
      TouchesAnother(m, digests, destDir, "", []);
      var path := Overwritten(m.env, destDir, outs);
      var d0 := Disk(Above([path]), map[], {});
      NewFileTouches(Target(m.env, destDir), path, d0, Install(m, digests, d0, ReplacingChannel([]), destDir, "", []).1);
    }
  }

  lemma NewFileTouches(target: seq<string>, path: seq<string>, before: Disk, after: Disk)
    requires path != target && path !in before.files && path in after.files
    ensures !OnlyTouches(target, before, after)
  {
  }
}

/** What a reported success of Deploy establishes on the remote host, and when it is reported. */
module TeleportLaws {
  import opened Outcome
  import opened Bytes
  import opened Hashes
  import opened Shell
  import opened Paths
  import opened RemoteHost
  import opened SelfImage
  import opened Compression
  import opened Teleport
  import ArchDetect

  /** The newline uname prints does not change the answer. */
  lemma UnameNewline(uname: string)
    ensures ArchDetect.FromUname(uname + "\n") == ArchDetect.FromUname(uname)
  {
    hide ArchDetect.FromUname;
    ArchDetect.LowerCharIsUnicodeLower();
    ArchDetect.FromUnameIgnoresSpaceAndCase(ArchDetect.LowerChar, uname, uname, "", "\n");
    assert "" + uname + "\n" == uname + "\n";
  }

  // ---------- The digest that comes back

  predicate IsHex(s: string) {
    s != [] && forall i :: 0 <= i < |s| ==> '0' <= s[i] <= '9' || 'a' <= s[i] <= 'f'
  }

  ghost predicate HexDigests(digests: Digests) { forall x :: IsHex(digests.md5(x)) }

  lemma {:induction false} TrimRightAtLeast(s: string, n: nat)
    requires 1 <= n <= |s| && !ArchDetect.IsSpace(s[n - 1])
    ensures n <= |ArchDetect.TrimRight(s)|
  {
    if |s| > n && ArchDetect.IsSpace(s[|s| - 1]) {
      TrimRightAtLeast(s[..|s| - 1], n);
    }
  }

  lemma {:induction false} IndexBlankAt(t: string, n: nat)
    requires n <= |t| && (n < |t| ==> IsBlank(t[n]))
    requires forall i :: 0 <= i < n ==> !IsBlank(t[i])
    ensures IndexBlank(t) == n
  {
    if n > 0 {
      IndexBlankAt(t[1..], n - 1);
    }
  }

  lemma FirstFieldOf(u: string, rest: string)
    requires u != [] && forall i :: 0 <= i < |u| ==> !ArchDetect.IsSpace(u[i])
    ensures FirstField(u + "  " + rest) == u
  {
    hide ArchDetect.IsSpace;
    var s := u + "  " + rest;
    assert s[0] == u[0] && s[|u| - 1] == u[|u| - 1];
    TrimRightAtLeast(s, |u|);
    var t := ArchDetect.TrimSpace(s);
    BlankIsSpace();
    assert forall i :: 0 <= i < |u| ==> t[i] == u[i];
    assert |u| < |t| ==> t[|u|] == ' ';
    IndexBlankAt(t, |u|);
  }

  lemma BlankIsSpace()
    ensures forall c :: IsBlank(c) ==> ArchDetect.IsSpace(c)
  {
  }

  lemma HexHasNoSpace(u: string)
    requires IsHex(u)
    ensures forall i :: 0 <= i < |u| ==> !ArchDetect.IsSpace(u[i]) && u[i] != '\\'
  {
  }

  /** The first field of what md5sum prints, whatever follows the first line. */
  lemma RowField(env: Env, digests: Digests, d: Disk, operand: string, more: string)
    requires HexDigests(digests) && Readable(env, d, operand)
    ensures var u := digests.md5(d.files[Resolve(env, operand)]);
            FirstField(Md5Row(env, digests, d, operand) + more) == if Unescaped(operand) then u else "\\" + u
  {
    hide FirstField, Resolve, IsHex, ArchDetect.IsSpace;
    var u := digests.md5(d.files[Resolve(env, operand)]);
    HexHasNoSpace(u);
    IsHexNonempty(u);
    BackslashIsNoSpace();
    var field := if Unescaped(operand) then u else "\\" + u;
    FirstFieldOf(field, operand + "\n" + more);
    assert Md5Row(env, digests, d, operand) + more == field + "  " + (operand + "\n" + more);
  }

  /** Deploy reads the digest of the first file md5sum looked at - unless md5sum had to
      escape its name, and then what it reads is no digest. */
  lemma Md5Answer(m: Machine, digests: Digests, d: Disk, operands: seq<string>, stdin: seq<byte>, digest: string)
    requires HexDigests(digests) && IsHex(digest)
    requires operands != [] && Md5sum(m, digests, d, operands, [], stdin).stdout.Some?
    ensures Readable(m.env, d, operands[0])
    ensures FirstField(Md5sum(m, digests, d, operands, [], stdin).stdout.value) == digest <==>
              Unescaped(operands[0]) && digests.md5(d.files[Resolve(m.env, operands[0])]) == digest
  {
    hide FirstField, Resolve, IsHex, Md5Row, Unescaped, ArchDetect.IsSpace;
    var operand := operands[0];
    assert Readable(m.env, d, operand);
    RowField(m.env, digests, d, operand, Md5Rows(m.env, digests, d, operands[1..]));
    HexHasNoSpace(digest);
    IsHexNonempty(digest);
    assert ("\\" + digests.md5(d.files[Resolve(m.env, operand)]))[0] == '\\';
  }

  /** When its output went to a file, Deploy reads no digest. */
  lemma NoAnswer(digest: string)
    requires IsHex(digest)
    ensures FirstField("") != digest
  {
  }

  lemma IsHexNonempty(u: string)
    requires IsHex(u)
    ensures u != []
  {
  }

  lemma BackslashIsNoSpace()
    ensures !ArchDetect.IsSpace('\\')
  {
  }

  // ---------- One deployment

  /** The file a deployment installs. */
  function Target(env: Env, destDir: string): seq<string> { Resolve(env, Meaning(env, RemotePath(destDir))) }

  /** `path` holds exactly `data`, is executable, and no other file differs from `before`. */
  ghost predicate Holds(path: seq<string>, data: seq<byte>, before: Disk, after: Disk) {
    && path in after.files && after.files[path] == data && path in after.executable
    && forall p :: p != path ==> (p in after.files <==> p in before.files)
                                 && (p in before.files ==> after.files[p] == before.files[p])
  }

  /** Whatever happens, only the target file can change. */
  ghost predicate OnlyTouches(path: seq<string>, before: Disk, after: Disk) {
    forall p :: p != path ==> (p in after.files <==> p in before.files)
                              && (p in before.files ==> after.files[p] == before.files[p])
  }

  /** What an install does before it asks for the digest. */
  function Uploaded(env: Env, d0: Disk, ch: Channel, destDir: string, data: seq<byte>): Ran {
    var file := Meaning(env, RemotePath(destDir));
    var made := Through(ch.mkdir, d0, Mkdir(env, d0, Meaning(env, destDir)));
    if made.stdout.None? then made
    else
      var put := Through(ch.put, made.disk, Cat(env, made.disk, file, ch.received(data)));
      if put.stdout.None? then put else Through(ch.chmod, put.disk, Chmod(env, put.disk, file))
  }

  /** An install is the upload, then what the shell makes of the md5sum line. */
  lemma InstallIs(m: Machine, digests: Digests, d0: Disk, ch: Channel, destDir: string, arch: string, data: seq<byte>)
    requires '\0' !in destDir
    ensures var (r, after) := Install(m, digests, d0, ch, destDir, arch, data);
            var up := Uploaded(m.env, d0, ch, destDir, data);
            var ran := Through(ch.md5sum, up.disk, Exec(m, digests, up.disk, "md5sum " + RemotePath(destDir), []));
            && after == (if up.stdout.None? then up.disk else ran.disk)
            && (r.Ok? <==> up.stdout.Some? && ran.stdout.Some? && FirstField(ran.stdout.value) == digests.md5(data))
            && (r.Ok? ==> r.value == Receipt(arch, digests.md5(data), RemotePath(destDir), |data|))
  {
    hide Exec, Meaning, RemotePath, ShellQuoteAllowTilde, FirstField, Mkdir, Cat, Chmod;
    var p := RemotePath(destDir);
    RemotePathNul(destDir);
    ExecMkdir(m, digests, d0, destDir, []);
    var d1 := Through(ch.mkdir, d0, Mkdir(m.env, d0, Meaning(m.env, destDir))).disk;
    ExecCat(m, digests, d1, p, ch.received(data));
    var d2 := Through(ch.put, d1, Cat(m.env, d1, Meaning(m.env, p), ch.received(data))).disk;
    ExecChmod(m, digests, d2, p, []);
  }

  /** With a NUL in the destination the first command cannot be sent. */
  lemma InstallNul(m: Machine, digests: Digests, d0: Disk, ch: Channel, destDir: string, arch: string, data: seq<byte>)
    requires '\0' in destDir
    ensures Install(m, digests, d0, ch, destDir, arch, data) == (Err(MkdirFailed), d0)
  {
    hide Exec, ShellQuoteAllowTilde;
    ExecMkdir(m, digests, d0, destDir, []);
  }

  /** Every way an install can end, by the first stage that fails. */
  lemma InstallOutcome(m: Machine, digests: Digests, d0: Disk, ch: Channel, destDir: string, arch: string, data: seq<byte>)
    requires '\0' !in destDir
    ensures var r := Install(m, digests, d0, ch, destDir, arch, data).0;
            var file := Meaning(m.env, RemotePath(destDir));
            var made := Through(ch.mkdir, d0, Mkdir(m.env, d0, Meaning(m.env, destDir)));
            var put := Through(ch.put, made.disk, Cat(m.env, made.disk, file, ch.received(data)));
            var marked := Through(ch.chmod, put.disk, Chmod(m.env, put.disk, file));
            var ran := Through(ch.md5sum, marked.disk, Exec(m, digests, marked.disk, "md5sum " + RemotePath(destDir), []));
            && (r == Err(MkdirFailed) <==> made.stdout.None?)
            && (r == Err(UploadFailed) <==> made.stdout.Some? && put.stdout.None?)
            && (r == Err(ChmodFailed) <==> made.stdout.Some? && put.stdout.Some? && marked.stdout.None?)
            && (r == Err(Md5Failed) <==>
                  made.stdout.Some? && put.stdout.Some? && marked.stdout.Some? && ran.stdout.None?)
            && (r == Err(Md5Mismatch) <==>
                  && made.stdout.Some? && put.stdout.Some? && marked.stdout.Some? && ran.stdout.Some?
                  && FirstField(ran.stdout.value) != digests.md5(data))
            && (r.Err? ==> r.error in {MkdirFailed, UploadFailed, ChmodFailed, Md5Failed, Md5Mismatch})
  {
    hide Exec, Meaning, RemotePath, ShellQuoteAllowTilde, FirstField, Mkdir, Cat, Chmod;
    var p := RemotePath(destDir);
    RemotePathNul(destDir);
    ExecMkdir(m, digests, d0, destDir, []);
    var d1 := Through(ch.mkdir, d0, Mkdir(m.env, d0, Meaning(m.env, destDir))).disk;
    ExecCat(m, digests, d1, p, ch.received(data));
    var d2 := Through(ch.put, d1, Cat(m.env, d1, Meaning(m.env, p), ch.received(data))).disk;
    ExecChmod(m, digests, d2, p, []);
  }

  /** The errors that come before anything is installed are not errors of an install. */
  lemma InstallErrors(m: Machine, digests: Digests, d0: Disk, ch: Channel, destDir: string, arch: string, data: seq<byte>)
    ensures var r := Install(m, digests, d0, ch, destDir, arch, data).0;
            r.Err? ==> !r.error.DetectFailed? && !r.error.UnknownArch? && !r.error.RebuildFailed?
  {
    hide Exec, FirstField, Through, ShellQuoteAllowTilde, RemotePath;
  }

  /** The machine is of architecture `arch`, by what its `uname -m` prints. */
  ghost predicate IsA(m: Machine, arch: string) { ArchDetect.FromUname(m.uname) == Some(arch) && IsAscii(arch) }

  /** What a deployment amounts to: it asks the machine, rebuilds the image for the
      machine's own architecture, and installs that - and refuses in exactly three ways
      before it touches anything. */
  lemma DeployOutcome(w: Width, xz: Xz, digests: Digests, image: seq<byte>, m: Machine, d: Disk, ch: Channel,
                      destDir: string)
    ensures var (r, after) := Deployed(w, xz, digests, image, m, d, ch, destDir);
            && (r == Err(DetectFailed) <==> ch.uname != Clean)
            && (r == Err(UnknownArch) <==> ch.uname == Clean && ArchDetect.FromUname(m.uname).None?)
            && (forall e :: r == Err(RebuildFailed(e)) <==>
                  ch.uname == Clean && exists arch :: IsA(m, arch) && Reconstruct(w, xz, image, Ascii(arch)) == Err(e))
            && (r.Err? && (r.error.DetectFailed? || r.error.UnknownArch? || r.error.RebuildFailed?) ==> after == d)
    ensures ch.uname == Clean ==>
              forall arch :: IsA(m, arch) && Reconstruct(w, xz, image, Ascii(arch)).Ok? ==>
                Deployed(w, xz, digests, image, m, d, ch, destDir)
                == Install(m, digests, d, ch, destDir, arch, Reconstruct(w, xz, image, Ascii(arch)).value)
  {
    hide Exec, Reconstruct, Install, ArchDetect.FromUname;
    ExecUname(m, digests, d, []);
    UnameNewline(m.uname);
    UnameIsAscii(m.uname);
    if exists arch :: IsA(m, arch) && Reconstruct(w, xz, image, Ascii(arch)).Ok? {
      var arch :| IsA(m, arch) && Reconstruct(w, xz, image, Ascii(arch)).Ok?;
      InstallErrors(m, digests, d, ch, destDir, arch, Reconstruct(w, xz, image, Ascii(arch)).value);
    }
  }

  /** A deployment that reports success rebuilt the image for the architecture that its
      receipt names, which is the machine's own. */
  lemma DeployedIsInstall(w: Width, xz: Xz, digests: Digests, image: seq<byte>, m: Machine, d: Disk, ch: Channel,
                          destDir: string) returns (arch: string, data: seq<byte>)
    requires Deployed(w, xz, digests, image, m, d, ch, destDir).0.Ok?
    ensures IsA(m, arch) && Reconstruct(w, xz, image, Ascii(arch)) == Ok(data)
    ensures Deployed(w, xz, digests, image, m, d, ch, destDir) == Install(m, digests, d, ch, destDir, arch, data)
    ensures Deployed(w, xz, digests, image, m, d, ch, destDir).0.value
            == Receipt(arch, digests.md5(data), RemotePath(destDir), |data|)
  {
    hide Exec, Reconstruct, Install, ArchDetect.FromUname, Deployed, RemotePath;
    DeployOutcome(w, xz, digests, image, m, d, ch, destDir);
    UnameIsAscii(m.uname);
    arch := ArchDetect.FromUname(m.uname).value;
    assert IsA(m, arch);
    data := Reconstruct(w, xz, image, Ascii(arch)).value;
    if '\0' in destDir {
      InstallNul(m, digests, d, ch, destDir, arch, data);
    } else {
      InstallIs(m, digests, d, ch, destDir, arch, data);
    }
  }

  /** Up to there nothing but the target file can change, and it is there in the end. */
  lemma UploadedHolds(env: Env, d0: Disk, ch: Channel, destDir: string, data: seq<byte>)
    ensures var up := Uploaded(env, d0, ch, destDir, data);
            && OnlyTouches(Target(env, destDir), d0, up.disk)
            && (up.stdout.Some? ==>
                  && Holds(Target(env, destDir), ch.received(data), d0, up.disk)
                  && !IsOption(Meaning(env, destDir)) && !IsOption(Meaning(env, RemotePath(destDir))))
  {
    hide Resolve, Meaning, RemotePath;
  }

  /** Success or failure, only the target file can change - when md5sum's unquoted
      argument is read as words only, or the destination cannot be sent at all. */
  lemma InstallTouchesOnly(m: Machine, digests: Digests, d0: Disk, ch: Channel, destDir: string,
                           arch: string, data: seq<byte>)
    requires var args := Md5Args(m.env, RemotePath(destDir));
             '\0' in destDir || (args.Some? && args.value.outs == [])
    ensures OnlyTouches(Target(m.env, destDir), d0, Install(m, digests, d0, ch, destDir, arch, data).1)
  {
    hide Exec, Md5Args, Target, RemotePath, Uploaded, Install, OnlyTouches, FirstField, AllReadable;
    if '\0' in destDir {
      InstallNul(m, digests, d0, ch, destDir, arch, data);
      SameTouchesNothing(Target(m.env, destDir), d0);
    } else {
      RemotePathNul(destDir);
      InstallIs(m, digests, d0, ch, destDir, arch, data);
      UploadedHolds(m.env, d0, ch, destDir, data);
      ExecMd5sum(m, digests, Uploaded(m.env, d0, ch, destDir, data).disk, RemotePath(destDir), []);
    }
  }

  lemma SameTouchesNothing(path: seq<string>, d: Disk)
    ensures OnlyTouches(path, d, d)
  {
  }

  /** The first file that md5sum's unquoted argument names is the one uploaded, and
      what md5sum prints comes back. */
  ghost predicate ChecksTarget(env: Env, destDir: string) {
    var args := Md5Args(env, RemotePath(destDir));
    && args.Some? && args.value.outs == [] && args.value.words != []
    && Resolve(env, args.value.words[0]) == Target(env, destDir)
  }

  lemma SafeChecksTarget(env: Env, destDir: string)
    requires ShellSafe(destDir) && !IsOption(Meaning(env, RemotePath(destDir)))
    ensures ChecksTarget(env, destDir)
  {
    hide ShellSafe, ReadLine, Resolve, Meaning;
    Md5SameFile(env, destDir);
  }

  /** Success means the bytes arrived: when md5sum is made to check the uploaded file and
      the install reports success, that file holds exactly the bytes sent, is executable,
      and every other file is untouched - whatever the connection did to the upload. */
  lemma InstallSound(m: Machine, digests: Digests, d0: Disk, ch: Channel, destDir: string,
                     arch: string, data: seq<byte>)
    requires ChecksTarget(m.env, destDir) && HexDigests(digests) && Separates(digests.md5, data)
    requires Install(m, digests, d0, ch, destDir, arch, data).0.Ok?
    ensures Holds(Target(m.env, destDir), data, d0, Install(m, digests, d0, ch, destDir, arch, data).1)
    ensures Install(m, digests, d0, ch, destDir, arch, data).0.value
            == Receipt(arch, digests.md5(data), RemotePath(destDir), |data|)
  {
    hide Exec, Resolve, Meaning, RemotePath, Md5Args, FirstField, IsHex, Uploaded, Install, AllReadable, Md5Rows;
    var p := RemotePath(destDir);
    var operands := Md5Args(m.env, p).value.words;
    if '\0' in destDir {
      InstallNul(m, digests, d0, ch, destDir, arch, data);
      assert false;
    }
    RemotePathNul(destDir);
    InstallIs(m, digests, d0, ch, destDir, arch, data);
    UploadedHolds(m.env, d0, ch, destDir, data);
    var d := Uploaded(m.env, d0, ch, destDir, data).disk;
    ExecMd5sum(m, digests, d, p, []);
    Md5Answer(m, digests, d, operands, [], digests.md5(data));
  }

  /** A reported success over a shell-safe destination always has this meaning. */
  lemma SafeInstallSound(m: Machine, digests: Digests, d0: Disk, ch: Channel, destDir: string,
                         arch: string, data: seq<byte>)
    requires ShellSafe(destDir) && HexDigests(digests) && Separates(digests.md5, data)
    requires Install(m, digests, d0, ch, destDir, arch, data).0.Ok?
    ensures Holds(Target(m.env, destDir), data, d0, Install(m, digests, d0, ch, destDir, arch, data).1)
  {
    hide Install, Uploaded, Exec, RemotePath, Meaning, ShellSafe, ChecksTarget, Holds, OnlyTouches, HexDigests;
    SafeIsNulFree(destDir);
    InstallIs(m, digests, d0, ch, destDir, arch, data);
    UploadedHolds(m.env, d0, ch, destDir, data);
    SafeChecksTarget(m.env, destDir);
    InstallSound(m, digests, d0, ch, destDir, arch, data);
  }

  // ---------- When success is reported

  /** The remote disk lets the destination directory and the file in it be made. */
  ghost predicate Admits(env: Env, d: Disk, destDir: string) {
    var dir := Resolve(env, Meaning(env, destDir));
    && env.home != []
    && (forall i :: 0 <= i <= |dir| ==> dir[..i] !in d.files)
    && dir + [PROGRAM] !in d.dirs
    && !IsOption(Meaning(env, destDir)) && !IsOption(Meaning(env, RemotePath(destDir)))
  }

  ghost predicate Faultless(ch: Channel, data: seq<byte>) {
    && ch.uname == ch.mkdir == ch.put == ch.chmod == ch.md5sum == Clean
    && ch.received(data) == data
  }

  lemma SafeIsNulFree(destDir: string)
    requires ShellSafe(destDir)
    ensures '\0' !in destDir && '\0' !in RemotePath(destDir)
  {
    RemotePathNul(destDir);
    assert !IsOrdinary('\0');
  }

  /** Making the destination directory and uploading into it succeed, on a disk that admits them. */
  lemma MkdirAndCat(env: Env, d0: Disk, destDir: string, bytes: seq<byte>)
    requires destDir != [] && Admits(env, d0, destDir)
    ensures var made := Mkdir(env, d0, Meaning(env, destDir));
            var put := Cat(env, made.disk, Meaning(env, RemotePath(destDir)), bytes);
            && made.stdout.Some? && made.disk.files == d0.files
            && put.stdout.Some? && put.disk.files == d0.files[Target(env, destDir) := bytes]
  {
    hide Resolve, Meaning, RemotePath;
    var dir := Resolve(env, Meaning(env, destDir));
    var made := Mkdir(env, d0, Meaning(env, destDir));
    assert made.stdout.Some?;
    PathAgreement(env, destDir);
    var file := Target(env, destDir);
    assert file[..|file| - 1] == dir && dir == dir[..|dir|];
    assert dir in made.disk.dirs;
    LongerThanPrefixes(dir, file);
    assert file !in made.disk.dirs;
  }

  /** A disk that admits the file, and a connection that lets the first three commands through. */
  lemma UploadedOn(env: Env, d0: Disk, ch: Channel, destDir: string, data: seq<byte>)
    requires Admits(env, d0, destDir) && ch.mkdir == ch.put == ch.chmod == Clean
    ensures var up := Uploaded(env, d0, ch, destDir, data);
            && up.stdout.Some?
            && up.disk.files == d0.files[Target(env, destDir) := ch.received(data)]
            && up.disk.dirs == Mkdir(env, d0, Meaning(env, destDir)).disk.dirs
  {
    hide Resolve, Meaning, RemotePath, Mkdir, Cat;
    assert destDir != [] by { EmptyIsOption(env); }
    MkdirAndCat(env, d0, destDir, ch.received(data));
    CatKeepsDirs(env, Mkdir(env, d0, Meaning(env, destDir)).disk, Meaning(env, RemotePath(destDir)), ch.received(data));
  }

  lemma CatKeepsDirs(env: Env, d: Disk, operand: string, bytes: seq<byte>)
    ensures Cat(env, d, operand, bytes).disk.dirs == d.dirs
  {
  }

  lemma EmptyIsOption(env: Env)
    ensures IsOption(Meaning(env, ""))
  {
  }

  lemma LongerThanPrefixes<T>(dir: seq<T>, file: seq<T>)
    requires |file| > |dir|
    ensures forall i :: 0 <= i <= |dir| ==> dir[..i] != file
  {
  }

  /** Over a faultless connection to a disk that admits it, the install succeeds. */
  lemma InstallCompletes(m: Machine, digests: Digests, d0: Disk, ch: Channel, destDir: string,
                         arch: string, data: seq<byte>)
    requires ShellSafe(destDir) && HexDigests(digests) && Admits(m.env, d0, destDir) && Faultless(ch, data)
    requires Unescaped(Meaning(m.env, RemotePath(destDir)))
    ensures Install(m, digests, d0, ch, destDir, arch, data).0.Ok?
  {
    hide Exec, Resolve, Meaning, RemotePath, ReadLine, FirstField, IsHex, Uploaded, Install, Md5Rows, ShellSafe;
    var p := RemotePath(destDir);
    SafeIsNulFree(destDir);
    InstallIs(m, digests, d0, ch, destDir, arch, data);
    UploadedOn(m.env, d0, ch, destDir, data);
    var d := Uploaded(m.env, d0, ch, destDir, data).disk;
    Md5SameFile(m.env, destDir);
    ExecMd5sum(m, digests, d, p, []);
    Md5Answer(m, digests, d, [Meaning(m.env, p)], [], digests.md5(data));
  }

  // ---------- The assumptions about digests can be met

  function HexDigit(n: nat): char
    requires n < 16
  {
    if n < 10 then '0' + n as char else 'a' + (n - 10) as char
  }

  /** All the bytes in hexadecimal, and a final digit. */
  function HexOf(s: seq<byte>): string {
    if s == [] then "0" else [HexDigit(s[0] / 16), HexDigit(s[0] % 16)] + HexOf(s[1..])
  }

  lemma {:induction false} HexOfIsHex(s: seq<byte>)
    ensures IsHex(HexOf(s)) && |HexOf(s)| == 2 * |s| + 1
  {
    if s != [] {
      HexOfIsHex(s[1..]);
    }
  }

  lemma SameByte(x: byte, y: byte)
    requires HexDigit(x / 16) == HexDigit(y / 16) && HexDigit(x % 16) == HexDigit(y % 16)
    ensures x == y
  {
  }

  lemma {:induction false} HexOfInjective(s: seq<byte>, t: seq<byte>)
    requires HexOf(s) == HexOf(t)
    ensures s == t
  {
    hide HexDigit, IsHex;
    HexOfIsHex(s);
    HexOfIsHex(t);
    if s != [] {
      var u := HexOf(s);
      assert u[0] == HexDigit(s[0] / 16) == HexDigit(t[0] / 16);
      assert u[1] == HexDigit(s[0] % 16) == HexDigit(t[0] % 16);
      assert u[2..] == HexOf(s[1..]) && u[2..] == HexOf(t[1..]);
      SameByte(s[0], t[0]);
      HexOfInjective(s[1..], t[1..]);
      assert s == [s[0]] + s[1..] && t == [t[0]] + t[1..];
    }
  }

  /** Hexadecimal digests that separate every byte string exist. */
  lemma HexDigestsExist()
    ensures var digests := Digests(HexOf, HexOf);
            HexDigests(digests) && forall y :: Separates(digests.md5, y) && Separates(digests.sha256, y)
  {
    forall x ensures IsHex(HexOf(x)) {
      HexOfIsHex(x);
    }
    forall x, y | HexOf(x) == HexOf(y) ensures x == y {
      HexOfInjective(x, y);
    }
  }
}

/** Installing a canonical image on a remote host, command by command. */
module Teleport {
  import opened Outcome
  import opened Bytes
  import opened Hashes
  import opened Shell
  import opened Paths
  import opened RemoteHost
  import opened SelfImage
  import opened Compression
  import opened Layout
  import ArchDetect

  // ---------- The connection

  /** A command may be lost before it runs, or run with its success lost. */
  datatype Fault = Clean | LostBefore | LostAfter

  function Through(fault: Fault, before: Disk, ran: Ran): Ran {
    match fault
    case Clean => ran
    case LostBefore => Ran(None, before)
    case LostAfter => Ran(None, ran.disk)
  }

  /** How one deployment's connection behaves. `received` is what the remote `cat`
      gets for the bytes sent: cut short, altered, anything. */
  datatype Channel = Channel(uname: Fault, mkdir: Fault, put: Fault, chmod: Fault, md5sum: Fault,
                             received: seq<byte> -> seq<byte>)

  // ---------- Deploy

  datatype DeployError =
    | DetectFailed | UnknownArch | RebuildFailed(error: Error) | MkdirFailed | UploadFailed
    | ChmodFailed | Md5Failed | Md5Mismatch

  datatype Receipt = Receipt(arch: string, md5: string, remotePath: string, size: nat)

  function IndexBlank(s: string): (n: nat)
    ensures n <= |s|
  {
    if s == [] || IsBlank(s[0]) then 0 else 1 + IndexBlank(s[1..])
  }

  function FirstField(s: string): string {
    var t := ArchDetect.TrimSpace(s);
    t[..IndexBlank(t)]
  }

  lemma UnameIsAscii(m: string)
    ensures ArchDetect.FromUname(m).Some? ==> IsAscii(ArchDetect.FromUname(m).value)
  {
    hide ArchDetect.FromUname, ArchDetect.FixedArchOrder;
    if ArchDetect.FromUname(m).Some? {
      ArchDetect.FromUnameIdempotent(m);
    }
  }

  /** From the md5sum check on. */
  function CheckUpload(m: Machine, digests: Digests, d: Disk, ch: Channel, remotePath: string,
                       arch: string, data: seq<byte>): (Result<Receipt, DeployError>, Disk)
  {
    var ran := Through(ch.md5sum, d, Exec(m, digests, d, "md5sum " + remotePath, []));
    match ran.stdout
    case None => (Err(Md5Failed), ran.disk)
    case Some(out) =>
      if FirstField(out) != digests.md5(data) then (Err(Md5Mismatch), ran.disk)
      else (Ok(Receipt(arch, digests.md5(data), remotePath, |data|)), ran.disk)
  }

  /** The four commands that install `data`. */
  function Install(m: Machine, digests: Digests, d0: Disk, ch: Channel, destDir: string,
                   arch: string, data: seq<byte>): (Result<Receipt, DeployError>, Disk)
  {
    var remotePath := RemotePath(destDir);
    var made := Through(ch.mkdir, d0, Exec(m, digests, d0, "mkdir -p " + ShellQuoteAllowTilde(destDir), []));
    if made.stdout.None? then (Err(MkdirFailed), made.disk)
    else
      var put := Through(ch.put, made.disk, Exec(m, digests, made.disk,
                         "cat > " + ShellQuoteAllowTilde(remotePath), ch.received(data)));
      if put.stdout.None? then (Err(UploadFailed), put.disk)
      else
        var marked := Through(ch.chmod, put.disk, Exec(m, digests, put.disk,
                              "chmod +x " + ShellQuoteAllowTilde(remotePath), []));
        if marked.stdout.None? then (Err(ChmodFailed), marked.disk)
        else CheckUpload(m, digests, marked.disk, ch, remotePath, arch, data)
  }

  /** Deploy as a function: its result, and the remote disk it leaves behind. */
  function Deployed(w: Width, xz: Xz, digests: Digests, image: seq<byte>, m: Machine, d: Disk, ch: Channel,
                    destDir: string): (Result<Receipt, DeployError>, Disk)
  {
    var asked := Through(ch.uname, d, Exec(m, digests, d, "uname -m", []));
    match asked.stdout
    case None => (Err(DetectFailed), asked.disk)
    case Some(uname) =>
      match ArchDetect.FromUname(uname)
      case None => (Err(UnknownArch), asked.disk)
      case Some(arch) =>
        UnameIsAscii(uname);
        match Reconstruct(w, xz, image, Ascii(arch))
        case Err(e) => (Err(RebuildFailed(e)), asked.disk)
        case Ok(data) => Install(m, digests, asked.disk, ch, destDir, arch, data)
  }

  /** A remote host behind a connection: the transport Deploy is given. */
  class Remote {
    const machine: Machine
    var disk: Disk

    constructor (machine: Machine, disk: Disk)
      ensures this.machine == machine && this.disk == disk
    {
      this.machine, this.disk := machine, disk;
    }

    /** Run a command line with the given standard input. */
    method Ssh(digests: Digests, fault: Fault, line: string, stdin: seq<byte>) returns (stdout: Option<string>)
      modifies this`disk
      ensures Ran(stdout, disk) == Through(fault, old(disk), Exec(machine, digests, old(disk), line, stdin))
    {
      if fault == LostBefore {
        return None;
      }
      var ran := Exec(machine, digests, disk, line, stdin);
      disk := ran.disk;
      stdout := if fault == LostAfter then None else ran.stdout;
    }

    /** The upload: the file that the quoted path means gets whatever bytes arrive. */
    method Put(digests: Digests, ch: Channel, data: seq<byte>, remotePath: string) returns (ok: bool)
      modifies this`disk
      ensures var cat := if '\0' in remotePath then Ran(None, old(disk))
                         else Cat(machine.env, old(disk), Meaning(machine.env, remotePath), ch.received(data));
              var put := Through(ch.put, old(disk), cat);
              ok == put.stdout.Some? && disk == put.disk
    {
      hide Exec, Cat, Meaning;
      ExecCat(machine, digests, disk, remotePath, ch.received(data));
      var out := Ssh(digests, ch.put, "cat > " + ShellQuoteAllowTilde(remotePath), ch.received(data));
      ok := out.Some?;
    }
  }

  /** Deploy as the source writes it, one command after another. */
  method Deploy(w: Width, xz: Xz, digests: Digests, image: seq<byte>, t: Remote, ch: Channel, destDir: string)
    returns (r: Result<Receipt, DeployError>)
    modifies t`disk
    ensures (r, t.disk) == Deployed(w, xz, digests, image, t.machine, old(t.disk), ch, destDir)
  {
    hide Exec, Through, ShellQuoteAllowTilde, RemotePath, Reconstruct, FirstField, Cat, Meaning,
         ArchDetect.FromUname;
    var uname := t.Ssh(digests, ch.uname, "uname -m", []);
    if uname.None? {
      return Err(DetectFailed);
    }
    var known := ArchDetect.FromUname(uname.value);
    if known.None? {
      return Err(UnknownArch);
    }
    var arch := known.value;
    UnameIsAscii(uname.value);
    var rebuilt := Reconstruct(w, xz, image, Ascii(arch));
    if rebuilt.Err? {
      return Err(RebuildFailed(rebuilt.error));
    }
    var data := rebuilt.value;
    var localMd5 := digests.md5(data);
    var remotePath := RemotePath(destDir);

    var out := t.Ssh(digests, ch.mkdir, "mkdir -p " + ShellQuoteAllowTilde(destDir), []);
    if out.None? {
      return Err(MkdirFailed);
    }
    ExecCat(t.machine, digests, t.disk, remotePath, ch.received(data));
    var ok := t.Put(digests, ch, data, remotePath);
    if !ok {
      return Err(UploadFailed);
    }
    out := t.Ssh(digests, ch.chmod, "chmod +x " + ShellQuoteAllowTilde(remotePath), []);
    if out.None? {
      return Err(ChmodFailed);
    }
    out := t.Ssh(digests, ch.md5sum, "md5sum " + remotePath, []);
    if out.None? {
      return Err(Md5Failed);
    }
    if FirstField(out.value) != localMd5 {
      return Err(Md5Mismatch);
    }
    return Ok(Receipt(arch, localMd5, remotePath, |data|));
  }
}

/** Destinations for which Deploy goes wrong: how, and where the model stops. */
module UnsafeDestinations {
  import opened Outcome
  import opened Bytes
  import opened Hashes
  import opened Shell
  import opened Paths
  import opened RemoteHost
  import opened Teleport
  import opened TeleportLaws
  import opened TeleportLimits
  import ArchDetect

  // ---------- The family of destinations in another user's home

  /** A machine whose own home is /r and everyone else's /h. */
  function TwoHomes(): Machine {
    Machine(W64, "x86_64", Env("/r", user => Some("/h")), text => [], (d, line, stdin) => Ran(None, d))
  }

  /** A destination `~user` or `~user/...` of ordinary characters. */
  ghost predicate NamedTilde(destDir: string, user: string, rest: string) {
    && destDir == "~" + user + rest && AllOrdinary(destDir)
    && user != [] && '/' !in user
    && (rest == [] || rest[0] == '/')
  }

  lemma {:induction false} PrefixLenOfBare(s: string)
    ensures PrefixLen(Bare(s)) == NameLen(s)
  {
    if s != [] && s[0] != '/' {
      MarkCons(s, false);
      assert Bare(s)[1..] == Bare(s[1..]);
      PrefixLenOfBare(s[1..]);
    }
  }

  lemma ExpandNamedTilde(env: Env, user: string, tail: string)
    requires user != [] && '/' !in user && tail != [] && tail[0] == '/' && env.homes(user).Some?
    ensures Expand(env, Bare("~" + user + tail)) == env.homes(user).value + tail
  {
    hide NameLen, PrefixLen;
    var p := "~" + user + tail;
    var w := Bare(p);
    var n := 1 + |user|;
    PrefixLenOfBare(p);
    NameLenIs(p, n);
    assert Text(w[1..n]) == user;
    assert Text(w[n..]) == tail;
  }

  /** The remote path of such a destination, and what md5sum makes of it. */
  lemma NamedTildePath(destDir: string, user: string, rest: string) returns (tail: string)
    requires NamedTilde(destDir, user, rest)
    ensures IsAbsolute(tail) && RemotePath(destDir) == "~" + user + tail && AllOrdinary(tail)
    ensures Md5Args(TwoHomes().env, RemotePath(destDir)) == Some(Line(["/h" + tail], []))
  {
    hide Lex, Expand, RemotePath, ReadLine;
    RemotePathOfSuffix("~" + user, rest);
    FileIsAbsolute(rest);
    tail := RemotePath(rest);
    var p := RemotePath(destDir);
    assert p == "~" + user + tail;
    RemotePathOrdinary(destDir);
    assert AllOrdinary(tail) by {
      assert forall i :: 0 <= i < |tail| ==> tail[i] == p[1 + |user| + i];
    }
    BareRoundTrip(p);
    OneWord(TwoHomes().env, p, Bare(p));
    ExpandNamedTilde(TwoHomes().env, user, tail);
  }

  lemma NamedTildeIsLiteral(destDir: string, user: string, rest: string)
    requires NamedTilde(destDir, user, rest)
    ensures var env := TwoHomes().env;
            && !ShellSafe(destDir) && destDir != [] && '\0' !in destDir
            && Meaning(env, destDir) == destDir && Meaning(env, RemotePath(destDir)) == RemotePath(destDir)
            && Resolve(env, destDir) == ["r"] + Names(destDir)
            && Resolve(env, RemotePath(destDir)) == ["r"] + Names(RemotePath(destDir))
            && !IsOption(destDir) && !IsOption(RemotePath(destDir))
  {
    hide Names;
    assert destDir[1] == user[0] && user[0] in user;
    assert !IsOrdinary('\0');
    var tail := NamedTildePath(destDir, user, rest);
    assert RemotePath(destDir)[1] == user[0];
    SingleName("r");
    NamesSkipSlash("/r");
    assert "/r"[1..] == "r";
  }

  lemma NamedTildeOperand(tail: string)
    requires IsAbsolute(tail)
    ensures Resolve(TwoHomes().env, "/h" + tail) == ["h"] + Names(tail)
  {
    hide Names;
    assert "/h" + tail == "/h" + "/" + tail[1..];
    NamesJoin("/h", tail[1..]);
    NamesSkipSlash(tail);
    SingleName("h");
    NamesSkipSlash("/h");
    assert "/h"[1..] == "h";
  }

  /** For every such destination success can be wrong: mkdir, the upload and chmod quote
      the tilde and use a directory of that name, but md5sum lets the shell expand it and
      digests a copy in that user's home. Any bytes arrive, and success is reported. */
  lemma UnsafeDestinationMisleads(digests: Digests, destDir: string, user: string, rest: string,
                                  arch: string, data: seq<byte>, bad: seq<byte>)
    requires HexDigests(digests) && NamedTilde(destDir, user, rest)
    ensures !ShellSafe(destDir)
    ensures exists d0 :: Tree(d0) && MisledOn(digests, d0, destDir, arch, data, bad)
  {
    hide Names, Resolve, Meaning, RemotePath, ReadLine, AllOrdinary, Install, Tree, DecoyDisk, ResolveAll;
    var m := TwoHomes();
    var tail := NamedTildePath(destDir, user, rest);
    NamedTildeIsLiteral(destDir, user, rest);
    NamedTildeOperand(tail);
    OrdinaryNeedsNoEscape(tail);
    var operands := ["/h" + tail];
    assert Resolve(m.env, operands[0])[0] == "h";
    assert Resolve(m.env, destDir)[0] == "r" && Target(m.env, destDir)[0] == "r";
    assert CanHoldFile(m.env, destDir, operands, operands[0]);
    SuccessCanMislead(m, digests, destDir, operands, arch, data, bad);
    assert MisledOn(digests, DecoyDisk(ResolveAll(m.env, operands), data), destDir, arch, data, bad);
  }

  /** On this disk, with every upload replaced by `bad`, the install reports success and leaves `bad`. */
  ghost predicate MisledOn(digests: Digests, d0: Disk, destDir: string, arch: string, data: seq<byte>, bad: seq<byte>) {
    var m := TwoHomes();
    var (r, after) := Install(m, digests, d0, ReplacingChannel(bad), destDir, arch, data);
    r.Ok? && Target(m.env, destDir) in after.files && after.files[Target(m.env, destDir)] == bad
  }

  lemma OrdinaryNeedsNoEscape(tail: string)
    requires AllOrdinary(tail)
    ensures Unescaped("/h" + tail)
  {
    assert !IsOrdinary('\\') && !IsOrdinary('\n');
  }

  // ---------- The family of destinations that redirect

  /** A destination `>path`, with a relative or home-less path of ordinary characters. */
  ghost predicate Redirecting(destDir: string, path: string) {
    destDir == ">" + path && path != [] && AllOrdinary(path) && path[0] != '#' && path[0] != '~' && path[0] != '/'
  }

  /** The md5sum line of such a destination names no operand, and sends its output to the
      program's place inside `path`. */
  lemma RedirectingLine(env: Env, destDir: string, path: string)
    requires Redirecting(destDir, path)
    ensures Md5Args(env, RemotePath(destDir)) == Some(Line([], [RemotePath(path)]))
  {
    hide Lex, Expand, RemotePath, AllOrdinary, ReadLine;
    RemotePathOfSuffix(">", path);
    RemotePathOrdinary(path);
    RemotePathTilde(path);
    BareRoundTrip(RemotePath(path));
    RemotePathFirst(path);
    OrdinaryFirst(path);
    LexRedirectTo(RemotePath(path));
    ReadRedirect(env, RemotePath(destDir), RemotePath(path), Bare(RemotePath(path)));
    ExpandBareTilde(env, RemotePath(path));
  }

  lemma OrdinaryFirst(path: string)
    requires path != [] && AllOrdinary(path)
    ensures path[0] != '>' && path[0] != '\\'
  {
    assert IsOrdinary(path[0]);
  }

  lemma RemotePathFirst(path: string)
    requires path != [] && path[0] != '~' && path[0] != '/'
    ensures RemotePath(path) != [] && RemotePath(path)[0] == path[0]
    ensures forall env: Env :: Meaning(env, RemotePath(path)) == RemotePath(path)
  {
    var t := TrimSlashes(path);
    if t == [] {
      AllSlashes(path);
    }
    assert t[0] == path[0];
  }

  lemma LexRedirectTo(rest: string)
    requires rest != [] && rest[0] != '>' && rest[0] != '\\'
    ensures Lex(">" + rest) == Cons(Redirect, Lex(rest))
  {
    var s := ">" + rest;
    assert s[1..] == rest;
  }

  lemma NamesOfRedirect(path: string)
    requires path != [] && path[0] != '/'
    ensures Names(">" + path) != [] && Names(path) != [] && |Names(">" + path)| == |Names(path)|
    ensures Names(">" + path)[0] != Names(path)[0]
  {
    var s, n := ">" + path, NameLen(path);
    NameLenIs(s, n + 1);
    assert s[n + 1..] == path[n..];
    assert |s[..n + 1]| == |path[..n]| + 1;
  }

  /** Such a destination lets another file be overwritten - what an earlier deployment
      installed, for one. */
  lemma RedirectOverwrites(m: Machine, digests: Digests, destDir: string, path: string)
    requires m.env.home != [] && Redirecting(destDir, path)
    ensures !OnlyTargetChanges(m, digests, destDir)
  {
    hide Names, Resolve, Meaning, RemotePath, Md5Args, OnlyTargetChanges, Redirecting;
    RedirectingLine(m.env, destDir, path);
    RedirectingPaths(m.env, destDir, path);
    OnlyTargetExactly(m, digests, destDir);
  }

  lemma RedirectingPaths(env: Env, destDir: string, path: string)
    requires Redirecting(destDir, path) && env.home != []
    ensures !Harmless(env, destDir, [RemotePath(path)])
    ensures !IsOption(Meaning(env, destDir)) && !IsOption(Meaning(env, RemotePath(destDir)))
  {
    hide Names, RemotePath, AllOrdinary;
    NamesOfRedirect(path);
    RemotePathFirst(path);
    RemotePathFirst(destDir);
    NamesOfFile(path);
    NamesOfFile(destDir);
    var home := Names(env.home);
    var out, dir := Resolve(env, RemotePath(path)), Resolve(env, Meaning(env, destDir));
    assert dir == home + Names(destDir);
    assert Target(env, destDir) == home + Names(RemotePath(destDir));
    assert out == home + Names(RemotePath(path));
    assert out[|home|] == Names(path)[0] && Target(env, destDir)[|home|] == Names(destDir)[0];
    assert |out| == |Target(env, destDir)| == |dir| + 1;
  }

  // ---------- Lines that the model does not read

  /** Where the md5sum line is not one of this model - it may run further commands, or
      expand to whatever files there are - nothing at all is promised: a host whose shell
      ends that line with any disk and the expected digest makes Deploy report success. */
  lemma UnreadLinePromisesNothing(m: Machine, digests: Digests, destDir: string, arch: string, data: seq<byte>,
                                  bad: seq<byte>, after: Disk)
    requires HexDigests(digests) && m.env.home != [] && '\0' !in destDir
    requires Md5Args(m.env, RemotePath(destDir)).None?
    requires !IsOption(Meaning(m.env, destDir)) && !IsOption(Meaning(m.env, RemotePath(destDir)))
    ensures var host := m.(other := (d, line, stdin) => Ran(Some(digests.md5(data)), after));
            Install(host, digests, DecoyDisk([], data), ReplacingChannel(bad), destDir, arch, data)
            == (Ok(Receipt(arch, digests.md5(data), RemotePath(destDir), |data|)), after)
  {
    hide Exec, Resolve, Meaning, RemotePath, ReadLine, FirstField, IsHex, Install, Uploaded, IsOption, Target;
    var host := m.(other := (d, line, stdin) => Ran(Some(digests.md5(data)), after));
    var d0, ch := DecoyDisk([], data), ReplacingChannel(bad);
    RemotePathNul(destDir);
    TargetNotEmpty(m.env, destDir);
    assert Above([]) == {[]};
    ClearAdmits(m.env, d0, destDir);
    InstallIs(host, digests, d0, ch, destDir, arch, data);
    UploadedOn(m.env, d0, ch, destDir, data);
    ExecMd5sum(host, digests, Uploaded(m.env, d0, ch, destDir, data).disk, RemotePath(destDir), []);
    DigestIsField(digests.md5(data));
  }

  lemma DigestIsField(u: string)
    requires IsHex(u)
    ensures FirstField(u) == u
  {
    hide ArchDetect.IsSpace;
    HexHasNoSpace(u);
    BlankIsSpace();
    IndexBlankAt(u, |u|);
    NoSpaceNoTrim(u);
  }

  lemma NoSpaceNoTrim(u: string)
    requires u != [] && forall i :: 0 <= i < |u| ==> !ArchDetect.IsSpace(u[i])
    ensures ArchDetect.TrimSpace(u) == u
  {
  }

  /** Three such destinations: a pattern, and two that run a command of their own. */
  lemma UnreadLines(env: Env)
    ensures Md5Args(env, RemotePath("*")).None?
    ensures Md5Args(env, RemotePath("; rm x")).None?
    ensures Md5Args(env, RemotePath("a; md5sum b")).None?
  {
    hide Lex, RemotePath;
    RemotePathOfSuffix("*", "");
    RemotePathOfSuffix("; rm x", "");
    RemotePathOfSuffix("a; md5sum b", "");
    var r := RemotePath("");
    assert "*" + "" == "*" && "; rm x" + "" == "; rm x" && "a; md5sum b" + "" == "a; md5sum b";
    UnreadAt("*", r);
    UnreadAt("; rm x", r);
    UnreadAt("; md5sum b", r);
    assert "a; md5sum b" + r == "a" + ("; md5sum b" + r);
  }

  lemma UnreadAt(s: string, r: string)
    requires s != [] && (s[0] == '*' || s[0] == ';')
    ensures Lex(s + r) == None && Lex("a" + (s + r)) == None
  {
    var t := s + r;
    var u := "a" + t;
    assert forall cur, q :: Scan(t, InWord(cur, q)) == None;
    assert Scan(t, Between) == Scan(t, InWord([], false));
    assert u[1..] == t;
    assert Scan(u, Between) == Scan(u, InWord([], false));
  }
}

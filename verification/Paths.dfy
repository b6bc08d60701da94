/** Where the paths of a deployment lead, and that its commands agree on it. */
module Paths {
  import opened Outcome
  import opened Shell

  const PROGRAM := "go-teleport-self"

  /** strings.TrimRight(d, "/") */
  function TrimSlashes(d: string): (r: string)
    ensures r <= d
    ensures r == [] || r[|r| - 1] != '/'
  {
    if d != [] && d[|d| - 1] == '/' then TrimSlashes(d[..|d| - 1]) else d
  }

  function RemotePath(destDir: string): string { TrimSlashes(destDir) + "/" + PROGRAM }

  lemma {:induction false} TrimSlashesOf(d: string, slashes: string)
    requires d == [] || d[|d| - 1] != '/'
    requires forall i :: 0 <= i < |slashes| ==> slashes[i] == '/'
    ensures TrimSlashes(d + slashes) == d
  {
    if slashes == [] {
      assert d + slashes == d;
    } else {
      var last := |slashes| - 1;
      assert (d + slashes)[..|d + slashes| - 1] == d + slashes[..last];
      TrimSlashesOf(d, slashes[..last]);
    }
  }

  /** The remote path: however many slashes a destination ends in, one slash and the
      program's name follow it. */
  lemma RemotePathExactly(d: string, slashes: string)
    requires d == [] || d[|d| - 1] != '/'
    requires forall i :: 0 <= i < |slashes| ==> slashes[i] == '/'
    ensures RemotePath(d + slashes) == d + "/go-teleport-self"
  {
    hide TrimSlashes;
    TrimSlashesOf(d, slashes);
    SlashProgram();
    JoinAssoc(d, "/", PROGRAM);
  }

  lemma SlashProgram()
    ensures "/" + PROGRAM == "/go-teleport-self"
  {
  }

  lemma JoinAssoc(a: string, b: string, c: string)
    ensures a + b + c == a + (b + c)
  {
  }

  // ---------- Components

  function NameLen(s: string): (n: nat)
    ensures n <= |s|
    ensures n < |s| ==> s[n] == '/'
    ensures forall i :: 0 <= i < n ==> s[i] != '/'
  {
    if s == [] || s[0] == '/' then 0 else 1 + NameLen(s[1..])
  }

  /** The names of a path; repeated slashes count once. */
  function Names(s: string): seq<string>
    decreases |s|
  {
    if s == [] then []
    else if s[0] == '/' then Names(s[1..])
    else [s[..NameLen(s)]] + Names(s[NameLen(s)..])
  }

  predicate IsAbsolute(s: string) { s != [] && s[0] == '/' }

  /** The names from the root that a path means in a login shell, which starts in the home directory. */
  function Resolve(env: Env, s: string): seq<string> {
    (if IsAbsolute(s) then [] else Names(env.home)) + Names(s)
  }

  lemma NameLenIs(s: string, n: nat)
    requires n <= |s| && (n < |s| ==> s[n] == '/')
    requires forall i :: 0 <= i < n ==> s[i] != '/'
    ensures NameLen(s) == n
  {
  }

  /** Joining two paths with a slash joins their names. */
  lemma {:induction false} NamesJoin(a: string, b: string)
    ensures Names(a + "/" + b) == Names(a) + Names(b)
    decreases |a|
  {
    var s := a + "/" + b;
    if a == [] {
      assert s[1..] == b;
    } else if a[0] == '/' {
      assert s[1..] == a[1..] + "/" + b;
      NamesJoin(a[1..], b);
    } else {
      var n := NameLen(a);
      NameLenIs(s, n);
      assert s[..n] == a[..n];
      assert s[n..] == a[n..] + "/" + b;
      NamesJoin(a[n..], b);
      assert [a[..n]] + Names(a[n..]) + Names(b) == [a[..n]] + (Names(a[n..]) + Names(b));
    }
  }

  lemma {:induction false} TrimSlashesKeepsNames(d: string)
    ensures Names(TrimSlashes(d)) == Names(d)
  {
    if d != [] && d[|d| - 1] == '/' {
      var init := d[..|d| - 1];
      TrimSlashesKeepsNames(init);
      NamesJoin(init, []);
      assert init + "/" + [] == d;
    }
  }

  lemma SingleName(s: string)
    requires s != [] && forall i :: 0 <= i < |s| ==> s[i] != '/'
    ensures Names(s) == [s]
  {
    NameLenIs(s, |s|);
    assert s[..|s|] == s && Names(s[|s|..]) == [];
  }

  lemma NamesSkipSlash(s: string)
    requires IsAbsolute(s)
    ensures Names(s[1..]) == Names(s)
  {
  }

  lemma NamesOfFile(d: string)
    ensures Names(RemotePath(d)) == Names(d) + [PROGRAM]
  {
    hide Names, NameLen;
    NamesJoin(TrimSlashes(d), PROGRAM);
    TrimSlashesKeepsNames(d);
    SingleName(PROGRAM);
  }

  // ---------- The three words of a deployment

  lemma {:induction false} TrimSlashesOfSuffix(p: string, d: string)
    requires p != [] && p[|p| - 1] != '/'
    ensures TrimSlashes(p + d) == p + TrimSlashes(d)
  {
    if d == [] {
      assert p + d == p && p + TrimSlashes(d) == p;
    } else if d[|d| - 1] == '/' {
      assert (p + d)[..|p + d| - 1] == p + d[..|d| - 1];
      TrimSlashesOfSuffix(p, d[..|d| - 1]);
    }
  }

  /** A file inside a path that is empty or absolute is absolute. */
  lemma FileIsAbsolute(tail: string)
    requires tail == [] || tail[0] == '/'
    ensures IsAbsolute(RemotePath(tail))
  {
    var t := TrimSlashes(tail);
    assert t != [] ==> t[0] == tail[0];
    assert RemotePath(tail)[0] == (t + "/")[0];
  }

  lemma RemotePathOfSuffix(p: string, d: string)
    requires p != [] && p[|p| - 1] != '/'
    ensures RemotePath(p + d) == p + RemotePath(d)
  {
    hide TrimSlashes;
    TrimSlashesOfSuffix(p, d);
  }

  lemma TildeSlash(file: string)
    requires IsAbsolute(file)
    ensures "~" + file == "~/" + file[1..]
  {
  }

  /** What the remote path is, for a directory under the home directory. */
  lemma RemotePathUnderHome(d: string) returns (rest: string)
    requires "~/" <= d || d == "~"
    ensures RemotePath(d) == "~/" + rest && Names(rest) == Names(d[1..]) + [PROGRAM]
  {
    hide Names, TrimSlashes, RemotePath;
    var tail := d[1..];
    assert d == "~" + tail;
    RemotePathOfSuffix("~", tail);
    NamesOfFile(tail);
    FileIsAbsolute(tail);
    NamesSkipSlash(RemotePath(tail));
    rest := RemotePath(tail)[1..];
    TildeSlash(RemotePath(tail));
  }

  lemma MeaningUnderHome(env: Env, d: string) returns (rest: string)
    requires "~/" <= d || d == "~"
    ensures Meaning(env, RemotePath(d)) == env.home + "/" + rest && Names(rest) == Names(d[1..]) + [PROGRAM]
  {
    hide Names, RemotePath;
    rest := RemotePathUnderHome(d);
    assert RemotePath(d)[2..] == rest;
  }

  lemma MeaningElsewhere(env: Env, d: string)
    requires !("~/" <= d) && d != "~" && d != []
    ensures Meaning(env, RemotePath(d)) == RemotePath(d)
    ensures IsAbsolute(RemotePath(d)) <==> IsAbsolute(d)
  {
    var t := TrimSlashes(d);
    if t == [] {
      AllSlashes(d);
      assert RemotePath(d)[0] == '/';
    } else {
      var p := RemotePath(d);
      assert forall k :: 0 <= k < |t| ==> p[k] == t[k] == d[k];
      if t == "~" {
        TildeThenSlashes(d);
        assert false;
      } else if t[0] == '~' {
        assert d[0] == '~' && |d| >= 2 && p[1] == d[1];
      }
    }
  }

  lemma {:induction false} AllSlashes(d: string)
    requires d != [] && TrimSlashes(d) == []
    ensures d[0] == '/'
  {
    if |d| > 1 {
      AllSlashes(d[..|d| - 1]);
    }
  }

  lemma {:induction false} TildeThenSlashes(d: string)
    requires TrimSlashes(d) == "~"
    ensures d == "~" || "~/" <= d
  {
    if |d| > 1 {
      TildeThenSlashes(d[..|d| - 1]);
    }
  }

  lemma AgreementUnderHome(env: Env, d: string)
    requires ("~/" <= d || d == "~") && env.home != []
    ensures Names(Meaning(env, RemotePath(d))) == Names(Meaning(env, d)) + [PROGRAM]
    ensures IsAbsolute(Meaning(env, RemotePath(d))) <==> IsAbsolute(Meaning(env, d))
  {
    hide RemotePath;
    var rest := MeaningUnderHome(env, d);
    NamesJoin(env.home, rest);
    if "~/" <= d {
      NamesJoin(env.home, d[2..]);
      NamesSkipSlash(d[1..]);
      assert d[1..][1..] == d[2..];
    }
    assert Names(env.home) + Names(d[1..]) == Names(Meaning(env, d));
    assert Names(env.home) + (Names(d[1..]) + [PROGRAM]) == Names(env.home) + Names(d[1..]) + [PROGRAM];
  }

  /** Path agreement: for every non-empty destination, the argument of mkdir is a
      directory, and the argument of chmod and of the upload's `cat >` is the file
      `go-teleport-self` directly inside it - through trailing slashes and tildes. */
  lemma PathAgreement(env: Env, destDir: string)
    requires destDir != [] && env.home != []
    ensures var dir := Meaning(env, destDir);
            var file := Meaning(env, RemotePath(destDir));
            && Names(file) == Names(dir) + ["go-teleport-self"]
            && (IsAbsolute(file) <==> IsAbsolute(dir))
            && Resolve(env, file) == Resolve(env, dir) + ["go-teleport-self"]
  {
    hide Names;
    if "~/" <= destDir || destDir == "~" {
      AgreementUnderHome(env, destDir);
    } else {
      MeaningElsewhere(env, destDir);
      NamesOfFile(destDir);
    }
  }

  // ---------- The unquoted argument of md5sum

  /** A destination whose characters all stand for themselves in the shell, and
      whose tilde, if any, is the home directory's. */
  ghost predicate ShellSafe(destDir: string) {
    && destDir != [] && AllOrdinary(destDir) && destDir[0] != '#'
    && (destDir[0] == '~' ==> destDir == "~" || destDir[1] == '/')
  }

  lemma RemotePathOrdinary(destDir: string)
    requires destDir != []
    ensures AllOrdinary(RemotePath(destDir)) <==> AllOrdinary(destDir)
    ensures RemotePath(destDir)[0] == '#' <==> destDir[0] == '#'
  {
    hide TrimSlashes, AllOrdinary;
    var t, file := TrimSlashes(destDir), "/" + PROGRAM;
    var slashes := destDir[|t|..];
    TailIsSlashes(destDir);
    PlainIsOrdinary(file);
    PlainIsOrdinary(slashes);
    OrdinaryConcat(t, file);
    OrdinaryConcat(t, slashes);
    assert destDir == t + slashes && RemotePath(destDir) == t + file;
    if t == [] { AllSlashes(destDir); }
  }

  lemma OrdinaryConcat(a: string, b: string)
    ensures AllOrdinary(a + b) <==> AllOrdinary(a) && AllOrdinary(b)
  {
    hide IsOrdinary;
    var s := a + b;
    assert forall i :: 0 <= i < |a| ==> s[i] == a[i];
    assert forall i :: 0 <= i < |b| ==> s[|a| + i] == b[i];
  }

  lemma {:induction false} TailIsSlashes(d: string)
    ensures forall i :: |TrimSlashes(d)| <= i < |d| ==> d[i] == '/'
  {
    if d != [] && d[|d| - 1] == '/' {
      TailIsSlashes(d[..|d| - 1]);
    }
  }

  lemma RemotePathNul(destDir: string)
    ensures '\0' in RemotePath(destDir) <==> '\0' in destDir
  {
    var t, p := TrimSlashes(destDir), RemotePath(destDir);
    TailIsSlashes(destDir);
    assert forall i :: 0 <= i < |PROGRAM| ==> PROGRAM[i] != '\0';
    assert p == t + ("/" + PROGRAM);
    assert destDir == t + destDir[|t|..];
  }

  /** The remote shell reads the arguments of mkdir and of the upload as one path each,
      and the upload's is directly inside the one mkdir makes. */
  ghost predicate Agrees(env: Env, destDir: string) {
    var dirs := Operands(env, ShellQuoteAllowTilde(destDir));
    var files := Operands(env, ShellQuoteAllowTilde(RemotePath(destDir)));
    && dirs.Some? && files.Some? && |dirs.value| == |files.value| == 1
    && Names(files.value[0]) == Names(dirs.value[0]) + [PROGRAM]
    && (IsAbsolute(files.value[0]) <==> IsAbsolute(dirs.value[0]))
  }

  /** The paths agree for exactly the non-empty, NUL-free destinations: with an empty
      one, mkdir gets an empty operand and the upload goes to the root directory. */
  lemma PathAgreementExact(env: Env, destDir: string)
    requires env.home != []
    ensures Agrees(env, destDir) <==> destDir != [] && '\0' !in destDir
  {
    hide Names, Operands, ShellQuoteAllowTilde;
    TildeQuoteRoundTrip(env, destDir);
    TildeQuoteRoundTrip(env, RemotePath(destDir));
    RemotePathNul(destDir);
    if destDir != [] {
      PathAgreement(env, destDir);
    } else {
      var p := RemotePath("");
      assert TrimSlashes("") == "";
      assert p == "/" + PROGRAM;
      assert p[0] == '/';
    }
  }

  /** The argument of md5sum is read as the remote path itself exactly when every
      character of the destination stands for itself. */
  lemma Md5OperandLiteral(destDir: string)
    requires destDir != []
    ensures Lex(RemotePath(destDir)) == Some([Word(Bare(RemotePath(destDir)))]) <==>
              destDir[0] != '#' && AllOrdinary(destDir)
  {
    BareRoundTrip(RemotePath(destDir));
    RemotePathOrdinary(destDir);
  }

  lemma MeaningOfTilde(env: Env, p: string)
    requires p == "~" || "~/" <= p
    ensures Meaning(env, p) == env.home + p[1..]
  {
    assert "~/" <= p ==> p[1..] == "/" + p[2..];
  }

  lemma {:induction false} ExpandBareTilde(env: Env, p: string)
    requires p != [] && (p[0] == '~' ==> p == "~" || p[1] == '/')
    ensures Expand(env, Bare(p)) == Meaning(env, p)
  {
    var w := Bare(p);
    TextOfMark(p, false);
    if p[0] == '~' {
      assert PrefixLen(w[1..]) == 0;
      assert Text(w[1..1]) == "";
      assert Text(w[1..]) == p[1..];
      MeaningOfTilde(env, p);
    }
  }

  lemma RemotePathTilde(destDir: string)
    requires destDir != []
    ensures var p := RemotePath(destDir);
            && |p| > |PROGRAM|
            && (p[0] == '~' <==> destDir[0] == '~')
            && (p[0] == '~' ==> (p[1] == '/' <==> destDir == "~" || destDir[1] == '/'))
  {
    var t, p := TrimSlashes(destDir), RemotePath(destDir);
    assert forall i :: 0 <= i < |t| ==> p[i] == t[i] == destDir[i];
    if t == [] {
      AllSlashes(destDir);
    } else if t == "~" {
      TildeThenSlashes(destDir);
    } else if |t| == 1 {
      assert p[0] == destDir[0];
    }
  }

  /** On a shell-safe destination md5sum looks at the very file that was uploaded. */
  lemma Md5SameFile(env: Env, destDir: string)
    requires ShellSafe(destDir)
    ensures Operands(env, RemotePath(destDir)) == Some([Meaning(env, RemotePath(destDir))])
  {
    hide Lex, Expand, Meaning;
    var p := RemotePath(destDir);
    Md5OperandLiteral(destDir);
    RemotePathTilde(destDir);
    OneWord(env, p, Bare(p));
    ExpandBareTilde(env, p);
  }

  /** Whatever the home directories, the shell reads the unquoted operand of md5sum as
      one word that means the file mkdir, the upload and chmod were told about. */
  ghost predicate Md5Agrees(destDir: string) {
    forall env: Env :: Md5AgreesIn(env, RemotePath(destDir))
  }

  ghost predicate Md5AgreesIn(env: Env, p: string) { Operands(env, p) == Some([Meaning(env, p)]) }

  lemma ExpandLength(w: seq<QChar>, home: string)
    ensures var e := Expand(Env(home, user => None), w);
            e == Text(w) || (w != [] && w[0] == QChar('~', false) && |e| < |home| + |w|)
  {
  }

  /** An operand that loses a character to the shell cannot mean the same file under every home directory. */
  lemma LossDisagrees(p: string, w: seq<QChar>) returns (env: Env)
    requires p != "~" && |w| < |p| && Lex(p) == Some([Word(w)])
    ensures !Md5AgreesIn(env, p)
  {
    hide Lex;
    env := Env("", user => None);
    ExpandLength(w, "");
    OneWord(env, p, w);
    if Expand(env, w) == Meaning(env, p) {
      assert "~/" <= p;
      assert Expand(env, w) == Text(w);
      assert Text(w)[0] == '/';
      env := Env("x", user => None);
      ExpandLength(w, "x");
      OneWord(env, p, w);
      assert Meaning(env, p)[0] == 'x';
    }
  }

  lemma NamedTildeDisagrees(p: string)
    requires |p| >= 2 && p[0] == '~' && p[1] != '/'
    ensures Expand(Env("", user => Some("")), Bare(p)) != Meaning(Env("", user => Some("")), p)
  {
    var w := Bare(p);
    assert w[1] != QChar('/', false);
    assert PrefixLen(w) == 1 + PrefixLen(w[1..]) >= 2;
  }

  /** The destinations for which md5sum checks the right file are exactly the shell-safe ones. */
  lemma Md5AgreesExactlyWhenSafe(destDir: string)
    requires destDir != []
    ensures Md5Agrees(destDir) <==> ShellSafe(destDir)
  {
    hide Expand, Meaning, Lex, RemotePath, AllOrdinary;
    var p := RemotePath(destDir);
    RemotePathTilde(destDir);
    RemotePathOrdinary(destDir);
    if ShellSafe(destDir) {
      forall env: Env ensures Md5AgreesIn(env, p) {
        Md5SameFile(env, destDir);
      }
    }
    if !ShellSafe(destDir) {
      var env := Env("", user => None);
      if Md5AgreesIn(env, p) {
        var w := WordOfOperand(env, p);
        LexLosesOrIsBare(p, w);
        if |w| < |p| {
          env := LossDisagrees(p, w);
        } else {
          NamedTildeDisagrees(p);
          env := Env("", user => Some(""));
          OneWord(env, p, w);
        }
      }
      assert !Md5AgreesIn(env, p);
    }
  }

  /** The program's own destination is safe. */
  lemma DefaultDestinationIsSafe()
    ensures ShellSafe("~/local/bin")
  {
  }
}

/** A remote host: its disk, its login shell, and the five commands a deployment sends it. */
module RemoteHost {
  import opened Outcome
  import opened Bytes
  import opened Hashes
  import opened Shell
  import opened Paths

  // ---------- The remote host

  /** What does not change: the width of its `int`, what `uname -m` prints, its home
      directories, the bytes of a text - and what its shell does with a line that this
      model does not read, which may be anything. */
  datatype Machine = Machine(width: Width, uname: string, env: Env, encode: string -> seq<byte>,
                             other: (Disk, string, seq<byte>) -> Ran)

  /** Paths are lists of names from the root. */
  datatype Disk = Disk(dirs: set<seq<string>>, files: map<seq<string>, seq<byte>>, executable: set<seq<string>>)

  /** The outcome of a command: what it printed, or None when it failed. */
  datatype Ran = Ran(stdout: Option<string>, disk: Disk)

  /** An operand that mkdir and chmod refuse. */
  predicate IsOption(operand: string) { operand == [] || operand[0] == '-' }

  function Mkdir(env: Env, d: Disk, operand: string): Ran {
    var path := Resolve(env, operand);
    if IsOption(operand) || (exists i :: 0 <= i <= |path| && path[..i] in d.files) then Ran(None, d)
    else Ran(Some(""), d.(dirs := d.dirs + set i | 0 <= i <= |path| :: path[..i]))
  }

  /** `cat >` replaces the file, in a directory that exists. */
  function Cat(env: Env, d: Disk, operand: string, stdin: seq<byte>): Ran {
    var path := Resolve(env, operand);
    if operand == [] || path == [] || path in d.dirs || path[..|path| - 1] !in d.dirs then Ran(None, d)
    else Ran(Some(""), d.(files := d.files[path := stdin]))
  }

  function Chmod(env: Env, d: Disk, operand: string): Ran {
    var path := Resolve(env, operand);
    if IsOption(operand) || (path !in d.files && path !in d.dirs) then Ran(None, d)
    else Ran(Some(""), d.(executable := d.executable + {path}))
  }

  /** md5sum prints the name as it is. */
  predicate Unescaped(operand: string) { '\\' !in operand && '\n' !in operand }

  /** A line of md5sum: digest, two characters and name; a name it must escape puts a
      backslash in front. */
  function Md5Row(env: Env, digests: Digests, d: Disk, operand: string): string
    requires Readable(env, d, operand)
  {
    (if Unescaped(operand) then "" else "\\") + digests.md5(d.files[Resolve(env, operand)]) + "  " + operand + "\n"
  }

  predicate Readable(env: Env, d: Disk, operand: string) { operand != [] && Resolve(env, operand) in d.files }

  predicate AllReadable(env: Env, d: Disk, operands: seq<string>) {
    forall i :: 0 <= i < |operands| ==> Readable(env, d, operands[i])
  }

  /** What md5sum prints: a line per operand it can read. */
  function Md5Rows(env: Env, digests: Digests, d: Disk, operands: seq<string>): string {
    if operands == [] then ""
    else (if Readable(env, d, operands[0]) then Md5Row(env, digests, d, operands[0]) else "")
         + Md5Rows(env, digests, d, operands[1..])
  }

  /** Redirections are opened in order, and stop at the first that cannot be. */
  function OpenAll(env: Env, d: Disk, outs: seq<string>): Ran
    decreases |outs|
  {
    if outs == [] then Ran(Some(""), d)
    else
      var first := Cat(env, d, outs[0], []);
      if first.stdout.None? then first else OpenAll(env, first.disk, outs[1..])
  }

  /** md5sum with its output redirected to the last of `outs`; without operands it reads `stdin`. */
  function Md5sum(m: Machine, digests: Digests, d: Disk, operands: seq<string>, outs: seq<string>, stdin: seq<byte>): Ran {
    var after := OpenAll(m.env, d, outs);
    if after.stdout.None? then after
    else
      var text := if operands == [] then digests.md5(stdin) + "  -\n"
                  else Md5Rows(m.env, digests, after.disk, operands);
      var ok := AllReadable(m.env, after.disk, operands);
      if outs == [] then Ran(if ok then Some(text) else None, d)
      else
        var files := after.disk.files[Resolve(m.env, outs[|outs| - 1]) := m.encode(text)];
        Ran(if ok then Some("") else None, after.disk.(files := files))
  }

  predicate NoDash(words: seq<string>) {
    forall i :: 0 <= i < |words| ==> words[i] == [] || words[i][0] != '-'
  }

  /** The commands of this model. */
  function Command(m: Machine, digests: Digests, d: Disk, l: Line, line: string, stdin: seq<byte>): Ran {
    var ws := l.words;
    if ws == ["cat"] && |l.outs| == 1 then Cat(m.env, d, l.outs[0], stdin)
    else if ws != [] && ws[0] == "md5sum" && NoDash(ws[1..]) then Md5sum(m, digests, d, ws[1..], l.outs, stdin)
    else if l.outs != [] then m.other(d, line, stdin)
    else if ws == ["uname", "-m"] then Ran(Some(m.uname + "\n"), d)
    else if |ws| == 3 && ws[0] == "mkdir" && ws[1] == "-p" then Mkdir(m.env, d, ws[2])
    else if |ws| == 3 && ws[0] == "chmod" && ws[1] == "+x" then Chmod(m.env, d, ws[2])
    else m.other(d, line, stdin)
  }

  /** The login shell runs a command line; with a NUL in it the connection cannot even be made. */
  function Exec(m: Machine, digests: Digests, d: Disk, line: string, stdin: seq<byte>): Ran {
    if '\0' in line then Ran(None, d)
    else
      match ReadLine(m.env, line)
      case None => m.other(d, line, stdin)
      case Some(l) => Command(m, digests, d, l, line, stdin)
  }

  // ---------- The remote shell runs the command that was meant

  /** A first word that is ordinary and starts no tilde prefix is read as itself. */
  lemma ReadFirst(env: Env, u: string, rest: string)
    requires u != [] && AllOrdinary(u) && u[0] != '#' && u[0] != '~'
    ensures ReadLine(env, u + " " + rest) ==
              match ReadLine(env, rest) {
                case None => None
                case Some(l) => Some(l.(words := [u] + l.words))
              }
  {
    hide Lex, ReadLine;
    LexBareThen(u, rest);
    ReadMoreWords(env, u + " " + rest, Bare(u), rest);
    TextOfMark(u, false);
  }

  lemma ReadQuoted(env: Env, p: string)
    ensures ReadLine(env, ShellQuoteAllowTilde(p)) == if '\0' in p then None else Some(Line([Meaning(env, p)], []))
  {
    hide Lex, ReadLine, Expand, TildeWord, Meaning, ShellQuoteAllowTilde;
    LexTildeQuoted(p);
    ExpandTildeWord(env, p);
    if '\0' !in p {
      OneWord(env, ShellQuoteAllowTilde(p), TildeWord(p));
    } else {
      ReadNothing(env, ShellQuoteAllowTilde(p));
    }
  }

  lemma ReadNothing(env: Env, line: string)
    requires Lex(line) == None
    ensures ReadLine(env, line) == None
  {
  }

  /** Two words in front of a quoted path. */
  lemma ReadThree(env: Env, u: string, v: string, p: string)
    requires u != [] && AllOrdinary(u) && u[0] != '#' && u[0] != '~'
    requires v != [] && AllOrdinary(v) && v[0] != '#' && v[0] != '~'
    requires '\0' !in p
    ensures ReadLine(env, u + " " + v + " " + ShellQuoteAllowTilde(p)) == Some(Line([u, v, Meaning(env, p)], []))
  {
    hide ReadLine, Meaning, ShellQuoteAllowTilde, AllOrdinary;
    var q := ShellQuoteAllowTilde(p);
    ReadQuoted(env, p);
    ReadFirst(env, v, q);
    ReadFirst(env, u, v + " " + q);
    assert [u] + ([v] + [Meaning(env, p)]) == [u, v, Meaning(env, p)];
    assert u + " " + v + " " + q == u + " " + (v + " " + q);
  }

  lemma Commands(m: Machine, digests: Digests, d: Disk, operand: string, line: string, stdin: seq<byte>)
    ensures Command(m, digests, d, Line(["uname", "-m"], []), line, stdin) == Ran(Some(m.uname + "\n"), d)
    ensures Command(m, digests, d, Line(["mkdir", "-p", operand], []), line, stdin) == Mkdir(m.env, d, operand)
    ensures Command(m, digests, d, Line(["chmod", "+x", operand], []), line, stdin) == Chmod(m.env, d, operand)
    ensures Command(m, digests, d, Line(["cat"], [operand]), line, stdin) == Cat(m.env, d, operand, stdin)
  {
    hide Mkdir, Chmod, Cat, Md5sum, NoDash;
  }

  lemma NulIn(a: string, b: string)
    requires '\0' !in a
    ensures '\0' in a + b <==> '\0' in b
  {
  }

  lemma ExecMkdir(m: Machine, digests: Digests, d: Disk, p: string, stdin: seq<byte>)
    ensures Exec(m, digests, d, "mkdir -p " + ShellQuoteAllowTilde(p), stdin) ==
              if '\0' in p then Ran(None, d) else Mkdir(m.env, d, Meaning(m.env, p))
  {
    hide ReadLine, ShellQuoteAllowTilde, Mkdir, Meaning, Command, AllOrdinary;
    var q := ShellQuoteAllowTilde(p);
    QuotedNul(p);
    NulIn("mkdir -p ", q);
    if '\0' !in p {
      PlainIsOrdinary("mkdir");
      PlainIsOrdinary("-p");
      ReadThree(m.env, "mkdir", "-p", p);
      Commands(m, digests, d, Meaning(m.env, p), "mkdir -p " + q, stdin);
      assert "mkdir" + " " + "-p" + " " + q == "mkdir -p " + q;
    }
  }

  lemma ExecChmod(m: Machine, digests: Digests, d: Disk, p: string, stdin: seq<byte>)
    ensures Exec(m, digests, d, "chmod +x " + ShellQuoteAllowTilde(p), stdin) ==
              if '\0' in p then Ran(None, d) else Chmod(m.env, d, Meaning(m.env, p))
  {
    hide ReadLine, ShellQuoteAllowTilde, Chmod, Meaning, Command, AllOrdinary;
    var q := ShellQuoteAllowTilde(p);
    QuotedNul(p);
    NulIn("chmod +x ", q);
    if '\0' !in p {
      PlainIsOrdinary("chmod");
      PlainIsOrdinary("+x");
      ReadThree(m.env, "chmod", "+x", p);
      Commands(m, digests, d, Meaning(m.env, p), "chmod +x " + q, stdin);
      assert "chmod" + " " + "+x" + " " + q == "chmod +x " + q;
    }
  }

  /** A redirection to a quoted path, read on its own. */
  lemma ReadRedirectTo(env: Env, p: string)
    requires '\0' !in p
    ensures ReadLine(env, "> " + ShellQuoteAllowTilde(p)) == Some(Line([], [Meaning(env, p)]))
  {
    hide Lex, ReadLine, Meaning, ShellQuoteAllowTilde, TildeWord, Expand;
    var q := ShellQuoteAllowTilde(p);
    LexRedirect(q);
    LexTildeQuoted(p);
    ExpandTildeWord(env, p);
    ReadRedirect(env, "> " + q, q, TildeWord(p));
  }

  lemma LexRedirect(rest: string)
    ensures Lex("> " + rest) == Cons(Redirect, Lex(rest))
  {
    var s := "> " + rest;
    assert s[1..][0] == ' ';
    assert Lex(s) == Cons(Redirect, Scan(s[1..], Between));
    assert Scan(s[1..], Between) == Scan(s[1..][1..], Between);
    assert s[1..][1..] == rest;
  }

  lemma ExecCat(m: Machine, digests: Digests, d: Disk, p: string, stdin: seq<byte>)
    ensures Exec(m, digests, d, "cat > " + ShellQuoteAllowTilde(p), stdin) ==
              if '\0' in p then Ran(None, d) else Cat(m.env, d, Meaning(m.env, p), stdin)
  {
    hide ReadLine, ShellQuoteAllowTilde, Cat, Meaning, Command, AllOrdinary;
    var q := ShellQuoteAllowTilde(p);
    QuotedNul(p);
    NulIn("cat > ", q);
    if '\0' !in p {
      ReadRedirectTo(m.env, p);
      PlainIsOrdinary("cat");
      ReadFirst(m.env, "cat", "> " + q);
      Commands(m, digests, d, Meaning(m.env, p), "cat > " + q, stdin);
      assert "cat" + " " + ("> " + q) == "cat > " + q;
      assert ["cat"] + [] == ["cat"];
    }
  }

  /** What md5sum's unquoted argument is read as: operands, and redirections - if it is a
      line of this model. */
  function Md5Args(env: Env, p: string): Option<Line> {
    match ReadLine(env, p)
    case None => None
    case Some(l) => if NoDash(l.words) then Some(l) else None
  }

  lemma ExecMd5sum(m: Machine, digests: Digests, d: Disk, p: string, stdin: seq<byte>)
    requires '\0' !in p
    ensures Exec(m, digests, d, "md5sum " + p, stdin) ==
              match Md5Args(m.env, p) {
                case None => m.other(d, "md5sum " + p, stdin)
                case Some(l) => Md5sum(m, digests, d, l.words, l.outs, stdin)
              }
  {
    hide ReadLine, Md5sum, Cat, AllOrdinary;
    NulIn("md5sum ", p);
    PlainIsOrdinary("md5sum");
    ReadFirst(m.env, "md5sum", p);
    assert "md5sum" + " " + p == "md5sum " + p;
    if ReadLine(m.env, p).Some? {
      var ws := ReadLine(m.env, p).value.words;
      assert (["md5sum"] + ws)[1..] == ws;
    }
  }

  lemma ReadUname(env: Env)
    ensures ReadLine(env, "uname -m") == Some(Line(["uname", "-m"], []))
  {
    hide ReadLine, Lex, AllOrdinary;
    PlainIsOrdinary("uname");
    PlainIsOrdinary("-m");
    ReadFirst(env, "uname", "-m");
    assert "uname" + " " + "-m" == "uname -m";
    BareRoundTrip("-m");
    OneWord(env, "-m", Bare("-m"));
    TextOfMark("-m", false);
    assert ["uname"] + ["-m"] == ["uname", "-m"];
  }

  lemma ExecUname(m: Machine, digests: Digests, d: Disk, stdin: seq<byte>)
    ensures Exec(m, digests, d, "uname -m", stdin) == Ran(Some(m.uname + "\n"), d)
  {
    hide ReadLine, Command;
    ReadUname(m.env);
    Commands(m, digests, d, "", "uname -m", stdin);
  }
}

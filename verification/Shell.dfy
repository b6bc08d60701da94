/** Quoting a path for the remote shell, against the shell's own reading of it.

    The lexer follows POSIX.1-2017, Shell Command Language: 2.2.1 Escape Character,
    2.2.2 Single-Quotes, 2.6.1 Tilde Expansion, 2.6.7 Quote Removal, 2.7.2
    Redirecting Output. It covers words and the `>` operator; a line that uses any
    other construct of the shell is outside this fragment and lexes to None, and what
    a host does with it is left open. So is a brace, which some shells expand, and a
    NUL, which no command's argument can carry. "Exactly" below means within the
    fragment: a pattern character that a shell happens to read as itself, such as
    an unmatched `[`, counts as outside it. */
module Shell {
  import opened Outcome

  // ---------- The lexer

  datatype QChar = QChar(c: char, quoted: bool)

  datatype Token = Word(chars: seq<QChar>) | Redirect

  /** `wasQuoted` records that the word has had quotes, so a tilde can no longer be its first character. */
  datatype Mode = Between | InWord(cur: seq<QChar>, wasQuoted: bool) | InQuote(cur: seq<QChar>)

  predicate IsBlank(c: char) { c == ' ' || c == '\t' }

  /** Characters that start some other construct when unquoted, and NUL. */
  predicate IsSpecial(c: char) { c in "|&;<>()$`\"*?[{\n\0" }

  /** Characters that stand for themselves when unquoted inside a word. */
  predicate IsOrdinary(c: char) { !IsBlank(c) && !IsSpecial(c) && c != '\'' && c != '\\' }

  /** What follows a `>` may make it a longer operator. */
  predicate LongerOperator(rest: string) { ">" <= rest || "\\\n" <= rest }

  function Cons(t: Token, rest: Option<seq<Token>>): Option<seq<Token>> {
    match rest case None => None case Some(ts) => Some([t] + ts)
  }

  function Scan(s: string, mode: Mode): Option<seq<Token>>
    decreases |s|, if mode.Between? then 1 else 0
  {
    match mode
    case Between =>
      if s == [] then Some([])
      else if IsBlank(s[0]) then Scan(s[1..], Between)
      else if s[0] == '>' then if LongerOperator(s[1..]) then None else Cons(Redirect, Scan(s[1..], Between))
      else if s[0] == '#' then None
      else if "\\\n" <= s then Scan(s[2..], Between)
      else Scan(s, InWord([], false))
    case InWord(cur, wasQuoted) =>
      if s == [] then Some([Word(cur)])
      else if IsBlank(s[0]) then Cons(Word(cur), Scan(s[1..], Between))
      else if s[0] == '\'' then Scan(s[1..], InQuote(cur))
      else if s[0] == '\\' then
        if |s| == 1 || s[1] == '\0' then None
        else if s[1] == '\n' then Scan(s[2..], InWord(cur, wasQuoted))
        else Scan(s[2..], InWord(cur + [QChar(s[1], true)], wasQuoted))
      else if IsSpecial(s[0]) then None
      else Scan(s[1..], InWord(cur + [QChar(s[0], s[0] == '~' && cur == [] && wasQuoted)], wasQuoted))
    case InQuote(cur) =>
      if s == [] || s[0] == '\0' then None
      else if s[0] == '\'' then Scan(s[1..], InWord(cur, true))
      else Scan(s[1..], InQuote(cur + [QChar(s[0], true)]))
  }

  function Lex(s: string): Option<seq<Token>> { Scan(s, Between) }

  /** Quote removal. */
  function Text(w: seq<QChar>): (t: string)
    ensures |t| == |w|
    ensures forall i :: 0 <= i < |w| ==> t[i] == w[i].c
  {
    seq(|w|, i requires 0 <= i < |w| => w[i].c)
  }

  /** The home directory, and those of named users. */
  datatype Env = Env(home: string, homes: string -> Option<string>)

  /** The length of a word up to its first unquoted slash. */
  function PrefixLen(w: seq<QChar>): (n: nat)
    ensures n <= |w|
  {
    if w == [] || w[0] == QChar('/', false) then 0 else 1 + PrefixLen(w[1..])
  }

  predicate Unquoted(w: seq<QChar>) { forall i :: 0 <= i < |w| ==> !w[i].quoted }

  /** Tilde expansion, then quote removal. */
  function Expand(env: Env, w: seq<QChar>): string {
    var n := PrefixLen(w);
    if w != [] && w[0] == QChar('~', false) && n >= 1 && Unquoted(w[..n]) then
      var login := Text(w[1..n]);
      var home := if login == "" then Some(env.home) else env.homes(login);
      match home
      case None => Text(w)
      case Some(h) => h + Text(w[n..])
    else Text(w)
  }

  /** A simple command: what its words mean, and the files its output is redirected to. */
  datatype Line = Line(words: seq<string>, outs: seq<string>)

  /** Each redirection takes the word behind it. */
  function ReadTokens(env: Env, ts: seq<Token>): Option<Line> {
    if ts == [] then Some(Line([], []))
    else if ts[0].Word? then
      match ReadTokens(env, ts[1..])
      case None => None
      case Some(l) => Some(l.(words := [Expand(env, ts[0].chars)] + l.words))
    else if |ts| >= 2 && ts[1].Word? then
      match ReadTokens(env, ts[2..])
      case None => None
      case Some(l) => Some(l.(outs := [Expand(env, ts[1].chars)] + l.outs))
    else None
  }

  function ReadLine(env: Env, line: string): Option<Line> {
    match Lex(line)
    case None => None
    case Some(ts) => ReadTokens(env, ts)
  }

  /** What the words of a line mean, when it is words only. */
  function Operands(env: Env, line: string): Option<seq<string>> {
    match ReadLine(env, line)
    case None => None
    case Some(l) => if l.outs == [] then Some(l.words) else None
  }

  lemma OneWord(env: Env, line: string, w: seq<QChar>)
    requires Lex(line) == Some([Word(w)])
    ensures ReadLine(env, line) == Some(Line([Expand(env, w)], []))
  {
    hide Lex, Expand;
    var ts := [Word(w)];
    assert ReadTokens(env, ts[1..]) == Some(Line([], []));
    assert [Expand(env, w)] + [] == [Expand(env, w)];
  }

  /** A line whose only operand is one word is that word. */
  lemma WordOfOperand(env: Env, line: string) returns (w: seq<QChar>)
    requires Operands(env, line).Some? && |Operands(env, line).value| == 1
    ensures Lex(line) == Some([Word(w)])
  {
    hide Lex, Expand;
    var ts := Lex(line).value;
    assert ts[0].Word?;
    var rest := ReadTokens(env, ts[1..]).value;
    assert rest == Line([], []);
    assert ts[1..] == [];
    w := ts[0].chars;
    assert ts == [Word(w)];
  }

  lemma ReadMoreWords(env: Env, line: string, w: seq<QChar>, rest: string)
    requires Lex(line) == Cons(Word(w), Lex(rest))
    ensures ReadLine(env, line) ==
              match ReadLine(env, rest) {
                case None => None
                case Some(l) => Some(l.(words := [Expand(env, w)] + l.words))
              }
  {
    hide Lex, Expand;
    if Lex(rest).Some? {
      assert ([Word(w)] + Lex(rest).value)[1..] == Lex(rest).value;
    }
  }

  lemma ReadRedirect(env: Env, line: string, rest: string, w: seq<QChar>)
    requires Lex(line) == Cons(Redirect, Lex(rest)) && Lex(rest) == Some([Word(w)])
    ensures ReadLine(env, line) == Some(Line([], [Expand(env, w)]))
  {
    hide Lex, Expand;
    var ts := [Redirect, Word(w)];
    assert [Redirect] + [Word(w)] == ts;
    assert ReadTokens(env, ts[2..]) == Some(Line([], []));
    assert [Expand(env, w)] + [] == [Expand(env, w)];
  }

  // ---------- The quoting functions

  /** strings.ReplaceAll(s, "'", `'\''`) */
  function Escape(s: string): string {
    if s == [] then [] else (if s[0] == '\'' then "'\\''" else [s[0]]) + Escape(s[1..])
  }

  function ShellQuote(s: string): string { "'" + Escape(s) + "'" }

  function ShellQuoteAllowTilde(p: string): string {
    if "~/" <= p then "~/" + ShellQuote(p[2..])
    else if p == "~" then "~"
    else ShellQuote(p)
  }

  // ---------- What the shell reads

  function Mark(s: string, quoted: bool): (w: seq<QChar>)
    ensures |w| == |s|
    ensures forall i :: 0 <= i < |s| ==> w[i] == QChar(s[i], quoted)
  {
    seq(|s|, i requires 0 <= i < |s| => QChar(s[i], quoted))
  }

  function Quoted(s: string): seq<QChar> { Mark(s, true) }

  function Bare(s: string): seq<QChar> { Mark(s, false) }

  lemma TextOfMark(s: string, quoted: bool)
    ensures Text(Mark(s, quoted)) == s
  {
  }

  lemma MarkCons(s: string, quoted: bool)
    requires s != []
    ensures [QChar(s[0], quoted)] + Mark(s[1..], quoted) == Mark(s, quoted)
  {
  }

  /** Inside quotes, every character but a quote reads as itself. */
  lemma ScanInQuote(c: char, tail: string, cur: seq<QChar>)
    requires c != '\''
    ensures Scan([c] + tail, InQuote(cur)) ==
              if c == '\0' then None else Scan(tail, InQuote(cur + [QChar(c, true)]))
  {
    assert ([c] + tail)[1..] == tail;
  }

  lemma ScanCloseQuote(cur: seq<QChar>, rest: string)
    ensures Scan("'" + rest, InQuote(cur)) == Scan(rest, InWord(cur, true))
  {
    assert ("'" + rest)[1..] == rest;
  }

  lemma InCons(c: char, s: string)
    requires s != []
    ensures c in s <==> c == s[0] || c in s[1..]
  {
    assert s == [s[0]] + s[1..];
  }

  lemma EscapeCons(s: string, rest: string)
    requires s != []
    ensures Escape(s) + rest == (if s[0] == '\'' then "'\\''" else [s[0]]) + (Escape(s[1..]) + rest)
  {
  }

  lemma QuotedCons(s: string, cur: seq<QChar>)
    requires s != []
    ensures cur + [QChar(s[0], true)] + Quoted(s[1..]) == cur + Quoted(s)
  {
    MarkCons(s, true);
  }

  /** Inside quotes, the escaped text reads as itself and the closing quote ends it. */
  lemma {:induction false} ScanEscaped(s: string, cur: seq<QChar>, rest: string)
    ensures Scan(Escape(s) + ("'" + rest), InQuote(cur)) ==
              if '\0' in s then None else Scan(rest, InWord(cur + Quoted(s), true))
  {
    hide Scan, Quoted;
    if s == [] {
      assert Escape(s) + ("'" + rest) == "'" + rest;
      assert cur + Quoted(s) == cur by { QuotedEmpty(); }
      ScanCloseQuote(cur, rest);
    } else {
      hide Escape;
      var tail := Escape(s[1..]) + ("'" + rest);
      ScanEscaped(s[1..], cur + [QChar(s[0], true)], rest);
      QuotedCons(s, cur);
      EscapeCons(s, "'" + rest);
      InCons('\0', s);
      if s[0] == '\'' {
        ScanEscapedQuote(cur, tail);
      } else {
        ScanInQuote(s[0], tail, cur);
      }
    }
  }

  lemma {:induction false} EscapeNul(s: string)
    ensures '\0' in Escape(s) <==> '\0' in s
  {
    if s != [] {
      EscapeNul(s[1..]);
      InCons('\0', s);
    }
  }

  lemma QuotedNul(p: string)
    ensures '\0' in ShellQuoteAllowTilde(p) <==> '\0' in p
  {
    hide Escape;
    EscapeNul(p);
    if "~/" <= p {
      EscapeNul(p[2..]);
      assert p == "~/" + p[2..];
    }
  }

  lemma QuotedEmpty()
    ensures Quoted([]) == []
  {
  }

  /** Close the quotes, escape one quote, open them again. */
  lemma ScanEscapedQuote(cur: seq<QChar>, tail: string)
    ensures Scan("'\\''" + tail, InQuote(cur)) == Scan(tail, InQuote(cur + [QChar('\'', true)]))
  {
    var s := "'\\''" + tail;
    var cur' := cur + [QChar('\'', true)];
    assert s[1..] == "\\''" + tail;
    assert s[1..][2..] == "'" + tail;
    assert ("'" + tail)[1..] == tail;
    assert Scan(s, InQuote(cur)) == Scan(s[1..], InWord(cur, true));
    assert Scan(s[1..], InWord(cur, true)) == Scan("'" + tail, InWord(cur', true));
    assert Scan("'" + tail, InWord(cur', true)) == Scan(tail, InQuote(cur'));
  }

  lemma ScanQuoted(s: string, cur: seq<QChar>, rest: string)
    ensures Scan(ShellQuote(s) + rest, InWord(cur, false)) ==
              if '\0' in s then None else Scan(rest, InWord(cur + Quoted(s), true))
  {
    var q := ShellQuote(s) + rest;
    assert q[1..] == Escape(s) + ("'" + rest);
    ScanEscaped(s, cur, rest);
  }

  lemma LexQuoted(s: string)
    ensures Lex(ShellQuote(s)) == if '\0' in s then None else Some([Word(Quoted(s))])
  {
    ScanQuoted(s, [], []);
    assert ShellQuote(s) + [] == ShellQuote(s);
    assert [] + Quoted(s) == Quoted(s);
  }

  /** A quoted string is one word whose value is the string, whatever the home
      directories - exactly for the strings a command line can carry. */
  lemma QuoteRoundTrip(env: Env, s: string)
    ensures Operands(env, ShellQuote(s)) == if '\0' in s then None else Some([s])
  {
    hide Lex;
    LexQuoted(s);
    TextOfMark(s, true);
    if '\0' !in s { OneWord(env, ShellQuote(s), Quoted(s)); }
  }

  ghost predicate AllOrdinary(s: string) {
    forall i :: 0 <= i < |s| ==> IsOrdinary(s[i])
  }

  /** The characters of the fixed parts of the commands. */
  predicate IsPlain(c: char) { 'a' <= c <= 'z' || '0' <= c <= '9' || c == '-' || c == '+' || c == '/' }

  lemma PlainIsOrdinary(s: string)
    requires forall i :: 0 <= i < |s| ==> IsPlain(s[i])
    ensures AllOrdinary(s)
  {
  }

  lemma {:induction false} ScanBare(s: string, cur: seq<QChar>, rest: string)
    requires AllOrdinary(s)
    ensures Scan(s + rest, InWord(cur, false)) == Scan(rest, InWord(cur + Bare(s), false))
  {
    if s == [] {
      assert s + rest == rest && cur + Bare(s) == cur;
    } else {
      assert (s + rest)[1..] == s[1..] + rest;
      var cur' := cur + [QChar(s[0], false)];
      ScanBare(s[1..], cur', rest);
      MarkCons(s, false);
      assert cur' + Bare(s[1..]) == cur + Bare(s);
    }
  }

  /** A bare word followed by a blank is the next token. */
  lemma LexBareThen(u: string, rest: string)
    requires u != [] && AllOrdinary(u) && u[0] != '#'
    ensures Lex(u + " " + rest) == Cons(Word(Bare(u)), Lex(rest))
  {
    var s := u + " " + rest;
    assert s == u + (" " + rest);
    ScanBare(u, [], " " + rest);
    assert [] + Bare(u) == Bare(u);
    assert (" " + rest)[1..] == rest;
    assert s[0] == u[0] && IsOrdinary(u[0]);
  }

  /** The word the shell reads from a path quoted with its leading tilde left bare. */
  function TildeWord(p: string): seq<QChar> {
    if "~/" <= p then Bare("~/") + Quoted(p[2..])
    else if p == "~" then Bare("~")
    else Quoted(p)
  }

  /** A line that starts with an ordinary character starts with a word. */
  lemma LexStartsWord(s: string)
    requires s != [] && IsOrdinary(s[0]) && s[0] != '#'
    ensures Lex(s) == Scan(s, InWord([], false))
  {
  }

  lemma ScanEnds(cur: seq<QChar>, wasQuoted: bool)
    ensures Scan([], InWord(cur, wasQuoted)) == Some([Word(cur)])
  {
  }

  lemma LexUnderHome(rest: string)
    ensures Lex("~/" + ShellQuote(rest)) == if '\0' in rest then None else Some([Word(Bare("~/") + Quoted(rest))])
  {
    hide Lex, Scan, ShellQuote;
    var q := ShellQuote(rest);
    LexStartsWord("~/" + q);
    ScanBare("~/", [], q);
    assert [] + Bare("~/") == Bare("~/");
    ScanQuoted(rest, Bare("~/"), []);
    assert q + [] == q;
    ScanEnds(Bare("~/") + Quoted(rest), true);
  }

  lemma LexTildeQuoted(p: string)
    ensures Lex(ShellQuoteAllowTilde(p)) == if '\0' in p then None else Some([Word(TildeWord(p))])
  {
    hide Lex, Scan, ShellQuote;
    if "~/" <= p {
      LexUnderHome(p[2..]);
      InCons('\0', p);
      InCons('\0', p[1..]);
      assert p[1..][1..] == p[2..];
    } else if p == "~" {
      LexStartsWord("~");
      ScanEnds(Bare("~"), false);
      ScanBare("~", [], []);
      assert "~" + [] == "~" && [] + Bare("~") == Bare("~");
    } else {
      LexQuoted(p);
    }
  }

  /** The path a quoted argument means: `~` and `~/` are the home directory, all else is literal. */
  function Meaning(env: Env, p: string): string {
    if "~/" <= p then env.home + "/" + p[2..]
    else if p == "~" then env.home
    else p
  }

  lemma TextConcat(a: seq<QChar>, b: seq<QChar>)
    ensures Text(a + b) == Text(a) + Text(b)
  {
  }

  lemma ExpandTildeWord(env: Env, p: string)
    ensures Expand(env, TildeWord(p)) == Meaning(env, p)
  {
    var w := TildeWord(p);
    if "~/" <= p {
      assert w[1..][0] == QChar('/', false);
      assert PrefixLen(w[1..]) == 0;
      assert PrefixLen(w) == 1;
      assert Text(w[1..1]) == "";
      assert w[1..] == Bare("/") + Quoted(p[2..]);
      TextConcat(Bare("/"), Quoted(p[2..]));
      TextOfMark("/", false);
      TextOfMark(p[2..], true);
      assert env.home + Text(w[1..]) == env.home + "/" + p[2..];
    } else if p == "~" {
      assert w == [QChar('~', false)];
      assert PrefixLen(w[1..]) == 0;
      assert Text(w[1..1]) == "" && Text(w[1..]) == "";
      assert env.home + "" == env.home;
    } else {
      TextOfMark(p, true);
    }
  }

  /** A path quoted with its tilde left bare is one word; the shell expands a leading
      `~/` or a lone `~` to the home directory and takes every other path literally -
      exactly for the paths a command line can carry. */
  lemma TildeQuoteRoundTrip(env: Env, p: string)
    ensures Operands(env, ShellQuoteAllowTilde(p)) == if '\0' in p then None else Some([Meaning(env, p)])
  {
    hide Lex, Expand;
    LexTildeQuoted(p);
    ExpandTildeWord(env, p);
    if '\0' !in p { OneWord(env, ShellQuoteAllowTilde(p), TildeWord(p)); }
  }

  // ---------- Reading a path that is not quoted

  /** No character of the command is read as two. */
  lemma {:induction false} FirstWordShort(s: string, mode: Mode)
    requires Scan(s, mode).Some? && Scan(s, mode).value != [] && Scan(s, mode).value[0].Word?
    ensures |Scan(s, mode).value[0].chars| <= |s| + if mode.Between? then 0 else |mode.cur|
    decreases |s|, if mode.Between? then 1 else 0
  {
    if s != [] {
      match mode
      case Between =>
        if IsBlank(s[0]) {
          FirstWordShort(s[1..], Between);
        } else if "\\\n" <= s {
          FirstWordShort(s[2..], Between);
        } else if s[0] != '>' {
          FirstWordShort(s, InWord([], false));
        }
      case InWord(cur, wasQuoted) =>
        if IsBlank(s[0]) {
        } else if s[0] == '\'' {
          FirstWordShort(s[1..], InQuote(cur));
        } else if s[0] == '\\' {
          if s[1] == '\n' {
            FirstWordShort(s[2..], InWord(cur, wasQuoted));
          } else {
            FirstWordShort(s[2..], InWord(cur + [QChar(s[1], true)], wasQuoted));
          }
        } else {
          FirstWordShort(s[1..], InWord(cur + [QChar(s[0], s[0] == '~' && cur == [] && wasQuoted)], wasQuoted));
        }
      case InQuote(cur) =>
        if s[0] == '\'' {
          FirstWordShort(s[1..], InWord(cur, true));
        } else {
          FirstWordShort(s[1..], InQuote(cur + [QChar(s[0], true)]));
        }
    }
  }

  /** A line read as a single word has lost a character to the shell, unless all of it is ordinary. */
  lemma {:induction false} ScanLosesOrIsBare(s: string, cur: seq<QChar>, w: seq<QChar>)
    requires Scan(s, InWord(cur, false)) == Some([Word(w)])
    ensures |w| < |cur| + |s| || (AllOrdinary(s) && w == cur + Bare(s))
  {
    var first := Scan(s, InWord(cur, false)).value[0];
    assert first == Word(w);
    if s == [] {
      assert cur + Bare(s) == cur;
    } else if IsOrdinary(s[0]) {
      MarkCons(s, false);
      var cur' := cur + [QChar(s[0], false)];
      assert cur' + Bare(s[1..]) == cur + Bare(s);
      ScanLosesOrIsBare(s[1..], cur', w);
    } else if s[0] == '\'' {
      FirstWordShort(s[1..], InQuote(cur));
    } else if s[0] == '\\' {
      if s[1] == '\n' {
        FirstWordShort(s[2..], InWord(cur, false));
      } else {
        FirstWordShort(s[2..], InWord(cur + [QChar(s[1], true)], false));
      }
    }
  }

  lemma LexLosesOrIsBare(p: string, w: seq<QChar>)
    requires Lex(p) == Some([Word(w)])
    ensures |w| < |p| || (p != [] && p[0] != '#' && AllOrdinary(p) && w == Bare(p))
  {
    var first := Lex(p).value[0];
    assert first == Word(w);
    if p != [] && IsBlank(p[0]) {
      FirstWordShort(p[1..], Between);
    } else if "\\\n" <= p {
      FirstWordShort(p[2..], Between);
    } else if p != [] && p[0] != '>' {
      ScanLosesOrIsBare(p, [], w);
      assert [] + Bare(p) == Bare(p);
    }
  }

  /** A path left unquoted is read as itself exactly when it is not empty, does not
      start a comment, and every character is ordinary. */
  lemma BareRoundTrip(p: string)
    ensures Lex(p) == Some([Word(Bare(p))]) <==> p != [] && p[0] != '#' && AllOrdinary(p)
  {
    if p != [] && p[0] != '#' && AllOrdinary(p) {
      ScanBare(p, [], []);
      assert p + [] == p && [] + Bare(p) == Bare(p);
      assert IsOrdinary(p[0]);
    }
    if Lex(p) == Some([Word(Bare(p))]) {
      LexLosesOrIsBare(p, Bare(p));
    }
  }

  /** A line with a NUL is not read. */
  lemma {:induction false} ScanNul(s: string, mode: Mode)
    requires '\0' in s
    ensures Scan(s, mode) == None
    decreases |s|, if mode.Between? then 1 else 0
  {
    InCons('\0', s);
    match mode
    case Between =>
      if IsBlank(s[0]) || s[0] == '>' {
        ScanNul(s[1..], Between);
      } else if "\\\n" <= s {
        InCons('\0', s[1..]);
        ScanNul(s[2..], Between);
      } else if s[0] != '#' {
        ScanNul(s, InWord([], false));
      }
    case InWord(cur, wasQuoted) =>
      if IsBlank(s[0]) {
        ScanNul(s[1..], Between);
      } else if s[0] == '\'' {
        ScanNul(s[1..], InQuote(cur));
      } else if s[0] == '\\' {
        if |s| > 1 && s[1] != '\0' {
          InCons('\0', s[1..]);
          if s[1] == '\n' {
            ScanNul(s[2..], InWord(cur, wasQuoted));
          } else {
            ScanNul(s[2..], InWord(cur + [QChar(s[1], true)], wasQuoted));
          }
        }
      } else if !IsSpecial(s[0]) {
        ScanNul(s[1..], InWord(cur + [QChar(s[0], s[0] == '~' && cur == [] && wasQuoted)], wasQuoted));
      }
    case InQuote(cur) =>
      if s[0] == '\'' {
        ScanNul(s[1..], InWord(cur, true));
      } else if s[0] != '\0' {
        ScanNul(s[1..], InQuote(cur + [QChar(s[0], true)]));
      }
  }

  /** A line that ends in a letter holds more than blanks. */
  lemma {:induction false} ScanFindsToken(s: string)
    requires s != [] && 'a' <= s[|s| - 1] <= 'z'
    ensures Lex(s) != Some([])
  {
    if IsBlank(s[0]) {
      ScanFindsToken(s[1..]);
    } else if "\\\n" <= s {
      ScanFindsToken(s[2..]);
    } else if s[0] != '>' && s[0] != '#' {
      WordIsToken(s, [], false);
    }
  }

  lemma {:induction false} WordIsToken(s: string, cur: seq<QChar>, wasQuoted: bool)
    ensures Scan(s, InWord(cur, wasQuoted)) != Some([]) && Scan(s, InQuote(cur)) != Some([])
  {
    if s != [] {
      WordIsToken(s[1..], cur, true);
      WordIsToken(s[1..], cur + [QChar(s[0], true)], wasQuoted);
      WordIsToken(s[1..], cur + [QChar(s[0], s[0] == '~' && cur == [] && wasQuoted)], wasQuoted);
      if |s| > 1 {
        WordIsToken(s[2..], cur, wasQuoted);
        WordIsToken(s[2..], cur + [QChar(s[1], true)], wasQuoted);
      }
    }
  }

  lemma ScanFindsWord(env: Env, s: string)
    requires s != [] && 'a' <= s[|s| - 1] <= 'z'
    ensures ReadLine(env, s) != Some(Line([], []))
  {
    hide Lex, Expand;
    ScanFindsToken(s);
  }

  // ---------- The characters and prefixes of the fragment, literally

  /** Unquoted, these characters do not stand for themselves, and all others do:
      2.2 of the Shell Command Language, the blanks, the patterns, a brace, and NUL. */
  lemma OrdinaryExactly(c: char)
    ensures !IsOrdinary(c) <==> c in "|&;<>()$`\\\"' \t\n*?[{\0"
  {
  }

  /** `>>` appends and is no redirection of this fragment. */
  lemma AppendIsUnread(rest: string)
    ensures Lex(">>" + rest) == None
  {
    assert (">>" + rest)[1..] == ">" + rest;
  }

  /** A tilde prefix that names nobody stands for itself. */
  lemma UnknownUser(env: Env, w: seq<QChar>)
    requires PrefixLen(w) >= 2 && w[0] == QChar('~', false) && env.homes(Text(w[1..PrefixLen(w)])) == None
    ensures Expand(env, w) == Text(w)
  {
  }
}

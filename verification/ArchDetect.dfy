/** The architecture table and the lookups over it. Strings are sequences of
    Unicode code points, as `range` over a Go string yields them. */
module ArchDetect {
  import opened Outcome
  import opened Bytes

  datatype ArchInfo = ArchInfo(id: string, goarch: string, aliases: seq<string>, supported: bool) {
    predicate Answers(m: string) { m == id || m in aliases }
  }

  function Table(): seq<ArchInfo> {
    [ ArchInfo("386", "386", ["i386", "i486", "i586", "i686", "x86", "ia32"], true),
      ArchInfo("amd64", "amd64", ["x86_64", "amd64", "x64"], true),
      ArchInfo("arm", "arm", ["arm", "armv6l", "armv7l", "armhf", "armel", "armv5l"], true),
      ArchInfo("arm64", "arm64", ["aarch64", "arm64", "armv8l"], true),
      ArchInfo("riscv64", "riscv64", ["riscv64"], true),
      ArchInfo("riscv32", "", ["riscv32", "riscv", "riscv32gc"], false) ]
  }

  /** The order of slices in a blob. */
  function FixedArchOrder(): seq<string> {
    ["386", "amd64", "arm", "arm64", "riscv64", "riscv32"]
  }

  /** unicode.IsSpace */
  predicate IsSpace(c: char) {
    || '\t' <= c <= '\r' || c == ' '
    || c == '\U{85}' || c == '\U{A0}' || c == '\U{1680}' || '\U{2000}' <= c <= '\U{200A}'
    || c == '\U{2028}' || c == '\U{2029}' || c == '\U{202F}' || c == '\U{205F}' || c == '\U{3000}'
  }

  function TrimLeft(s: string): (r: string)
    ensures r == [] || !IsSpace(r[0])
  {
    if s != [] && IsSpace(s[0]) then TrimLeft(s[1..]) else s
  }

  function TrimRight(s: string): (r: string)
    ensures r == [] || !IsSpace(r[|r| - 1])
    ensures r <= s
  {
    if s != [] && IsSpace(s[|s| - 1]) then TrimRight(s[..|s| - 1]) else s
  }

  function TrimSpace(s: string): string { TrimRight(TrimLeft(s)) }

  /** unicode.ToLower, as far as it can produce an ASCII letter: the ASCII capitals,
      and the two other code points whose lower case is ASCII (dotted capital I and
      the Kelvin sign). Other code points lower to something outside ASCII and are left
      alone here; LoweringExact shows that this loses nothing. */
  function LowerChar(c: char): char {
    if 'A' <= c <= 'Z' then (c as int + 32) as char
    else if c == '\U{130}' then 'i'
    else if c == '\U{212A}' then 'k'
    else c
  }

  function LowerWith(lower: char -> char, s: string): (r: string)
    ensures |r| == |s|
    ensures forall i :: 0 <= i < |s| ==> r[i] == lower(s[i])
  {
    seq(|s|, i requires 0 <= i < |s| => lower(s[i]))
  }

  function ToLower(s: string): (r: string)
    ensures |r| == |s|
    ensures forall i :: 0 <= i < |s| ==> r[i] == LowerChar(s[i])
  {
    LowerWith(LowerChar, s)
  }

  /** First-match search of a table by id or alias. */
  function Search(t: seq<ArchInfo>, m: string): Option<string> {
    if t == [] then None
    else if t[0].Answers(m) then Some(t[0].id)
    else Search(t[1..], m)
  }

  function FromUname(m: string): Option<string> { Search(Table(), ToLower(TrimSpace(m))) }

  function Find(t: seq<ArchInfo>, id: string): Option<ArchInfo> {
    if t == [] then None
    else if t[0].id == id then Some(t[0])
    else Find(t[1..], id)
  }

  function Lookup(id: string): Option<ArchInfo> { Find(Table(), id) }

  // ---------- No string belongs to two rows

  /** The row a string belongs to; 6 for none. */
  function Row(m: string): nat {
    if m == "386" || m == "i386" || m == "i486" || m == "i586" || m == "i686" || m == "x86" || m == "ia32" then 0
    else if m == "amd64" || m == "x86_64" || m == "x64" then 1
    else if m == "arm" || m == "armv6l" || m == "armv7l" || m == "armhf" || m == "armel" || m == "armv5l" then 2
    else if m == "arm64" || m == "aarch64" || m == "armv8l" then 3
    else if m == "riscv64" then 4
    else if m == "riscv32" || m == "riscv" || m == "riscv32gc" then 5
    else 6
  }

  lemma RowAnswers(i: nat, m: string)
    requires i < 6
    ensures Table()[i].Answers(m) <==> Row(m) == i
  {
    hide Row;
    if i < 2 {
      RowAnswersX86(i, m);
    } else if i < 4 {
      RowAnswersArm(i, m);
    } else {
      RowAnswersRiscv(i, m);
    }
  }

  lemma RowAnswersX86(i: nat, m: string)
    requires i < 2
    ensures Table()[i].Answers(m) <==> Row(m) == i
  {
  }

  lemma RowAnswersArm(i: nat, m: string)
    requires 2 <= i < 4
    ensures Table()[i].Answers(m) <==> Row(m) == i
  {
  }

  lemma RowAnswersRiscv(i: nat, m: string)
    requires 4 <= i < 6
    ensures Table()[i].Answers(m) <==> Row(m) == i
  {
  }

  /** Every row answers to its own strings and to no other row's; the blob order is the table order. */
  lemma RowsDisjoint(m: string)
    ensures |Table()| == |FixedArchOrder()| == 6
    ensures forall i :: 0 <= i < 6 ==> Table()[i].id == FixedArchOrder()[i]
    ensures forall i, j :: 0 <= i < 6 && 0 <= j < 6 && Table()[i].Answers(m) && Table()[j].Answers(m) ==> i == j
  {
    forall i | 0 <= i < 6 ensures Table()[i].Answers(m) <==> Row(m) == i {
      RowAnswers(i, m);
    }
  }

  lemma {:induction false} SearchOnlyAnswer(t: seq<ArchInfo>, m: string, row: ArchInfo)
    requires row in t && row.Answers(m)
    requires forall x :: x in t && x.Answers(m) ==> x == row
    ensures Search(t, m) == Some(row.id)
  {
    if !t[0].Answers(m) {
      SearchOnlyAnswer(t[1..], m, row);
    }
  }

  lemma {:induction false} SearchNoAnswer(t: seq<ArchInfo>, m: string)
    requires forall x :: x in t ==> !x.Answers(m)
    ensures Search(t, m) == None
  {
    if t != [] {
      SearchNoAnswer(t[1..], m);
    }
  }

  /** The search does not depend on the order of the rows, or on repeated rows. */
  lemma SearchOrderIrrelevant(t: seq<ArchInfo>, m: string)
    requires forall x :: x in t <==> x in Table()
    ensures Search(t, m) == Search(Table(), m)
    ensures Search(t, m) == if Row(m) < 6 then Some(Table()[Row(m)].id) else None
  {
    forall i | 0 <= i < 6 ensures Table()[i].Answers(m) <==> Row(m) == i {
      RowAnswers(i, m);
    }
    if Row(m) < 6 {
      var row := Table()[Row(m)];
      assert forall x :: x in Table() && x.Answers(m) ==> x == row;
      SearchOnlyAnswer(t, m, row);
      SearchOnlyAnswer(Table(), m, row);
    } else {
      assert forall x :: x in Table() ==> !x.Answers(m);
      SearchNoAnswer(t, m);
      SearchNoAnswer(Table(), m);
    }
  }

  // ---------- Normalisation

  ghost predicate Blank(s: string) {
    forall i :: 0 <= i < |s| ==> IsSpace(s[i])
  }

  lemma {:induction false} TrimLeftSkips(pre: string, s: string)
    requires Blank(pre)
    ensures TrimLeft(pre + s) == TrimLeft(s)
  {
    if pre == [] {
      assert pre + s == s;
    } else {
      assert (pre + s)[1..] == pre[1..] + s;
      TrimLeftSkips(pre[1..], s);
    }
  }

  lemma {:induction false} TrimRightSkips(s: string, post: string)
    requires Blank(post)
    ensures TrimRight(s + post) == TrimRight(s)
  {
    if post == [] {
      assert s + post == s;
    } else {
      var last := |post| - 1;
      assert (s + post)[..|s| + last] == s + post[..last];
      TrimRightSkips(s, post[..last]);
    }
  }

  lemma {:induction false} TrimLeftKeepsTail(s: string, post: string)
    requires Blank(post)
    ensures TrimRight(TrimLeft(s + post)) == TrimRight(TrimLeft(s))
  {
    if s == [] {
      assert s + post == post == post + [];
      TrimLeftSkips(post, []);
    } else if IsSpace(s[0]) {
      assert (s + post)[1..] == s[1..] + post;
      TrimLeftKeepsTail(s[1..], post);
    } else {
      TrimRightSkips(s, post);
    }
  }

  lemma TrimSpaceSkips(pre: string, s: string, post: string)
    requires Blank(pre) && Blank(post)
    ensures TrimSpace(pre + s + post) == TrimSpace(s)
  {
    TrimLeftKeepsTail(pre + s, post);
    TrimLeftSkips(pre, s);
  }

  // ---------- Letter case, for all of Unicode

  /** What the answer depends on in unicode.ToLower: the code points whose lower case is
      ASCII, and that lowering neither makes nor removes white space. */
  ghost predicate UnicodeLower(lower: char -> char) {
    forall c :: && (if LowerChar(c) as int < 128 then lower(c) == LowerChar(c) else lower(c) as int >= 128)
                && (IsSpace(lower(c)) <==> IsSpace(c))
  }

  lemma LowerCharIsUnicodeLower()
    ensures UnicodeLower(LowerChar)
  {
  }

  lemma RowIsAscii(n: string)
    requires Row(n) < 6
    ensures IsAscii(n)
  {
  }

  /** Lowering with all of Unicode gives the same answer as the lowering of this model. */
  lemma LoweringExact(lower: char -> char, m: string)
    requires UnicodeLower(lower)
    ensures Search(Table(), LowerWith(lower, TrimSpace(m))) == FromUname(m)
  {
    hide Row, Table, LowerChar, IsSpace, TrimSpace, Search;
    var s := TrimSpace(m);
    var full, model := LowerWith(lower, s), ToLower(s);
    SearchOrderIrrelevant(Table(), full);
    SearchOrderIrrelevant(Table(), model);
    if IsAscii(model) {
      assert full == model;
    } else {
      var i :| 0 <= i < |s| && model[i] as int >= 128;
      assert full[i] as int >= 128;
      if Row(full) < 6 { RowIsAscii(full); }
      if Row(model) < 6 { RowIsAscii(model); }
    }
  }

  lemma {:induction false} LowerTrimLeft(lower: char -> char, s: string)
    requires UnicodeLower(lower)
    ensures LowerWith(lower, TrimLeft(s)) == TrimLeft(LowerWith(lower, s))
  {
    hide LowerChar, IsSpace;
    if s != [] && IsSpace(s[0]) {
      assert LowerWith(lower, s)[1..] == LowerWith(lower, s[1..]);
      LowerTrimLeft(lower, s[1..]);
    }
  }

  lemma {:induction false} LowerTrimRight(lower: char -> char, s: string)
    requires UnicodeLower(lower)
    ensures LowerWith(lower, TrimRight(s)) == TrimRight(LowerWith(lower, s))
  {
    hide LowerChar, IsSpace;
    if s != [] && IsSpace(s[|s| - 1]) {
      assert LowerWith(lower, s)[..|s| - 1] == LowerWith(lower, s[..|s| - 1]);
      LowerTrimRight(lower, s[..|s| - 1]);
    }
  }

  /** Surrounding white space and letter case - of any alphabet - never change the answer. */
  lemma FromUnameIgnoresSpaceAndCase(lower: char -> char, m: string, m': string, pre: string, post: string)
    requires UnicodeLower(lower) && LowerWith(lower, m) == LowerWith(lower, m')
    requires Blank(pre) && Blank(post)
    ensures FromUname(pre + m' + post) == FromUname(m)
  {
    hide UnicodeLower, Search, LowerWith;
    TrimSpaceSkips(pre, m', post);
    LowerTrimLeft(lower, m);
    LowerTrimRight(lower, TrimLeft(m));
    LowerTrimLeft(lower, m');
    LowerTrimRight(lower, TrimLeft(m'));
    LoweringExact(lower, m);
    LoweringExact(lower, m');
  }

  /** Non-empty, and only characters that normalisation leaves alone. */
  predicate Plain(s: string) {
    s != [] && forall i :: 0 <= i < |s| ==> 'a' <= s[i] <= 'z' || '0' <= s[i] <= '9'
  }

  lemma PlainIsNormal(s: string)
    requires Plain(s)
    ensures ToLower(TrimSpace(s)) == s
  {
  }

  lemma IdIsItsOwnRow(i: nat)
    requires i < 6
    ensures |Table()| == |FixedArchOrder()| == 6
    ensures Plain(Table()[i].id) && Row(Table()[i].id) == i && Table()[i].id == FixedArchOrder()[i]
  {
    hide Row;
    RowAnswers(i, Table()[i].id);
  }

  /** A result fed back is its own result, and it is one of the ids of the blob order. */
  lemma FromUnameIdempotent(m: string)
    requires FromUname(m).Some?
    ensures FromUname(FromUname(m).value) == FromUname(m)
    ensures FromUname(m).value in FixedArchOrder() && Plain(FromUname(m).value)
  {
    hide Row, Table, FixedArchOrder, Search, ToLower, TrimSpace;
    var n := ToLower(TrimSpace(m));
    SearchOrderIrrelevant(Table(), n);
    IdIsItsOwnRow(Row(n));
    var id := Table()[Row(n)].id;
    PlainIsNormal(id);
    SearchOrderIrrelevant(Table(), id);
    OrderContains(Row(n));
  }

  lemma OrderContains(i: nat)
    requires i < 6
    ensures |FixedArchOrder()| == 6 && FixedArchOrder()[i] in FixedArchOrder()
  {
  }

  // ---------- What the table says, literally

  /** The architectures that a Go toolchain can build for. */
  predicate Buildable(id: string) { id in {"386", "amd64", "arm", "arm64", "riscv64"} }

  /** Lookup finds exactly the six ids, each its own row; all but riscv32 can be built. */
  lemma LookupExactly(id: string)
    ensures Lookup(id).Some? <==> Buildable(id) || id == "riscv32"
    ensures Lookup(id).Some? <==> id in FixedArchOrder()
    ensures Lookup(id).Some? ==>
              && Lookup(id).value.id == id
              && (Lookup(id).value.supported <==> Buildable(id))
              && Lookup(id).value.goarch == if id == "riscv32" then "" else id
  {
    FindStep(Table(), id);
    FindStep(Table()[1..], id);
    FindStep(Table()[2..], id);
    FindStep(Table()[3..], id);
    FindStep(Table()[4..], id);
    FindStep(Table()[5..], id);
  }

  lemma FindStep(t: seq<ArchInfo>, id: string)
    requires t != []
    ensures Find(t, id) == if t[0].id == id then Some(t[0]) else Find(t[1..], id)
  {
  }

  /** The order of the slices. */
  lemma FixedOrderIs()
    ensures |FixedArchOrder()| == 6
    ensures forall i :: 0 <= i < 5 ==> Buildable(FixedArchOrder()[i])
    ensures FixedArchOrder()[5] == "riscv32"
    ensures forall x :: x in FixedArchOrder() <==> Buildable(x) || x == "riscv32"
  {
  }

  /** The answer to a name: the id at its row's place in the order. */
  lemma FromUnameExactly(m: string)
    ensures var n := ToLower(TrimSpace(m));
            && |FixedArchOrder()| == 6
            && FromUname(m) == if Row(n) < 6 then Some(FixedArchOrder()[Row(n)]) else None
  {
    hide Row, ToLower, TrimSpace, Search;
    var n := ToLower(TrimSpace(m));
    SearchOrderIrrelevant(Table(), n);
    if Row(n) < 6 {
      IdIsItsOwnRow(Row(n));
    }
  }

  /** White space is what Unicode counts as such. */
  lemma SpaceExactly(c: char)
    ensures IsSpace(c) <==>
              || c in "\t\n\U{B}\U{C}\r \U{85}\U{A0}\U{1680}\U{2028}\U{2029}\U{202F}\U{205F}\U{3000}"
              || c in "\U{2000}\U{2001}\U{2002}\U{2003}\U{2004}\U{2005}\U{2006}\U{2007}\U{2008}\U{2009}\U{200A}"
  {
  }

  /** Trimming takes white space off both ends and nothing else. */
  lemma TrimSpaceExactly(s: string) returns (pre: string, post: string)
    ensures s == pre + TrimSpace(s) + post && Blank(pre) && Blank(post)
    ensures TrimSpace(s) != [] ==> !IsSpace(TrimSpace(s)[0]) && !IsSpace(TrimSpace(s)[|TrimSpace(s)| - 1])
  {
    hide IsSpace;
    var l := TrimLeft(s);
    pre := TrimLeftTakes(s);
    post := TrimRightTakes(l);
    assert s == pre + (TrimRight(l) + post);
    assert TrimSpace(s) != [] ==> TrimSpace(s)[0] == l[0];
  }

  lemma {:induction false} TrimLeftTakes(s: string) returns (pre: string)
    ensures s == pre + TrimLeft(s) && Blank(pre)
  {
    pre := [];
    if s != [] && IsSpace(s[0]) {
      pre := TrimLeftTakes(s[1..]);
      pre := [s[0]] + pre;
      assert s == [s[0]] + s[1..];
    }
  }

  lemma {:induction false} TrimRightTakes(s: string) returns (post: string)
    ensures s == TrimRight(s) + post && Blank(post)
  {
    post := [];
    if s != [] && IsSpace(s[|s| - 1]) {
      var last := |s| - 1;
      post := TrimRightTakes(s[..last]);
      assert s == TrimRight(s) + (post + [s[last]]);
      post := post + [s[last]];
    }
  }

  /** Lowering turns each capital letter into its small one, and touches no other ASCII
      character; beyond ASCII, only the dotted capital I and the Kelvin sign reach it. */
  lemma AsciiLower(c: char)
    ensures 'A' <= c <= 'Z' ==> LowerChar(c) as int - 'a' as int == c as int - 'A' as int
    ensures c as int < 128 && !('A' <= c <= 'Z') ==> LowerChar(c) == c
    ensures c == '\U{130}' ==> LowerChar(c) == 'i'
    ensures c == '\U{212A}' ==> LowerChar(c) == 'k'
    ensures c as int >= 128 && c != '\U{130}' && c != '\U{212A}' ==> LowerChar(c) as int >= 128
  {
  }
}

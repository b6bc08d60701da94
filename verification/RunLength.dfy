/** A concrete lawful codec: run-length pairs behind one header byte. It shows the
    assumptions about xz can be met, and that both stored forms occur. */
module RunLength {
  import opened Outcome
  import opened Bytes
  import opened Format
  import opened Compression

  const HEADER: byte := 0x58

  function Repeat(b: byte, n: nat): (s: seq<byte>)
    ensures |s| == n
    ensures forall i :: 0 <= i < n ==> s[i] == b
  {
    seq(n, i => b)
  }

  /** How many times the first byte repeats, at most `max`. */
  function Run(s: seq<byte>, max: nat): (n: nat)
    requires s != [] && max >= 1
    ensures 1 <= n <= max && n <= |s|
    ensures forall i :: 0 <= i < n ==> s[i] == s[0]
  {
    if max == 1 || |s| == 1 || s[1] != s[0] then 1
    else
      var n := Run(s[1..], max - 1);
      assert forall i :: 1 <= i < n + 1 ==> s[i] == s[1..][i - 1];
      n + 1
  }

  function Pack(s: seq<byte>): seq<byte> {
    if s == [] then [] else [Run(s, 255), s[0]] + Pack(s[Run(s, 255)..])
  }

  function Unpack(p: seq<byte>): Option<seq<byte>> {
    if p == [] then Some([])
    else if |p| == 1 || p[0] == 0 then None
    else match Unpack(p[2..])
      case None => None
      case Some(rest) => Some(Repeat(p[1], p[0]) + rest)
  }

  lemma {:induction false} UnpackOfPack(s: seq<byte>)
    ensures Unpack(Pack(s)) == Some(s)
    decreases |s|
  {
    if s != [] {
      var n := Run(s, 255);
      UnpackOfPack(s[n..]);
      assert Pack(s)[2..] == Pack(s[n..]);
      assert s == Repeat(s[0], n) + s[n..];
    }
  }

  function Codec(): Xz {
    Xz(raw => Some([HEADER] + Pack(raw)),
       data => if data == [] || data[0] != HEADER then None else Unpack(data[1..]))
  }

  lemma CodecIsLawful()
    ensures Lawful(Codec())
  {
    forall raw: seq<byte>
      ensures Codec().enc(raw).Some? && Codec().enc(raw).value != []
      ensures Codec().dec(Codec().enc(raw).value) == Some(raw)
    {
      UnpackOfPack(raw);
      assert ([HEADER] + Pack(raw))[1..] == Pack(raw);
    }
  }

  lemma {:induction false} PackOfRepeat(b: byte, n: nat)
    requires 1 <= n <= 255
    ensures Run(Repeat(b, n), 255) == n
    ensures Pack(Repeat(b, n)) == [n, b]
  {
    RunOfRepeat(b, n, 255);
    assert Repeat(b, n)[n..] == [];
  }

  lemma {:induction false} RunOfRepeat(b: byte, n: nat, max: nat)
    requires 1 <= n <= max
    ensures Run(Repeat(b, n), max) == n
  {
    if n > 1 {
      assert Repeat(b, n)[1..] == Repeat(b, n - 1);
      RunOfRepeat(b, n - 1, max - 1);
    }
  }

  /** Both outcomes of Compress occur: long runs are stored as streams, short inputs verbatim. */
  lemma BothCodecsOccur(b: byte, n: nat)
    requires 1 <= n <= 255
    ensures Compress(Codec(), Repeat(b, n)) ==
              Ok(if n > 3 then Stored(CODEC_XZ, [HEADER, n, b]) else Stored(CODEC_NONE, Repeat(b, n)))
  {
    PackOfRepeat(b, n);
    assert [HEADER] + [n, b] == [HEADER, n, b];
  }
}

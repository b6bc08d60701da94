/** What Encode and Decode promise each other. */
module FormatLaws {
  import opened Outcome
  import opened Bytes
  import opened Seqs
  import opened Layout
  import opened Format

  ghost predicate NulFree(b: Blob) {
    forall i :: 0 <= i < |b.slices| ==> 0 !in b.slices[i].arch
  }

  /** The slice with its name cut at the first NUL. */
  function CutName(s: Slice): Slice { s.(arch := TrimNul(s.arch)) }

  /** `b` as Decode reports it: every name cut at its first NUL. */
  function Normalize(b: Blob): (n: Blob)
    ensures |n.slices| == |b.slices|
    ensures forall i :: 0 <= i < |b.slices| ==> n.slices[i] == CutName(b.slices[i])
  {
    Blob(seq(|b.slices|, i requires 0 <= i < |b.slices| => CutName(b.slices[i])))
  }

  // ---------- Names

  lemma {:induction false} TrimNulKeeps(a: seq<byte>)
    ensures TrimNul(a) == a <==> 0 !in a
  {
    if a != [] && a[0] != 0 {
      TrimNulKeeps(a[1..]);
      assert a == [a[0]] + a[1..];
    }
  }

  lemma {:induction false} TrimNulIgnoresTail(a: seq<byte>, tail: seq<byte>)
    requires tail == [] || tail[0] == 0
    ensures TrimNul(a + tail) == TrimNul(a)
  {
    if a == [] {
      assert a + tail == tail;
    } else {
      assert (a + tail)[1..] == a[1..] + tail;
      TrimNulIgnoresTail(a[1..], tail);
    }
  }

  lemma TrimOfPad(a: seq<byte>)
    requires |a| <= 8
    ensures TrimNul(PadName(a)) == TrimNul(a)
  {
    if |a| < 8 {
      TrimNulIgnoresTail(a, Zeros(8 - |a|));
    } else {
      assert a[..8] == a;
    }
  }

  /** Everything after the first NUL is NUL. */
  predicate CleanName(name: Name) {
    forall i :: 0 <= i < 7 && name[i] == 0 ==> name[i + 1] == 0
  }

  lemma CleanFrom(name: Name, i: nat, j: nat)
    requires CleanName(name) && i <= j < 8 && name[i] == 0
    ensures name[j] == 0
    decreases j - i
  {
    if i < j {
      CleanFrom(name, i + 1, j);
    }
  }

  lemma PadOfTrim(name: Name)
    ensures PadName(TrimNul(name)) == name <==> CleanName(name)
  {
    var t := TrimNul(name);
    if CleanName(name) {
      forall j | |t| <= j < 8 ensures name[j] == 0 {
        CleanFrom(name, |t|, j);
      }
    } else {
      var i :| 0 <= i < 7 && name[i] == 0 && name[i + 1] != 0;
      assert forall k :: 0 <= k < |t| ==> name[k] == t[k] && t[k] in t;
      assert PadName(t)[i + 1] == 0;
    }
  }

  // ---------- The index of an encoded blob

  lemma {:induction false} NoFirstError(ss: seq<Slice>)
    ensures FirstError(ss).None? <==> forall i :: 0 <= i < |ss| ==> SliceError(ss[i]).None?
  {
    if ss != [] {
      NoFirstError(ss[1..]);
      assert forall i :: 0 < i < |ss| ==> ss[i] == ss[1..][i - 1];
    }
  }

  lemma {:induction false} OffsetExact(w: Width, ss: seq<Slice>, i: nat)
    requires i <= |ss| && PayloadLen(ss) <= w.MaxInt()
    ensures OffsetAt(ss, i) == PayloadLen(ss[..i]) <= PayloadLen(ss)
  {
    PayloadLenPrefix(ss, i);
    if i > 0 {
      OffsetExact(w, ss, i - 1);
      PayloadLenPrefix(ss, i - 1);
      SizeExact(w, |ss[i - 1].data|);
      SizeExact(w, PayloadLen(ss[..i]));
    }
  }

  /** When everything fits `int`, no field of the index is cut down by a conversion. */
  lemma FieldsExact(w: Width, ss: seq<Slice>, i: nat)
    requires i < |ss| && PayloadLen(ss) <= w.MaxInt()
    ensures var e := EntriesOf(ss)[i];
            && e.offset == w.Low(e.offset) == PayloadLen(ss[..i])
            && e.length == w.Low(e.length) == |ss[i].data|
  {
    OffsetExact(w, ss, i);
    PayloadLenPrefix(ss, i);
    SizeExact(w, OffsetAt(ss, i));
    SizeExact(w, |ss[i].data|);
  }

  lemma PayloadAt(ss: seq<Slice>, i: nat)
    requires i < |ss|
    ensures PayloadLen(ss[..i]) + |ss[i].data| <= PayloadLen(ss)
    ensures Payload(ss)[PayloadLen(ss[..i])..PayloadLen(ss[..i]) + |ss[i].data|] == ss[i].data
  {
    PayloadLenPrefix(ss, i);
    PayloadPrefix(ss, i);
    PayloadPrefix(ss, i + 1);
    LastPart(Payload(ss[..i]), ss[i].data);
    SliceOfPrefix(Payload(ss[..i + 1]), Payload(ss), PayloadLen(ss[..i]), PayloadLen(ss[..i + 1]));
  }

  /** Entry `i` of a frame starts where the entry before it ends. */
  ghost predicate StartsAtPreviousEnd(es: seq<Entry>, i: nat)
    requires i < |es|
  {
    es[i].offset == if i == 0 then 0 else es[i - 1].offset + es[i - 1].length
  }

  /** The index entries tile the payload region: ordered, contiguous, covering it exactly. */
  ghost predicate Tiles(f: Frame) {
    && (forall i :: 0 <= i < |f.entries| ==> StartsAtPreviousEnd(f.entries, i))
    && |f.payload| == if f.entries == [] then 0
                      else f.entries[|f.entries| - 1].offset + f.entries[|f.entries| - 1].length
  }

  lemma EncodedEntry(w: Width, ss: seq<Slice>, i: nat)
    requires i < |ss| && PayloadLen(ss) <= w.MaxInt()
    ensures var e := EntriesOf(ss)[i];
            && e.offset == PayloadLen(ss[..i])
            && e.offset + e.length == PayloadLen(ss[..i + 1]) <= PayloadLen(ss)
            && Payload(ss)[e.offset..e.offset + e.length] == ss[i].data
  {
    hide EntryFor, OffsetAt, Payload, PayloadLen, Width.Low, ToU64;
    FieldsExact(w, ss, i);
    PayloadLenPrefix(ss, i);
    PayloadAt(ss, i);
  }

  lemma EncodedEntryStart(w: Width, ss: seq<Slice>, i: nat)
    requires i < |ss| && PayloadLen(ss) <= w.MaxInt()
    ensures StartsAtPreviousEnd(EntriesOf(ss), i)
  {
    hide EntryFor, OffsetAt, Payload;
    EncodedEntry(w, ss, i);
    if i > 0 {
      EncodedEntry(w, ss, i - 1);
    }
  }

  /** Every range of the frame holds the bytes of its slice. */
  ghost predicate Carries(f: Frame, b: Blob) {
    && |f.entries| == |b.slices|
    && forall i :: 0 <= i < |f.entries| ==> CarriesAt(f, f.entries[i], b.slices[i].data)
  }

  ghost predicate CarriesAt(f: Frame, e: Entry, data: seq<byte>) {
    e.offset + e.length <= |f.payload| && f.payload[e.offset..e.offset + e.length] == data
  }

  lemma FrameTiles(w: Width, b: Blob)
    requires PayloadLen(b.slices) <= w.MaxInt()
    ensures Tiles(FrameOf(b)) && Carries(FrameOf(b), b)
  {
    hide EntryFor, OffsetAt, Payload, StartsAtPreviousEnd;
    var f := FrameOf(b);
    forall i | 0 <= i < |f.entries|
      ensures StartsAtPreviousEnd(f.entries, i) && CarriesAt(f, f.entries[i], b.slices[i].data)
    {
      EncodedEntry(w, b.slices, i);
      EncodedEntryStart(w, b.slices, i);
    }
    if |f.entries| > 0 {
      EncodedEntry(w, b.slices, |f.entries| - 1);
      assert b.slices[..|b.slices|] == b.slices;
    }
  }

  /** What the bytes of an encoding say: the entries tile the payload region, each
      range holds exactly its slice's bytes, and the trailer records the whole length. */
  lemma EntriesTilePayload(w: Width, b: Blob, d: seq<byte>)
    requires Encode(w, b) == Ok(d)
    ensures ParseFrame(d).Ok? && U64(d[|d| - 16..|d| - 8]) == |d| <= w.MaxInt()
    ensures Tiles(ParseFrame(d).value) && Carries(ParseFrame(d).value, b)
  {
    ParseOfFormat(FrameOf(b));
    FrameTiles(w, b);
  }

  /** The 40 bytes of an entry as the format documents them: name, status, codec,
      six zeros, offset, length, raw length. */
  ghost predicate DocumentedEntry(e: seq<byte>, s: Slice, offset: nat)
    requires |e| == 40 && |s.arch| <= 8
  {
    && e[..|s.arch|] == s.arch && (forall j :: |s.arch| <= j < 8 ==> e[j] == 0)
    && e[8] == s.status && e[9] == s.codec && (forall j :: 10 <= j < 16 ==> e[j] == 0)
    && e[16..24] == LE(offset, 8) && e[24..32] == LE(|s.data|, 8) && e[32..40] == LE(s.rawLen, 8)
  }

  lemma EntryForIsDocumented(s: Slice, offset: uint64)
    requires |s.arch| <= 8 && ToU64(|s.data|) == |s.data|
    ensures DocumentedEntry(FormatEntry(EntryFor(s, offset)), s, offset)
  {
    hide LE, ToU64, FormatEntry;
    var e := EntryFor(s, offset);
    var bytes := FormatEntry(e);
    EntryFields(e);
    assert forall j :: 0 <= j < 8 ==> bytes[j] == e.name[j];
    assert forall j :: 10 <= j < 16 ==> bytes[j] == e.reserved[j - 10];
    assert bytes[..|s.arch|] == e.name[..|s.arch|] == s.arch;
  }

  lemma EncodedEntryAt(w: Width, b: Blob, d: seq<byte>, i: nat)
    requires Encode(w, b) == Ok(d) && i < |b.slices|
    ensures 10 + 40 * (i + 1) <= |d|
    ensures d[10 + 40 * i..10 + 40 * (i + 1)] == FormatEntry(EntriesOf(b.slices)[i])
  {
    hide OffsetAt, Payload, PayloadLen, LE, EntriesOf, FormatEntry, FirstError, FormatFrame;
    var f := FrameOf(b);
    FormatLaysOut(f);
    IndexAt(f.entries, i);
    SliceOfSlice(d, INDEX_START, f.PayloadStart(), ENTRY_LEN * i, ENTRY_LEN * (i + 1));
  }

  /** The header and the trailer around an index of `count` entries. */
  ghost predicate DocumentedFrame(d: seq<byte>, count: nat) {
    && 26 + 40 * count <= |d|
    && d[..8] == Ascii("FATBLOB") + [2] && d[8..10] == LE(count, 2)
    && d[|d| - 16..|d| - 8] == LE(|d|, 8) && d[|d| - 8..] == Ascii("FATBLOBZ")
  }

  /** The three magics, in letters. */
  lemma Magics()
    ensures MAGIC == Ascii("FATBLOB") + [2]
    ensures MAGIC_V1 == Ascii("FATBLOB") + [1]
    ensures TRAILER_MAGIC == Ascii("FATBLOBZ")
  {
  }

  /** Every entry of an encoding stands at the documented place with the documented
      values, behind the magic and the count and before the trailer. */
  lemma EncodedBytes(w: Width, b: Blob, d: seq<byte>)
    requires Encode(w, b) == Ok(d)
    ensures DocumentedFrame(d, |b.slices|)
    ensures forall i :: 0 <= i < |b.slices| ==>
              && |b.slices[i].arch| <= 8
              && DocumentedEntry(d[10 + 40 * i..10 + 40 * (i + 1)], b.slices[i], PayloadLen(b.slices[..i]))
  {
    hide OffsetAt, Payload, PayloadLen, LE, FormatEntry, FirstError, FormatFrame, DocumentedEntry, EntryFor, ToU64;
    EncodeAccepts(w, b);
    FormatLaysOut(FrameOf(b));
    Magics();
    forall i | 0 <= i < |b.slices|
      ensures DocumentedEntry(d[10 + 40 * i..10 + 40 * (i + 1)], b.slices[i], PayloadLen(b.slices[..i]))
    {
      EncodedEntryAt(w, b, d, i);
      OffsetExact(w, b.slices, i);
      PayloadLenPrefix(b.slices, i);
      SizeExact(w, |b.slices[i].data|);
      EntryForIsDocumented(b.slices[i], OffsetAt(b.slices, i));
    }
  }

  // ---------- Round trip

  lemma EncodedSlice(w: Width, b: Blob, i: nat)
    requires i < |b.slices| && PayloadLen(b.slices) <= w.MaxInt() && |b.slices[i].arch| <= 8
    ensures InRange(w, FrameOf(b).entries[i], PayloadLen(b.slices))
    ensures SliceOf(w, FrameOf(b).entries[i], Payload(b.slices)) == CutName(b.slices[i])
  {
    FieldsExact(w, b.slices, i);
    PayloadLenPrefix(b.slices, i);
    PayloadAt(b.slices, i);
    TrimOfPad(b.slices[i].arch);
  }

  /** Whatever Encode writes, on a host of any width, every host that can hold it
      reads back the same blob, names cut at their first NUL. */
  lemma DecodeOfEncode(w: Width, reader: Width, b: Blob, d: seq<byte>)
    requires Encode(w, b) == Ok(d) && |d| <= reader.MaxInt()
    ensures Decode(reader, d) == Ok(Normalize(b))
  {
    hide FormatFrame, EntryFor, OffsetAt, Payload, SliceOf, InRange, CutName;
    var f := FrameOf(b);
    ParseOfFormat(f);
    NoFirstError(b.slices);
    forall i | 0 <= i < |f.entries|
      ensures InRange(reader, f.entries[i], |f.payload|)
      ensures SliceOf(reader, f.entries[i], f.payload) == Normalize(b).slices[i]
    {
      EncodedSlice(reader, b, i);
    }
    assert BlobOf(reader, f).slices == Normalize(b).slices;
  }

  lemma NormalizeKeeps(b: Blob)
    ensures Normalize(b) == b <==> NulFree(b)
  {
    forall i | 0 <= i < |b.slices|
      ensures CutName(b.slices[i]) == b.slices[i] <==> 0 !in b.slices[i].arch
    {
      TrimNulKeeps(b.slices[i].arch);
    }
    if NulFree(b) {
      assert Normalize(b).slices == b.slices;
    } else {
      var i :| 0 <= i < |b.slices| && 0 in b.slices[i].arch;
      assert Normalize(b).slices[i] != b.slices[i];
    }
  }

  /** Round trip, exactly: a blob comes back unchanged if and only if no name contains a NUL. */
  lemma RoundTrip(w: Width, b: Blob, d: seq<byte>)
    requires Encode(w, b) == Ok(d)
    ensures Decode(w, d) == Ok(b) <==> NulFree(b)
  {
    DecodeOfEncode(w, w, b, d);
    NormalizeKeeps(b);
  }

  /** A well-formed blob is accepted by Encode exactly when its size fits `int`. */
  lemma EncodeAccepts(w: Width, b: Blob)
    ensures Encode(w, b).Ok? <==>
            && |b.slices| <= 0xFFFF
            && (forall i :: 0 <= i < |b.slices| ==>
                  |b.slices[i].arch| <= 8 && b.slices[i].codec <= 1)
            && EncodedLen(b) <= w.MaxInt()
  {
    NoFirstError(b.slices);
  }

  /** Two blobs with NUL-free names never share an encoding. */
  lemma EncodeInjective(w: Width, b1: Blob, b2: Blob)
    requires Encode(w, b1).Ok? && Encode(w, b1) == Encode(w, b2)
    requires NulFree(b1) && NulFree(b2)
    ensures b1 == b2
  {
    RoundTrip(w, b1, Encode(w, b1).value);
    RoundTrip(w, b2, Encode(w, b2).value);
  }

  // ---------- Prefixes

  /** The bytes before a cut look like the trailer of a container that ends there. */
  ghost predicate ForgedTrailer(p: seq<byte>, count: nat) {
    && |p| >= INDEX_START + ENTRY_LEN * count + TRAILER_LEN
    && p[|p| - 8..] == TRAILER_MAGIC
    && U64(p[|p| - 16..|p| - 8]) == |p|
  }

  /** A prefix parses exactly when it ends in a forged trailer, and then it has the same
      index and less payload. */
  lemma PrefixFrame(d: seq<byte>, f: Frame, n: nat)
    requires LaidOut(d, f) && |f.entries| <= 0xFFFF && n < |d|
    ensures ParseFrame(d[..n]).Ok? <==> ForgedTrailer(d[..n], |f.entries|)
    ensures ParseFrame(d[..n]).Ok? ==>
              var g := ParseFrame(d[..n]).value;
              g.entries == f.entries && |g.payload| == n - TRAILER_LEN - f.PayloadStart() < |f.payload|
  {
    hide LE, FromLE, Index;
    var p := d[..n];
    FieldRoundTrip(|f.entries|, 2);
    LaidOutIndex(d, f);
    if |p| >= 26 {
      assert p[..8] == d[..8] && p[8..10] == d[8..10];
    }
    if |p| >= f.PayloadStart() {
      forall i | 0 <= i < |f.entries| ensures EntryBytes(p, i) == EntryBytes(d, i) {
        SliceOfPrefix(p, d, INDEX_START + ENTRY_LEN * i, INDEX_START + ENTRY_LEN * (i + 1));
      }
      assert ParseIndex(p, |f.entries|) == ParseIndex(d, |f.entries|);
    }
  }

  /** What a reader keeps of a size that Encode has written. */
  function SizeKept(reader: Width, n: nat): nat { reader.Low(ToU64(n)) }

  /** Exactly which prefixes of an encoding a reader of any width accepts: those cut
      behind a forged trailer where the truncated ranges fit what is left of the payload. */
  lemma PrefixDecodesExactly(w: Width, reader: Width, b: Blob, d: seq<byte>, n: nat)
    requires Encode(w, b) == Ok(d) && n < |d|
    ensures Decode(reader, d[..n]).Ok? <==>
              && ForgedTrailer(d[..n], |b.slices|)
              && forall i :: 0 <= i < |b.slices| ==>
                   SizeKept(reader, PayloadLen(b.slices[..i])) + SizeKept(reader, |b.slices[i].data|)
                   <= n - TRAILER_LEN - INDEX_START - ENTRY_LEN * |b.slices|
  {
    hide EntryFor, OffsetAt, Payload, Index, FormatFrame, Width.Low, PayloadLen, FirstError, ParseFrame, BlobOf,
         ToU64;
    var f := FrameOf(b);
    FormatLaysOut(f);
    PrefixFrame(d, f, n);
    forall i | 0 <= i < |b.slices|
      ensures f.entries[i].offset == PayloadLen(b.slices[..i]) && f.entries[i].length == |b.slices[i].data|
      ensures ToU64(PayloadLen(b.slices[..i])) == PayloadLen(b.slices[..i])
      ensures ToU64(|b.slices[i].data|) == |b.slices[i].data|
    {
      FieldsExact(w, b.slices, i);
      PayloadLenPrefix(b.slices, i);
      SizeExact(w, PayloadLen(b.slices[..i]));
      SizeExact(w, |b.slices[i].data|);
    }
  }

  /** No proper prefix of an encoding decodes, even one that ends in payload bytes
      which forge a matching trailer at the cut, on any reader whose conversions keep
      every bit of a number up to the payload's length. */
  lemma ProperPrefixRejected(w: Width, reader: Width, b: Blob, d: seq<byte>, n: nat)
    requires Encode(w, b) == Ok(d) && n < |d| && PayloadLen(b.slices) < reader.Modulus()
    ensures Decode(reader, d[..n]).Err?
  {
    hide EntryFor, OffsetAt, Payload, Index, Decode, ForgedTrailer, FirstError, FormatFrame, SizeKept;
    PrefixDecodesExactly(w, reader, b, d, n);
    if b.slices != [] {
      var last := |b.slices| - 1;
      PayloadLenPrefix(b.slices, last);
      assert b.slices[..last + 1] == b.slices;
      KeptWhole(reader, PayloadLen(b.slices[..last]));
      KeptWhole(reader, |b.slices[last].data|);
    } else {
      NoForgedTrailer(d[..n], |d|);
    }
  }

  lemma KeptWhole(w: Width, n: nat)
    requires n < w.Modulus()
    ensures SizeKept(w, n) == n
  {
  }

  lemma NoForgedTrailer(p: seq<byte>, size: nat)
    requires |p| < size == INDEX_START + TRAILER_LEN
    ensures !ForgedTrailer(p, 0)
  {
  }

  /** One slice of 2^32 + r bytes, with a trailer for a container that ends there after its first r. */
  function Forged(r: nat): Blob
    requires 66 + r < TWO_64
  {
    Blob([Slice([], PRESENT, CODEC_NONE, 0, Zeros(r) + LE(66 + r, 8) + TRAILER_MAGIC + Zeros(0x1_0000_0000 - 16))])
  }

  /** Past that bound a prefix can decode: a 32-bit reader drops the high half of the
      length 2^32 + r, and accepts the prefix that the forged trailer ends. */
  lemma NarrowReaderAcceptsPrefix(r: nat)
    requires 66 + r <= W32.MaxInt()
    ensures var b := Forged(r);
            && PayloadLen(b.slices) == 0x1_0000_0000 + r
            && Encode(W64, b).Ok? && 66 + r < |Encode(W64, b).value|
            && Decode(W32, Encode(W64, b).value[..66 + r]).Ok?
            && Decode(W64, Encode(W64, b).value[..66 + r]).Err?
  {
    hide FormatFrame, Decode, LE, FromLE, Index, SizeKept, Zeros, Encode, Forged;
    var b := Forged(r);
    ForgedEncodes(r);
    var d := Encode(W64, b).value;
    ForgedIsThere(r, d);
    KeptPart(r);
    assert b.slices[..0] == [];
    PrefixDecodesExactly(W64, W32, b, d, 66 + r);
    ProperPrefixRejected(W64, W64, b, d, 66 + r);
  }

  lemma ForgedEncodes(r: nat)
    requires 66 + r <= W32.MaxInt()
    ensures var b := Forged(r);
            && |b.slices| == 1 && |b.slices[0].data| == PayloadLen(b.slices) == 0x1_0000_0000 + r
            && Encode(W64, b).Ok? && |Encode(W64, b).value| == 66 + r + 0x1_0000_0000
            && Encode(W64, b).value[50..|Encode(W64, b).value| - TRAILER_LEN] == b.slices[0].data
  {
    hide LE, Zeros, Encode, Payload, PayloadLen;
    var b := Forged(r);
    OneSlice(b.slices);
    EncodeAccepts(W64, b);
    PayloadPlace(W64, b);
  }

  lemma OneSlice(ss: seq<Slice>)
    requires |ss| == 1
    ensures Payload(ss) == ss[0].data && PayloadLen(ss) == |ss[0].data|
  {
    assert ss[..0] == [];
  }

  /** Where the payload region of an encoding is. */
  lemma PayloadPlace(w: Width, b: Blob)
    requires Encode(w, b).Ok?
    ensures |Encode(w, b).value| == EncodedLen(b)
    ensures Encode(w, b).value[10 + 40 * |b.slices|..EncodedLen(b) - TRAILER_LEN] == Payload(b.slices)
  {
    hide FormatFrame, FirstError, Payload, PayloadLen, Index, LE, EntryFor, OffsetAt;
    FormatLaysOut(FrameOf(b));
  }

  lemma KeptPart(r: nat)
    requires r < 0x1_0000_0000
    ensures SizeKept(W32, 0x1_0000_0000 + r) == r && SizeKept(W32, 0) == 0
  {
  }

  lemma ForgedIsThere(r: nat, d: seq<byte>)
    requires 66 + r <= W32.MaxInt() && |d| == 66 + r + 0x1_0000_0000
    requires d[50..|d| - TRAILER_LEN] == Forged(r).slices[0].data
    ensures ForgedTrailer(d[..66 + r], 1)
  {
    hide LE, FromLE, Zeros;
    var data := Forged(r).slices[0].data;
    var p := d[..66 + r];
    SliceOfSlice(d, 50, |d| - TRAILER_LEN, r, r + 8);
    SliceOfSlice(d, 50, |d| - TRAILER_LEN, r + 8, r + 16);
    assert data[r..r + 8] == LE(66 + r, 8) && data[r + 8..r + 16] == TRAILER_MAGIC;
    assert p[|p| - 16..|p| - 8] == d[50 + r..50 + r + 8] && p[|p| - 8..] == d[50 + r + 8..50 + r + 16];
    FieldRoundTrip(66 + r, 8);
  }

  /** Hence encodings form a prefix-free code. */
  lemma EncodePrefixFree(w: Width, b1: Blob, b2: Blob)
    requires Encode(w, b1).Ok? && Encode(w, b2).Ok?
    requires NulFree(b1) && NulFree(b2)
    requires Encode(w, b1).value <= Encode(w, b2).value
    ensures b1 == b2
  {
    var d1, d2 := Encode(w, b1).value, Encode(w, b2).value;
    if |d1| < |d2| {
      ProperPrefixRejected(w, w, b2, d2, |d1|);
      assert d2[..|d1|] == d1;
      RoundTrip(w, b1, d1);
    } else {
      assert d1 == d2;
      EncodeInjective(w, b1, b2);
    }
  }

  // ---------- What is refused, and why

  /** The slice can be encoded: a short name and a known codec. */
  ghost predicate Encodable(s: Slice) { |s.arch| <= 8 && s.codec <= 1 }

  /** Slice `i` is the first that cannot be encoded. */
  ghost predicate FirstBad(ss: seq<Slice>, i: int) {
    0 <= i < |ss| && !Encodable(ss[i]) && forall j :: 0 <= j < i ==> Encodable(ss[j])
  }

  lemma {:induction false} FirstErrorAt(ss: seq<Slice>) returns (i: nat)
    ensures i <= |ss| && forall j :: 0 <= j < i ==> Encodable(ss[j])
    ensures FirstError(ss) ==
              if i == |ss| then None
              else Some(if |ss[i].arch| > 8 then ArchTooLong else UnknownCodec)
    ensures i < |ss| ==> !Encodable(ss[i])
  {
    i := 0;
    if ss != [] && Encodable(ss[0]) {
      i := FirstErrorAt(ss[1..]);
      i := i + 1;
    }
  }

  /** Every error of Encode, exactly: too many slices, then the first bad slice, then the size. */
  lemma EncodeRefuses(w: Width, b: Blob)
    ensures Encode(w, b) == Err(TooManySlices) <==> |b.slices| > 65535
    ensures Encode(w, b) == Err(ArchTooLong) <==>
              |b.slices| <= 65535 && exists i :: FirstBad(b.slices, i) && |b.slices[i].arch| > 8
    ensures Encode(w, b) == Err(UnknownCodec) <==>
              |b.slices| <= 65535 && exists i :: FirstBad(b.slices, i) && |b.slices[i].arch| <= 8
    ensures Encode(w, b) == Err(SizeOverflow) <==>
              && |b.slices| <= 65535 && (forall i :: 0 <= i < |b.slices| ==> Encodable(b.slices[i]))
              && 26 + 40 * |b.slices| + PayloadLen(b.slices) > w.MaxInt()
    ensures Encode(w, b).Err? ==> Encode(w, b).error in {TooManySlices, ArchTooLong, UnknownCodec, SizeOverflow}
  {
    hide FormatFrame, FrameOf, PayloadLen;
    var i := FirstErrorAt(b.slices);
    if i < |b.slices| {
      assert FirstBad(b.slices, i);
      assert forall j :: FirstBad(b.slices, j) ==> j == i;
    }
  }

  /** The checks that Decode makes before it looks at an entry. */
  ghost predicate ReadsVersion2(d: seq<byte>) { |d| >= 26 && Ascii("FATBLOB") + [2] <= d }

  ghost predicate EndsInTrailer(d: seq<byte>) { ReadsVersion2(d) && d[|d| - 8..] == Ascii("FATBLOBZ") }

  ghost predicate KnowsItsLength(d: seq<byte>) { EndsInTrailer(d) && FromLE(d[|d| - 16..|d| - 8]) == |d| }

  ghost predicate HasRoomForIndex(d: seq<byte>) { KnowsItsLength(d) && 26 + 40 * FromLE(d[8..10]) <= |d| }

  /** The bytes of entry `i`, and what a reader of width `w` keeps of its range. */
  ghost function EntryAt(d: seq<byte>, i: nat): (e: seq<byte>)
    requires 50 + 40 * i <= |d|
    ensures |e| == 40
  {
    d[10 + 40 * i..50 + 40 * i]
  }

  ghost predicate RangeFits(w: Width, d: seq<byte>, i: nat)
    requires HasRoomForIndex(d) && i < FromLE(d[8..10])
  {
    var e := EntryAt(d, i);
    26 + 40 * FromLE(d[8..10]) + w.Low(U64(e[16..24])) + w.Low(U64(e[24..32])) <= |d|
  }

  ghost predicate RangesFit(w: Width, d: seq<byte>)
    requires HasRoomForIndex(d)
  {
    forall i :: 0 <= i < FromLE(d[8..10]) ==> RangeFits(w, d, i)
  }

  /** Every error of Decode, exactly, in the order of its checks. */
  lemma DecodeRefuses(w: Width, d: seq<byte>)
    ensures Decode(w, d) == Err(TooShort) <==> |d| < 26
    ensures Decode(w, d) == Err(OldVersion) <==> |d| >= 26 && Ascii("FATBLOB") + [1] <= d
    ensures Decode(w, d) == Err(BadMagic) <==>
              |d| >= 26 && !(Ascii("FATBLOB") + [1] <= d) && !(Ascii("FATBLOB") + [2] <= d)
    ensures Decode(w, d) == Err(BadTrailerMagic) <==> ReadsVersion2(d) && !EndsInTrailer(d)
    ensures Decode(w, d) == Err(BadTrailerLength) <==> EndsInTrailer(d) && !KnowsItsLength(d)
    ensures Decode(w, d) == Err(IndexOverrun) <==> KnowsItsLength(d) && !HasRoomForIndex(d)
    ensures Decode(w, d) == Err(OutOfRange) <==> HasRoomForIndex(d) && !RangesFit(w, d)
    ensures Decode(w, d).Ok? <==> HasRoomForIndex(d) && RangesFit(w, d)
  {
    hide FromLE, Width.Low, BlobOf, TrimNul;
    Magics();
    assert Ascii("FATBLOB") + [2] <= d <==> |d| >= 8 && d[..8] == MAGIC;
    assert Ascii("FATBLOB") + [1] <= d <==> |d| >= 8 && d[..8] == MAGIC_V1;
    if HasRoomForIndex(d) {
      var f := ParseFrame(d).value;
      forall i | 0 <= i < |f.entries| ensures InRange(w, f.entries[i], |f.payload|) <==> RangeFits(w, d, i) {
        assert EntryBytes(d, i) == EntryAt(d, i);
      }
    }
  }

  /** Slice `s` says what the bytes of entry `e` say, in a container `d` of `count` entries. */
  ghost predicate ReadFrom(w: Width, d: seq<byte>, count: nat, e: seq<byte>, s: Slice)
    requires |e| == 40 && 26 + 40 * count <= |d|
  {
    var n := |s.arch|;
    var start := 10 + 40 * count + w.Low(U64(e[16..24]));
    var end := start + w.Low(U64(e[24..32]));
    && n <= 8 && s.arch == e[..n] && 0 !in s.arch && (n < 8 ==> e[n] == 0)
    && s.status == e[8] && s.codec == e[9] && s.rawLen == U64(e[32..40])
    && end <= |d| - 16 && s.data == d[start..end]
  }

  lemma SliceReadFrom(w: Width, d: seq<byte>, count: nat, e: seq<byte>)
    requires |e| == 40 && 26 + 40 * count <= |d|
    requires InRange(w, ParseEntry(e), |d| - 26 - 40 * count)
    ensures ReadFrom(w, d, count, e, SliceOf(w, ParseEntry(e), d[10 + 40 * count..|d| - 16]))
  {
    hide FromLE, Width.Low;
    var from := w.Low(U64(e[16..24]));
    SliceOfSlice(d, 10 + 40 * count, |d| - 16, from, from + w.Low(U64(e[24..32])));
    var n := |TrimNul(e[..8])|;
    assert e[..8][..n] == e[..n];
  }

  /** Every field of a decoded blob comes from the documented place. */
  lemma DecodedBytes(w: Width, d: seq<byte>, b: Blob)
    requires Decode(w, d) == Ok(b)
    ensures HasRoomForIndex(d) && |b.slices| == FromLE(d[8..10])
    ensures forall i :: 0 <= i < |b.slices| ==> ReadFrom(w, d, |b.slices|, EntryAt(d, i), b.slices[i])
  {
    hide FromLE, RangesFit, HasRoomForIndex, ReadFrom, SliceOf, InRange, ParseEntry;
    DecodeRefuses(w, d);
    RoomIs(d);
    forall i | 0 <= i < |b.slices| ensures ReadFrom(w, d, |b.slices|, EntryAt(d, i), b.slices[i]) {
      assert EntryBytes(d, i) == EntryAt(d, i);
      assert InRange(w, ParseFrame(d).value.entries[i], |ParseFrame(d).value.payload|);
      SliceReadFrom(w, d, |b.slices|, EntryAt(d, i));
    }
  }

  lemma RoomIs(d: seq<byte>)
    requires HasRoomForIndex(d)
    ensures 26 + 40 * FromLE(d[8..10]) <= |d|
  {
  }
}

/** The byte layout of an encoded blob.

    A `Frame` is what the bytes say before any interpretation: the 40-byte index
    entries, field by field, and the payload region. Laying a frame out and
    reading it back are inverse to each other in both directions, so everything
    about blobs can be argued on frames. */
module Layout {
  import opened Outcome
  import opened Bytes
  import opened Seqs

  // "FATBLOB\x02", its retired predecessor, and "FATBLOBZ"
  const MAGIC: seq<byte> := [0x46, 0x41, 0x54, 0x42, 0x4C, 0x4F, 0x42, 0x02]
  const MAGIC_V1: seq<byte> := [0x46, 0x41, 0x54, 0x42, 0x4C, 0x4F, 0x42, 0x01]
  const TRAILER_MAGIC: seq<byte> := [0x46, 0x41, 0x54, 0x42, 0x4C, 0x4F, 0x42, 0x5A]

  const MAGIC_LEN := 8
  const TRAILER_LEN := 16
  const ENTRY_LEN := 40
  const INDEX_START := 10

  datatype Error =
    // Encode
    | TooManySlices | ArchTooLong | UnknownCodec
    | SizeOverflow  // not an error value: Go panics, the size does not fit `int`
    // Decode
    | TooShort | OldVersion | BadMagic | BadTrailerMagic | BadTrailerLength | IndexOverrun | OutOfRange
    // SplitCanonical and Reconstruct
    | NoTrailer | ReservedArch | MissingArch | NotElf
    // Compression
    | AlreadyCompressed | CompressFailed | CorruptStream | LengthMismatch
    // Assemble
    | Unreadable

  type Name = s: seq<byte> | |s| == 8 witness [0, 0, 0, 0, 0, 0, 0, 0]
  type Reserved = s: seq<byte> | |s| == 6 witness [0, 0, 0, 0, 0, 0]

  datatype Entry = Entry(name: Name, status: byte, codec: byte, reserved: Reserved,
                         offset: uint64, length: uint64, rawLen: uint64)

  datatype Frame = Frame(entries: seq<Entry>, payload: seq<byte>) {
    function PayloadStart(): nat { INDEX_START + ENTRY_LEN * |entries| }

    function Size(): nat { PayloadStart() + |payload| + TRAILER_LEN }
  }

  function FormatEntry(e: Entry): (s: seq<byte>)
    ensures |s| == ENTRY_LEN
  {
    e.name + [e.status, e.codec] + e.reserved + LE(e.offset, 8) + LE(e.length, 8) + LE(e.rawLen, 8)
  }

  function ParseEntry(s: seq<byte>): Entry
    requires |s| == ENTRY_LEN
  {
    Entry(s[..8], s[8], s[9], s[10..16], U64(s[16..24]), U64(s[24..32]), U64(s[32..40]))
  }

  /** The concatenated index entries. */
  function Index(es: seq<Entry>): (s: seq<byte>)
    ensures |s| == ENTRY_LEN * |es|
  {
    if es == [] then [] else Index(es[..|es| - 1]) + FormatEntry(es[|es| - 1])
  }

  function FormatFrame(f: Frame): (d: seq<byte>)
    ensures |d| == f.Size()
  {
    MAGIC + LE(|f.entries|, 2) + Index(f.entries) + f.payload + LE(f.Size(), 8) + TRAILER_MAGIC
  }

  /** The bytes of entry `i` of an index that starts at INDEX_START. */
  function EntryBytes(d: seq<byte>, i: nat): (s: seq<byte>)
    requires INDEX_START + ENTRY_LEN * (i + 1) <= |d|
    ensures |s| == ENTRY_LEN
  {
    d[INDEX_START + ENTRY_LEN * i .. INDEX_START + ENTRY_LEN * (i + 1)]
  }

  function ParseIndex(d: seq<byte>, count: nat): (es: seq<Entry>)
    requires INDEX_START + ENTRY_LEN * count <= |d|
    ensures |es| == count
    ensures forall i :: 0 <= i < count ==> es[i] == ParseEntry(EntryBytes(d, i))
  {
    seq(count, i requires 0 <= i < count => ParseEntry(EntryBytes(d, i)))
  }

  /** The header, trailer and index-size checks of Decode, in its order. */
  function ParseFrame(d: seq<byte>): Result<Frame, Error> {
    if |d| < MAGIC_LEN + 2 + TRAILER_LEN then Err(TooShort)
    else if d[..8] != MAGIC then Err(if d[..8] == MAGIC_V1 then OldVersion else BadMagic)
    else if d[|d| - 8..] != TRAILER_MAGIC then Err(BadTrailerMagic)
    else if U64(d[|d| - 16..|d| - 8]) != |d| then Err(BadTrailerLength)
    else
      var count := U16(d[8..10]);
      var payloadStart := INDEX_START + ENTRY_LEN * count;
      if payloadStart + TRAILER_LEN > |d| then Err(IndexOverrun)
      else Ok(Frame(ParseIndex(d, count), d[payloadStart..|d| - TRAILER_LEN]))
  }

  // ---------- Reading back what was laid out

  /** Where the fields of an entry sit. */
  lemma EntryFields(e: Entry)
    ensures var s := FormatEntry(e);
            && s[..8] == e.name && s[8] == e.status && s[9] == e.codec && s[10..16] == e.reserved
            && s[16..24] == LE(e.offset, 8) && s[24..32] == LE(e.length, 8) && s[32..40] == LE(e.rawLen, 8)
  {
    hide LE;
    var head := e.name + [e.status, e.codec] + e.reserved;
    var s := FormatEntry(e);
    LastPart(head, LE(e.offset, 8));
    LastPart(head + LE(e.offset, 8), LE(e.length, 8));
    LastPart(head + LE(e.offset, 8) + LE(e.length, 8), LE(e.rawLen, 8));
    SliceOfPrefix(head, s, 0, 8);
    SliceOfPrefix(head, s, 10, 16);
    SliceOfPrefix(head + LE(e.offset, 8), s, 16, 24);
    SliceOfPrefix(head + LE(e.offset, 8) + LE(e.length, 8), s, 24, 32);
  }

  lemma EntryRoundTrip(e: Entry)
    ensures ParseEntry(FormatEntry(e)) == e
  {
    hide FormatEntry, LE, FromLE;
    EntryFields(e);
    FieldRoundTrip(e.offset, 8);
    FieldRoundTrip(e.length, 8);
    FieldRoundTrip(e.rawLen, 8);
  }

  lemma EntryReformat(s: seq<byte>)
    requires |s| == ENTRY_LEN
    ensures FormatEntry(ParseEntry(s)) == s
  {
    LEOfFromLE(s[16..24]);
    LEOfFromLE(s[24..32]);
    LEOfFromLE(s[32..40]);
    assert s == s[..8] + [s[8], s[9]] + s[10..16] + s[16..24] + s[24..32] + s[32..40];
  }

  lemma {:induction false} IndexAt(es: seq<Entry>, i: nat)
    requires i < |es|
    ensures Index(es)[ENTRY_LEN * i..ENTRY_LEN * (i + 1)] == FormatEntry(es[i])
  {
    var init := es[..|es| - 1];
    if i < |es| - 1 {
      IndexAt(init, i);
      SliceOfPrefix(Index(init), Index(es), ENTRY_LEN * i, ENTRY_LEN * (i + 1));
    } else {
      LastPart(Index(init), FormatEntry(es[i]));
    }
  }

  /** Any run of 40-byte blocks is the index of the entries it parses to. */
  lemma {:induction false} IndexReformat(d: seq<byte>, count: nat)
    requires INDEX_START + ENTRY_LEN * count <= |d|
    ensures Index(ParseIndex(d, count)) == d[INDEX_START..INDEX_START + ENTRY_LEN * count]
  {
    hide FormatEntry, ParseEntry;
    if count > 0 {
      var es := ParseIndex(d, count);
      IndexReformat(d, count - 1);
      assert es[..count - 1] == ParseIndex(d, count - 1);
      EntryReformat(EntryBytes(d, count - 1));
      SlicesJoin(d, INDEX_START, INDEX_START + ENTRY_LEN * (count - 1), INDEX_START + ENTRY_LEN * count);
    }
  }

  /** `d` is cut, at the places the format fixes, into the parts of `f`. */
  ghost predicate LaidOut(d: seq<byte>, f: Frame) {
    && |d| == f.Size()
    && d[..8] == MAGIC
    && d[8..10] == LE(|f.entries|, 2)
    && d[INDEX_START..f.PayloadStart()] == Index(f.entries)
    && d[f.PayloadStart()..|d| - TRAILER_LEN] == f.payload
    && d[|d| - 16..|d| - 8] == LE(f.Size(), 8)
    && d[|d| - 8..] == TRAILER_MAGIC
  }

  lemma FormatLaysOut(f: Frame)
    ensures LaidOut(FormatFrame(f), f)
  {
  }

  lemma LaidOutIsFormat(d: seq<byte>, f: Frame)
    requires LaidOut(d, f)
    ensures d == FormatFrame(f)
  {
    hide LE, Index;
    assert d == d[..8] + d[8..10] + d[10..f.PayloadStart()] + d[f.PayloadStart()..|d| - 16]
                + d[|d| - 16..|d| - 8] + d[|d| - 8..];
  }

  lemma LaidOutEntryAt(d: seq<byte>, f: Frame, i: nat)
    requires LaidOut(d, f) && i < |f.entries|
    ensures ParseEntry(EntryBytes(d, i)) == f.entries[i]
  {
    IndexAt(f.entries, i);
    SliceOfSlice(d, INDEX_START, f.PayloadStart(), ENTRY_LEN * i, ENTRY_LEN * (i + 1));
    EntryRoundTrip(f.entries[i]);
  }

  lemma LaidOutIndex(d: seq<byte>, f: Frame)
    requires LaidOut(d, f)
    ensures ParseIndex(d, |f.entries|) == f.entries
  {
    forall i | 0 <= i < |f.entries| ensures ParseIndex(d, |f.entries|)[i] == f.entries[i] {
      LaidOutEntryAt(d, f, i);
    }
  }

  lemma LaidOutParses(d: seq<byte>, f: Frame)
    requires LaidOut(d, f) && |f.entries| <= 0xFFFF && f.Size() < TWO_64
    ensures ParseFrame(d) == Ok(f)
  {
    hide LE, FromLE, Index;
    FieldRoundTrip(|f.entries|, 2);
    FieldRoundTrip(f.Size(), 8);
    LaidOutIndex(d, f);
  }

  lemma ParsedIsLaidOut(d: seq<byte>)
    requires ParseFrame(d).Ok?
    ensures LaidOut(d, ParseFrame(d).value)
  {
    var f := ParseFrame(d).value;
    IndexReformat(d, |f.entries|);
    LEOfFromLE(d[8..10]);
    LEOfFromLE(d[|d| - 16..|d| - 8]);
  }

  /** Parsing inverts layout, for every frame the format can express. */
  lemma ParseOfFormat(f: Frame)
    requires |f.entries| <= 0xFFFF && f.Size() < TWO_64
    ensures ParseFrame(FormatFrame(f)) == Ok(f)
  {
    FormatLaysOut(f);
    LaidOutParses(FormatFrame(f), f);
  }

  /** Layout inverts parsing: no byte of an accepted frame is lost. */
  lemma FormatOfParse(d: seq<byte>)
    requires ParseFrame(d).Ok?
    ensures FormatFrame(ParseFrame(d).value) == d
    ensures |ParseFrame(d).value.entries| <= 0xFFFF
  {
    ParsedIsLaidOut(d);
    LaidOutIsFormat(d, ParseFrame(d).value);
  }
}

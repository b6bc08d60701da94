/** Which accepted byte strings are encodings, and what the width of the reading host changes. */
module NormalForm {
  import opened Outcome
  import opened Bytes
  import opened Seqs
  import opened Layout
  import opened Format
  import opened FormatLaws

  // ---------- Exact fixed points of decode-then-encode

  function SumLengths(es: seq<Entry>): nat {
    if es == [] then 0 else SumLengths(es[..|es| - 1]) + es[|es| - 1].length
  }

  ghost predicate CanonicalEntry(e: Entry, offset: nat) {
    && CleanName(e.name)
    && e.reserved == Zeros(6)
    && (e.codec == CODEC_NONE || e.codec == CODEC_XZ)
    && e.offset == offset
  }

  /** Clean names, zero reserved bytes, known codecs, prefix-sum offsets, no unclaimed payload. */
  ghost predicate CanonicalFrame(f: Frame) {
    && (forall i :: 0 <= i < |f.entries| ==> CanonicalEntry(f.entries[i], SumLengths(f.entries[..i])))
    && SumLengths(f.entries) == |f.payload|
  }

  lemma {:induction false} SumLengthsPrefix(es: seq<Entry>, i: nat)
    requires i <= |es|
    ensures SumLengths(es[..i]) <= SumLengths(es)
    ensures i < |es| ==> SumLengths(es[..i]) + es[i].length == SumLengths(es[..i + 1]) <= SumLengths(es)
    decreases |es| - i
  {
    if i == |es| {
      assert es[..i] == es;
    } else {
      PrefixSnoc(es, i);
      SumLengthsPrefix(es, i + 1);
    }
  }

  lemma CanonicalTotal(f: Frame)
    requires CanonicalFrame(f)
    ensures SumLengths(f.entries) == |f.payload|
  {
  }

  lemma CanonicalSlice(w: Width, f: Frame, i: nat)
    requires CanonicalFrame(f) && AllInRange(w, f) && |f.payload| <= w.MaxInt() && i < |f.entries|
    ensures SumLengths(f.entries[..i]) <= SumLengths(f.entries[..i + 1]) <= |f.payload|
    ensures BlobOf(w, f).slices[i].data == f.payload[SumLengths(f.entries[..i])..SumLengths(f.entries[..i + 1])]
  {
    hide TrimNul, Width.Low, CleanName;
    SumLengthsPrefix(f.entries, i);
    assert CanonicalEntry(f.entries[i], SumLengths(f.entries[..i]));
    SizeExact(w, f.entries[i].offset);
    SizeExact(w, f.entries[i].length);
  }

  lemma {:induction false} RebuiltPayload(w: Width, f: Frame, i: nat)
    requires CanonicalFrame(f) && AllInRange(w, f) && |f.payload| <= w.MaxInt() && i <= |f.entries|
    ensures var ss := BlobOf(w, f).slices;
            && PayloadLen(ss[..i]) == SumLengths(f.entries[..i]) <= |f.payload|
            && Payload(ss[..i]) == f.payload[..SumLengths(f.entries[..i])]
  {
    hide SliceOf, InRange, CanonicalFrame;
    var ss := BlobOf(w, f).slices;
    SumLengthsPrefix(f.entries, i);
    CanonicalTotal(f);
    if i > 0 {
      RebuiltPayload(w, f, i - 1);
      PrefixSnoc(ss, i - 1);
      PrefixSnoc(f.entries, i - 1);
      CanonicalSlice(w, f, i - 1);
      PrefixJoin(f.payload, SumLengths(f.entries[..i - 1]), SumLengths(f.entries[..i]));
    }
  }

  lemma RebuiltEntry(w: Width, f: Frame, i: nat)
    requires CanonicalFrame(f) && AllInRange(w, f) && |f.payload| <= w.MaxInt() && i < |f.entries|
    requires PayloadLen(BlobOf(w, f).slices) <= w.MaxInt()
    ensures EntriesOf(BlobOf(w, f).slices)[i] == f.entries[i]
  {
    hide Payload, PayloadLen, OffsetAt, TrimNul, InRange;
    var ss, e := BlobOf(w, f).slices, f.entries[i];
    assert CanonicalEntry(e, SumLengths(f.entries[..i]));
    RebuiltPayload(w, f, i);
    CanonicalSlice(w, f, i);
    SumLengthsPrefix(f.entries, i);
    OffsetExact(w, ss, i);
    SizeExact(w, |ss[i].data|);
    PadOfTrim(e.name);
  }

  lemma RebuiltFrame(w: Width, f: Frame)
    requires CanonicalFrame(f) && AllInRange(w, f) && |f.payload| <= w.MaxInt()
    ensures FrameOf(BlobOf(w, f)) == f
  {
    hide EntryFor, Payload, PayloadLen, OffsetAt, CanonicalFrame, SliceOf;
    var b := BlobOf(w, f);
    RebuiltPayload(w, f, |f.entries|);
    assert b.slices[..|f.entries|] == b.slices && f.entries[..|f.entries|] == f.entries;
    CanonicalTotal(f);
    forall i | 0 <= i < |f.entries| ensures EntriesOf(b.slices)[i] == f.entries[i] {
      RebuiltEntry(w, f, i);
    }
    assert EntriesOf(b.slices) == f.entries;
  }

  lemma {:induction false} EncodedSums(w: Width, ss: seq<Slice>, i: nat)
    requires i <= |ss| && PayloadLen(ss) <= w.MaxInt()
    ensures SumLengths(EntriesOf(ss)[..i]) == PayloadLen(ss[..i])
  {
    hide EntryFor, OffsetAt, Width.Low;
    if i > 0 {
      EncodedSums(w, ss, i - 1);
      FieldsExact(w, ss, i - 1);
      PrefixSnoc(EntriesOf(ss), i - 1);
      PayloadLenPrefix(ss, i - 1);
    }
  }

  lemma CleanPad(a: seq<byte>)
    requires |a| <= 8 && 0 !in a
    ensures CleanName(PadName(a))
  {
    assert forall k :: 0 <= k < |a| ==> PadName(a)[k] == a[k] && a[k] in a;
  }

  /** Encode only ever writes canonical frames. */
  lemma EncodeIsCanonical(w: Width, b: Blob)
    requires Encode(w, b).Ok? && NulFree(b)
    ensures CanonicalFrame(FrameOf(b))
  {
    hide OffsetAt, Payload, FormatFrame, Width.Low;
    EncodeAccepts(w, b);
    var es := FrameOf(b).entries;
    forall i | 0 <= i < |es| ensures CanonicalEntry(es[i], SumLengths(es[..i])) {
      EncodedSums(w, b.slices, i);
      FieldsExact(w, b.slices, i);
      CleanPad(b.slices[i].arch);
    }
    EncodedSums(w, b.slices, |es|);
    assert es[..|es|] == es && b.slices[..|es|] == b.slices;
  }

  lemma DecodedNames(w: Width, d: seq<byte>)
    requires Decode(w, d).Ok?
    ensures NulFree(Decode(w, d).value)
    ensures forall i :: 0 <= i < |Decode(w, d).value.slices| ==> |Decode(w, d).value.slices[i].arch| <= 8
  {
  }

  lemma CanonicalReencodes(w: Width, d: seq<byte>)
    requires |d| <= w.MaxInt() && Decode(w, d).Ok? && CanonicalFrame(ParseFrame(d).value)
    ensures Encode(w, Decode(w, d).value) == Ok(d)
  {
    hide FormatFrame, EntryFor, OffsetAt, Payload, PayloadLen;
    var f := ParseFrame(d).value;
    var b := BlobOf(w, f);
    FormatOfParse(d);
    RebuiltFrame(w, f);
    DecodedNames(w, d);
    forall i | 0 <= i < |b.slices| ensures b.slices[i].codec <= 1 {
      assert CanonicalEntry(f.entries[i], SumLengths(f.entries[..i]));
    }
    EncodeAccepts(w, b);
  }

  /** Decode-then-encode gives back the same bytes exactly on canonical frames:
      nothing after a name's NUL, zero reserved bytes, known codecs, offsets that are
      the prefix sums of the lengths, and lengths that add up to the payload region. */
  lemma ReencodeFixedPoint(w: Width, d: seq<byte>)
    requires |d| <= w.MaxInt() && Decode(w, d).Ok?
    ensures Encode(w, Decode(w, d).value) == Ok(d) <==> CanonicalFrame(ParseFrame(d).value)
  {
    hide FormatFrame, EntryFor, OffsetAt, Payload, PayloadLen, CanonicalFrame;
    var b := Decode(w, d).value;
    if CanonicalFrame(ParseFrame(d).value) {
      CanonicalReencodes(w, d);
    }
    if Encode(w, b) == Ok(d) {
      DecodedNames(w, d);
      EncodeIsCanonical(w, b);
      ParseOfFormat(FrameOf(b));
    }
  }

  /** On any accepted byte string - gaps, overlaps, dirty padding, dirty reserved
      bytes - one decode-and-encode reaches the normal form: decoding again gives
      the same blob, and encoding again the same bytes. */
  lemma NormalFormStable(w: Width, d: seq<byte>, e: seq<byte>)
    requires Decode(w, d).Ok? && Encode(w, Decode(w, d).value) == Ok(e)
    ensures Decode(w, e) == Decode(w, d)
    ensures CanonicalFrame(ParseFrame(e).value)
  {
    hide FormatFrame, EntryFor, OffsetAt, Payload, PayloadLen, CanonicalFrame;
    DecodedNames(w, d);
    RoundTrip(w, Decode(w, d).value, e);
    ReencodeFixedPoint(w, e);
  }

  // ---------- Hosts of different widths

  ghost predicate FieldsFit32(f: Frame) {
    forall i :: 0 <= i < |f.entries| ==>
      f.entries[i].offset < 0x1_0000_0000 && f.entries[i].length < 0x1_0000_0000
  }

  lemma EntryAtBothWidths(e: Entry, payload: seq<byte>)
    requires |payload| <= W32.MaxInt()
    ensures InRange(W64, e, |payload|) <==>
              InRange(W32, e, |payload|) && e.offset < 0x1_0000_0000 && e.length < 0x1_0000_0000
    ensures InRange(W64, e, |payload|) ==> SliceOf(W32, e, payload) == SliceOf(W64, e, payload)
  {
    hide TrimNul;
    AllBits(e.offset);
    AllBits(e.length);
  }

  /** On data short enough for both, a 64-bit host accepts exactly what a 32-bit
      host accepts with every index field below 2^32, and then they agree. */
  lemma WidthIndependence(d: seq<byte>)
    requires |d| <= W32.MaxInt()
    ensures Decode(W64, d).Ok? <==> Decode(W32, d).Ok? && FieldsFit32(ParseFrame(d).value)
    ensures Decode(W64, d).Ok? ==> Decode(W32, d) == Decode(W64, d)
  {
    hide InRange, SliceOf, ParseEntry;
    if ParseFrame(d).Ok? {
      var f := ParseFrame(d).value;
      forall i | 0 <= i < |f.entries|
        ensures InRange(W64, f.entries[i], |f.payload|) <==>
                  && InRange(W32, f.entries[i], |f.payload|)
                  && f.entries[i].offset < 0x1_0000_0000 && f.entries[i].length < 0x1_0000_0000
        ensures InRange(W64, f.entries[i], |f.payload|) ==>
                  SliceOf(W32, f.entries[i], f.payload) == SliceOf(W64, f.entries[i], f.payload)
      {
        EntryAtBothWidths(f.entries[i], f.payload);
      }
      if AllInRange(W64, f) {
        assert BlobOf(W32, f).slices == BlobOf(W64, f).slices;
      }
    }
  }

  /** A one-entry index whose offset is 2^32. */
  const FAR_OFFSET := Frame([Entry(Zeros(8), PRESENT, CODEC_NONE, Zeros(6), 0x1_0000_0000, 0, 0)], [])

  /** The converse fails: a 32-bit host truncates the offset and accepts these 66
      bytes, a 64-bit host rejects them. */
  lemma NarrowHostAcceptsMore()
    ensures Decode(W32, FormatFrame(FAR_OFFSET)).Ok?
    ensures Decode(W64, FormatFrame(FAR_OFFSET)) == Err(OutOfRange)
  {
    ParseOfFormat(FAR_OFFSET);
    assert !InRange(W64, FAR_OFFSET.entries[0], 0);
  }
}

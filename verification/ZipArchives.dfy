/**
 ZIP directories written field by field, as sections 4.3.12, 4.3.16 and 4.5 of PKWARE's
 APPNOTE lay them out: which of them the preflight accepts.
 */
module ZipArchives {
  import opened Prelude
  import opened LittleEndian
  import opened Slices
  import opened ZipDirectory
  import opened ZipPreflight

  lemma TwoOctets(n: nat)
    requires n < 0x1_0000
    ensures Number(Octets(n, 2)) == n
  {
    assert Capacity(2) == 256 * Capacity(1) == 0x1_0000;
    OctetsHoldNumber(n, 2);
  }

  lemma FourOctets(n: nat)
    requires n < 0x1_0000_0000
    ensures Number(Octets(n, 4)) == n
  {
    assert Capacity(4) == 256 * Capacity(3) == 256 * (256 * Capacity(2)) == 0x1_0000_0000;
    OctetsHoldNumber(n, 4);
  }

  // ------------------------------------------------------------ extra fields

  datatype RawField = RawField(id: nat, data: Bytes)

  predicate FieldFits(f: RawField) { f.id < 0x1_0000 && |f.data| < 0x1_0000 }

  predicate FieldsFit(fields: seq<RawField>) {
    forall i :: 0 <= i < |fields| ==> FieldFits(fields[i])
  }

  /** Identifier, length, data. */
  function WrittenField(f: RawField): Bytes
    requires FieldFits(f)
  {
    Octets(f.id, 2) + Octets(|f.data|, 2) + f.data
  }

  function WrittenFields(fields: seq<RawField>): Bytes
    requires FieldsFit(fields)
  {
    if fields == [] then [] else WrittenField(fields[0]) + WrittenFields(fields[1..])
  }

  lemma FieldStarts(f: RawField, rest: Bytes)
    requires FieldFits(f)
    ensures var s := WrittenField(f) + rest;
            && LE16(s, 0) == f.id && LE16(s, 2) == |f.data|
            && s[4..4 + |f.data|] == f.data && s[4 + |f.data|..] == rest
  {
    var s := WrittenField(f) + rest;
    assert s[0..2] == Octets(f.id, 2) && s[2..4] == Octets(|f.data|, 2);
    TwoOctets(f.id);
    TwoOctets(|f.data|);
  }

  /** Extra fields are free of ZIP64 data exactly if none of them has identifier 1. */
  lemma {:induction false} WrittenFieldsArePlain(fields: seq<RawField>)
    requires FieldsFit(fields)
    ensures IsPlain(WrittenFields(fields)) <==> forall i :: 0 <= i < |fields| ==> fields[i].id != 1
  {
    PlainMeansDecodable(WrittenFields(fields));
    if fields != [] {
      var rest := WrittenFields(fields[1..]);
      FieldStarts(fields[0], rest);
      PlainMeansDecodable(rest);
      WrittenFieldsArePlain(fields[1..]);
      assert fields == [fields[0]] + fields[1..];
    }
  }

  // --------------------------------------------------------- central records

  datatype Entry = Entry(
    madeBy: nat, needed: nat, flags: nat, compression: nat, time: nat, date: nat, crc: nat,
    compressedSize: nat, size: nat, disk: nat, internal: nat, external: nat, offset: nat,
    name: Bytes, extra: seq<RawField>, comment: Bytes)

  predicate EntryFits(e: Entry) {
    && e.madeBy < 0x1_0000 && e.needed < 0x1_0000 && e.flags < 0x1_0000 && e.compression < 0x1_0000
    && e.time < 0x1_0000 && e.date < 0x1_0000 && e.disk < 0x1_0000 && e.internal < 0x1_0000
    && e.crc < 0x1_0000_0000 && e.compressedSize < 0x1_0000_0000 && e.size < 0x1_0000_0000
    && e.external < 0x1_0000_0000 && e.offset < 0x1_0000_0000
    && |e.name| < 0x1_0000 && |e.comment| < 0x1_0000
    && FieldsFit(e.extra) && |WrittenFields(e.extra)| < 0x1_0000
  }

  /** `PK`, 1, 2, and the fields up to the checksum of the content. */
  function Opening(e: Entry): (s: Bytes)
    requires EntryFits(e)
    ensures |s| == 20
  {
    [80, 75, 1, 2] + Octets(e.madeBy, 2) + Octets(e.needed, 2) + Octets(e.flags, 2) + Octets(e.compression, 2)
    + Octets(e.time, 2) + Octets(e.date, 2) + Octets(e.crc, 4)
  }

  function Sizes(e: Entry): (s: Bytes)
    requires EntryFits(e)
    ensures |s| == 8
  {
    Octets(e.compressedSize, 4) + Octets(e.size, 4)
  }

  function Lengths(e: Entry): (s: Bytes)
    requires EntryFits(e)
    ensures |s| == 6
  {
    Octets(|e.name|, 2) + Octets(|WrittenFields(e.extra)|, 2) + Octets(|e.comment|, 2)
  }

  function Place(e: Entry): (s: Bytes)
    requires EntryFits(e)
    ensures |s| == 12
  {
    Octets(e.disk, 2) + Octets(e.internal, 2) + Octets(e.external, 4) + Octets(e.offset, 4)
  }

  /** The fixed part, field after field. */
  function Fixed(e: Entry): (s: Bytes)
    requires EntryFits(e)
    ensures |s| == 46
  {
    Opening(e) + Sizes(e) + Lengths(e) + Place(e)
  }

  function Written(e: Entry): Bytes
    requires EntryFits(e)
  {
    Fixed(e) + e.name + WrittenFields(e.extra) + e.comment
  }

  /** The first disk, no size or offset that defers to ZIP64 data, and no such data. */
  predicate Plain(e: Entry) {
    && e.disk == 0 && e.compressedSize != 0xFFFF_FFFF && e.size != 0xFFFF_FFFF && e.offset != 0xFFFF_FFFF
    && forall i :: 0 <= i < |e.extra| ==> e.extra[i].id != 1
  }

  lemma FixedParts(e: Entry)
    requires EntryFits(e)
    ensures var s := Fixed(e);
            && s[0..4] == [80, 75, 1, 2] && s[20..24] == Octets(e.compressedSize, 4) && s[24..28] == Octets(e.size, 4)
            && s[28..30] == Octets(|e.name|, 2) && s[30..32] == Octets(|WrittenFields(e.extra)|, 2)
            && s[32..34] == Octets(|e.comment|, 2) && s[34..36] == Octets(e.disk, 2) && s[42..46] == Octets(e.offset, 4)
  {
    var s := Fixed(e);
    FourParts(Opening(e), Sizes(e), Lengths(e), Place(e));
    assert s[0..20] == Opening(e) && s[20..28] == Sizes(e) && s[28..34] == Lengths(e) && s[34..46] == Place(e);
    assert Opening(e)[0..4] == [80, 75, 1, 2];
    SliceOfSlice(s, 0, 20, 0, 4);
    SliceOfSlice(s, 20, 28, 0, 4);
    SliceOfSlice(s, 20, 28, 4, 8);
    SliceOfSlice(s, 28, 34, 0, 2);
    SliceOfSlice(s, 28, 34, 2, 4);
    SliceOfSlice(s, 28, 34, 4, 6);
    SliceOfSlice(s, 34, 46, 0, 2);
    SliceOfSlice(s, 34, 46, 8, 12);
  }

  lemma FixedFields(e: Entry)
    requires EntryFits(e)
    ensures var s := Fixed(e);
            && s[0..4] == [80, 75, 1, 2] && LE32(s, 20) == e.compressedSize && LE32(s, 24) == e.size
            && LE16(s, 28) == |e.name| && LE16(s, 30) == |WrittenFields(e.extra)| && LE16(s, 32) == |e.comment|
            && LE16(s, 34) == e.disk && LE32(s, 42) == e.offset
  {
    FixedParts(e);
    FourOctets(e.compressedSize);
    FourOctets(e.size);
    TwoOctets(|e.name|);
    TwoOctets(|WrittenFields(e.extra)|);
    TwoOctets(|e.comment|);
    TwoOctets(e.disk);
    FourOctets(e.offset);
  }

  lemma WrittenParts(e: Entry)
    requires EntryFits(e)
    ensures var c := Written(e);
            && |c| >= 46 && c[0..46] == Fixed(e) && |c| == 46 + |e.name| + |WrittenFields(e.extra)| + |e.comment|
            && c[46 + |e.name|..46 + |e.name| + |WrittenFields(e.extra)|] == WrittenFields(e.extra)
  {
    FourParts(Fixed(e), e.name, WrittenFields(e.extra), e.comment);
  }

  lemma WrittenBegins(e: Entry)
    requires EntryFits(e)
    ensures var c, fixed := Written(e), Fixed(e);
            && |c| >= 46 && LE16(c, 28) == |e.name| && LE16(c, 30) == |WrittenFields(e.extra)|
            && SizeAt(c, 0) == SizeAt(fixed, 0) && (PlainHeader(c, 0) <==> PlainHeader(fixed, 0))
  {
    WrittenParts(e);
    FixedFields(e);
    assert Fixed(e)[0..46] == Fixed(e);
    SameHeader(Written(e), 0, Fixed(e), 0);
  }

  lemma FixedSize(e: Entry)
    requires EntryFits(e)
    ensures SizeAt(Fixed(e), 0) == 46 + |e.name| + |WrittenFields(e.extra)| + |e.comment|
  {
    FixedFields(e);
  }

  lemma WrittenIsSized(e: Entry)
    requires EntryFits(e)
    ensures var c := Written(e);
            && |c| >= 46 && SizeAt(c, 0) == |c| && ExtraAt(c, 0) == WrittenFields(e.extra)
            && (PlainHeader(c, 0) <==> PlainHeader(Fixed(e), 0))
  {
    WrittenParts(e);
    WrittenBegins(e);
    FixedSize(e);
  }

  /** A written entry is one record, and an admissible one exactly if it is plain. */
  lemma WrittenIsRecord(e: Entry)
    requires EntryFits(e)
    ensures |Written(e)| >= 46 && SizeAt(Written(e), 0) == |Written(e)|
    ensures RecordAt(Written(e), 0, |Written(e)|) <==> Plain(e)
  {
    WrittenIsSized(e);
    FixedIsPlain(e);
    WrittenFieldsArePlain(e.extra);
  }

  lemma FixedIsPlain(e: Entry)
    requires EntryFits(e)
    ensures PlainHeader(Fixed(e), 0) <==>
              e.disk == 0 && e.compressedSize != 0xFFFF_FFFF && e.size != 0xFFFF_FFFF && e.offset != 0xFFFF_FFFF
  {
    FixedFields(e);
  }

  lemma WrittenIsRecordAt(s: Bytes, pos: nat, end: nat, e: Entry)
    requires EntryFits(e) && pos + |Written(e)| <= end <= |s| && s[pos..pos + |Written(e)|] == Written(e)
    ensures pos + 46 <= end && SizeAt(s, pos) == |Written(e)|
    ensures RecordAt(s, pos, end) <==> Plain(e)
  {
    var c := Written(e);
    WrittenIsRecord(e);
    assert c[0..|c|] == c;
    SameRecord(s, pos, c, 0, |c|);
  }

  // ------------------------------------------------------------ directories

  predicate AllFit(entries: seq<Entry>) {
    forall i :: 0 <= i < |entries| ==> EntryFits(entries[i])
  }

  predicate AllPlain(entries: seq<Entry>) {
    forall i :: 0 <= i < |entries| ==> Plain(entries[i])
  }

  function WrittenAll(entries: seq<Entry>): Bytes
    requires AllFit(entries)
  {
    if entries == [] then [] else Written(entries[0]) + WrittenAll(entries[1..])
  }

  lemma FirstPlain(entries: seq<Entry>)
    requires entries != []
    ensures AllPlain(entries) <==> Plain(entries[0]) && AllPlain(entries[1..])
  {
    assert entries == [entries[0]] + entries[1..];
  }

  /** The turn of the walk at a written entry. */
  lemma EntryTurn(s: Bytes, pos: nat, end: nat, e: Entry, rest: Bytes, count: int)
    requires EntryFits(e) && pos <= end <= |s| && s[pos..end] == Written(e) + rest
    ensures var next := pos + |Written(e)|;
            && next <= end && s[next..end] == rest
            && (HoldsRecords(s, pos, end, count) <==> Plain(e) && HoldsRecords(s, next, end, count - 1))
  {
    HeadAndRest(s, pos, end, Written(e), rest);
    WrittenIsRecordAt(s, pos, end, e);
    TurnDecides(s, pos, end, count);
  }

  lemma {:induction false} DirectoryHolds(s: Bytes, pos: nat, end: nat, entries: seq<Entry>)
    requires AllFit(entries) && pos <= end <= |s| && s[pos..end] == WrittenAll(entries)
    ensures HoldsRecords(s, pos, end, |entries|) <==> AllPlain(entries)
    decreases |entries|
  {
    if entries == [] {
      assert pos == end;
      NothingHeld(s, end, 0);
    } else {
      EntryTurn(s, pos, end, entries[0], WrittenAll(entries[1..]), |entries|);
      DirectoryHolds(s, pos + |Written(entries[0])|, end, entries[1..]);
      FirstPlain(entries);
    }
  }

  /** `PK`, 6, 7 within the twenty octets before the end record. */
  ghost predicate LocatorShows(front: Bytes) {
    exists k: nat {:trigger front[k]} ::
      |front| <= k + 20 && k + 4 <= |front| && front[k] == 80 && front[k..k + 4] == [80, 75, 6, 7]
  }

  lemma LocatorIsShown(front: Bytes)
    ensures LocatorBefore(front, |front|) <==> LocatorShows(front)
  {
    if LocatorBefore(front, |front|) {
      var k: nat :| |front| <= k + LOCATOR_SIZE && k + 4 <= |front| && SignatureAt(front, k, 6, 7);
      assert front[k..k + 4] == [80, 75, 6, 7];
    }
    if LocatorShows(front) {
      var k: nat :| |front| <= k + 20 && k + 4 <= |front| && front[k] == 80 && front[k..k + 4] == [80, 75, 6, 7];
      var four := front[k..k + 4];
      assert front[k + 1] == four[1] && front[k + 2] == four[2] && front[k + 3] == four[3];
      assert SignatureAt(front, k, 6, 7);
    }
  }

  /** What the end record of an archive declares. */
  lemma EndIsRead(front: Bytes, total: nat, size: nat, offset: nat)
    requires total < 0x1_0000 && size < 0x1_0000_0000 && offset < 0x1_0000_0000 && offset + size == |front|
    ensures var s, e := front + EndRecord(total, size, offset), |front|;
            && EndAt(s, e) && (forall k: nat :: EndAt(s, k) ==> k <= e)
            && total == LE16(s, e + 10) && size == LE32(s, e + 12) && offset == LE32(s, e + 16)
            && (Declares(s, e, total, size, offset) <==>
                  total != 0xFFFF && size != 0xFFFF_FFFF && offset != 0xFFFF_FFFF)
  {
    EndRecordHolds(total, size, offset);
    EndOfFile(front, EndRecord(total, size, offset));
  }

  /** What else decides about an archive, beside the walk through its directory. */
  lemma FrameDecides(prefix: Bytes, directory: Bytes, total: nat)
    requires total < 0x1_0000 && |prefix| < 0x1_0000_0000 && |directory| < 0x1_0000_0000
    ensures var s := prefix + directory + EndRecord(total, |directory|, |prefix|);
            (exists e, offset, records :: Admissible(s, e, offset, records)) <==>
              && total <= 10_000 && |prefix| != 0xFFFF_FFFF && |directory| != 0xFFFF_FFFF
              && !LocatorShows(prefix + directory)
              && HoldsRecords(s, |prefix|, |prefix + directory|, total)
  {
    var front, end := prefix + directory, EndRecord(total, |directory|, |prefix|);
    EndIsRead(front, total, |directory|, |prefix|);
    LocatorIsBefore(front, end);
    LocatorIsShown(front);
    EndRecordDecides(front + end, |front|, total, |directory|, |prefix|);
  }

  /**
   An archive of any prefix, a directory and an end record without a comment is
   accepted exactly if it has at most 10,000 entries, all of them plain, neither size
   nor offset defers to ZIP64 data, and no ZIP64 locator shows before the end record.
   */
  lemma WrittenArchiveIsAccepted(prefix: Bytes, entries: seq<Entry>)
    requires AllFit(entries) && |entries| < 0x1_0000
    requires |prefix| < 0x1_0000_0000 && |WrittenAll(entries)| < 0x1_0000_0000
    ensures var directory := WrittenAll(entries);
            var s := prefix + directory + EndRecord(|entries|, |directory|, |prefix|);
            (exists e, offset, records :: Admissible(s, e, offset, records)) <==>
              && |entries| <= 10_000 && AllPlain(entries)
              && |prefix| != 0xFFFF_FFFF && |directory| != 0xFFFF_FFFF
              && !LocatorShows(prefix + directory)
  {
    var directory := WrittenAll(entries);
    var s := prefix + directory + EndRecord(|entries|, |directory|, |prefix|);
    FrameDecides(prefix, directory, |entries|);
    assert s[|prefix|..|prefix + directory|] == directory;
    DirectoryHolds(s, |prefix|, |prefix + directory|, entries);
  }

  /** `PK`, 5, 6, what the record declares, and a comment behind its length. */
  function CommentedEnd(middle: Bytes, comment: Bytes): (s: Bytes)
    requires |middle| == 16 && |comment| < 0x1_0000
    ensures |s| == 22 + |comment|
  {
    [80, 75, 5, 6] + middle + Octets(|comment|, 2) + comment
  }

  /** An end record with a comment of the length it declares is found at the end of the file. */
  lemma CommentedEndIsFound(front: Bytes, middle: Bytes, comment: Bytes)
    requires |middle| == 16 && |comment| < 0x1_0000
    ensures EndAt(front + CommentedEnd(middle, comment), |front|)
  {
    var end := CommentedEnd(middle, comment);
    FourParts([80, 75, 5, 6], middle, Octets(|comment|, 2), comment);
    assert end[0..4] == [80, 75, 5, 6] && end[20..22] == Octets(|comment|, 2);
    assert end[0] == end[0..4][0] && end[1] == end[0..4][1] && end[2] == end[0..4][2] && end[3] == end[0..4][3];
    TwoOctets(|comment|);
    EndIsBehind(front, end, |comment|);
  }

  lemma EndIsBehind(front: Bytes, end: Bytes, length: nat)
    requires |end| == 22 + length && end[20..22] == Octets(length, 2) && Number(Octets(length, 2)) == length
    requires end[0] == 80 && end[1] == 75 && end[2] == 5 && end[3] == 6
    ensures EndAt(front + end, |front|)
  {
    var s, e := front + end, |front|;
    assert s[e..] == end;
    SuffixSlice(s, e, 20, 22);
  }
}

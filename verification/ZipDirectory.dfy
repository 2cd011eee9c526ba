/** The central directory of a ZIP archive: sections 4.3.12 and 4.5 of PKWARE's APPNOTE. */
module ZipDirectory {
  import opened Prelude
  import opened LittleEndian
  import opened Slices

  const CENTRAL_SIGNATURE: Bytes := [80, 75, 1, 2]
  const CENTRAL_SIZE := 46
  const ZIP64_ID := 1

  // ------------------------------------------------------------ extra fields

  datatype ExtraField = ExtraField(id: nat, data: Bytes)

  /** An extra field that fits its length octets and is not ZIP64 data. */
  type PlainField = f: ExtraField | f.id <= MAX16 && f.id != ZIP64_ID && |f.data| <= MAX16 witness ExtraField(0, [])

  function EncodeExtra(f: PlainField): (s: Bytes)
    ensures |s| == 4 + |f.data|
  {
    Octets(f.id, 2) + Octets(|f.data|, 2) + f.data
  }

  function EncodeExtras(fields: seq<PlainField>): Bytes {
    if fields == [] then [] else EncodeExtra(fields[0]) + EncodeExtras(fields[1..])
  }

  function FirstExtra(extra: Bytes): (f: Option<PlainField>)
    ensures f.Some? ==> 4 + |f.value.data| <= |extra|
  {
    if |extra| < 4 || 4 + LE16(extra, 2) > |extra| || LE16(extra, 0) == ZIP64_ID then None
    else
      LE16Fits(extra, 0);
      LE16Fits(extra, 2);
      Some(ExtraField(LE16(extra, 0), extra[4..4 + LE16(extra, 2)]))
  }

  /** The fields of an extra block, or None when it is malformed or declares ZIP64 data. */
  function PlainExtras(extra: Bytes): Option<seq<PlainField>>
    decreases |extra|
  {
    if extra == [] then Some([])
    else
      match FirstExtra(extra)
      case None => None
      case Some(f) =>
        match PlainExtras(extra[4 + |f.data|..])
        case None => None
        case Some(rest) => Some([f] + rest)
  }

  lemma FirstExtraInverts(f: PlainField, rest: Bytes)
    ensures FirstExtra(EncodeExtra(f) + rest) == Some(f)
    ensures (EncodeExtra(f) + rest)[4 + |f.data|..] == rest
  {
    var id, size := Octets(f.id, 2), Octets(|f.data|, 2);
    var s := EncodeExtra(f) + rest;
    assert Capacity(2) == 256 * Capacity(1) == 0x1_0000;
    OctetsHoldNumber(f.id, 2);
    OctetsHoldNumber(|f.data|, 2);
    assert s[0..2] == id && s[2..4] == size && s[4..4 + |f.data|] == f.data;
  }

  lemma FirstExtraIsEncoded(extra: Bytes)
    requires FirstExtra(extra).Some?
    ensures var f := FirstExtra(extra).value; EncodeExtra(f) + extra[4 + |f.data|..] == extra
  {
    var f := FirstExtra(extra).value;
    assert Capacity(2) == 256 * Capacity(1) == 0x1_0000;
    OctetsHoldNumber(f.id, 2);
    OctetsHoldNumber(|f.data|, 2);
    NumberIsInjective(Octets(f.id, 2), extra[0..2]);
    NumberIsInjective(Octets(|f.data|, 2), extra[2..4]);
    FiveSlices(extra, 0, 2, 4, 4 + |f.data|);
  }

  /** Decoding undoes encoding, on every list of admissible fields. */
  lemma {:induction false} PlainExtrasInverts(fields: seq<PlainField>)
    ensures PlainExtras(EncodeExtras(fields)) == Some(fields)
  {
    if fields == [] {
    } else {
      FirstExtraInverts(fields[0], EncodeExtras(fields[1..]));
      PlainExtrasInverts(fields[1..]);
      assert [fields[0]] + fields[1..] == fields;
    }
  }

  /** Encoding undoes decoding, on every block that is accepted. */
  lemma {:induction false} PlainExtrasAreEncoded(extra: Bytes)
    requires PlainExtras(extra).Some?
    ensures EncodeExtras(PlainExtras(extra).value) == extra
    decreases |extra|
  {
    if extra == [] {
    } else {
      var f := FirstExtra(extra).value;
      var rest := extra[4 + |f.data|..];
      FirstExtraIsEncoded(extra);
      PlainExtrasAreEncoded(rest);
      var fields := [f] + PlainExtras(rest).value;
      assert fields[1..] == PlainExtras(rest).value;
    }
  }

  ghost predicate IsPlain(extra: Bytes) {
    exists fields: seq<PlainField> :: extra == EncodeExtras(fields)
  }

  lemma PlainMeansDecodable(extra: Bytes)
    ensures IsPlain(extra) <==> PlainExtras(extra).Some?
  {
    if PlainExtras(extra).Some? {
      PlainExtrasAreEncoded(extra);
    }
    forall fields: seq<PlainField> | extra == EncodeExtras(fields) ensures PlainExtras(extra).Some? {
      PlainExtrasInverts(fields);
    }
  }

  /** The block from `pos` on, read field by field in place. */
  predicate DecodableFrom(extra: Bytes, pos: nat)
    requires pos <= |extra|
    decreases |extra| - pos
  {
    pos == |extra|
    || (&& pos + 4 <= |extra| && pos + 4 + LE16(extra, pos + 2) <= |extra| && LE16(extra, pos) != ZIP64_ID
        && DecodableFrom(extra, pos + 4 + LE16(extra, pos + 2)))
  }

  lemma OneFieldLess(extra: Bytes, pos: nat)
    requires pos < |extra|
    ensures var rest := extra[pos..];
            if pos + 4 > |extra| || pos + 4 + LE16(extra, pos + 2) > |extra| || LE16(extra, pos) == ZIP64_ID
            then PlainExtras(rest).None?
            else PlainExtras(rest).Some? <==> PlainExtras(extra[pos + 4 + LE16(extra, pos + 2)..]).Some?
  {
    var rest := extra[pos..];
    if pos + 4 <= |extra| {
      SuffixSlice(extra, pos, 0, 2);
      SuffixSlice(extra, pos, 2, 4);
      var size := LE16(extra, pos + 2);
      if pos + 4 + size <= |extra| {
        assert rest[4 + size..] == extra[pos + 4 + size..];
      }
    }
  }

  lemma {:induction false} InPlaceMeansDecodable(extra: Bytes, pos: nat)
    requires pos <= |extra|
    ensures DecodableFrom(extra, pos) <==> PlainExtras(extra[pos..]).Some?
    decreases |extra| - pos
  {
    if pos == |extra| {
      assert extra[pos..] == [];
    } else {
      OneFieldLess(extra, pos);
      if pos + 4 <= |extra| && pos + 4 + LE16(extra, pos + 2) <= |extra| {
        InPlaceMeansDecodable(extra, pos + 4 + LE16(extra, pos + 2));
      }
    }
  }

  /** The loop over the block, field by field. */
  method ScanExtra(extra: Bytes) returns (decodable: bool)
    ensures decodable <==> DecodableFrom(extra, 0)
  {
    var cursor := 0;
    while cursor < |extra|
      invariant cursor <= |extra|
      invariant DecodableFrom(extra, 0) <==> DecodableFrom(extra, cursor)
    {
      if cursor + 4 > |extra| {
        return false;
      }
      var id, size := LE16(extra, cursor), LE16(extra, cursor + 2);
      if cursor + 4 + size > |extra| {
        return false;
      }
      if id == ZIP64_ID {
        return false;
      }
      cursor := cursor + 4 + size;
    }
    return true;
  }

  /** `_zip_extra_uses_zip64`, with its rejection and its answer `True` as one outcome. */
  method ExtraIsPlain(extra: Bytes) returns (plain: bool)
    ensures plain <==> IsPlain(extra)
  {
    PlainMeansDecodable(extra);
    InPlaceMeansDecodable(extra, 0);
    assert extra[0..] == extra;
    plain := ScanExtra(extra);
  }

  // --------------------------------------------------------- central records

  /** What the fixed part at `pos` gives as the size of its record. */
  function SizeAt(s: Bytes, pos: nat): (size: nat)
    requires pos + CENTRAL_SIZE <= |s|
    ensures size >= CENTRAL_SIZE
  {
    CENTRAL_SIZE + LE16(s, pos + 28) + LE16(s, pos + 30) + LE16(s, pos + 32)
  }

  /** Signature, the only disk, and none of the markers that defer to ZIP64 data. */
  predicate PlainHeader(s: Bytes, pos: nat)
    requires pos + CENTRAL_SIZE <= |s|
  {
    && s[pos..pos + 4] == CENTRAL_SIGNATURE && LE16(s, pos + 34) == 0
    && LE32(s, pos + 20) != MAX32 && LE32(s, pos + 24) != MAX32 && LE32(s, pos + 42) != MAX32
  }

  function ExtraAt(s: Bytes, pos: nat): Bytes
    requires pos + CENTRAL_SIZE <= |s| && pos + SizeAt(s, pos) <= |s|
  {
    var n := pos + CENTRAL_SIZE + LE16(s, pos + 28);
    s[n..n + LE16(s, pos + 30)]
  }

  /** A whole admissible record starts at `pos` and ends by `end`. */
  ghost predicate RecordAt(s: Bytes, pos: nat, end: nat)
    requires end <= |s|
  {
    && pos + CENTRAL_SIZE <= |s| && PlainHeader(s, pos)
    && pos + SizeAt(s, pos) <= end && IsPlain(ExtraAt(s, pos))
  }

  /** Octets that are one admissible record and nothing more. */
  ghost predicate IsRecord(c: Bytes) {
    RecordAt(c, 0, |c|) && SizeAt(c, 0) == |c|
  }

  ghost predicate AllRecords(records: seq<Bytes>) {
    forall c :: c in records ==> IsRecord(c)
  }

  function Concat(records: seq<Bytes>): Bytes {
    if records == [] then [] else records[0] + Concat(records[1..])
  }

  /** The region is so many records, one after another, and nothing else. */
  ghost predicate HoldsRecords(s: Bytes, pos: nat, end: nat, count: int)
    requires pos <= end <= |s|
  {
    exists records :: |records| == count && AllRecords(records) && s[pos..end] == Concat(records)
  }

  lemma SameHeader(s: Bytes, pos: nat, t: Bytes, at: nat)
    requires pos + CENTRAL_SIZE <= |s| && at + CENTRAL_SIZE <= |t|
    requires s[pos..pos + CENTRAL_SIZE] == t[at..at + CENTRAL_SIZE]
    ensures LE16(s, pos + 28) == LE16(t, at + 28) && LE16(s, pos + 30) == LE16(t, at + 30)
    ensures SizeAt(s, pos) == SizeAt(t, at) && (PlainHeader(s, pos) <==> PlainHeader(t, at))
  {
    SamePart(s, pos, t, at, CENTRAL_SIZE, 0, 4);
    SamePart(s, pos, t, at, CENTRAL_SIZE, 20, 24);
    SamePart(s, pos, t, at, CENTRAL_SIZE, 24, 28);
    SamePart(s, pos, t, at, CENTRAL_SIZE, 28, 30);
    SamePart(s, pos, t, at, CENTRAL_SIZE, 30, 32);
    SamePart(s, pos, t, at, CENTRAL_SIZE, 32, 34);
    SamePart(s, pos, t, at, CENTRAL_SIZE, 34, 36);
    SamePart(s, pos, t, at, CENTRAL_SIZE, 42, 46);
  }

  /** The octets of a record decide everything about it, wherever they lie. */
  lemma SameRecord(s: Bytes, pos: nat, t: Bytes, at: nat, size: nat)
    requires pos + size <= |s| && at + size <= |t| && s[pos..pos + size] == t[at..at + size]
    requires size >= CENTRAL_SIZE
    ensures SizeAt(s, pos) == SizeAt(t, at)
    ensures SizeAt(s, pos) == size ==> (RecordAt(s, pos, pos + size) <==> RecordAt(t, at, at + size))
  {
    SamePart(s, pos, t, at, size, 0, CENTRAL_SIZE);
    SameHeader(s, pos, t, at);
    if SizeAt(s, pos) == size {
      var n := CENTRAL_SIZE + LE16(s, pos + 28);
      SamePart(s, pos, t, at, size, n, n + LE16(s, pos + 30));
    }
  }

  lemma RecordIsRecord(s: Bytes, pos: nat, end: nat)
    requires end <= |s| && RecordAt(s, pos, end)
    ensures IsRecord(s[pos..pos + SizeAt(s, pos)])
  {
    var size := SizeAt(s, pos);
    var c := s[pos..pos + size];
    assert c[0..size] == c;
    SameRecord(s, pos, c, 0, size);
  }

  lemma RecordIsAt(c: Bytes, s: Bytes, pos: nat, end: nat)
    requires IsRecord(c) && pos + |c| <= end <= |s| && s[pos..pos + |c|] == c
    ensures RecordAt(s, pos, end) && SizeAt(s, pos) == |c|
  {
    assert c[0..|c|] == c;
    SameRecord(c, 0, s, pos, |c|);
  }

  lemma HeadIsAt(s: Bytes, pos: nat, end: nat, c: Bytes, rest: Bytes)
    requires pos <= end <= |s| && IsRecord(c) && s[pos..end] == c + rest
    ensures RecordAt(s, pos, end) && SizeAt(s, pos) == |c|
    ensures pos + |c| <= end && s[pos + |c|..end] == rest
  {
    HeadAndRest(s, pos, end, c, rest);
    RecordIsAt(c, s, pos, end);
  }

  lemma HeldRecordsStart(s: Bytes, pos: nat, end: nat, records: seq<Bytes>)
    requires pos < end <= |s| && AllRecords(records) && s[pos..end] == Concat(records)
    ensures records != [] && RecordAt(s, pos, end)
    ensures var next := pos + SizeAt(s, pos);
            next <= end && AllRecords(records[1..]) && s[next..end] == Concat(records[1..])
  {
    assert records != [];
    assert records[0] in records;
    HeadIsAt(s, pos, end, records[0], Concat(records[1..]));
  }

  lemma RecordBefore(s: Bytes, pos: nat, end: nat, rest: seq<Bytes>)
    requires end <= |s| && RecordAt(s, pos, end)
    requires AllRecords(rest) && s[pos + SizeAt(s, pos)..end] == Concat(rest)
    ensures var records := [s[pos..pos + SizeAt(s, pos)]] + rest;
            AllRecords(records) && s[pos..end] == Concat(records) && |records| == |rest| + 1
  {
    var next := pos + SizeAt(s, pos);
    var records := [s[pos..next]] + rest;
    RecordIsRecord(s, pos, end);
    assert records[0] == s[pos..next] && records[1..] == rest;
    assert s[pos..end] == s[pos..next] + s[next..end];
  }

  lemma HeldBeginsWithRecord(s: Bytes, pos: nat, end: nat, count: int)
    requires pos < end <= |s| && HoldsRecords(s, pos, end, count)
    ensures RecordAt(s, pos, end) && pos + SizeAt(s, pos) <= end
    ensures HoldsRecords(s, pos + SizeAt(s, pos), end, count - 1)
  {
    var records :| |records| == count && AllRecords(records) && s[pos..end] == Concat(records);
    HeldRecordsStart(s, pos, end, records);
    assert |records[1..]| == count - 1;
  }

  lemma RecordExtendsHeld(s: Bytes, pos: nat, end: nat, next: nat, count: int)
    requires end <= |s| && RecordAt(s, pos, end) && next == pos + SizeAt(s, pos)
    requires HoldsRecords(s, next, end, count - 1)
    ensures HoldsRecords(s, pos, end, count)
  {
    var rest :| |rest| == count - 1 && AllRecords(rest) && s[next..end] == Concat(rest);
    RecordBefore(s, pos, end, rest);
  }

  /** What one turn of the walk says about the rest of it. */
  lemma TurnDecides(s: Bytes, pos: nat, end: nat, count: int)
    requires pos < end <= |s|
    ensures !RecordAt(s, pos, end) ==> !HoldsRecords(s, pos, end, count)
    ensures RecordAt(s, pos, end) ==>
              && pos + SizeAt(s, pos) <= end
              && (HoldsRecords(s, pos, end, count) <==> HoldsRecords(s, pos + SizeAt(s, pos), end, count - 1))
  {
    if HoldsRecords(s, pos, end, count) {
      HeldBeginsWithRecord(s, pos, end, count);
    } else if RecordAt(s, pos, end) && HoldsRecords(s, pos + SizeAt(s, pos), end, count - 1) {
      RecordExtendsHeld(s, pos, end, pos + SizeAt(s, pos), count);
    }
  }

  lemma NothingHeld(s: Bytes, end: nat, count: int)
    requires end <= |s|
    ensures HoldsRecords(s, end, end, count) <==> count == 0
  {
    var none: seq<Bytes> := [];
    assert AllRecords(none) && s[end..end] == Concat(none) && |none| == 0;
    forall records: seq<Bytes> | AllRecords(records) && s[end..end] == Concat(records) ensures records == [] {
      if records != [] {
        SomeRecords(records);
      }
    }
  }

  lemma SomeRecords(records: seq<Bytes>)
    requires AllRecords(records) && records != []
    ensures |Concat(records)| >= CENTRAL_SIZE
  {
    assert records[0] in records;
  }

  /** Records are self-delimiting: octets are a run of records in one way at most. */
  lemma {:induction false} SplitIsUnique(records: seq<Bytes>, others: seq<Bytes>)
    requires AllRecords(records) && AllRecords(others) && Concat(records) == Concat(others)
    ensures records == others
    decreases |records|
  {
    if records == [] {
      if others != [] {
        SomeRecords(others);
      }
    } else if others == [] {
      SomeRecords(records);
    } else {
      var s, c, d := Concat(records), records[0], others[0];
      assert c in records && d in others;
      assert s[0..|c|] == c && s[0..|d|] == d;
      RecordIsAt(c, s, 0, |s|);
      RecordIsAt(d, s, 0, |s|);
      assert Concat(records[1..]) == s[|c|..] == Concat(others[1..]);
      SplitIsUnique(records[1..], others[1..]);
      assert records == [c] + records[1..] && others == [d] + others[1..];
    }
  }

  // ---------------------------------------------------- records from their parts

  lemma DescribedIsRecord(c: Bytes, fixed: Bytes, extra: Bytes)
    requires |fixed| == CENTRAL_SIZE <= |c| && c[0..CENTRAL_SIZE] == fixed
    requires PlainHeader(fixed, 0) && SizeAt(fixed, 0) == |c| && IsPlain(extra)
    requires var n := CENTRAL_SIZE + LE16(fixed, 28); c[n..n + LE16(fixed, 30)] == extra
    ensures IsRecord(c)
  {
    assert fixed[0..CENTRAL_SIZE] == fixed;
    SameHeader(c, 0, fixed, 0);
  }

  /** A fixed part that describes its variable parts makes, with them, a record. */
  lemma PartsMakeRecord(fixed: Bytes, name: Bytes, fields: seq<PlainField>, comment: Bytes)
    requires |fixed| == CENTRAL_SIZE && PlainHeader(fixed, 0)
    requires LE16(fixed, 28) == |name| && LE16(fixed, 30) == |EncodeExtras(fields)| && LE16(fixed, 32) == |comment|
    ensures IsRecord(fixed + name + EncodeExtras(fields) + comment)
  {
    var extra := EncodeExtras(fields);
    FourParts(fixed, name, extra, comment);
    DescribedIsRecord(fixed + name + extra + comment, fixed, extra);
  }
}

/** The ZIP preflight: find the end record, then walk the central directory it declares. */
module ZipPreflight {
  import opened Prelude
  import opened LittleEndian
  import opened Slices
  import opened ZipDirectory

  const END_SIZE := 22
  const LOCATOR_SIZE := 20
  const MAX_ARCHIVE_MEMBERS := 10_000

  /** `PK` followed by two given octets: section 4.3.16 for the end record, 4.3.15 for the ZIP64 locator. */
  predicate SignatureAt(s: Bytes, k: nat, a: byte, b: byte) {
    k + 4 <= |s| && s[k] == 80 && s[k + 1] == 75 && s[k + 2] == a && s[k + 3] == b
  }

  /** A signature whose 16-bit comment length ends exactly at the end of the file. */
  predicate EndAt(s: Bytes, k: nat) {
    SignatureAt(s, k, 5, 6) && k + END_SIZE <= |s| && k + END_SIZE + LE16(s, k + 20) == |s|
  }

  // ------------------------------------------------------ the backward search

  /** `tail.rfind(signature, 0, end)`: the greatest match lying wholly before `end`. */
  function RFind(tail: Bytes, end: nat): (c: Option<nat>)
    requires end <= |tail|
    ensures c.Some? ==> c.value + 4 <= end && SignatureAt(tail, c.value, 5, 6)
    ensures forall k: nat :: (c.Some? ==> c.value < k) && k + 4 <= end ==> !SignatureAt(tail, k, 5, 6)
  {
    if end < 4 then None
    else if SignatureAt(tail, end - 4, 5, 6) then Some(end - 4)
    else RFind(tail, end - 1)
  }

  lemma SignaturesDoNotOverlap(s: Bytes, j: nat, k: nat)
    requires SignatureAt(s, j, 5, 6) && SignatureAt(s, k, 5, 6) && j < k
    ensures j + 4 <= k
  {
    assert s[k] == 80 && s[j + 1] != 80 && s[j + 2] != 80 && s[j + 3] != 80;
  }

  function TailStart(s: Bytes): nat {
    if |s| < END_SIZE + 65_535 then 0 else |s| - END_SIZE - 65_535
  }

  lemma TailShows(s: Bytes, start: nat, k: nat)
    requires start <= k <= |s|
    ensures EndAt(s, k) <==> EndAt(s[start..], k - start)
  {
    var tail := s[start..];
    assert forall i :: k <= i < |s| ==> s[i] == tail[i - start];
    if k + END_SIZE <= |s| {
      SuffixSlice(s, start, k - start + 20, k - start + 22);
    }
  }

  /** Every end record of the file lies in the tail: a comment has at most 65,535 octets. */
  lemma EndIsInTail(s: Bytes, k: nat)
    requires EndAt(s, k)
    ensures TailStart(s) <= k && EndAt(s[TailStart(s)..], k - TailStart(s))
  {
    LE16Fits(s, k + 20);
    TailShows(s, TailStart(s), k);
  }

  /** The loop over candidates, last match first. */
  method FindInTail(tail: Bytes) returns (r: Option<nat>)
    ensures r.Some? ==> EndAt(tail, r.value) && forall k: nat :: EndAt(tail, k) ==> k <= r.value
    ensures r.None? ==> forall k: nat :: !EndAt(tail, k)
  {
    var candidate: Option<nat> := RFind(tail, |tail|);
    while candidate.Some?
      invariant candidate.Some? ==> SignatureAt(tail, candidate.value, 5, 6)
      invariant forall k: nat :: EndAt(tail, k) ==> candidate.Some? && k <= candidate.value
      decreases if candidate.Some? then candidate.value + 1 else 0
    {
      var c: nat := candidate.value;
      if c + END_SIZE <= |tail| {
        if c + END_SIZE + LE16(tail, c + 20) == |tail| {
          return Some(c);
        }
      }
      candidate := RFind(tail, c);
      forall k: nat | EndAt(tail, k) ensures candidate.Some? && k <= candidate.value {
        assert k < c;
        SignaturesDoNotOverlap(tail, k, c);
      }
    }
    return None;
  }

  lemma LastInTail(s: Bytes, c: nat)
    requires EndAt(s[TailStart(s)..], c) && forall k: nat :: EndAt(s[TailStart(s)..], k) ==> k <= c
    ensures EndAt(s, TailStart(s) + c) && forall k: nat :: EndAt(s, k) ==> k <= TailStart(s) + c
  {
    TailShows(s, TailStart(s), TailStart(s) + c);
    forall k: nat | EndAt(s, k) ensures k <= TailStart(s) + c {
      EndIsInTail(s, k);
    }
  }

  lemma NoneInTail(s: Bytes)
    requires forall k: nat :: !EndAt(s[TailStart(s)..], k)
    ensures forall k: nat :: !EndAt(s, k)
  {
    forall k: nat | EndAt(s, k) ensures false {
      EndIsInTail(s, k);
    }
  }

  /** `_find_zip_eocd`: the bounded tail search finds what a search of the whole file would. */
  method FindZipEocd(s: Bytes) returns (r: Option<nat>)
    ensures r.Some? ==> EndAt(s, r.value) && forall k: nat :: EndAt(s, k) ==> k <= r.value
    ensures r.None? ==> forall k: nat :: !EndAt(s, k)
  {
    var start := TailStart(s);
    var found := FindInTail(s[start..]);
    if found.None? {
      NoneInTail(s);
      return None;
    }
    LastInTail(s, found.value);
    return Some(start + found.value);
  }

  // ------------------------------------------------------------ the preflight

  /** What the end record at `e` declares: one disk, counts that agree, a directory that ends at `e`. */
  predicate Declares(s: Bytes, e: nat, total: nat, size: nat, offset: nat)
    requires EndAt(s, e)
  {
    && LE16(s, e + 4) == 0 && LE16(s, e + 6) == 0
    && LE16(s, e + 8) == total && LE16(s, e + 10) == total
    && LE32(s, e + 12) == size && LE32(s, e + 16) == offset
    && total != MAX16 && size != MAX32 && offset != MAX32
    && offset + size == e
  }

  ghost predicate LocatorBefore(s: Bytes, e: nat) {
    exists k: nat :: e <= k + LOCATOR_SIZE && k + 4 <= e && SignatureAt(s, k, 6, 7)
  }

  /** The archives the preflight accepts: prefix, directory and end record, and nothing that defers to ZIP64. */
  ghost predicate Admissible(s: Bytes, e: nat, offset: nat, records: seq<Bytes>) {
    && EndAt(s, e) && (forall k: nat :: EndAt(s, k) ==> k <= e)
    && offset <= e && Declares(s, e, |records|, e - offset, offset)
    && !LocatorBefore(s, e)
    && |records| <= MAX_ARCHIVE_MEMBERS && AllRecords(records)
    && s[offset..e] == Concat(records)
  }

  /** `signature in bytes-before-the-end-record`, over at most twenty octets. */
  method HasLocator(s: Bytes, e: nat) returns (found: bool)
    requires e <= |s|
    ensures found <==> LocatorBefore(s, e)
  {
    var k := if e < LOCATOR_SIZE then 0 else e - LOCATOR_SIZE;
    while k + 4 <= e
      invariant forall j: nat :: e <= j + LOCATOR_SIZE && j < k && j + 4 <= e ==> !SignatureAt(s, j, 6, 7)
    {
      if SignatureAt(s, k, 6, 7) {
        return true;
      }
      k := k + 1;
    }
    return false;
  }

  /** One turn of the walk: the header is read first, wherever the declared region ends. */
  method ReadRecord(s: Bytes, pos: nat, end: nat, ghost count: int) returns (size: Option<nat>)
    requires pos < end <= |s|
    ensures size.None? ==> !HoldsRecords(s, pos, end, count)
    ensures size.Some? ==>
              && CENTRAL_SIZE <= size.value <= end - pos
              && (HoldsRecords(s, pos, end, count) <==> HoldsRecords(s, pos + size.value, end, count - 1))
  {
    TurnDecides(s, pos, end, count);
    if pos + CENTRAL_SIZE > |s| {
      return None;
    }
    if s[pos..pos + 4] != CENTRAL_SIGNATURE {
      return None;
    }
    var n, x, c := LE16(s, pos + 28), LE16(s, pos + 30), LE16(s, pos + 32);
    var consumed := pos + CENTRAL_SIZE;
    if consumed + (n + x + c) > end {
      return None;
    }
    var extra := s[consumed + n..consumed + n + x];
    if LE16(s, pos + 34) != 0 || LE32(s, pos + 20) == MAX32 || LE32(s, pos + 24) == MAX32
       || LE32(s, pos + 42) == MAX32 {
      return None;
    }
    var plain := ExtraIsPlain(extra);
    return if plain then Some(CENTRAL_SIZE + (n + x + c)) else None;
  }

  /** The directory walk alone: it accepts exactly the regions that hold `total` records. */
  method WalkDirectory(s: Bytes, offset: nat, end: nat, total: nat) returns (ok: bool)
    requires offset <= end <= |s| && total <= MAX_ARCHIVE_MEMBERS
    ensures ok <==> HoldsRecords(s, offset, end, total)
  {
    var consumed, actual := 0, 0;
    while consumed < end - offset
      invariant offset + consumed <= end && actual <= MAX_ARCHIVE_MEMBERS
      invariant HoldsRecords(s, offset, end, total) <==> HoldsRecords(s, offset + consumed, end, total - actual)
    {
      var size := ReadRecord(s, offset + consumed, end, total - actual);
      if size.None? {
        return false;
      }
      consumed := consumed + size.value;
      actual := actual + 1;
      if actual > MAX_ARCHIVE_MEMBERS {
        return false;
      }
    }
    NothingHeld(s, end, total - actual);
    return actual == total;
  }

  /** An archive is accepted for one end record and one list of records only. */
  lemma AdmissibleInOneWay(s: Bytes, e: nat, i: nat, records: seq<Bytes>, f: nat, j: nat, others: seq<Bytes>)
    requires Admissible(s, e, i, records) && Admissible(s, f, j, others)
    ensures e == f && i == j && records == others
  {
    assert i == LE32(s, e + 16) == j;
    SplitIsUnique(records, others);
  }

  /** Everything but the contents of the directory. */
  ghost predicate Framed(s: Bytes, e: nat, total: nat, offset: nat) {
    && EndAt(s, e) && (forall k: nat :: EndAt(s, k) ==> k <= e)
    && offset <= e && Declares(s, e, total, e - offset, offset)
    && !LocatorBefore(s, e) && total <= MAX_ARCHIVE_MEMBERS
  }

  /** Whether the file is admissible is decided by its last end record and the walk. */
  lemma EndRecordDecides(s: Bytes, e: nat, total: nat, size: nat, offset: nat)
    requires EndAt(s, e) && forall k: nat :: EndAt(s, k) ==> k <= e
    requires total == LE16(s, e + 10) && size == LE32(s, e + 12) && offset == LE32(s, e + 16)
    ensures (exists f, i, records :: Admissible(s, f, i, records)) <==>
              && Declares(s, e, total, size, offset) && !LocatorBefore(s, e)
              && total <= MAX_ARCHIVE_MEMBERS && HoldsRecords(s, offset, e, total)
  {
    if Framed(s, e, total, offset) && HoldsRecords(s, offset, e, total) {
      var records :| |records| == total && AllRecords(records) && s[offset..e] == Concat(records);
      assert Admissible(s, e, offset, records);
    }
    forall f, i, records | Admissible(s, f, i, records)
      ensures f == e && i == offset && Framed(s, e, total, offset) && HoldsRecords(s, offset, e, total)
    {
    }
  }

  /** `_preflight_wheel_members`. */
  method PreflightWheelMembers(s: Bytes) returns (ok: bool)
    ensures ok <==> exists e, offset, records :: Admissible(s, e, offset, records)
  {
    var found := FindZipEocd(s);
    if found.None? {
      return false;
    }
    var e: nat := found.value;
    var total, size, offset := LE16(s, e + 10), LE32(s, e + 12), LE32(s, e + 16);
    EndRecordDecides(s, e, total, size, offset);
    if LE16(s, e + 4) != 0 || LE16(s, e + 6) != 0 || LE16(s, e + 8) != total {
      return false;
    }
    var locator := HasLocator(s, e);
    if locator {
      return false;
    }
    if total == MAX16 || size == MAX32 || offset == MAX32 || offset + size != e {
      return false;
    }
    if total > MAX_ARCHIVE_MEMBERS {
      return false;
    }
    ok := WalkDirectory(s, offset, e, total);
  }

  // --------------------------------------------------------------- round trip

  function EndRecord(total: nat, size: nat, offset: nat): (s: Bytes)
    ensures |s| == END_SIZE
  {
    [80, 75, 5, 6, 0, 0, 0, 0] + Octets(total, 2) + Octets(total, 2) + Octets(size, 4) + Octets(offset, 4) + [0, 0]
  }

  lemma EndRecordHolds(total: nat, size: nat, offset: nat)
    requires total <= MAX16 && size <= MAX32 && offset <= MAX32
    ensures var s := EndRecord(total, size, offset);
            && SignatureAt(s, 0, 5, 6) && LE16(s, 4) == 0 && LE16(s, 6) == 0
            && LE16(s, 8) == total && LE16(s, 10) == total && LE32(s, 12) == size && LE32(s, 16) == offset
            && LE16(s, 20) == 0
  {
    var s := EndRecord(total, size, offset);
    assert Capacity(2) == 256 * Capacity(1) == MAX16 + 1;
    assert Capacity(4) == 256 * Capacity(3) == 256 * (256 * Capacity(2)) == MAX32 + 1;
    OctetsHoldNumber(total, 2);
    OctetsHoldNumber(size, 4);
    OctetsHoldNumber(offset, 4);
    assert s[8..10] == s[10..12] == Octets(total, 2);
    assert s[12..16] == Octets(size, 4) && s[16..20] == Octets(offset, 4);
    assert s[4..6] == [0, 0] && s[6..8] == [0, 0] && s[20..22] == [0, 0];
    assert Number([0, 0]) == 0 by {
      assert [0, 0][1..] == [0] && [0][1..] == [];
    }
  }

  lemma EndOfFile(front: Bytes, end: Bytes)
    requires |end| == END_SIZE
    ensures var s, e := front + end, |front|;
            && (SignatureAt(s, e, 5, 6) <==> SignatureAt(end, 0, 5, 6))
            && LE16(s, e + 4) == LE16(end, 4) && LE16(s, e + 6) == LE16(end, 6) && LE16(s, e + 8) == LE16(end, 8)
            && LE16(s, e + 10) == LE16(end, 10) && LE32(s, e + 12) == LE32(end, 12) && LE32(s, e + 16) == LE32(end, 16)
            && LE16(s, e + 20) == LE16(end, 20)
  {
    var s, e := front + end, |front|;
    assert s[e..] == end;
    SuffixSlice(s, e, 4, 6);
    SuffixSlice(s, e, 6, 8);
    SuffixSlice(s, e, 8, 10);
    SuffixSlice(s, e, 10, 12);
    SuffixSlice(s, e, 12, 16);
    SuffixSlice(s, e, 16, 20);
    SuffixSlice(s, e, 20, 22);
  }

  lemma LocatorIsBefore(front: Bytes, end: Bytes)
    ensures LocatorBefore(front + end, |front|) <==> LocatorBefore(front, |front|)
  {
    var s := front + end;
    forall k: nat | k + 4 <= |front| ensures SignatureAt(s, k, 6, 7) <==> SignatureAt(front, k, 6, 7) {
      assert s[k] == front[k] && s[k + 1] == front[k + 1] && s[k + 2] == front[k + 2] && s[k + 3] == front[k + 3];
    }
  }

  lemma AssembledIsFramed(front: Bytes, total: nat, offset: nat)
    requires total <= MAX_ARCHIVE_MEMBERS && offset <= |front| && offset < MAX32 && |front| - offset < MAX32
    requires !LocatorBefore(front, |front|)
    ensures Framed(front + EndRecord(total, |front| - offset, offset), |front|, total, offset)
  {
    var end := EndRecord(total, |front| - offset, offset);
    EndRecordHolds(total, |front| - offset, offset);
    EndOfFile(front, end);
    LocatorIsBefore(front, end);
  }

  /** Any list of records after any prefix, closed by an end record without a comment, is accepted. */
  lemma AssembledIsAdmissible(prefix: Bytes, records: seq<Bytes>)
    requires AllRecords(records) && |records| <= MAX_ARCHIVE_MEMBERS
    requires |prefix| < MAX32 && |Concat(records)| < MAX32
    requires !LocatorBefore(prefix + Concat(records), |prefix| + |Concat(records)|)
    ensures var directory := Concat(records);
            Admissible(prefix + directory + EndRecord(|records|, |directory|, |prefix|),
                       |prefix| + |directory|, |prefix|, records)
  {
    var directory := Concat(records);
    var front := prefix + directory;
    AssembledIsFramed(front, |records|, |prefix|);
    assert (front + EndRecord(|records|, |directory|, |prefix|))[|prefix|..|front|] == directory;
  }
}

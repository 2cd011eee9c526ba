/**
 Tar archives written field by field, in the ustar Interchange Format of IEEE Std
 1003.1: which of them the preflight accepts.
 */
module TarArchives {
  import opened Prelude
  import opened TarFields
  import opened TarPreflight
  import opened Slices

  /** The fields of one header but its size, its checksum, magic and version. */
  datatype Fields = Fields(
    name: Bytes, mode: Bytes, uid: Bytes, gid: Bytes, mtime: Bytes, typeFlag: byte, linkName: Bytes,
    userName: Bytes, groupName: Bytes, deviceMajor: Bytes, deviceMinor: Bytes, prefix: Bytes)

  predicate Sized(f: Fields) {
    && |f.name| == 100 && |f.mode| == 8 && |f.uid| == 8 && |f.gid| == 8 && |f.mtime| == 12 && |f.linkName| == 100
    && |f.userName| == 32 && |f.groupName| == 32 && |f.deviceMajor| == 8 && |f.deviceMinor| == 8
    && |f.prefix| == 155
  }

  function Zeros(n: nat): (s: Bytes)
    ensures |s| == n && AllZero(s)
  {
    seq(n, _ => 0)
  }

  /** `ustar`, NUL, `00`. */
  const MAGIC: Bytes := [117, 115, 116, 97, 114, 0, 48, 48]

  /** What stands before the checksum field: the size as eleven octal digits and a NUL, in the fifth field. */
  function Front(f: Fields, size: nat): (s: Bytes)
    requires Sized(f)
    ensures |s| == 148
  {
    (f.name + f.mode + f.uid + f.gid) + (OctalText(size, 11) + [0]) + f.mtime
  }

  function Back(f: Fields): (s: Bytes)
    requires Sized(f)
    ensures |s| == 356
  {
    [f.typeFlag] + f.linkName + MAGIC + f.userName + f.groupName + f.deviceMajor + f.deviceMinor + f.prefix + Zeros(12)
  }

  /** The checksum is taken over the header with a blank checksum field. */
  function ChecksumField(f: Fields, size: nat): (s: Bytes)
    requires Sized(f)
    ensures |s| == 8
  {
    OctalText(Sum(Front(f, size) + [32, 32, 32, 32, 32, 32, 32, 32] + Back(f)), 6) + [0, 32]
  }

  function Header(f: Fields, size: nat): (h: Bytes)
    requires Sized(f)
    ensures |h| == 512
  {
    Front(f, size) + ChecksumField(f, size) + Back(f)
  }

  lemma Middle(a: Bytes, b: Bytes, c: Bytes)
    ensures (a + b + c)[..|a|] == a && (a + b + c)[|a|..|a| + |b|] == b && (a + b + c)[|a| + |b|..] == c
  {
  }

  lemma HeaderSize(f: Fields, size: nat)
    requires Sized(f)
    ensures Header(f, size)[124..136] == OctalText(size, 11) + [0]
    ensures Header(f, size)[156] == f.typeFlag
  {
    var h := Header(f, size);
    Middle(f.name + f.mode + f.uid + f.gid, OctalText(size, 11) + [0], f.mtime);
    Middle(Front(f, size), ChecksumField(f, size), Back(f));
    assert h[124..136] == h[..148][124..136];
    assert h[156] == h[156..][0];
  }

  lemma HeaderChecksum(f: Fields, size: nat)
    requires Sized(f)
    ensures ChecksumHolds(Header(f, size)) && Header(f, size) != ZeroBlock()
  {
    var h, plain := Header(f, size), Front(f, size) + [32, 32, 32, 32, 32, 32, 32, 32] + Back(f);
    Middle(Front(f, size), ChecksumField(f, size), Back(f));
    Middle(Front(f, size), [32, 32, 32, 32, 32, 32, 32, 32], Back(f));
    assert seq(8, _ => 32 as byte) == [32, 32, 32, 32, 32, 32, 32, 32];
    assert Blanked(h) == plain;
    ObservedIsBlankedSum(h);
    assert h == Stamp(h);
    StampIsAccepted(h);
    assert h[155] == h[148..156][7] == 32;
  }

  lemma EightToTheEleventh()
    ensures Pow8(11) == 8_589_934_592
  {
    assert Pow8(3) == 512;
    assert Pow8(6) == 8 * (8 * (8 * Pow8(3)));
    assert Pow8(9) == 8 * (8 * (8 * Pow8(6)));
    assert Pow8(11) == 8 * (8 * Pow8(9));
  }

  lemma HeaderSizeIsRead(f: Fields, size: nat)
    requires Sized(f) && size < 8_589_934_592
    ensures SizeField(Header(f, size)) == Some(size) && TypeOf(Header(f, size)) == f.typeFlag
  {
    HeaderSize(f, size);
    EightToTheEleventh();
    OctalIsRead(size, 11, [0]);
  }

  /** A header is allowed for files, directories and extensions of at most 1 MiB, and reads as what was written. */
  lemma HeaderIsAllowed(f: Fields, size: nat)
    requires Sized(f) && size < 8_589_934_592
    ensures HeaderAllowed(Header(f, size)) <==>
              || f.typeFlag as int in {0, '0' as int, '5' as int}
              || (f.typeFlag as int in {'x' as int, 'g' as int, 'L' as int} && size <= 1_048_576)
    ensures SizeField(Header(f, size)) == Some(size) && TypeOf(Header(f, size)) == f.typeFlag
  {
    HeaderSizeIsRead(f, size);
    HeaderChecksum(f, size);
  }

  // --------------------------------------------------------------- archives

  datatype Entry = Entry(fields: Fields, content: Bytes)

  /** A header, the content, and NULs up to a multiple of 512. */
  function Written(e: Entry): Bytes
    requires Sized(e.fields)
  {
    Header(e.fields, |e.content|) + e.content + Zeros((512 - |e.content| % 512) % 512)
  }

  predicate AllSized(entries: seq<Entry>) {
    forall i :: 0 <= i < |entries| ==> Sized(entries[i].fields) && |entries[i].content| < 8_589_934_592
  }

  function WrittenAll(entries: seq<Entry>): Bytes
    requires AllSized(entries)
  {
    if entries == [] then [] else Written(entries[0]) + WrittenAll(entries[1..])
  }

  /** The entries, two zero blocks, and more zeros. */
  function Archive(entries: seq<Entry>, more: nat): Bytes
    requires AllSized(entries)
  {
    WrittenAll(entries) + Zeros(1024 + more)
  }

  /** `GNU.sparse.` stands somewhere in the text. */
  ghost predicate MentionsSparse(s: Bytes) {
    exists i {:trigger s[i]} ::
      0 <= i && i + 11 <= |s| && s[i] == 'G' as int && s[i..i + 11] == [71, 78, 85, 46, 115, 112, 97, 114, 115, 101, 46]
  }

  /** Files and directories of any size, extensions up to 1 MiB, and no sparse form in those of pax. */
  ghost predicate Fits(e: Entry) {
    var t := e.fields.typeFlag as int;
    || t in {0, '0' as int, '5' as int}
    || (t == 'L' as int && |e.content| <= 1_048_576)
    || (t in {'x' as int, 'g' as int} && |e.content| <= 1_048_576 && !MentionsSparse(e.content))
  }

  lemma SparseIsContained(s: Bytes)
    ensures Contains(s, SPARSE_MARKER) <==> MentionsSparse(s)
  {
    forall i | 0 <= i <= |s| && OccursAt(SPARSE_MARKER, s, i) ensures MentionsSparse(s) {
      assert s[i] == s[i..i + 11][0];
    }
    if MentionsSparse(s) {
      var i :| 0 <= i && i + 11 <= |s| && s[i] == 'G' as int && s[i..i + 11] == SPARSE_MARKER;
      assert OccursAt(SPARSE_MARKER, s, i);
    }
  }

  lemma PaddedLength(n: nat)
    ensures n + (512 - n % 512) % 512 == Padded(n)
  {
  }

  /** What stands in a written entry: its header, its payload, and the content in front of the payload. */
  lemma WrittenParts(e: Entry)
    requires Sized(e.fields) && |e.content| < 8_589_934_592
    ensures var w := Written(e);
            && |w| == 512 + Padded(|e.content|) && w[..512] == Header(e.fields, |e.content|)
            && w[512..512 + |e.content|] == e.content
  {
    PaddedLength(|e.content|);
    Middle(Header(e.fields, |e.content|), e.content, Zeros((512 - |e.content| % 512) % 512));
  }

  /** A written entry is an allowed member, spanning a block and its padded content, exactly if it fits. */
  lemma WrittenIsMember(s: Bytes, pos: nat, e: Entry)
    requires Sized(e.fields) && |e.content| < 8_589_934_592
    requires pos + |Written(e)| <= |s| && s[pos..pos + |Written(e)|] == Written(e)
    ensures |Written(e)| >= 512 && s[pos..pos + 512] != ZeroBlock()
    ensures MemberAt(s, pos) <==> Fits(e)
    ensures Fits(e) ==> EndOfMember(s, pos) == pos + |Written(e)| == pos + 512 + Padded(|e.content|)
  {
    var w, size := Written(e), |e.content|;
    WrittenParts(e);
    SliceOfSlice(s, pos, pos + |w|, 0, 512);
    SliceOfSlice(s, pos, pos + |w|, 512, 512 + size);
    HeaderIsAllowed(e.fields, size);
    HeaderChecksum(e.fields, size);
    SparseIsContained(e.content);
    if HeaderAllowed(s[pos..pos + 512]) {
      SliceOfSlice(s, pos + 512, pos + |w|, 0, size);
      assert s[pos + 512..EndOfMember(s, pos)][..size] == e.content;
    }
  }

  ghost predicate AllFit(entries: seq<Entry>) {
    forall i :: 0 <= i < |entries| ==> Fits(entries[i])
  }

  lemma FirstFits(entries: seq<Entry>)
    requires entries != []
    ensures AllFit(entries) <==> Fits(entries[0]) && AllFit(entries[1..])
  {
    assert entries == [entries[0]] + entries[1..];
  }

  lemma ArchiveBegins(entries: seq<Entry>, more: nat)
    requires AllSized(entries) && entries != []
    ensures Archive(entries, more) == Written(entries[0]) + WrittenAll(entries[1..]) + Zeros(1024 + more)
    ensures Archive(entries[1..], more) == WrittenAll(entries[1..]) + Zeros(1024 + more)
  {
  }

  lemma WrittenIsFirst(s: Bytes, pos: nat, entries: seq<Entry>, more: nat)
    requires AllSized(entries) && entries != [] && pos <= |s| && s[pos..] == Archive(entries, more)
    ensures var next := pos + |Written(entries[0])|;
            next <= |s| && s[pos..next] == Written(entries[0]) && s[next..] == Archive(entries[1..], more)
  {
    ArchiveBegins(entries, more);
    FirstOfThree(s, pos, Written(entries[0]), WrittenAll(entries[1..]), Zeros(1024 + more));
  }

  /** The turn of the loop at a written entry. */
  lemma EntryTurn(s: Bytes, pos: nat, e: Entry, members: nat)
    requires Sized(e.fields) && |e.content| < 8_589_934_592
    requires pos + |Written(e)| <= |s| && s[pos..pos + |Written(e)|] == Written(e)
    ensures Continues(s, pos, 0, members) <==>
              members < 10_000 && Fits(e) && Continues(s, pos + |Written(e)|, 0, members + 1)
  {
    WrittenIsMember(s, pos, e);
    MemberTurn(s, pos, 0, members);
  }

  lemma {:induction false} ArchiveContinues(s: Bytes, pos: nat, entries: seq<Entry>, more: nat, members: nat)
    requires AllSized(entries) && pos <= |s| && s[pos..] == Archive(entries, more)
    ensures Continues(s, pos, 0, members) <==> members + |entries| <= 10_000 && AllFit(entries)
    decreases |entries|
  {
    if entries == [] {
      ZerosContinue(s, pos, more, members);
    } else {
      WrittenIsFirst(s, pos, entries, more);
      EntryTurn(s, pos, entries[0], members);
      ArchiveContinues(s, pos + |Written(entries[0])|, entries[1..], more, members + 1);
      FirstFits(entries);
    }
  }

  lemma ZerosContinue(s: Bytes, pos: nat, more: nat, members: nat)
    requires pos <= |s| && s[pos..] == [] + Zeros(1024 + more)
    ensures Continues(s, pos, 0, members) <==> members <= 10_000
  {
    assert |s| == pos + 1024 + more;
    assert forall i :: pos <= i < |s| ==> s[i] == s[pos..][i - pos] == 0;
    assert s[pos..pos + 512] == ZeroBlock() && s[pos + 512..pos + 512 + 512] == ZeroBlock();
    ZeroTurn(s, pos, 0, members);
    ZeroTurn(s, pos + 512, 1, members);
    LastTurn(s, pos + 1024, members);
  }

  /**
   The preflight accepts an archive exactly if it has at most 10,000 entries and 512 MiB
   and every entry fits: at most 1 MiB of extension, and no sparse form.
   */
  lemma ArchiveIsAcceptable(entries: seq<Entry>, more: nat)
    requires AllSized(entries)
    ensures Acceptable(Archive(entries, more)) <==>
              && |Archive(entries, more)| <= 536_870_912 && |entries| <= 10_000
              && forall i :: 0 <= i < |entries| ==> Fits(entries[i])
  {
    var s := Archive(entries, more);
    AcceptableContinues(s);
    assert s[0..] == s;
    ArchiveContinues(s, 0, entries, more, 0);
  }
}

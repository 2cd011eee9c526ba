/** The tar preflight: which expanded streams it accepts, and what it spools. */
module TarPreflight {
  import opened Prelude
  import opened Slices
  import opened TarFields

  const MAX_ARCHIVE_MEMBERS := 10_000
  const MAX_EXPANDED_TAR_BYTES := 512 * 1024 * 1024
  const MAX_TAR_EXTENSION_BYTES := 1024 * 1024
  const READ_SIZE := 1_048_576

  /** `GNU.sparse.` */
  const SPARSE_MARKER: Bytes := [71, 78, 85, 46, 115, 112, 97, 114, 115, 101, 46]

  predicate OccursAt(part: Bytes, s: Bytes, i: nat) {
    i + |part| <= |s| && s[i..i + |part|] == part
  }

  /** `part in s`. */
  predicate Contains(s: Bytes, part: Bytes) {
    exists i | 0 <= i <= |s| :: OccursAt(part, s, i)
  }

  predicate AllZero(s: Bytes) {
    forall i :: 0 <= i < |s| ==> s[i] == 0
  }

  function ZeroBlock(): (s: Bytes)
    ensures |s| == BLOCK && AllZero(s)
  {
    seq(BLOCK, _ => 0)
  }

  // ------------------------------------------------------------ one member

  /** NUL and `0` files, `5` directories, and the extensions `x`, `g` and `L`. */
  predicate AllowedType(t: byte) { t in {0, 48, 53, 120, 103, 76} }

  predicate Extension(t: byte) { t in {120, 103, 76} }

  predicate PaxExtension(t: byte) { t in {120, 103} }

  function TypeOf(header: Bytes): byte
    requires |header| == BLOCK
  {
    header[156]
  }

  function SizeField(header: Bytes): Option<nat>
    requires |header| == BLOCK
  {
    TarNumber(header[124..136])
  }

  predicate HeaderAllowed(header: Bytes)
    requires |header| == BLOCK
  {
    && ChecksumHolds(header)
    && SizeField(header).Some?
    && AllowedType(TypeOf(header))
    && (Extension(TypeOf(header)) ==> SizeField(header).value <= MAX_TAR_EXTENSION_BYTES)
  }

  function Padded(size: nat): (p: nat)
    ensures size <= p < size + BLOCK && p % BLOCK == 0
  {
    (size + 511) / 512 * 512
  }

  predicate PayloadAllowed(header: Bytes, payload: Bytes)
    requires |header| == BLOCK && HeaderAllowed(header) && |payload| == Padded(SizeField(header).value)
  {
    PaxExtension(TypeOf(header)) ==> !Contains(payload[..SizeField(header).value], SPARSE_MARKER)
  }

  // ------------------------------------------------------------- the grammar

  datatype Item = Zero | Member(header: Bytes, payload: Bytes)

  predicate ItemAllowed(item: Item) {
    item.Member? ==>
      && |item.header| == BLOCK && item.header != ZeroBlock() && HeaderAllowed(item.header)
      && |item.payload| == Padded(SizeField(item.header).value)
      && PayloadAllowed(item.header, item.payload)
  }

  function Encode(item: Item): Bytes {
    if item.Zero? then ZeroBlock() else item.header + item.payload
  }

  function EncodeAll(items: seq<Item>): Bytes {
    if items == [] then [] else Encode(items[0]) + EncodeAll(items[1..])
  }

  function Members(items: seq<Item>): nat {
    if items == [] then 0 else (if items[0].Member? then 1 else 0) + Members(items[1..])
  }

  /** After `zeros` zero blocks in a row: the items up to and including the second of two adjacent ones. */
  predicate Ends(items: seq<Item>, zeros: nat) {
    if zeros >= 2 then items == []
    else items != [] && Ends(items[1..], if items[0].Zero? then zeros + 1 else 0)
  }

  /** The same without counting: the only adjacent pair of zero blocks is the last two items. */
  predicate ClosedByTwoZeros(items: seq<Item>) {
    && |items| >= 2 && ZeroPairAt(items, |items| - 2)
    && forall i :: 0 <= i < |items| - 2 ==> !ZeroPairAt(items, i)
  }

  predicate ZeroPairAt(items: seq<Item>, i: nat)
    requires i + 1 < |items|
  {
    items[i].Zero? && items[i + 1].Zero?
  }

  ghost predicate AllAllowed(items: seq<Item>) {
    forall item :: item in items ==> ItemAllowed(item)
  }

  /** The streams that the preflight accepts: allowed items up to two zero blocks, then zeros only. */
  ghost predicate Layout(s: Bytes, items: seq<Item>, trailing: Bytes) {
    && ClosedByTwoZeros(items) && AllAllowed(items) && Members(items) <= MAX_ARCHIVE_MEMBERS
    && s == EncodeAll(items) + trailing && AllZero(trailing)
  }

  ghost predicate Acceptable(s: Bytes) {
    |s| <= MAX_EXPANDED_TAR_BYTES && exists items, trailing :: Layout(s, items, trailing)
  }

  /** The same from `pos` on, after `zeros` zero blocks in a row and `members` members. */
  ghost predicate Form(s: Bytes, pos: nat, zeros: nat, members: nat, items: seq<Item>, trailing: Bytes)
    requires pos <= |s|
  {
    && Ends(items, zeros) && AllAllowed(items) && members + Members(items) <= MAX_ARCHIVE_MEMBERS
    && s[pos..] == EncodeAll(items) + trailing && AllZero(trailing)
  }

  ghost predicate Continues(s: Bytes, pos: nat, zeros: nat, members: nat)
    requires pos <= |s|
  {
    exists items, trailing :: Form(s, pos, zeros, members, items, trailing)
  }

  lemma {:induction false} EndsMeansClosed(items: seq<Item>, zeros: nat)
    requires zeros <= 1
    ensures zeros == 0 ==> (Ends(items, 0) <==> ClosedByTwoZeros(items))
    ensures zeros == 1 ==> (Ends(items, 1) <==> ClosedByTwoZeros([Zero] + items))
    decreases |items|
  {
    if items == [] {
    } else {
      var rest := items[1..];
      assert items == [items[0]] + rest;
      if items[0].Zero? {
        if zeros == 0 {
          EndsMeansClosed(rest, 1);
          assert items == [Zero] + rest;
        } else {
          ZeroZero(rest);
          assert [Zero] + items == [Zero, Zero] + rest;
        }
      } else {
        EndsMeansClosed(rest, 0);
        ClosedAfterFirst(items[0], rest);
        if zeros == 1 {
          ClosedAfterFirst(Zero, items);
        }
      }
    }
  }

  lemma ZeroZero(rest: seq<Item>)
    ensures ClosedByTwoZeros([Zero, Zero] + rest) <==> rest == []
  {
    assert ZeroPairAt([Zero, Zero] + rest, 0);
  }

  /** An item that starts no adjacent pair makes no difference. */
  lemma ClosedAfterFirst(first: Item, rest: seq<Item>)
    requires first.Member? || (rest != [] && rest[0].Member?)
    ensures ClosedByTwoZeros([first] + rest) <==> ClosedByTwoZeros(rest)
  {
    var items := [first] + rest;
    forall i: nat | i + 1 < |rest| ensures ZeroPairAt(items, i + 1) <==> ZeroPairAt(rest, i) {
      assert items[i + 1] == rest[i] && items[i + 1 + 1] == rest[i + 1];
    }
    assert |items| >= 2 ==> !ZeroPairAt(items, 0);
    if ClosedByTwoZeros(items) && |rest| >= 2 {
      forall i: nat | i < |rest| - 2 ensures !ZeroPairAt(rest, i) {
        assert !ZeroPairAt(items, i + 1);
      }
    }
    if ClosedByTwoZeros(rest) {
      forall i: nat | i < |items| - 2 ensures !ZeroPairAt(items, i) {
        if i > 0 {
          assert !ZeroPairAt(rest, i - 1);
        }
      }
    }
  }

  // -------------------------------------------------------- one turn at a time

  function ZerosAfter(item: Item, zeros: nat): nat {
    if item.Zero? then zeros + 1 else 0
  }

  function MembersAfter(item: Item, members: nat): nat {
    if item.Member? then members + 1 else members
  }

  lemma FormStart(s: Bytes, pos: nat, zeros: nat, members: nat, items: seq<Item>, trailing: Bytes)
    requires pos <= |s| && zeros < 2 && Form(s, pos, zeros, members, items, trailing)
    ensures items != [] && ItemAllowed(items[0])
    ensures var item, next := items[0], pos + |Encode(items[0])|;
            && next <= |s| && s[pos..next] == Encode(item)
            && Form(s, next, ZerosAfter(item, zeros), MembersAfter(item, members), items[1..], trailing)
  {
    assert items[0] in items;
    SplitFirst(s, pos, items, trailing);
  }

  lemma SplitFirst(s: Bytes, pos: nat, items: seq<Item>, trailing: Bytes)
    requires pos <= |s| && items != [] && s[pos..] == EncodeAll(items) + trailing
    ensures var next := pos + |Encode(items[0])|;
            next <= |s| && s[pos..next] == Encode(items[0]) && s[next..] == EncodeAll(items[1..]) + trailing
  {
    FirstOfThree(s, pos, Encode(items[0]), EncodeAll(items[1..]), trailing);
  }

  lemma FormBefore(s: Bytes, pos: nat, zeros: nat, members: nat, item: Item, items: seq<Item>, trailing: Bytes)
    requires zeros < 2 && ItemAllowed(item)
    requires pos + |Encode(item)| <= |s| && s[pos..pos + |Encode(item)|] == Encode(item)
    requires Form(s, pos + |Encode(item)|, ZerosAfter(item, zeros), MembersAfter(item, members), items, trailing)
    ensures Form(s, pos, zeros, members, [item] + items, trailing)
  {
    var next, all := pos + |Encode(item)|, [item] + items;
    assert all[0] == item && all[1..] == items;
    assert s[pos..] == s[pos..next] + s[next..];
    assert EncodeAll(all) + trailing == Encode(item) + (EncodeAll(items) + trailing);
  }

  /** An allowed item is determined by the octets at its place. */
  lemma ItemIsDetermined(s: Bytes, pos: nat, item: Item)
    requires ItemAllowed(item) && pos + |Encode(item)| <= |s| && s[pos..pos + |Encode(item)|] == Encode(item)
    ensures pos + BLOCK <= |s|
    ensures item.Zero? <==> s[pos..pos + BLOCK] == ZeroBlock()
    ensures item.Member? ==>
              && item.header == s[pos..pos + BLOCK]
              && item.payload == s[pos + BLOCK..pos + BLOCK + Padded(SizeField(item.header).value)]
  {
    if item.Member? {
      HeadAndRest(s, pos, pos + |Encode(item)|, item.header, item.payload);
    }
  }

  lemma ShortTurn(s: Bytes, pos: nat, zeros: nat, members: nat)
    requires pos <= |s| < pos + BLOCK && zeros < 2
    ensures !Continues(s, pos, zeros, members)
  {
    forall items, trailing | Form(s, pos, zeros, members, items, trailing) ensures false {
      FormStart(s, pos, zeros, members, items, trailing);
    }
  }

  lemma ZeroTurn(s: Bytes, pos: nat, zeros: nat, members: nat)
    requires pos + BLOCK <= |s| && zeros < 2 && s[pos..pos + BLOCK] == ZeroBlock()
    ensures Continues(s, pos, zeros, members) <==> Continues(s, pos + BLOCK, zeros + 1, members)
  {
    forall items, trailing | Form(s, pos, zeros, members, items, trailing)
      ensures Continues(s, pos + BLOCK, zeros + 1, members)
    {
      FormStart(s, pos, zeros, members, items, trailing);
      ItemIsDetermined(s, pos, items[0]);
    }
    var next, more := pos + BLOCK, zeros + 1;
    forall items, trailing | Form(s, next, more, members, items, trailing)
      ensures Continues(s, pos, zeros, members)
    {
      FormBefore(s, pos, zeros, members, Zero, items, trailing);
    }
  }

  /** A whole allowed member starts at `pos`. */
  ghost predicate MemberAt(s: Bytes, pos: nat)
    requires pos + BLOCK <= |s|
  {
    var header := s[pos..pos + BLOCK];
    && HeaderAllowed(header)
    && EndOfMember(s, pos) <= |s|
    && PayloadAllowed(header, s[pos + BLOCK..EndOfMember(s, pos)])
  }

  function EndOfMember(s: Bytes, pos: nat): nat
    requires pos + BLOCK <= |s| && HeaderAllowed(s[pos..pos + BLOCK])
  {
    pos + BLOCK + Padded(SizeField(s[pos..pos + BLOCK]).value)
  }

  lemma MemberIsAt(s: Bytes, pos: nat, item: Item)
    requires item.Member? && ItemAllowed(item)
    requires pos + |Encode(item)| <= |s| && s[pos..pos + |Encode(item)|] == Encode(item)
    ensures pos + BLOCK <= |s| && MemberAt(s, pos) && EndOfMember(s, pos) == pos + |Encode(item)|
  {
    ItemIsDetermined(s, pos, item);
  }

  lemma MemberStarts(s: Bytes, pos: nat, zeros: nat, members: nat, items: seq<Item>, trailing: Bytes)
    requires pos + BLOCK <= |s| && zeros < 2 && s[pos..pos + BLOCK] != ZeroBlock()
    requires Form(s, pos, zeros, members, items, trailing)
    ensures MemberAt(s, pos) && Form(s, EndOfMember(s, pos), 0, members + 1, items[1..], trailing)
  {
    FormStart(s, pos, zeros, members, items, trailing);
    ItemIsDetermined(s, pos, items[0]);
    MemberIsAt(s, pos, items[0]);
  }

  lemma MemberItem(s: Bytes, pos: nat) returns (item: Item)
    requires pos + BLOCK <= |s| && s[pos..pos + BLOCK] != ZeroBlock() && MemberAt(s, pos)
    ensures item.Member? && ItemAllowed(item)
    ensures EndOfMember(s, pos) == pos + |Encode(item)| && s[pos..EndOfMember(s, pos)] == Encode(item)
  {
    var next := EndOfMember(s, pos);
    item := Member(s[pos..pos + BLOCK], s[pos + BLOCK..next]);
    assert s[pos..next] == Encode(item);
  }

  lemma MemberBefore(s: Bytes, pos: nat, zeros: nat, members: nat, items: seq<Item>, trailing: Bytes)
    requires pos + BLOCK <= |s| && zeros < 2 && s[pos..pos + BLOCK] != ZeroBlock()
    requires MemberAt(s, pos) && Form(s, EndOfMember(s, pos), 0, members + 1, items, trailing)
    ensures Continues(s, pos, zeros, members)
  {
    var item := MemberItem(s, pos);
    FormBefore(s, pos, zeros, members, item, items, trailing);
  }

  lemma MemberTurn(s: Bytes, pos: nat, zeros: nat, members: nat)
    requires pos + BLOCK <= |s| && zeros < 2 && s[pos..pos + BLOCK] != ZeroBlock()
    ensures Continues(s, pos, zeros, members) <==>
              members < MAX_ARCHIVE_MEMBERS && MemberAt(s, pos) && Continues(s, EndOfMember(s, pos), 0, members + 1)
  {
    if Continues(s, pos, zeros, members) {
      var items, trailing :| Form(s, pos, zeros, members, items, trailing);
      MemberStarts(s, pos, zeros, members, items, trailing);
    }
    if MemberAt(s, pos) && Continues(s, EndOfMember(s, pos), 0, members + 1) {
      var items, trailing :| Form(s, EndOfMember(s, pos), 0, members + 1, items, trailing);
      MemberBefore(s, pos, zeros, members, items, trailing);
    }
  }

  lemma LastTurn(s: Bytes, pos: nat, members: nat)
    requires pos <= |s|
    ensures Continues(s, pos, 2, members) <==> members <= MAX_ARCHIVE_MEMBERS && AllZero(s[pos..])
  {
    assert EncodeAll([]) + s[pos..] == s[pos..];
    assert members <= MAX_ARCHIVE_MEMBERS && AllZero(s[pos..]) ==> Form(s, pos, 2, members, [], s[pos..]);
    forall items, trailing | Form(s, pos, 2, members, items, trailing)
      ensures members <= MAX_ARCHIVE_MEMBERS && AllZero(s[pos..])
    {
      assert items == [] && [] + trailing == trailing;
    }
  }

  lemma AcceptableContinues(s: Bytes)
    ensures Acceptable(s) <==> |s| <= MAX_EXPANDED_TAR_BYTES && Continues(s, 0, 0, 0)
  {
    assert s[0..] == s;
    forall items ensures Ends(items, 0) <==> ClosedByTwoZeros(items) {
      EndsMeansClosed(items, 0);
    }
    forall items, trailing | Form(s, 0, 0, 0, items, trailing) ensures Layout(s, items, trailing) {
    }
    forall items, trailing | Layout(s, items, trailing) ensures Form(s, 0, 0, 0, items, trailing) {
    }
  }

  lemma SameItem(s: Bytes, pos: nat, item: Item, other: Item)
    requires ItemAllowed(item) && pos + |Encode(item)| <= |s| && s[pos..pos + |Encode(item)|] == Encode(item)
    requires ItemAllowed(other) && pos + |Encode(other)| <= |s| && s[pos..pos + |Encode(other)|] == Encode(other)
    ensures item == other
  {
    ItemIsDetermined(s, pos, item);
    ItemIsDetermined(s, pos, other);
  }

  lemma FirstItemIsAt(s: Bytes, pos: nat, zeros: nat, members: nat, items: seq<Item>, trailing: Bytes)
    requires pos <= |s| && zeros < 2 && Form(s, pos, zeros, members, items, trailing)
    ensures items != [] && ItemAllowed(items[0])
    ensures pos + |Encode(items[0])| <= |s| && s[pos..pos + |Encode(items[0])|] == Encode(items[0])
  {
    FormStart(s, pos, zeros, members, items, trailing);
  }

  lemma SameFirst(s: Bytes, pos: nat, zeros: nat, members: nat,
                  items: seq<Item>, trailing: Bytes, others: seq<Item>, rest: Bytes)
    requires pos <= |s| && zeros < 2
    requires Form(s, pos, zeros, members, items, trailing) && Form(s, pos, zeros, members, others, rest)
    ensures items != [] && others != [] && items[0] == others[0]
  {
    FirstItemIsAt(s, pos, zeros, members, items, trailing);
    FirstItemIsAt(s, pos, zeros, members, others, rest);
    SameItem(s, pos, items[0], others[0]);
  }

  lemma {:induction false} FormIsUnique(s: Bytes, pos: nat, zeros: nat, members: nat,
                                        items: seq<Item>, trailing: Bytes, others: seq<Item>, rest: Bytes)
    requires pos <= |s| && zeros <= 2
    requires Form(s, pos, zeros, members, items, trailing) && Form(s, pos, zeros, members, others, rest)
    ensures items == others && trailing == rest
    decreases |items|
  {
    if zeros == 2 {
      assert [] + trailing == trailing && [] + rest == rest;
    } else {
      SameFirst(s, pos, zeros, members, items, trailing, others, rest);
      var item := items[0];
      FormStart(s, pos, zeros, members, items, trailing);
      FormStart(s, pos, zeros, members, others, rest);
      FormIsUnique(s, pos + |Encode(item)|, ZerosAfter(item, zeros), MembersAfter(item, members),
                   items[1..], trailing, others[1..], rest);
      assert items == [item] + items[1..] && others == [item] + others[1..];
    }
  }

  /** A stream is accepted for one list of items only. */
  lemma LayoutIsUnique(s: Bytes, items: seq<Item>, trailing: Bytes, others: seq<Item>, rest: Bytes)
    requires Layout(s, items, trailing) && Layout(s, others, rest)
    ensures items == others && trailing == rest
  {
    EndsMeansClosed(items, 0);
    EndsMeansClosed(others, 0);
    assert s[0..] == s;
    FormIsUnique(s, 0, 0, 0, items, trailing, others, rest);
  }

  // ---------------------------------------------------------------- the loop

  /** A gzip member being decompressed, and the temporary file its content is copied to. */
  class ExpandedArchive {
    /** Everything decompression can deliver, and whether it then fails instead of ending. */
    const source: Bytes
    const corrupt: bool
    var pos: nat
    var spool: Bytes

    constructor (source: Bytes, corrupt: bool)
      ensures this.source == source && this.corrupt == corrupt && pos == 0 && spool == []
    {
      this.source, this.corrupt, pos, spool := source, corrupt, 0, [];
    }

    ghost predicate Spooled()
      reads this
    {
      pos <= |source| && spool == source[..pos]
    }

    /** `expanded.read(size)`: any non-empty part of what is left, nothing at the end, or a failure. */
    method Read(size: nat) returns (chunk: Bytes, failed: bool)
      requires size > 0 && pos <= |source|
      modifies this`pos
      ensures old(pos) <= pos <= |source| && chunk == source[old(pos)..pos] && |chunk| <= size
      ensures failed ==> corrupt && pos == old(pos)
      ensures !failed && chunk == [] ==> pos == |source| && !corrupt
    {
      if corrupt {
        var now: bool := *;
        if now || pos == |source| {
          return [], true;
        }
      }
      if pos == |source| {
        return [], false;
      }
      var count: nat :| 0 < count <= size && count <= |source| - pos;
      chunk, failed := source[pos..pos + count], false;
      pos := pos + count;
    }

    /** `_read_expanded`, its two denials as one. */
    method ReadExpanded(size: nat, consumed: nat, retain: bool) returns (payload: Option<Bytes>, total: nat)
      requires Spooled() && consumed == pos
      modifies this
      ensures Spooled()
      ensures payload.Some? ==>
                && total == pos == old(pos) + size <= MAX_EXPANDED_TAR_BYTES
                && payload.value == if retain then source[old(pos)..pos] else []
      ensures payload.None? ==> corrupt || old(pos) + size > MAX_EXPANDED_TAR_BYTES || old(pos) + size > |source|
    {
      total := consumed;
      if consumed + size > MAX_EXPANDED_TAR_BYTES {
        return None, total;
      }
      var kept: Bytes := [];
      var remaining := size;
      while remaining > 0
        invariant Spooled() && 0 <= remaining <= size && pos == old(pos) + (size - remaining)
        invariant kept == if retain then source[old(pos)..pos] else []
      {
        var before := pos;
        var chunk, failed := Read(if remaining < READ_SIZE then remaining else READ_SIZE);
        assert |chunk| == pos - before;
        if failed || chunk == [] {
          return None, total;
        }
        assert source[..pos] == source[..before] + chunk;
        spool := spool + chunk;
        if retain {
          assert source[old(pos)..pos] == source[old(pos)..before] + chunk;
          kept := kept + chunk;
        }
        remaining := remaining - |chunk|;
      }
      return Some(kept), consumed + size;
    }

    /** One header after a block that is not zero: every test but the sparse one, in the source's order. */
    static method CheckHeader(header: Bytes, members: nat) returns (size: Option<nat>)
      requires |header| == BLOCK
      ensures size.Some? <==> HeaderAllowed(header) && members < MAX_ARCHIVE_MEMBERS
      ensures size.Some? ==> size == SizeField(header)
    {
      if !ChecksumHolds(header) {
        return None;
      }
      if members + 1 > MAX_ARCHIVE_MEMBERS {
        return None;
      }
      size := TarNumber(header[124..136]);
      if size.None? {
        return None;
      }
      var typeFlag := header[156];
      if typeFlag in {49, 50, 51, 52, 54, 55, 83} {
        return None;
      }
      if typeFlag !in {0, 48, 53, 120, 103, 76} {
        return None;
      }
      if typeFlag in {120, 103, 76} && size.value > MAX_TAR_EXTENSION_BYTES {
        return None;
      }
    }

    /** The trailing loop: only zeros, spooled like everything before them. */
    method SkipTrailing(consumed: nat) returns (ok: bool, total: nat)
      requires Spooled() && consumed == pos <= MAX_EXPANDED_TAR_BYTES
      modifies this
      ensures ok <==> !corrupt && |source| <= MAX_EXPANDED_TAR_BYTES && AllZero(source[old(pos)..])
      ensures ok ==> spool == source && total == |source|
    {
      total := consumed;
      while true
        invariant Spooled() && old(pos) <= total == pos <= MAX_EXPANDED_TAR_BYTES
        invariant forall i :: old(pos) <= i < pos ==> source[i] == 0
        decreases |source| - pos
      {
        var before := pos;
        var chunk, failed := Read(READ_SIZE);
        if failed {
          return false, total;
        }
        if chunk == [] {
          assert source[..pos] == source;
          return true, total;
        }
        if total + |chunk| > MAX_EXPANDED_TAR_BYTES {
          return false, total;
        }
        assert forall i :: before <= i < pos ==> source[i] == chunk[i - before];
        if !AllZero(chunk) {
          var i: nat :| i < |chunk| && chunk[i] != 0;
          assert source[old(pos)..][before + i - old(pos)] != 0;
          return false, total;
        }
        assert source[..pos] == source[..before] + chunk;
        spool := spool + chunk;
        total := total + |chunk|;
      }
    }

    /** The payload behind an allowed header, and the sparse test on it. */
    method ReadPayload(header: Bytes, size: nat, consumed: nat) returns (ok: bool, total: nat)
      requires Spooled() && BLOCK <= consumed == pos && header == source[pos - BLOCK..pos]
      requires HeaderAllowed(header) && SizeField(header) == Some(size)
      modifies this
      ensures Spooled()
      ensures ok ==>
                && MemberAt(source, old(pos) - BLOCK)
                && total == pos == EndOfMember(source, old(pos) - BLOCK) <= MAX_EXPANDED_TAR_BYTES
      ensures !ok ==> corrupt || |source| > MAX_EXPANDED_TAR_BYTES || !MemberAt(source, old(pos) - BLOCK)
    {
      var pax := PaxExtension(header[156]);
      var payload;
      payload, total := ReadExpanded(Padded(size), consumed, pax);
      if payload.None? {
        return false, total;
      }
      if pax && Contains(payload.value[..size], SPARSE_MARKER) {
        return false, total;
      }
      return true, total;
    }

    /** The rest of a turn whose header, just read, is not a zero block. */
    method ReadMember(header: Bytes, consumed: nat, ghost zeros: nat, members: nat) returns (ok: bool, total: nat)
      requires Spooled() && BLOCK <= consumed == pos && zeros < 2
      requires header == source[pos - BLOCK..pos] && header != ZeroBlock()
      modifies this
      ensures Spooled()
      ensures ok ==>
                && old(pos) <= total == pos <= MAX_EXPANDED_TAR_BYTES && members < MAX_ARCHIVE_MEMBERS
                && (Continues(source, old(pos) - BLOCK, zeros, members) <==> Continues(source, pos, 0, members + 1))
      ensures !ok ==>
                corrupt || |source| > MAX_EXPANDED_TAR_BYTES || !Continues(source, old(pos) - BLOCK, zeros, members)
    {
      MemberTurn(source, pos - BLOCK, zeros, members);
      var size := CheckHeader(header, members);
      if size.None? {
        return false, consumed;
      }
      ok, total := ReadPayload(header, size.value, consumed);
    }

    /** One turn of the main loop: a zero block or a member. */
    method Turn(consumed: nat, zeros: nat, members: nat) returns (ok: bool, total: nat, z: nat, m: nat)
      requires Spooled() && consumed == pos && zeros < 2 && members <= MAX_ARCHIVE_MEMBERS
      modifies this
      ensures Spooled()
      ensures ok ==>
                && total == pos >= old(pos) + BLOCK && pos <= MAX_EXPANDED_TAR_BYTES
                && z <= 2 && m <= MAX_ARCHIVE_MEMBERS
                && (Continues(source, old(pos), zeros, members) <==> Continues(source, pos, z, m))
      ensures !ok ==>
                corrupt || |source| > MAX_EXPANDED_TAR_BYTES || !Continues(source, old(pos), zeros, members)
    {
      ghost var start := pos;
      z, m := zeros, members;
      var header;
      header, total := ReadExpanded(BLOCK, consumed, true);
      if header.None? {
        if |source| < start + BLOCK {
          ShortTurn(source, start, zeros, members);
        }
        return false, total, z, m;
      }
      var block := header.value;
      assert block == source[start..start + BLOCK];
      if block == ZeroBlock() {
        ZeroTurn(source, start, zeros, members);
        return true, total, zeros + 1, m;
      }
      ok, total := ReadMember(block, total, zeros, members);
      if !ok {
        return false, total, z, m;
      }
      return true, total, 0, members + 1;
    }

    /** `_preflight_sdist_members_detailed`, with its denials as one. */
    method Preflight() returns (ok: bool, consumed: nat)
      requires pos == 0 && spool == []
      modifies this
      ensures ok <==> !corrupt && Acceptable(source)
      ensures ok ==> spool == source && consumed == |source|
    {
      AcceptableContinues(source);
      ghost var goal := Continues(source, 0, 0, 0);
      consumed := 0;
      var members: nat, zeros: nat := 0, 0;
      while zeros < 2
        invariant Spooled() && consumed == pos <= MAX_EXPANDED_TAR_BYTES
        invariant zeros <= 2 && members <= MAX_ARCHIVE_MEMBERS
        invariant goal <==> Continues(source, pos, zeros, members)
        decreases |source| - pos
      {
        ok, consumed, zeros, members := Turn(consumed, zeros, members);
        if !ok {
          return false, consumed;
        }
      }
      LastTurn(source, pos, members);
      ok, consumed := SkipTrailing(consumed);
    }
  }
}

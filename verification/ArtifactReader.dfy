/** The reader that keeps an artifact within its size bound while another process may append to it. */
module ArtifactReader {
  import opened Prelude

  const MAX_RELEASE_ARTIFACT_BYTES := 256 * 1024 * 1024
  const READ_SIZE := 1_048_576

  class LiveBoundedArtifactReader {
    var content: Bytes
    var pos: nat
    /** The file at the moment of the latest read of the descriptor. */
    ghost var seen: Bytes

    constructor (content: Bytes, pos: nat)
      ensures this.content == content && this.pos == pos && seen == content
    {
      this.content, this.pos, this.seen := content, pos, content;
    }

    /** Between any two steps another process may append. */
    method Disturb()
      modifies this`content
      ensures old(content) <= content
    {
      var more: Bytes := *;
      content := content + more;
    }

    /** `_require_live_artifact_descriptor`, and the appending that may happen before it looks. */
    method SizeIsBounded() returns (ok: bool)
      modifies this`content
      ensures old(content) <= content
      ensures ok <==> |content| <= 268_435_456
    {
      Disturb();
      ok := |content| <= MAX_RELEASE_ARTIFACT_BYTES;
    }

    /** The descriptor's own read: a part of what is left, nothing only at the end or for size zero. */
    method ReadDescriptor(size: nat) returns (payload: Bytes)
      modifies this
      ensures old(content) <= content == seen
      ensures pos == old(pos) + |payload| && |payload| <= size
      ensures payload != [] ==> pos <= |content| && payload == content[old(pos)..pos]
      ensures payload == [] ==> size == 0 || pos >= |content|
    {
      Disturb();
      seen := content;
      if size == 0 || pos >= |content| {
        return [];
      }
      var count: nat :| 0 < count <= size && count <= |content| - pos;
      payload := content[pos..pos + count];
      pos := pos + count;
    }

    /** `read`: no more than the bound allows plus one octet, and denied once the file outgrew it. */
    method Read(size: int) returns (payload: Option<Bytes>)
      modifies this
      ensures old(content) <= seen <= content || (payload.None? && old(content) <= content)
      ensures payload.None? ==> |content| > 268_435_456 || old(pos) > 268_435_456
      ensures payload.Some? ==>
                && pos == old(pos) + |payload.value| <= 268_435_456
                && |content| <= 268_435_456
                && (size >= 0 ==> |payload.value| <= size)
                && (payload.value != [] ==> pos <= |seen| && payload.value == seen[old(pos)..pos])
                && (payload.value == [] ==> size == 0 || pos >= |seen|)
    {
      var ok := SizeIsBounded();
      if !ok || pos > MAX_RELEASE_ARTIFACT_BYTES {
        return None;
      }
      var before := pos;
      var remaining := MAX_RELEASE_ARTIFACT_BYTES - before + 1;
      var bounded := if size < 0 || size > remaining then remaining else size;
      var bytes := ReadDescriptor(bounded);
      ok := SizeIsBounded();
      if !ok || pos > MAX_RELEASE_ARTIFACT_BYTES {
        return None;
      }
      if pos != before + |bytes| || |bytes| > MAX_RELEASE_ARTIFACT_BYTES {
        return None;
      }
      return Some(bytes);
    }

    /** `seek(0)`. */
    method Rewind() returns (ok: bool)
      modifies this`content, this`pos
      ensures old(content) <= content
      ensures if ok then pos == 0 else |content| > 268_435_456
    {
      ok := SizeIsBounded();
      if ok {
        pos := 0;
        ok := SizeIsBounded();
      }
    }

    /**
     `_snapshot_release_artifact`: however the file grows meanwhile, the copy ends,
     and it is the whole file as it was at one moment during the copying.
     */
    method Snapshot() returns (snapshot: Option<Bytes>)
      modifies this
      ensures old(content) <= content
      ensures snapshot.Some? ==>
                old(content) <= snapshot.value <= content && |snapshot.value| <= 268_435_456
      ensures snapshot.Some? ==> snapshot.value == seen
      ensures snapshot.None? ==> |content| > 268_435_456
    {
      var ok := Rewind();
      if !ok {
        return None;
      }
      var copy: Bytes := [];
      while true
        invariant old(content) <= content
        invariant pos == |copy| <= MAX_RELEASE_ARTIFACT_BYTES && copy <= content
        decreases MAX_RELEASE_ARTIFACT_BYTES - pos
      {
        var block := Read(READ_SIZE);
        if block.None? {
          return None;
        }
        if block.value == [] {
          return Some(copy);
        }
        copy := copy + block.value;
      }
    }
  }
}

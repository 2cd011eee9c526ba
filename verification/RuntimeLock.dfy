/** The hash-locked runtime subset that every release of an SBOM is checked against. */
module RuntimeLock {
  import opened Prelude
  import opened Sbom

  /** One `==` specifier, or any other. */
  datatype Specifier = Exactly(version: string) | OtherSpecifier

  /** A line of the lock: its hash options, and the requirement before them if it can be parsed. */
  datatype LockLine =
    | Unparsable
    | Locked(name: PlainName, extras: bool, url: bool, specifiers: seq<Specifier>, marker: Option<string>,
             hashes: nat, digest: string)

  datatype LockEntry = LockEntry(version: Option<string>, sha256: string, marker: Option<string>)

  type Lock = map<string, LockEntry>

  predicate LineAllowed(l: LockLine) {
    l.Locked? && l.hashes == 1 && IsSha256(l.digest) && !l.extras
  }

  function EntryOf(l: LockLine): LockEntry
    requires l.Locked?
  {
    LockEntry(if !l.url && |l.specifiers| == 1 && l.specifiers[0].Exactly? then Some(l.specifiers[0].version) else None,
              l.digest, l.marker)
  }

  /** `lock` is what the lines say, each allowed and about another package. */
  ghost predicate Reads(lines: seq<LockLine>, lock: Lock) {
    && (forall i :: 0 <= i < |lines| ==> LineAllowed(lines[i]))
    && (forall i, j :: 0 <= i < j < |lines| ==> lines[i].name != lines[j].name)
    && (forall i :: 0 <= i < |lines| ==> lines[i].name in lock && lock[lines[i].name] == EntryOf(lines[i]))
    && (forall n :: n in lock ==> exists i :: 0 <= i < |lines| && lines[i].name == n)
  }

  lemma ReadLineMore(lines: seq<LockLine>, lock: Lock, l: LockLine)
    requires Reads(lines, lock) && LineAllowed(l) && l.name !in lock
    ensures Reads(lines + [l], lock[l.name := EntryOf(l)])
  {
    var more, after := lines + [l], lock[l.name := EntryOf(l)];
    forall n | n in after ensures exists i :: 0 <= i < |more| && more[i].name == n {
      if n == l.name {
        assert more[|lines|].name == n;
      } else {
        var i :| 0 <= i < |lines| && lines[i].name == n;
        assert more[i].name == n;
      }
    }
  }

  /** A line that is not allowed, or names a package again, ends all chances of reading. */
  lemma BadLineIsNotRead(lines: seq<LockLine>, lock: Lock, i: nat)
    requires i < |lines| && Reads(lines[..i], lock) && (!LineAllowed(lines[i]) || lines[i].name in lock)
    ensures forall other :: !Reads(lines, other)
  {
    if LineAllowed(lines[i]) {
      var j :| 0 <= j < i && lines[..i][j].name == lines[i].name;
      assert lines[j].name == lines[i].name;
    }
  }

  /** `_load_runtime_lock`, on the lines that are neither empty nor comments. */
  method LoadRuntimeLock(lines: seq<LockLine>) returns (r: Option<Lock>)
    ensures r.Some? ==> Reads(lines, r.value)
    ensures r.None? ==> forall lock :: !Reads(lines, lock)
  {
    var entries: Lock := map[];
    for i := 0 to |lines|
      invariant Reads(lines[..i], entries)
    {
      if !LineAllowed(lines[i]) || lines[i].name in entries {
        BadLineIsNotRead(lines, entries, i);
        return None;
      }
      ReadLineMore(lines[..i], entries, lines[i]);
      assert lines[..i + 1] == lines[..i] + [lines[i]];
      entries := entries[lines[i].name := EntryOf(lines[i])];
    }
    assert lines[..|lines|] == lines;
    return Some(entries);
  }

  /** `_canonical_marker`: `canonical` stands for `str(Marker(text))`, None where that fails. */
  function CanonicalMarker(marker: Option<string>, canonical: string -> Option<string>): Option<Option<string>> {
    if marker.None? then Some(None)
    else if canonical(marker.value).None? then None
    else Some(canonical(marker.value))
  }

  /** The lock holds the component with exactly its version, digest and canonical marker. */
  predicate EntryMatches(c: Component, lock: Lock, canonical: string -> Option<string>) {
    var marker := CanonicalMarker(c.marker, canonical);
    marker.Some? && c.name in lock && lock[c.name] == LockEntry(Some(c.version), c.sha256, marker.value)
  }

  ghost predicate LockCovers(cs: seq<Component>, lock: Lock, canonical: string -> Option<string>) {
    forall c :: c in cs ==> EntryMatches(c, lock, canonical)
  }

  /** A manifest that loads, a lock that loads, and the one covered by the other. */
  ghost predicate Validated(root: Root, cs: seq<Component>, index: Index, lines: seq<LockLine>, lock: Lock,
                            canonical: string -> Option<string>) {
    Reviewed(root, cs, index) && Reads(lines, lock) && LockCovers(cs, lock, canonical)
  }

  /** The line states the component's version, digest and canonical marker. */
  ghost predicate States(l: LockLine, c: Component, canonical: string -> Option<string>) {
    && l.Locked? && l.name == c.name && l.digest == c.sha256 && !l.url && l.specifiers == [Exactly(c.version)]
    && (c.marker.None? ==> l.marker.None?)
    && (c.marker.Some? ==> canonical(c.marker.value).Some? && l.marker == canonical(c.marker.value))
  }

  lemma EntryIsStated(l: LockLine, c: Component, canonical: string -> Option<string>)
    requires l.Locked? && l.name == c.name
    ensures States(l, c, canonical) <==>
              CanonicalMarker(c.marker, canonical).Some?
              && EntryOf(l) == LockEntry(Some(c.version), c.sha256, CanonicalMarker(c.marker, canonical).value)
  {
    assert |l.specifiers| == 1 ==> l.specifiers == [l.specifiers[0]];
  }

  /** A component matches the lock exactly if some line states it. */
  lemma MatchedIsStated(lines: seq<LockLine>, lock: Lock, c: Component, canonical: string -> Option<string>)
    requires Reads(lines, lock)
    ensures EntryMatches(c, lock, canonical) <==> exists i :: 0 <= i < |lines| && States(lines[i], c, canonical)
  {
    if c.name in lock {
      var i: nat :| i < |lines| && lines[i].name == c.name;
      EntryIsStated(lines[i], c, canonical);
    }
    forall i | 0 <= i < |lines| && States(lines[i], c, canonical) ensures EntryMatches(c, lock, canonical) {
      EntryIsStated(lines[i], c, canonical);
    }
  }

  /** Each line parses, has one hash of 64 small hexadecimal digits and no extras, and names another package. */
  ghost predicate LinesAllowed(lines: seq<LockLine>) {
    && (forall i :: 0 <= i < |lines| ==>
          && lines[i].Locked? && lines[i].hashes == 1 && !lines[i].extras && |lines[i].digest| == 64
          && forall j :: 0 <= j < 64 ==> '0' <= lines[i].digest[j] <= '9' || 'a' <= lines[i].digest[j] <= 'f')
    && forall i, j :: 0 <= i < j < |lines| ==> lines[i].name != lines[j].name
  }

  function LockOf(lines: seq<LockLine>): Lock
    requires forall i :: 0 <= i < |lines| ==> lines[i].Locked?
  {
    if lines == [] then map[] else LockOf(lines[..|lines| - 1])[lines[|lines| - 1].name := EntryOf(lines[|lines| - 1])]
  }

  lemma {:induction false} AllowedIsRead(lines: seq<LockLine>)
    requires LinesAllowed(lines)
    ensures Reads(lines, LockOf(lines))
  {
    forall i | 0 <= i < |lines| ensures LineAllowed(lines[i]) {
    }
    if lines != [] {
      var n := |lines| - 1;
      AllowedIsRead(lines[..n]);
      var before := LockOf(lines[..n]);
      forall i | 0 <= i < n ensures lines[..n][i].name != lines[n].name {
        assert lines[..n][i] == lines[i];
      }
      ReadLineMore(lines[..n], before, lines[n]);
      assert lines == lines[..n] + [lines[n]];
    }
  }

  lemma LinesDecide(lines: seq<LockLine>)
    ensures (exists lock :: Reads(lines, lock)) <==> LinesAllowed(lines)
  {
    if LinesAllowed(lines) {
      AllowedIsRead(lines);
    }
  }

  /**
   In terms of the lines: the manifest is reviewed, the lines are allowed, and each
   component is stated by a line.
   */
  ghost predicate Stated(root: Root, cs: seq<Component>, index: Index, lines: seq<LockLine>,
                         canonical: string -> Option<string>) {
    && Reviewed(root, cs, index) && LinesAllowed(lines)
    && forall c :: c in cs ==> exists i :: 0 <= i < |lines| && States(lines[i], c, canonical)
  }

  lemma ValidatedIsStated(root: Root, cs: seq<Component>, index: Index, lines: seq<LockLine>,
                          canonical: string -> Option<string>)
    ensures (exists lock :: Validated(root, cs, index, lines, lock, canonical))
       <==> Stated(root, cs, index, lines, canonical)
  {
    LinesDecide(lines);
    forall lock, c | Reads(lines, lock)
      ensures EntryMatches(c, lock, canonical) <==> exists i :: 0 <= i < |lines| && States(lines[i], c, canonical)
    {
      MatchedIsStated(lines, lock, c, canonical);
    }
    if Stated(root, cs, index, lines, canonical) {
      var lock :| Reads(lines, lock);
      assert Validated(root, cs, index, lines, lock, canonical);
    }
  }

  lemma ValidationIsStated(root: Root, cs: seq<Component>, lines: seq<LockLine>, canonical: string -> Option<string>)
    ensures (exists index, lock :: Validated(root, cs, index, lines, lock, canonical))
       <==> (exists index :: Stated(root, cs, index, lines, canonical))
  {
    forall index, lock | Validated(root, cs, index, lines, lock, canonical)
      ensures Stated(root, cs, index, lines, canonical)
    {
      ValidatedIsStated(root, cs, index, lines, canonical);
    }
    if index :| Stated(root, cs, index, lines, canonical) {
      ValidatedIsStated(root, cs, index, lines, canonical);
    }
  }

  /** The loop that compares each component with its entry. */
  method CompareWithLock(cs: seq<Component>, lock: Lock, canonical: string -> Option<string>) returns (ok: bool)
    ensures ok <==> LockCovers(cs, lock, canonical)
  {
    for i := 0 to |cs|
      invariant forall j :: 0 <= j < i ==> EntryMatches(cs[j], lock, canonical)
    {
      if !EntryMatches(cs[i], lock, canonical) {
        assert cs[i] in cs;
        return false;
      }
    }
    return true;
  }

  /** `validate_runtime_lock`. */
  method ValidateRuntimeLock(root: Root, raw: seq<Component>, lines: seq<LockLine>,
                             canonical: string -> Option<string>) returns (ok: bool)
    ensures ok <==> exists index, lock :: Validated(root, raw, index, lines, lock, canonical)
    ensures ok <==> exists index :: Stated(root, raw, index, lines, canonical)
  {
    ValidationIsStated(root, raw, lines, canonical);
    var loaded, components := LoadManifest(root, raw);
    if !loaded {
      return false;
    }
    var lock := LoadRuntimeLock(lines);
    if lock.None? {
      return false;
    }
    forall other | Reads(lines, other) ensures other == lock.value {
      LockIsUnique(lines, other, lock.value);
    }
    ok := CompareWithLock(raw, lock.value, canonical);
    if ok {
      assert Validated(root, raw, components, lines, lock.value, canonical);
    }
  }

  lemma LockIsUnique(lines: seq<LockLine>, a: Lock, b: Lock)
    requires Reads(lines, a) && Reads(lines, b)
    ensures a == b
  {
    assert forall n :: n in a <==> n in b;
    forall n | n in a ensures a[n] == b[n] {
      var i :| 0 <= i < |lines| && lines[i].name == n;
    }
  }

  /** Every locked name stood in a requirement. */
  lemma LockedNamesArePlain(lines: seq<LockLine>, lock: Lock, n: string)
    requires Reads(lines, lock) && n in lock
    ensures '@' !in n
  {
    var i :| 0 <= i < |lines| && lines[i].name == n;
  }
}

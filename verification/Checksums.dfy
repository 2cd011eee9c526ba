/** `SHA256SUMS`: the printer of the preparation script and the loader of the published package. */
module Checksums {
  import opened Prelude
  import opened Ordering

  const MAX_CHECKSUM_BYTES := 65_536
  const DIGEST_SIZE := 64

  // ------------------------------------------------------------------ lines

  predicate IsHex(c: char) { '0' <= c <= '9' || 'a' <= c <= 'f' }

  predicate IsAlphanumeric(c: char) { 'A' <= c <= 'Z' || 'a' <= c <= 'z' || '0' <= c <= '9' }

  predicate IsNameChar(c: char) { IsAlphanumeric(c) || c == '.' || c == '_' || c == '+' || c == '-' }

  predicate ValidDigest(s: string) {
    |s| == DIGEST_SIZE && forall i :: 0 <= i < |s| ==> IsHex(s[i])
  }

  predicate ValidName(s: string) {
    s != [] && IsAlphanumeric(s[0]) && forall i :: 0 <= i < |s| ==> IsNameChar(s[i])
  }

  datatype Entry = Entry(name: string, digest: string)

  predicate ValidEntry(e: Entry) { ValidName(e.name) && ValidDigest(e.digest) }

  function Line(e: Entry): string {
    e.digest + [' ', ' '] + e.name
  }

  /** `CHECKSUM_LINE_PATTERN.fullmatch(line)`. */
  function ParseLine(line: string): Option<Entry> {
    if |line| <= DIGEST_SIZE + 2 then None
    else
      var e := Entry(line[DIGEST_SIZE + 2..], line[..DIGEST_SIZE]);
      if line[DIGEST_SIZE] == ' ' && line[DIGEST_SIZE + 1] == ' ' && ValidEntry(e) then Some(e) else None
  }

  /** 64 small hexadecimal digits, and a name of letters, digits and, but in front, four marks. */
  predicate Spelled(e: Entry) {
    && |e.digest| == 64 && (forall i :: 0 <= i < 64 ==> e.digest[i] in "0123456789abcdef")
    && e.name != []
    && forall i :: 0 <= i < |e.name| ==>
         || 'A' <= e.name[i] <= 'Z' || 'a' <= e.name[i] <= 'z' || '0' <= e.name[i] <= '9'
         || (i > 0 && e.name[i] in {'.', '_', '+', '-'})
  }

  lemma EntryIsSpelled(e: Entry)
    ensures ValidEntry(e) <==> Spelled(e)
  {
    forall c: char ensures IsHex(c) <==> c in "0123456789abcdef" {
      HexIsSpelled(c);
    }
  }

  lemma HexIsSpelled(c: char)
    ensures IsHex(c) <==> c in "0123456789abcdef"
  {
    var digits := "0123456789abcdef";
    if IsHex(c) {
      var i := if c <= '9' then c as int - '0' as int else c as int - 'a' as int + 10;
      assert 0 <= i < 16 && digits[i] == c;
    }
  }

  lemma ParseLineInverts(line: string, e: Entry)
    ensures ParseLine(line) == Some(e) <==> ValidEntry(e) && line == Line(e)
    ensures ParseLine(line) == Some(e) <==> Spelled(e) && line == e.digest + "  " + e.name
  {
    EntryIsSpelled(e);
    if ParseLine(line) == Some(e) {
      assert line == line[..DIGEST_SIZE] + line[DIGEST_SIZE..DIGEST_SIZE + 2] + line[DIGEST_SIZE + 2..];
      assert line[DIGEST_SIZE..DIGEST_SIZE + 2] == [' ', ' '];
    }
    if ValidEntry(e) && line == Line(e) {
      assert line[..DIGEST_SIZE] == e.digest && line[DIGEST_SIZE + 2..] == e.name;
    }
  }

  // -------------------------------------------------------------- splitlines

  /** The ASCII controls at which `str.splitlines` ends a line: LF, VT, FF, CR and the separators FS, GS, RS. */
  predicate EndsLine(c: char) {
    c == '\n' || c == '\r' || c as int in {0x0b, 0x0c, 0x1c, 0x1d, 0x1e}
  }

  predicate OneLine(s: string) {
    forall i :: 0 <= i < |s| ==> !EndsLine(s[i])
  }

  /** Where the first line stops: at a separator, or at the end of the text. */
  function LineEnd(s: string): (k: nat)
    ensures k <= |s| && OneLine(s[..k]) && (k < |s| ==> EndsLine(s[k]))
  {
    if s == [] || EndsLine(s[0]) then 0
    else
      var k := LineEnd(s[1..]);
      assert s[..k + 1] == [s[0]] + s[1..][..k];
      k + 1
  }

  /** `s.splitlines()`, for text without a carriage return. */
  function SplitLines(s: string): seq<string>
    decreases |s|
  {
    if s == [] then []
    else
      var k := LineEnd(s);
      [s[..k]] + if k == |s| then [] else SplitLines(s[k + 1..])
  }

  function JoinLines(lines: seq<string>): string {
    if lines == [] then [] else lines[0] + ['\n'] + JoinLines(lines[1..])
  }

  lemma {:induction false} LineEndIsLength(line: string, rest: string)
    requires OneLine(line) && (rest == [] || EndsLine(rest[0]))
    ensures LineEnd(line + rest) == |line|
  {
    if line == [] {
      assert line + rest == rest;
    } else {
      assert (line + rest)[1..] == line[1..] + rest;
      LineEndIsLength(line[1..], rest);
    }
  }

  /** The first line is cut off at whichever separator follows it. */
  lemma SplitFirstLine(line: string, separator: char, rest: string)
    requires OneLine(line) && EndsLine(separator)
    ensures SplitLines(line + [separator] + rest) == [line] + SplitLines(rest)
  {
    var s := line + ([separator] + rest);
    assert s == line + [separator] + rest;
    LineEndIsLength(line, [separator] + rest);
    assert s[..|line|] == line && s[|line| + 1..] == rest;
  }

  lemma {:induction false} SplitUndoesJoin(lines: seq<string>)
    requires forall line :: line in lines ==> OneLine(line)
    ensures SplitLines(JoinLines(lines)) == lines
  {
    if lines == [] {
    } else {
      SplitUndoesJoin(lines[1..]);
      SplitFirstLine(lines[0], '\n', JoinLines(lines[1..]));
      assert lines == [lines[0]] + lines[1..];
    }
  }

  /** LF is the only separator, and the last character. */
  predicate LfLines(s: string) {
    && s != [] && s[|s| - 1] == '\n'
    && forall i :: 0 <= i < |s| && EndsLine(s[i]) ==> s[i] == '\n'
  }

  lemma {:induction false} JoinUndoesSplit(s: string)
    requires LfLines(s)
    ensures JoinLines(SplitLines(s)) == s
    decreases |s|
  {
    var k := LineEnd(s);
    assert forall i :: 0 <= i < k ==> s[i] == s[..k][i];
    var rest := s[k + 1..];
    assert s == s[..k] + ['\n'] + rest;
    assert SplitLines(s)[1..] == SplitLines(rest);
    if rest == [] {
    } else {
      JoinUndoesSplit(rest);
    }
  }

  lemma {:induction false} JoinedIsLfLines(lines: seq<string>)
    requires lines != [] && forall line :: line in lines ==> OneLine(line)
    ensures LfLines(JoinLines(lines))
  {
    var s, first := JoinLines(lines), lines[0] + ['\n'];
    assert lines[0] in lines;
    assert s == first + JoinLines(lines[1..]);
    if |lines| > 1 {
      JoinedIsLfLines(lines[1..]);
    } else {
      assert JoinLines(lines[1..]) == [];
    }
  }

  // ------------------------------------------------------------- the printer

  /** The dictionary's entries for some names, in their order. */
  function EntriesOf(names: seq<string>, digests: map<string, string>): (entries: seq<Entry>)
    requires forall n :: n in names ==> n in digests
    ensures |entries| == |names|
    ensures forall i :: 0 <= i < |names| ==> entries[i] == Entry(names[i], digests[names[i]])
  {
    if names == [] then [] else [Entry(names[0], digests[names[0]])] + EntriesOf(names[1..], digests)
  }

  function LinesOf(entries: seq<Entry>): (lines: seq<string>)
    ensures |lines| == |entries|
    ensures forall i :: 0 <= i < |entries| ==> lines[i] == Line(entries[i])
  {
    if entries == [] then [] else [Line(entries[0])] + LinesOf(entries[1..])
  }

  /** One line for each name in order. */
  function Printed(names: seq<string>, digests: map<string, string>): string
    requires forall n :: n in names ==> n in digests
  {
    JoinLines(LinesOf(EntriesOf(names, digests)))
  }

  lemma {:induction false} JoinOneMore(lines: seq<string>, line: string)
    ensures JoinLines(lines + [line]) == JoinLines(lines) + line + ['\n']
  {
    if lines == [] {
      assert lines + [line] == [line];
      assert [line][1..] == [] && line + ['\n'] + [] == line + ['\n'] == [] + line + ['\n'];
    } else {
      assert (lines + [line])[1..] == lines[1..] + [line];
      JoinOneMore(lines[1..], line);
      var front, rest := lines[0] + ['\n'], JoinLines(lines[1..]);
      assert front + (rest + line + ['\n']) == front + rest + line + ['\n'];
    }
  }

  lemma PrintOneMore(names: seq<string>, name: string, digests: map<string, string>)
    requires name in digests && forall n :: n in names ==> n in digests
    ensures Printed(names + [name], digests) == Printed(names, digests) + Line(Entry(name, digests[name])) + ['\n']
  {
    var lines, line := LinesOf(EntriesOf(names, digests)), Line(Entry(name, digests[name]));
    assert LinesOf(EntriesOf(names + [name], digests)) == lines + [line];
    JoinOneMore(lines, line);
  }

  /** `_checksum_bytes`, on a dictionary whose keys are given in insertion order. */
  method ChecksumText(keys: seq<string>, digests: map<string, string>) returns (text: string)
    requires forall n :: n in keys <==> n in digests
    ensures (forall n :: n in Sorted(keys) ==> n in digests) && text == Printed(Sorted(keys), digests)
  {
    SortedElements(keys);
    text := PrintInOrder(Sorted(keys), digests);
  }

  method PrintInOrder(names: seq<string>, digests: map<string, string>) returns (text: string)
    requires forall n :: n in names ==> n in digests
    ensures text == Printed(names, digests)
  {
    text := [];
    for i := 0 to |names|
      invariant text == Printed(names[..i], digests)
    {
      PrintOneMore(names[..i], names[i], digests);
      assert names[..i + 1] == names[..i] + [names[i]];
      text := text + Line(Entry(names[i], digests[names[i]])) + ['\n'];
    }
    assert names[..|names|] == names;
  }

  lemma SortedElements(keys: seq<string>)
    ensures forall n :: n in Sorted(keys) <==> n in keys
  {
    assert forall n :: n in Sorted(keys) <==> n in multiset(Sorted(keys));
  }

  // -------------------------------------------------------------- the loader

  predicate IsAscii(s: string) {
    forall i :: 0 <= i < |s| ==> s[i] < 128 as char
  }

  /** The tests on the text as a whole. */
  predicate Shaped(content: string) {
    |content| <= MAX_CHECKSUM_BYTES && IsAscii(content) && content != [] && content[|content| - 1] == '\n'
    && '\r' !in content
  }

  /** The lines are the dictionary's valid entries, each name once, in the order of `names`. */
  ghost predicate Explains(lines: seq<string>, names: seq<string>, digests: map<string, string>) {
    && (forall n :: n in names <==> n in digests) && NoDuplicates(names)
    && (forall n :: n in digests ==> ValidEntry(Entry(n, digests[n])))
    && lines == LinesOf(EntriesOf(names, digests))
  }

  /** What an accepted text lists: sorted names and their digests, exactly those expected. */
  ghost predicate Lists(content: string, names: seq<string>, digests: map<string, string>, expected: set<string>) {
    && Shaped(content) && Explains(SplitLines(content), names, digests)
    && IsSorted(names, Itself) && digests.Keys == expected
  }

  lemma ExplainedLine(lines: seq<string>, names: seq<string>, digests: map<string, string>, i: nat)
    requires Explains(lines, names, digests) && i < |lines|
    ensures i < |names| && ParseLine(lines[i]) == Some(Entry(names[i], digests[names[i]]))
  {
    ParseLineInverts(lines[i], Entry(names[i], digests[names[i]]));
  }

  /** Lines can be explained in one way only. */
  lemma ExplainedInOneWay(lines: seq<string>, names: seq<string>, digests: map<string, string>,
                          others: seq<string>, theirs: map<string, string>)
    requires Explains(lines, names, digests) && Explains(lines, others, theirs)
    ensures names == others && digests == theirs
  {
    forall i | 0 <= i < |lines| ensures names[i] == others[i] && digests[names[i]] == theirs[names[i]] {
      ExplainedLine(lines, names, digests, i);
      ExplainedLine(lines, others, theirs, i);
    }
    assert names == others;
  }

  /** Reads lines in order; None for a noncanonical or a duplicate entry. */
  method ReadEntries(lines: seq<string>) returns (r: Option<map<string, string>>, names: seq<string>)
    ensures match r
            case Some(digests) => Explains(lines, names, digests)
            case None => forall others, digests :: !Explains(lines, others, digests)
  {
    var parsed: map<string, string> := map[];
    names := [];
    for i := 0 to |lines|
      invariant |names| == i && (forall n :: n in names <==> n in parsed) && NoDuplicates(names)
      invariant forall j :: 0 <= j < i ==> ParseLine(lines[j]) == Some(Entry(names[j], parsed[names[j]]))
    {
      var entry := ParseLine(lines[i]);
      forall others, digests | Explains(lines, others, digests)
        ensures i < |others| && entry == Some(Entry(others[i], digests[others[i]]))
      {
        ExplainedLine(lines, others, digests, i);
      }
      if entry.None? {
        return None, names;
      }
      var Entry(name, digest) := entry.value;
      if name in parsed {
        ghost var j :| 0 <= j < i && names[j] == name;
        forall others, digests | Explains(lines, others, digests) ensures false {
          ExplainedLine(lines, others, digests, j);
        }
        return None, names;
      }
      parsed := parsed[name := digest];
      names := names + [name];
    }
    LinesAreEntries(lines, names, parsed);
    return Some(parsed), names;
  }

  lemma LinesAreEntries(lines: seq<string>, names: seq<string>, digests: map<string, string>)
    requires |names| == |lines| && (forall n :: n in names <==> n in digests) && NoDuplicates(names)
    requires forall j :: 0 <= j < |lines| ==> ParseLine(lines[j]) == Some(Entry(names[j], digests[names[j]]))
    ensures Explains(lines, names, digests)
  {
    forall j | 0 <= j < |lines|
      ensures lines[j] == Line(Entry(names[j], digests[names[j]])) && ValidEntry(Entry(names[j], digests[names[j]]))
    {
      ParseLineInverts(lines[j], Entry(names[j], digests[names[j]]));
    }
    assert lines == LinesOf(EntriesOf(names, digests));
  }

  /** `_load_checksums`, once the file is read. */
  method LoadChecksums(content: string, expected: set<string>) returns (r: Option<map<string, string>>)
    ensures match r
            case Some(digests) => exists names :: Lists(content, names, digests, expected)
            case None => forall names, digests :: !Lists(content, names, digests, expected)
    ensures r.Some? ==>
              && 0 < |content| <= 65_536 && content[|content| - 1] == '\n' && '\r' !in content
              && forall i :: 0 <= i < |content| ==> content[i] as int < 128
  {
    if |content| > MAX_CHECKSUM_BYTES || !IsAscii(content) {
      return None;
    }
    if content == [] || content[|content| - 1] != '\n' || '\r' in content {
      return None;
    }
    var lines := SplitLines(content);
    var parsed, names := ReadEntries(lines);
    if parsed.None? {
      return None;
    }
    forall others, digests | Explains(lines, others, digests) ensures others == names && digests == parsed.value {
      ExplainedInOneWay(lines, names, parsed.value, others, digests);
    }
    if names != Sorted(names) {
      if IsSorted(names, Itself) {
        SortedIsFixed(names);
      }
      return None;
    }
    if parsed.value.Keys != expected {
      return None;
    }
    assert Lists(content, names, parsed.value, expected);
    return parsed;
  }

  // --------------------------------------------------------------- round trip

  lemma ValidLineIsPlain(e: Entry)
    requires ValidEntry(e)
    ensures OneLine(Line(e)) && IsAscii(Line(e)) && Line(e) != []
  {
    var line := Line(e);
    forall i | 0 <= i < |line| ensures IsHex(line[i]) || line[i] == ' ' || IsNameChar(line[i]) {
      if i < DIGEST_SIZE {
        assert line[i] == e.digest[i];
      } else if i >= DIGEST_SIZE + 2 {
        assert line[i] == e.name[i - DIGEST_SIZE - 2];
      }
    }
  }

  lemma {:induction false} JoinedIsAscii(lines: seq<string>)
    requires forall line :: line in lines ==> IsAscii(line)
    ensures IsAscii(JoinLines(lines))
  {
    if lines == [] {
    } else {
      assert lines[0] in lines;
      JoinedIsAscii(lines[1..]);
    }
  }

  lemma EntryLines(names: seq<string>, digests: map<string, string>)
    requires (forall n :: n in names ==> n in digests)
    requires forall n :: n in digests ==> ValidEntry(Entry(n, digests[n]))
    ensures forall line :: line in LinesOf(EntriesOf(names, digests)) ==> OneLine(line) && IsAscii(line) && line != []
  {
    var entries := EntriesOf(names, digests);
    forall i | 0 <= i < |names| ensures var line := LinesOf(entries)[i]; OneLine(line) && IsAscii(line) && line != [] {
      ValidLineIsPlain(entries[i]);
    }
  }

  /** The lines of any non-empty dictionary make a text with the loader's shape that splits into them again. */
  lemma PrintedIsShaped(names: seq<string>, digests: map<string, string>)
    requires names != [] && (forall n :: n in names ==> n in digests)
    requires forall n :: n in digests ==> ValidEntry(Entry(n, digests[n]))
    requires |Printed(names, digests)| <= MAX_CHECKSUM_BYTES
    ensures Shaped(Printed(names, digests))
    ensures SplitLines(Printed(names, digests)) == LinesOf(EntriesOf(names, digests))
  {
    var lines := LinesOf(EntriesOf(names, digests));
    EntryLines(names, digests);
    JoinedIsLfLines(lines);
    JoinedIsAscii(lines);
    SplitUndoesJoin(lines);
  }

  lemma SortedKeys(keys: seq<string>)
    requires keys != [] && NoDuplicates(keys)
    ensures Sorted(keys) != [] && NoDuplicates(Sorted(keys)) && IsSorted(Sorted(keys), Itself)
    ensures forall n :: n in Sorted(keys) <==> n in keys
  {
    SortedElements(keys);
    SortByKeepsElements(keys, Itself);
    assert keys[0] in Sorted(keys);
  }

  lemma PrintedLoads(keys: seq<string>, digests: map<string, string>)
    requires keys != [] && NoDuplicates(keys) && forall n :: n in keys <==> n in digests
    requires forall n :: n in digests ==> ValidEntry(Entry(n, digests[n]))
    requires (forall n :: n in Sorted(keys) ==> n in digests) && |Printed(Sorted(keys), digests)| <= MAX_CHECKSUM_BYTES
    ensures Lists(Printed(Sorted(keys), digests), Sorted(keys), digests, digests.Keys)
  {
    SortedKeys(keys);
    PrintedIsShaped(Sorted(keys), digests);
  }

  /** A text lists one dictionary only. */
  lemma ListedInOneWay(content: string, names: seq<string>, digests: map<string, string>, expected: set<string>,
                       others: seq<string>, theirs: map<string, string>, wanted: set<string>)
    requires Lists(content, names, digests, expected) && Lists(content, others, theirs, wanted)
    ensures names == others && digests == theirs && expected == wanted
  {
    ExplainedInOneWay(SplitLines(content), names, digests, others, theirs);
  }

  /** What the printer writes for a dictionary that is not empty is loaded as that dictionary, and no other. */
  lemma PrintedIsListed(keys: seq<string>, digests: map<string, string>)
    requires keys != [] && NoDuplicates(keys) && forall n :: n in keys <==> n in digests
    requires forall n :: n in digests ==> ValidEntry(Entry(n, digests[n]))
    requires (forall n :: n in Sorted(keys) ==> n in digests) && |Printed(Sorted(keys), digests)| <= MAX_CHECKSUM_BYTES
    ensures Lists(Printed(Sorted(keys), digests), Sorted(keys), digests, digests.Keys)
    ensures forall names, others, expected ::
              Lists(Printed(Sorted(keys), digests), names, others, expected) ==> others == digests
  {
    PrintedLoads(keys, digests);
    var content := Printed(Sorted(keys), digests);
    forall names, others, expected | Lists(content, names, others, expected) ensures others == digests {
      ListedInOneWay(content, Sorted(keys), digests, digests.Keys, names, others, expected);
    }
  }

  /** Printing a dictionary and loading the text, with its names expected, gives the dictionary back. */
  method RoundTrip(keys: seq<string>, digests: map<string, string>) returns (r: Option<map<string, string>>)
    requires keys != [] && NoDuplicates(keys) && forall n :: n in keys <==> n in digests
    requires forall n :: n in digests ==> ValidEntry(Entry(n, digests[n]))
    requires (forall n :: n in Sorted(keys) ==> n in digests) && |Printed(Sorted(keys), digests)| <= MAX_CHECKSUM_BYTES
    ensures r == Some(digests)
  {
    var text := ChecksumText(keys, digests);
    PrintedIsListed(keys, digests);
    r := LoadChecksums(text, digests.Keys);
  }

  /** An accepted text is the printed form of what it lists exactly when LF is its only separator. */
  lemma ListedIsPrintedIffLf(content: string, names: seq<string>, digests: map<string, string>, expected: set<string>)
    requires Lists(content, names, digests, expected)
    ensures content == Printed(names, digests) <==> LfLines(content)
  {
    EntryLines(names, digests);
    if LfLines(content) {
      JoinUndoesSplit(content);
    }
    if content == Printed(names, digests) {
      assert names == [] ==> content == [];
      JoinedIsLfLines(LinesOf(EntriesOf(names, digests)));
    }
  }

  lemma SeparatorKeepsShape(line: string, separator: char, rest: string)
    requires OneLine(line) && IsAscii(line) && LfLines(rest) && IsAscii(rest)
    requires separator as int in {0x0b, 0x0c, 0x1c, 0x1d, 0x1e} && |line| + 1 + |rest| <= MAX_CHECKSUM_BYTES
    ensures Shaped(line + [separator] + rest)
    ensures line + [separator] + rest != line + ['\n'] + rest
  {
    var content := line + [separator] + rest;
    assert content[|line|] == separator && (line + ['\n'] + rest)[|line|] == '\n';
    assert content[|content| - 1] == rest[|rest| - 1];
    assert '\r' !in line && '\r' !in rest;
  }

  /** The printed text with another control in place of its first LF. */
  function WithSeparator(lines: seq<string>, separator: char): string
    requires lines != []
  {
    lines[0] + [separator] + JoinLines(lines[1..])
  }

  lemma OtherSeparatorSplits(lines: seq<string>, separator: char)
    requires |lines| >= 2 && forall line :: line in lines ==> OneLine(line) && IsAscii(line)
    requires separator as int in {0x0b, 0x0c, 0x1c, 0x1d, 0x1e}
    requires |JoinLines(lines)| <= MAX_CHECKSUM_BYTES
    ensures var content := WithSeparator(lines, separator);
            Shaped(content) && SplitLines(content) == lines && content != JoinLines(lines)
  {
    var line, others := lines[0], lines[1..];
    assert line in lines && forall l :: l in others ==> l in lines;
    assert lines == [line] + others;
    SplitUndoesJoin(others);
    SplitFirstLine(line, separator, JoinLines(others));
    JoinedIsLfLines(others);
    JoinedIsAscii(others);
    SeparatorKeepsShape(line, separator, JoinLines(others));
  }

  /** Any of the other controls may stand for the first LF: the text changes, what it lists does not. */
  lemma OtherSeparatorIsAccepted(names: seq<string>, digests: map<string, string>, separator: char)
    requires |names| >= 2 && NoDuplicates(names) && IsSorted(names, Itself)
    requires (forall n :: n in names <==> n in digests) && forall n :: n in digests ==> ValidEntry(Entry(n, digests[n]))
    requires |Printed(names, digests)| <= MAX_CHECKSUM_BYTES
    requires separator as int in {0x0b, 0x0c, 0x1c, 0x1d, 0x1e}
    ensures var content := WithSeparator(LinesOf(EntriesOf(names, digests)), separator);
            Lists(content, names, digests, digests.Keys) && content != Printed(names, digests)
  {
    EntryLines(names, digests);
    OtherSeparatorSplits(LinesOf(EntriesOf(names, digests)), separator);
  }
}

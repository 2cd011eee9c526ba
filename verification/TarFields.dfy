/** Numeric fields and checksums of tar headers: ustar Interchange Format, IEEE Std 1003.1, pax. */
module TarFields {
  import opened Prelude

  const BLOCK := 512
  const CHECKSUM_START := 148
  const CHECKSUM_END := 156

  predicate IsOctal(b: byte) { 48 <= b <= 55 }

  predicate AllOctal(s: Bytes) {
    forall i :: 0 <= i < |s| ==> IsOctal(s[i])
  }

  predicate Padding(b: byte) { b == 0 || b == 32 }

  /** `int(s, 8)`. */
  function OctalValue(s: Bytes): nat
    requires AllOctal(s)
  {
    if s == [] then 0 else 8 * OctalValue(s[..|s| - 1]) + (s[|s| - 1] - 48)
  }

  /** Octal places: appending a digit multiplies by eight and adds it. */
  lemma PlacesAreOctal(s: Bytes, d: nat)
    requires AllOctal(s) && d <= 7
    ensures OctalValue([]) == 0 && AllOctal(s + ['0' as int + d])
    ensures OctalValue(s + ['0' as int + d]) == 8 * OctalValue(s) + d
  {
    assert (s + ['0' as int + d])[..|s|] == s;
  }

  predicate AllPadding(s: Bytes) {
    forall i :: 0 <= i < |s| ==> Padding(s[i])
  }

  predicate AllSpaces(s: Bytes) {
    forall i :: 0 <= i < |s| ==> s[i] == 32
  }

  /** `s.rstrip(b"\x00 ")`. */
  function StripRight(s: Bytes): Bytes {
    if s != [] && Padding(s[|s| - 1]) then StripRight(s[..|s| - 1]) else s
  }

  /** `s.lstrip(b" ")`. */
  function StripLeft(s: Bytes): Bytes {
    if s != [] && s[0] == 32 then StripLeft(s[1..]) else s
  }

  /** `_tar_number`. */
  function TarNumber(field: Bytes): Option<nat> {
    if field != [] && field[0] >= 128 then None
    else
      var stripped := StripLeft(StripRight(field));
      if stripped == [] then Some(0)
      else if !AllOctal(stripped) then None
      else Some(OctalValue(stripped))
  }

  /** Spaces, then octal digits, then spaces and NULs. */
  ghost predicate Written(field: Bytes, before: Bytes, digits: Bytes, after: Bytes) {
    field == before + digits + after && AllSpaces(before) && AllOctal(digits) && AllPadding(after)
  }

  lemma {:induction false} StripRightStops(s: Bytes, after: Bytes)
    requires AllPadding(after) && (s == [] || !Padding(s[|s| - 1]))
    ensures StripRight(s + after) == s
  {
    if after == [] {
      assert s + after == s;
    } else {
      assert (s + after)[..|s + after| - 1] == s + after[..|after| - 1];
      StripRightStops(s, after[..|after| - 1]);
    }
  }

  lemma {:induction false} StripLeftStops(before: Bytes, s: Bytes)
    requires AllSpaces(before) && (s == [] || s[0] != 32)
    ensures StripLeft(before + s) == s
  {
    if before == [] {
      assert before + s == s;
    } else {
      assert (before + s)[1..] == before[1..] + s;
      StripLeftStops(before[1..], s);
    }
  }

  lemma WrittenIsRead(field: Bytes, before: Bytes, digits: Bytes, after: Bytes)
    requires Written(field, before, digits, after)
    ensures TarNumber(field) == Some(OctalValue(digits))
  {
    if digits == [] {
      assert [] + field == field && AllPadding(field);
      StripRightStops([], field);
    } else {
      var front := before + digits;
      assert front[|front| - 1] == digits[|digits| - 1] && IsOctal(digits[|digits| - 1]) && IsOctal(digits[0]);
      StripRightStops(front, after);
      StripLeftStops(before, digits);
      assert field[0] == if before == [] then digits[0] else before[0];
    }
  }

  lemma {:induction false} StrippedRight(s: Bytes) returns (after: Bytes)
    ensures s == StripRight(s) + after && AllPadding(after)
  {
    if s != [] && Padding(s[|s| - 1]) {
      var rest := StrippedRight(s[..|s| - 1]);
      after := rest + [s[|s| - 1]];
      var kept := StripRight(s);
      assert s == kept + rest + [s[|s| - 1]] == kept + after;
    } else {
      after := [];
    }
  }

  lemma {:induction false} StrippedLeft(s: Bytes) returns (before: Bytes)
    ensures s == before + StripLeft(s) && AllSpaces(before)
  {
    if s != [] && s[0] == 32 {
      var rest := StrippedLeft(s[1..]);
      before := [s[0]] + rest;
      var kept := StripLeft(s);
      assert s == [s[0]] + (rest + kept) == before + kept;
    } else {
      before := [];
    }
  }

  /** The fields that are accepted, and what they read as: the high-bit test refuses nothing more. */
  lemma TarNumberGrammar(field: Bytes, n: nat)
    ensures TarNumber(field) == Some(n) <==>
              exists before, digits, after :: Written(field, before, digits, after) && OctalValue(digits) == n
  {
    if TarNumber(field).Some? {
      var digits := StripLeft(StripRight(field));
      var after := StrippedRight(field);
      var before := StrippedLeft(StripRight(field));
      assert Written(field, before, digits, after) && TarNumber(field) == Some(OctalValue(digits));
    }
    forall before, digits, after | Written(field, before, digits, after)
      ensures TarNumber(field) == Some(OctalValue(digits))
    {
      WrittenIsRead(field, before, digits, after);
    }
  }

  // ------------------------------------------------------------- octal text

  function Pow8(k: nat): (p: nat)
    ensures p >= 1
  {
    if k == 0 then 1 else 8 * Pow8(k - 1)
  }

  /** Zero-padded octal digits. */
  function OctalText(n: nat, width: nat): (s: Bytes)
    ensures |s| == width && AllOctal(s)
  {
    if width == 0 then [] else OctalText(n / 8, width - 1) + [48 + n % 8]
  }

  lemma {:induction false} OctalTextValue(n: nat, width: nat)
    requires n < Pow8(width)
    ensures OctalValue(OctalText(n, width)) == n
  {
    if width == 0 {
    } else {
      OctalTextValue(n / 8, width - 1);
      assert OctalText(n, width)[..width - 1] == OctalText(n / 8, width - 1);
    }
  }

  /** Any number that fits its digits is read back, whatever blanks surround them. */
  lemma OctalRoundTrip(n: nat, width: nat, before: Bytes, after: Bytes)
    requires n < Pow8(width)
    requires AllSpaces(before) && AllPadding(after)
    ensures TarNumber(before + OctalText(n, width) + after) == Some(n)
  {
    OctalTextValue(n, width);
    WrittenIsRead(before + OctalText(n, width) + after, before, OctalText(n, width), after);
  }

  lemma OctalIsRead(n: nat, width: nat, after: Bytes)
    requires n < Pow8(width) && AllPadding(after)
    ensures TarNumber(OctalText(n, width) + after) == Some(n)
  {
    OctalRoundTrip(n, width, [], after);
    assert [] + OctalText(n, width) == OctalText(n, width);
  }

  // --------------------------------------------------------------- checksums

  function Sum(s: Bytes): nat {
    if s == [] then 0 else Sum(s[..|s| - 1]) + s[|s| - 1] as int
  }

  /** The sum of the octets, with the checksum field read as blanks. */
  function Observed(header: Bytes): nat
    requires |header| == BLOCK
  {
    Sum(header[..CHECKSUM_START]) + 8 * 32 + Sum(header[CHECKSUM_END..])
  }

  function Blanked(header: Bytes): (h: Bytes)
    requires |header| == BLOCK
    ensures |h| == BLOCK
  {
    header[..CHECKSUM_START] + seq(8, _ => 32) + header[CHECKSUM_END..]
  }

  /** `_require_tar_checksum`. */
  predicate ChecksumHolds(header: Bytes)
    requires |header| == BLOCK
  {
    TarNumber(header[CHECKSUM_START..CHECKSUM_END]) == Some(Observed(header))
  }

  lemma {:induction false} SumBound(s: Bytes)
    ensures Sum(s) <= 255 * |s|
  {
    if s == [] {
    } else {
      SumBound(s[..|s| - 1]);
    }
  }

  lemma {:induction false} SumConcat(s: Bytes, t: Bytes)
    ensures Sum(s + t) == Sum(s) + Sum(t)
  {
    if t == [] {
      assert s + t == s;
    } else {
      assert (s + t)[..|s + t| - 1] == s + t[..|t| - 1];
      SumConcat(s, t[..|t| - 1]);
    }
  }

  /** The sum counts every octet once, for what it is worth. */
  lemma SumIsAdditive(s: Bytes, b: byte, t: Bytes)
    ensures Sum([]) == 0 && Sum(s + [b] + t) == Sum(s) + b as int + Sum(t)
  {
    SumConcat(s + [b], t);
    assert (s + [b])[..|s|] == s;
  }

  lemma {:induction false} SumOfBlanks(n: nat)
    ensures Sum(seq(n, _ => 32)) == 32 * n
  {
    if n == 0 {
    } else {
      SumOfBlanks(n - 1);
      assert seq(n, _ => 32 as byte)[..n - 1] == seq(n - 1, _ => 32 as byte);
    }
  }

  /** The observed checksum is the plain sum of the header whose checksum field is blank. */
  lemma ObservedIsBlankedSum(header: Bytes)
    requires |header| == BLOCK
    ensures Observed(header) == Sum(Blanked(header))
  {
    SumConcat(header[..CHECKSUM_START] + seq(8, _ => 32), header[CHECKSUM_END..]);
    SumConcat(header[..CHECKSUM_START], seq(8, _ => 32));
    SumOfBlanks(8);
  }

  /** Every header's checksum fits six octal digits. */
  lemma ChecksumFits(header: Bytes)
    requires |header| == BLOCK
    ensures Observed(header) <= 504 * 255 + 256 < Pow8(6)
  {
    SumBound(header[..CHECKSUM_START]);
    SumBound(header[CHECKSUM_END..]);
    assert Pow8(3) == 512;
    assert Pow8(6) == 8 * (8 * (8 * Pow8(3)));
  }

  /** Six digits, NUL, space: the usual form of the field. */
  function Stamp(header: Bytes): (h: Bytes)
    requires |header| == BLOCK
    ensures |h| == BLOCK
  {
    header[..CHECKSUM_START] + (OctalText(Observed(header), 6) + [0, 32]) + header[CHECKSUM_END..]
  }

  lemma FieldReplaced(header: Bytes, field: Bytes)
    requires |header| == BLOCK && |field| == CHECKSUM_END - CHECKSUM_START
    ensures var h := header[..CHECKSUM_START] + field + header[CHECKSUM_END..];
            && |h| == BLOCK && Observed(h) == Observed(header) && h[CHECKSUM_START..CHECKSUM_END] == field
  {
    var h := header[..CHECKSUM_START] + field + header[CHECKSUM_END..];
    assert h[..CHECKSUM_START] == header[..CHECKSUM_START] && h[CHECKSUM_END..] == header[CHECKSUM_END..];
  }

  /** Writing its checksum into any header gives an accepted header. */
  lemma StampIsAccepted(header: Bytes)
    requires |header| == BLOCK
    ensures ChecksumHolds(Stamp(header))
  {
    ChecksumFits(header);
    OctalRoundTrip(Observed(header), 6, [], [0, 32]);
    assert [] + OctalText(Observed(header), 6) == OctalText(Observed(header), 6);
    FieldReplaced(header, OctalText(Observed(header), 6) + [0, 32]);
  }

  lemma {:induction false} SumUpdate(s: Bytes, i: nat, b: byte)
    requires i < |s|
    ensures Sum(s[i := b]) == Sum(s) - s[i] as int + b as int
  {
    var t := s[i := b];
    if i == |s| - 1 {
      assert t[..|s| - 1] == s[..|s| - 1];
    } else {
      assert t[..|s| - 1] == s[..|s| - 1][i := b];
      SumUpdate(s[..|s| - 1], i, b);
    }
  }

  lemma ObservedUpdate(header: Bytes, i: nat, b: byte)
    requires |header| == BLOCK
    requires i < CHECKSUM_START || CHECKSUM_END <= i < BLOCK
    ensures Observed(header[i := b]) == Observed(header) - header[i] as int + b as int
  {
    var h := header[i := b];
    if i < CHECKSUM_START {
      SumUpdate(header[..CHECKSUM_START], i, b);
      assert h[..CHECKSUM_START] == header[..CHECKSUM_START][i := b] && h[CHECKSUM_END..] == header[CHECKSUM_END..];
    } else {
      var j := i - CHECKSUM_END;
      SumUpdate(header[CHECKSUM_END..], j, b);
      assert h[..CHECKSUM_START] == header[..CHECKSUM_START] && h[CHECKSUM_END..] == header[CHECKSUM_END..][j := b];
    }
  }

  /** Any change of one octet outside the checksum field is noticed. */
  lemma ChecksumDetectsOneOctet(header: Bytes, i: nat, b: byte)
    requires |header| == BLOCK && ChecksumHolds(header)
    requires i < CHECKSUM_START || CHECKSUM_END <= i < BLOCK
    ensures ChecksumHolds(header[i := b]) <==> b == header[i]
  {
    ObservedUpdate(header, i, b);
    assert header[i := b][CHECKSUM_START..CHECKSUM_END] == header[CHECKSUM_START..CHECKSUM_END];
  }
}

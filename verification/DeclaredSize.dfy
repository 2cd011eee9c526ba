/** The checks of a declared `Content-Length`, for requests and for responses. */
module DeclaredSize {
  import opened Prelude
  import opened Decimal
  import opened RequestHeaders

  datatype Declared = Absent | Length(bytes: nat) | Denied

  lemma PrefixValue(s: Bytes, i: nat)
    requires AllDigits(s) && i < |s|
    ensures Value(s[..i + 1]) == 10 * Value(s[..i]) + (s[i] - 48)
  {
    assert s[..i + 1][..i] == s[..i];
  }

  /** Digit by digit, as the source accumulates `declared_bytes`. */
  method Accumulate(s: Bytes) returns (n: nat)
    requires AllDigits(s)
    ensures n == Value(s)
  {
    n := 0;
    for i := 0 to |s|
      invariant n == Value(s[..i])
    {
      PrefixValue(s, i);
      n := n * 10 + (s[i] - 48);
    }
    assert s[..|s|] == s;
  }

  /**
   The textual comparison decides, and returns, exactly the numeric value of one decimal
   length: RFC 9110, section 8.6.
   */
  method EnforceDeclaredRequestSize(fields: seq<Field>, budget: nat) returns (d: Declared)
    ensures d.Absent? <==> ValuesOf(fields, ContentLength) == []
    ensures d.Length? <==>
              var lengths := ValuesOf(fields, ContentLength);
              |lengths| == 1 && IsDecimal(lengths[0]) && Value(lengths[0]) <= budget
    ensures d.Length? ==> d.bytes == Value(ValuesOf(fields, ContentLength)[0])
  {
    var lengths := ValuesOf(fields, ContentLength);
    if lengths == [] {
      return Absent;
    }
    if |lengths| != 1 || !IsDecimal(lengths[0]) {
      return Declared.Denied;
    }
    var significant := StripZeros(lengths[0]);
    StripKeepsValue(lengths[0]);
    if significant == [] {
      return Length(0);
    }
    TextExceedsIsNumeric(lengths[0], budget);
    if TextExceeds(significant, budget) {
      return Declared.Denied;
    }
    var declared := Accumulate(significant);
    return Length(declared);
  }

  /**
   A response passes if it has no body whatever its fields say, section 6.3 of RFC 9112;
   any other exactly when identity coded and, if it declares a length, within budget.
   */
  method EnforceDeclaredResponseSize(isHead: bool, status: int, fields: seq<Field>, budget: nat) returns (ok: bool)
    ensures ok <==>
              || isHead || 100 <= status <= 199 || status == 204 || status == 304
              || (var codings, lengths := ValuesOf(fields, ContentEncoding), ValuesOf(fields, ContentLength);
                  && (codings == [] || codings == [Encoded("identity")])
                  && (lengths == [] || (|lengths| == 1 && IsDecimal(lengths[0]) && Value(lengths[0]) <= budget)))
  {
    if isHead || 100 <= status < 200 || status in {204, 304} {
      return true;
    }
    var codings := ValuesOf(fields, ContentEncoding);
    if |codings| > 1 || (codings != [] && codings[0] != IDENTITY) {
      return false;
    }
    assert codings != [] ==> codings == [codings[0]];
    var lengths := ValuesOf(fields, ContentLength);
    if lengths == [] {
      return true;
    }
    if |lengths| != 1 || !IsDecimal(lengths[0]) {
      return false;
    }
    var significant := StripZeros(lengths[0]);
    StripKeepsValue(lengths[0]);
    if significant != [] {
      TextExceedsIsNumeric(lengths[0], budget);
    }
    return significant == [] || !TextExceeds(significant, budget);
  }
}

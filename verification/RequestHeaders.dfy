/**
 The request header pipeline: validation and the trusted `Host`, the trusted
 `Accept-Encoding`, and the limits on the final field list.
 */
module RequestHeaders {
  import opened Prelude
  import opened Decimal

  datatype Field = Field(name: Bytes, value: Bytes)

  /** A caller-supplied item: an exact pair of byte strings, or anything else. */
  datatype Item = Pair(field: Field) | Malformed

  function Lower(s: Bytes): (t: Bytes)
    ensures |t| == |s|
  {
    seq(|s|, i requires 0 <= i < |s| => LowerByte(s[i]))
  }

  function LowerByte(b: byte): byte { if 65 <= b <= 90 then b + 32 else b }

  /** A word as ASCII octets. */
  function Encoded(text: string): (s: Bytes)
    requires forall i :: 0 <= i < |text| ==> text[i] < 128 as char
    ensures |s| == |text| && forall i :: 0 <= i < |s| ==> s[i] == text[i] as int
  {
    seq(|text|, i requires 0 <= i < |text| => text[i] as int)
  }

  const HOST: Bytes := Encoded("host")
  const ACCEPT_ENCODING: Bytes := Encoded("accept-encoding")
  const IDENTITY: Bytes := Encoded("identity")
  const CONTENT_LENGTH: Bytes := Encoded("content-length")
  const TRANSFER_ENCODING: Bytes := Encoded("transfer-encoding")
  const CONTENT_ENCODING: Bytes := Encoded("content-encoding")
  const CHUNKED: Bytes := Encoded("chunked")
  const CONNECTION: Bytes := Encoded("connection")
  const KEEP_ALIVE: Bytes := Encoded("keep-alive")
  const PROXY_AUTHENTICATE: Bytes := Encoded("proxy-authenticate")
  const PROXY_AUTHORIZATION: Bytes := Encoded("proxy-authorization")
  const PROXY_CONNECTION: Bytes := Encoded("proxy-connection")
  const UPGRADE: Bytes := Encoded("upgrade")

  /** What a lowered field name means to the pipeline. */
  datatype Kind = Host | AcceptEncoding | ContentLength | TransferEncoding | ContentEncoding | Forbidden | Other

  function KindOf(name: Bytes): Kind {
    var lowered := Lower(name);
    if lowered == HOST then Host
    else if lowered == ACCEPT_ENCODING then AcceptEncoding
    else if lowered == CONTENT_LENGTH then ContentLength
    else if lowered == TRANSFER_ENCODING then TransferEncoding
    else if lowered == CONTENT_ENCODING then ContentEncoding
    else if lowered in [CONNECTION, KEEP_ALIVE, PROXY_AUTHENTICATE, PROXY_AUTHORIZATION, PROXY_CONNECTION, UPGRADE]
    then Forbidden
    else Other
  }

  /** `tchar` of RFC 9110, section 5.6.2. */
  predicate IsTokenOctet(b: byte) {
    || 48 <= b <= 57 || 65 <= b <= 90 || 97 <= b <= 122
    || b == 33 || 35 <= b <= 39 || b == 42 || b == 43 || b == 45 || b == 46
    || b == 94 || b == 95 || b == 96 || b == 124 || b == 126
  }

  predicate ValidName(name: Bytes) {
    name != [] && forall i :: 0 <= i < |name| ==> IsTokenOctet(name[i])
  }

  predicate IsBlank(b: byte) { b == 32 || b == 9 }

  /** A normalized field value of RFC 9110, section 5.5. */
  predicate ValidValue(v: Bytes) {
    && (v != [] ==> !IsBlank(v[0]) && !IsBlank(v[|v| - 1]))
    && forall i :: 0 <= i < |v| ==> v[i] == 9 || 32 <= v[i] <= 126 || 128 <= v[i]
  }

  predicate Acceptable(f: Field) {
    ValidName(f.name) && ValidValue(f.value) && KindOf(f.name) != Forbidden
  }

  /** The values of the fields of a given kind, in order. */
  function ValuesOf(fields: seq<Field>, kind: Kind): seq<Bytes> {
    if fields == [] then []
    else
      var last := fields[|fields| - 1];
      ValuesOf(fields[..|fields| - 1], kind) + if KindOf(last.name) == kind then [last.value] else []
  }

  predicate IsDecimal(v: Bytes) { v != [] && AllDigits(v) }

  /** One unambiguous framing signal: sections 6.1 to 6.3 of RFC 9112. */
  predicate ValidFraming(lengths: seq<Bytes>, codings: seq<Bytes>) {
    && |lengths| <= 1 && |codings| <= 1 && (lengths == [] || codings == [])
    && (lengths != [] ==> IsDecimal(lengths[0]))
    && (codings != [] ==> Lower(codings[0]) == CHUNKED)
  }

  function FieldsOf(items: seq<Item>): seq<Field>
    requires forall i :: 0 <= i < |items| ==> items[i].Pair?
  {
    seq(|items|, i requires 0 <= i < |items| => items[i].field)
  }

  predicate Accepted(items: seq<Item>) {
    && (forall i :: 0 <= i < |items| ==> items[i].Pair? && Acceptable(items[i].field))
    && ValidFraming(ValuesOf(FieldsOf(items), ContentLength), ValuesOf(FieldsOf(items), TransferEncoding))
  }

  /** The fields of other kinds, in order. */
  function Without(fields: seq<Field>, kinds: set<Kind>): seq<Field> {
    if fields == [] then []
    else
      var last := fields[|fields| - 1];
      Without(fields[..|fields| - 1], kinds) + if KindOf(last.name) in kinds then [] else [last]
  }

  lemma OneMore(fields: seq<Field>, f: Field, kinds: set<Kind>, kind: Kind)
    ensures Without(fields + [f], kinds) == Without(fields, kinds) + if KindOf(f.name) in kinds then [] else [f]
    ensures ValuesOf(fields + [f], kind) == ValuesOf(fields, kind) + if KindOf(f.name) == kind then [f.value] else []
    ensures LastOf(fields + [f], kind) == if KindOf(f.name) == kind then Some(f) else LastOf(fields, kind)
  {
    assert (fields + [f])[..|fields|] == fields;
  }

  // ------------------------------------------------ validation and the host

  /** What `_build_safe_request_headers` returns, or None for a denial. */
  function SafeHeaders(items: seq<Item>, authority: Bytes): Option<seq<Field>> {
    if Accepted(items) then Some(Without(FieldsOf(items), {Host}) + [Field(HOST, authority)]) else None
  }

  method ValidateFraming(lengths: seq<Bytes>, codings: seq<Bytes>) returns (ok: bool)
    ensures ok <==> ValidFraming(lengths, codings)
  {
    if |lengths| > 1 || |codings| > 1 || (lengths != [] && codings != []) {
      return false;
    }
    if lengths != [] && !IsDecimal(lengths[0]) {
      return false;
    }
    return codings == [] || Lower(codings[0]) == CHUNKED;
  }

  method BuildSafeRequestHeaders(items: seq<Item>, authority: Bytes) returns (r: Option<seq<Field>>)
    ensures r == SafeHeaders(items, authority)
  {
    var safe: seq<Field> := [];
    var lengths: seq<Bytes>, codings: seq<Bytes> := [], [];
    ghost var seen: seq<Field> := [];
    for i := 0 to |items|
      invariant |seen| == i && forall j :: 0 <= j < i ==> items[j] == Pair(seen[j]) && Acceptable(seen[j])
      invariant safe == Without(seen, {Host})
      invariant lengths == ValuesOf(seen, ContentLength) && codings == ValuesOf(seen, TransferEncoding)
    {
      if items[i].Malformed? || !ValidName(items[i].field.name) || !ValidValue(items[i].field.value) {
        return None;
      }
      var field := items[i].field;
      var kind := KindOf(field.name);
      if kind == Forbidden {
        return None;
      }
      OneMore(seen, field, {Host}, ContentLength);
      OneMore(seen, field, {Host}, TransferEncoding);
      seen := seen + [field];
      if kind == ContentLength {
        lengths := lengths + [field.value];
      } else if kind == TransferEncoding {
        codings := codings + [field.value];
      }
      if kind != Host {
        safe := safe + [field];
      }
    }
    assert FieldsOf(items) == seen;
    var framed := ValidateFraming(lengths, codings);
    if !framed {
      return None;
    }
    return Some(safe + [Field(HOST, authority)]);
  }

  /** The two names the pipeline writes are acceptable themselves. */
  lemma TrustedNames()
    ensures KindOf(HOST) == Host && ValidName(HOST)
    ensures KindOf(ACCEPT_ENCODING) == AcceptEncoding && ValidName(ACCEPT_ENCODING) && ValidValue(IDENTITY)
  {
    assert Lower(HOST) == HOST && Lower(ACCEPT_ENCODING) == ACCEPT_ENCODING;
    assert |HOST| != |ACCEPT_ENCODING|;
  }

  // --------------------------------------------------------- identity coding

  /** The last field of a given kind. */
  function LastOf(fields: seq<Field>, kind: Kind): Option<Field> {
    if fields == [] then None
    else
      var last := fields[|fields| - 1];
      if KindOf(last.name) == kind then Some(last) else LastOf(fields[..|fields| - 1], kind)
  }

  const TRUSTED: set<Kind> := {Host, AcceptEncoding}

  function Forced(fields: seq<Field>): seq<Field> {
    var host := LastOf(fields, Host);
    Without(fields, TRUSTED) + [Field(ACCEPT_ENCODING, IDENTITY)] + if host.Some? then [host.value] else []
  }

  method ForceIdentityAcceptEncoding(fields: seq<Field>) returns (r: seq<Field>)
    ensures r == Forced(fields)
  {
    r := [];
    var host: Option<Field> := None;
    for i := 0 to |fields|
      invariant r == Without(fields[..i], TRUSTED)
      invariant host == LastOf(fields[..i], Host)
    {
      assert fields[..i + 1] == fields[..i] + [fields[i]];
      OneMore(fields[..i], fields[i], TRUSTED, Host);
      var kind := KindOf(fields[i].name);
      if kind == Host {
        host := Some(fields[i]);
      } else if kind != AcceptEncoding {
        r := r + [fields[i]];
      }
    }
    assert fields[..|fields|] == fields;
    r := r + [Field(ACCEPT_ENCODING, IDENTITY)];
    if host.Some? {
      r := r + [host.value];
    }
  }

  // ------------------------------------------------------------ the pipeline

  /** The list handed to the connection pool, or None for a denial. */
  function Pipeline(items: seq<Item>, authority: Bytes): Option<seq<Field>> {
    match SafeHeaders(items, authority)
    case None => None
    case Some(safe) => Some(Forced(safe))
  }

  lemma Associate<T>(a: seq<T>, b: seq<T>, c: seq<T>)
    ensures a + (b + c) == a + b + c
  {
  }

  lemma ConcatOneMore(a: seq<Field>, b: seq<Field>, kinds: set<Kind>, kind: Kind)
    requires b != []
    ensures var front, last := b[..|b| - 1], b[|b| - 1];
            && Without(a + b, kinds) == Without(a + front, kinds) + (if KindOf(last.name) in kinds then [] else [last])
            && ValuesOf(a + b, kind)
               == ValuesOf(a + front, kind) + (if KindOf(last.name) == kind then [last.value] else [])
  {
    var front, last := b[..|b| - 1], b[|b| - 1];
    OneMore(a + front, last, kinds, kind);
    assert a + b == a + front + [last];
  }

  lemma {:induction false} WithoutConcat(a: seq<Field>, b: seq<Field>, kinds: set<Kind>)
    ensures Without(a + b, kinds) == Without(a, kinds) + Without(b, kinds)
  {
    if b == [] {
      assert a + b == a;
    } else {
      var front, last := b[..|b| - 1], b[|b| - 1];
      WithoutConcat(a, front, kinds);
      ConcatOneMore(a, b, kinds, Other);
      Associate(Without(a, kinds), Without(front, kinds), if KindOf(last.name) in kinds then [] else [last]);
    }
  }

  lemma {:induction false} ValuesConcat(a: seq<Field>, b: seq<Field>, kind: Kind)
    ensures ValuesOf(a + b, kind) == ValuesOf(a, kind) + ValuesOf(b, kind)
  {
    if b == [] {
      assert a + b == a;
    } else {
      var front, last := b[..|b| - 1], b[|b| - 1];
      ValuesConcat(a, front, kind);
      ConcatOneMore(a, b, {}, kind);
      Associate(ValuesOf(a, kind), ValuesOf(front, kind), if KindOf(last.name) == kind then [last.value] else []);
    }
  }

  lemma {:induction false} WithoutTwice(fields: seq<Field>, kinds: set<Kind>, more: set<Kind>)
    requires kinds <= more
    ensures Without(Without(fields, kinds), more) == Without(fields, more)
  {
    if fields == [] {
    } else {
      var front, last := fields[..|fields| - 1], fields[|fields| - 1];
      WithoutTwice(front, kinds, more);
      WithoutConcat(Without(front, kinds), if KindOf(last.name) in kinds then [] else [last], more);
    }
  }

  lemma {:induction false} WithoutKeepsValues(fields: seq<Field>, kinds: set<Kind>, kind: Kind)
    requires kind !in kinds
    ensures ValuesOf(Without(fields, kinds), kind) == ValuesOf(fields, kind)
  {
    if fields == [] {
    } else {
      var front, last := fields[..|fields| - 1], fields[|fields| - 1];
      WithoutKeepsValues(front, kinds, kind);
      ValuesConcat(Without(front, kinds), if KindOf(last.name) in kinds then [] else [last], kind);
    }
  }

  lemma {:induction false} WithoutSelects(fields: seq<Field>, kinds: set<Kind>)
    ensures forall f :: f in Without(fields, kinds) <==> f in fields && KindOf(f.name) !in kinds
  {
    if fields == [] {
    } else {
      WithoutSelects(fields[..|fields| - 1], kinds);
    }
  }

  function Trailer(authority: Bytes): seq<Field> {
    [Field(ACCEPT_ENCODING, IDENTITY), Field(HOST, authority)]
  }

  lemma TrailerIsTrusted(authority: Bytes, kind: Kind)
    requires kind !in TRUSTED
    ensures Without(Trailer(authority), TRUSTED) == [] && ValuesOf(Trailer(authority), kind) == []
  {
    TrustedNames();
    var coding, host := Field(ACCEPT_ENCODING, IDENTITY), Field(HOST, authority);
    OneMore([], coding, TRUSTED, kind);
    OneMore([coding], host, TRUSTED, kind);
    assert [] + [coding] == [coding] && [coding] + [host] == Trailer(authority);
  }

  lemma ForcedBeforeHost(kept: seq<Field>, host: Field)
    requires KindOf(host.name) == Host
    ensures Forced(kept + [host]) == Without(kept, TRUSTED) + [Field(ACCEPT_ENCODING, IDENTITY), host]
  {
    OneMore(kept, host, TRUSTED, Host);
    assert Without(kept + [host], TRUSTED) == Without(kept, TRUSTED);
  }

  /** Canonical form: the other fields in their order, then identity coding, then the trusted host. */
  lemma PipelineIsCanonical(items: seq<Item>, authority: Bytes)
    requires Accepted(items)
    ensures Pipeline(items, authority) == Some(Without(FieldsOf(items), TRUSTED) + Trailer(authority))
  {
    TrustedNames();
    ForcedBeforeHost(Without(FieldsOf(items), {Host}), Field(HOST, authority));
    WithoutTwice(FieldsOf(items), {Host}, TRUSTED);
  }

  /** The framing fields pass through unchanged, so at most one survives, never one of each kind. */
  lemma PipelineKeepsFraming(items: seq<Item>, authority: Bytes)
    requires Accepted(items)
    ensures var out := Pipeline(items, authority).value;
            && ValuesOf(out, ContentLength) == ValuesOf(FieldsOf(items), ContentLength)
            && ValuesOf(out, TransferEncoding) == ValuesOf(FieldsOf(items), TransferEncoding)
            && |ValuesOf(out, ContentLength)| + |ValuesOf(out, TransferEncoding)| <= 1
  {
    PipelineIsCanonical(items, authority);
    var kept := Without(FieldsOf(items), TRUSTED);
    forall kind | kind == ContentLength || kind == TransferEncoding
      ensures ValuesOf(kept + Trailer(authority), kind) == ValuesOf(FieldsOf(items), kind)
    {
      WithoutKeepsValues(FieldsOf(items), TRUSTED, kind);
      ValuesConcat(kept, Trailer(authority), kind);
      TrailerIsTrusted(authority, kind);
    }
  }

  function ItemsOf(fields: seq<Field>): seq<Item> {
    seq(|fields|, i requires 0 <= i < |fields| => Pair(fields[i]))
  }

  /** The pipeline's output passes the per-field checks exactly when the trusted authority does. */
  lemma OutputIsAcceptable(items: seq<Item>, authority: Bytes)
    requires Accepted(items)
    ensures var out := Pipeline(items, authority).value;
            (forall f :: f in out ==> Acceptable(f)) <==> ValidValue(authority)
  {
    PipelineIsCanonical(items, authority);
    TrustedNames();
    var kept, host := Without(FieldsOf(items), TRUSTED), Field(HOST, authority);
    var out := kept + Trailer(authority);
    WithoutSelects(FieldsOf(items), TRUSTED);
    forall f | f in kept ensures Acceptable(f) {
      var i :| 0 <= i < |items| && FieldsOf(items)[i] == f;
      assert Acceptable(items[i].field);
    }
    assert out[|kept| + 1] == host;
    assert Acceptable(host) <==> ValidValue(authority);
    forall f | f in out ensures f in kept || f == Field(ACCEPT_ENCODING, IDENTITY) || f == host {}
  }

  lemma AcceptedOutput(fields: seq<Field>)
    ensures Accepted(ItemsOf(fields)) <==>
              (forall f :: f in fields ==> Acceptable(f))
              && ValidFraming(ValuesOf(fields, ContentLength), ValuesOf(fields, TransferEncoding))
    ensures FieldsOf(ItemsOf(fields)) == fields
  {
    assert FieldsOf(ItemsOf(fields)) == fields;
    if Accepted(ItemsOf(fields)) {
      forall f | f in fields ensures Acceptable(f) {
        var i :| 0 <= i < |fields| && fields[i] == f;
        assert ItemsOf(fields)[i].field == f;
      }
    }
  }

  /**
   Running the pipeline on its own output changes nothing, provided the trusted
   authority is a valid field value; otherwise the second run is denied.
   */
  lemma PipelineIsIdempotent(items: seq<Item>, authority: Bytes)
    requires Accepted(items)
    ensures var out := Pipeline(items, authority).value;
            Pipeline(ItemsOf(out), authority) == if ValidValue(authority) then Some(out) else None
  {
    var kept := Without(FieldsOf(items), TRUSTED);
    var out := kept + Trailer(authority);
    PipelineIsCanonical(items, authority);
    PipelineKeepsFraming(items, authority);
    OutputIsAcceptable(items, authority);
    AcceptedOutput(out);
    if ValidValue(authority) {
      assert Accepted(ItemsOf(out));
      PipelineIsCanonical(ItemsOf(out), authority);
      CanonicalIsFixed(FieldsOf(items), authority);
    }
  }

  lemma CanonicalIsFixed(fields: seq<Field>, authority: Bytes)
    ensures Without(Without(fields, TRUSTED) + Trailer(authority), TRUSTED) == Without(fields, TRUSTED)
  {
    WithoutConcat(Without(fields, TRUSTED), Trailer(authority), TRUSTED);
    WithoutTwice(fields, TRUSTED, TRUSTED);
    TrailerIsTrusted(authority, Other);
  }

  // ------------------------------------------------------------- the limits

  /** All names and values, one after another. */
  function Flat(fields: seq<Field>): Bytes {
    if fields == [] then []
    else
      var last := fields[|fields| - 1];
      Flat(fields[..|fields| - 1]) + last.name + last.value
  }

  function TotalBytes(fields: seq<Field>): (n: nat)
    ensures n == |Flat(fields)|
  {
    if fields == [] then 0
    else
      var last := fields[|fields| - 1];
      TotalBytes(fields[..|fields| - 1]) + |last.name| + |last.value|
  }

  /** Every field counts with all octets of its name and of its value. */
  lemma EveryOctetCounts(fields: seq<Field>, f: Field)
    ensures |Flat([])| == 0 && |Flat(fields + [f])| == |Flat(fields)| + |f.name| + |f.value|
  {
    assert (fields + [f])[..|fields|] == fields;
  }

  /** The early exits deny exactly the lists that exceed one of the two budgets. */
  method EnforceHeaderLimits(fields: seq<Field>, maxFields: nat, maxBytes: nat) returns (ok: bool)
    ensures ok <==> |fields| <= maxFields && |Flat(fields)| <= maxBytes
  {
    var total := 0;
    for i := 0 to |fields|
      invariant i <= maxFields && total <= maxBytes
      invariant total == TotalBytes(fields[..i])
    {
      assert fields[..i + 1][..i] == fields[..i];
      PrefixIsLighter(fields, i + 1);
      if i + 1 > maxFields {
        return false;
      }
      total := total + |fields[i].name| + |fields[i].value|;
      if total > maxBytes {
        return false;
      }
    }
    assert fields[..|fields|] == fields;
    return true;
  }

  lemma {:induction false} PrefixIsLighter(fields: seq<Field>, n: nat)
    requires n <= |fields|
    ensures TotalBytes(fields[..n]) <= TotalBytes(fields)
  {
    if n == |fields| {
      assert fields[..n] == fields;
    } else {
      PrefixIsLighter(fields[..|fields| - 1], n);
      assert fields[..|fields| - 1][..n] == fields[..n];
    }
  }
}

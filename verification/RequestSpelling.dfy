/**
 The header pipeline in terms of text: which spellings of a field name count, which
 lists are accepted, and where every field of the output comes from.
 */
module RequestSpelling {
  import opened Prelude
  import opened Decimal
  import opened RequestHeaders

  /** The octets are the word, written in small letters, with each letter in either case. */
  predicate Spells(s: Bytes, word: string) {
    |s| == |word|
    && forall i :: 0 <= i < |s| ==> s[i] == word[i] as int || ('a' <= word[i] <= 'z' && s[i] == word[i] as int - 32)
  }

  predicate SmallLetters(word: string) {
    forall i :: 0 <= i < |word| ==> 'a' <= word[i] <= 'z' || word[i] == '-'
  }

  lemma LoweredIsSpelled(s: Bytes, word: string)
    requires SmallLetters(word)
    ensures Lower(s) == Encoded(word) <==> Spells(s, word)
  {
    if Lower(s) == Encoded(word) {
      forall i | 0 <= i < |s| ensures s[i] == word[i] as int || ('a' <= word[i] <= 'z' && s[i] == word[i] as int - 32) {
        assert Lower(s)[i] == Encoded(word)[i];
      }
    }
    if Spells(s, word) {
      forall i | 0 <= i < |s| ensures Lower(s)[i] == Encoded(word)[i] {
      }
    }
  }

  predicate SpellsForbidden(name: Bytes) {
    || Spells(name, "connection") || Spells(name, "keep-alive") || Spells(name, "upgrade")
    || Spells(name, "proxy-authenticate") || Spells(name, "proxy-authorization") || Spells(name, "proxy-connection")
  }

  lemma HostIsSpelled(name: Bytes)
    ensures KindOf(name) == Host <==> Spells(name, "host")
  {
    LoweredIsSpelled(name, "host");
  }

  lemma AcceptEncodingIsSpelled(name: Bytes)
    ensures KindOf(name) == AcceptEncoding <==> Spells(name, "accept-encoding")
  {
    LoweredIsSpelled(name, "accept-encoding");
  }

  lemma ContentLengthIsSpelled(name: Bytes)
    ensures KindOf(name) == ContentLength <==> Spells(name, "content-length")
  {
    LoweredIsSpelled(name, "content-length");
  }

  lemma TransferEncodingIsSpelled(name: Bytes)
    ensures KindOf(name) == TransferEncoding <==> Spells(name, "transfer-encoding")
  {
    LoweredIsSpelled(name, "transfer-encoding");
  }

  lemma ContentEncodingIsSpelled(name: Bytes)
    ensures KindOf(name) == ContentEncoding <==> Spells(name, "content-encoding")
  {
    LoweredIsSpelled(name, "content-encoding");
  }

  lemma ForbiddenIsSpelled(name: Bytes)
    ensures KindOf(name) == Forbidden <==> SpellsForbidden(name)
  {
    LoweredIsSpelled(name, "connection");
    LoweredIsSpelled(name, "keep-alive");
    LoweredIsSpelled(name, "upgrade");
    LoweredIsSpelled(name, "proxy-authenticate");
    LoweredIsSpelled(name, "proxy-authorization");
    LoweredIsSpelled(name, "proxy-connection");
    assert PROXY_CONNECTION[0] != CONTENT_ENCODING[0];
  }

  /** Whatever the case of its letters, a name means what it spells. */
  lemma KindIsSpelled(name: Bytes)
    ensures KindOf(name) == Host <==> Spells(name, "host")
    ensures KindOf(name) == AcceptEncoding <==> Spells(name, "accept-encoding")
    ensures KindOf(name) == ContentLength <==> Spells(name, "content-length")
    ensures KindOf(name) == TransferEncoding <==> Spells(name, "transfer-encoding")
    ensures KindOf(name) == ContentEncoding <==> Spells(name, "content-encoding")
    ensures KindOf(name) == Forbidden <==> SpellsForbidden(name)
  {
    HostIsSpelled(name);
    AcceptEncodingIsSpelled(name);
    ContentLengthIsSpelled(name);
    TransferEncodingIsSpelled(name);
    ContentEncodingIsSpelled(name);
    ForbiddenIsSpelled(name);
  }

  // ------------------------------------------------------ accepted lists

  predicate IsTokenChar(c: char) {
    || '0' <= c <= '9' || 'A' <= c <= 'Z' || 'a' <= c <= 'z'
    || c in {'!', '#', '$', '%', '&', '\'', '*', '+', '-', '.', '^', '_', '`', '|', '~'}
  }

  predicate IsSpaceOrTab(b: byte) { b == ' ' as int || b == '\t' as int }

  /** A name of token characters that controls no connection, and a value without controls and outer blanks. */
  predicate FieldAllowed(f: Field) {
    && f.name != [] && (forall i :: 0 <= i < |f.name| ==> IsTokenChar(f.name[i] as char))
    && !SpellsForbidden(f.name)
    && (f.value != [] ==> !IsSpaceOrTab(f.value[0]) && !IsSpaceOrTab(f.value[|f.value| - 1]))
    && forall i :: 0 <= i < |f.value| ==> f.value[i] == 9 || (f.value[i] >= 32 && f.value[i] != 127)
  }

  predicate Frames(name: Bytes) { Spells(name, "content-length") || Spells(name, "transfer-encoding") }

  /** A length is decimal, and the only transfer coding is `chunked`. */
  predicate FramingAllowed(f: Field) {
    && (Spells(f.name, "content-length") ==>
          f.value != [] && forall i :: 0 <= i < |f.value| ==> '0' as int <= f.value[i] <= '9' as int)
    && (Spells(f.name, "transfer-encoding") ==> Spells(f.value, "chunked"))
  }

  ghost predicate ListAllowed(items: seq<Item>) {
    && (forall i :: 0 <= i < |items| ==> items[i].Pair? && FieldAllowed(items[i].field))
    && (forall i :: 0 <= i < |items| ==> FramingAllowed(items[i].field))
    && forall i, j :: 0 <= i < j < |items| ==> !(Frames(items[i].field.name) && Frames(items[j].field.name))
  }

  lemma TokenIsSpelled(name: Bytes)
    ensures ValidName(name) <==> name != [] && forall i :: 0 <= i < |name| ==> IsTokenChar(name[i] as char)
  {
    forall b: byte ensures IsTokenOctet(b) <==> IsTokenChar(b as char) {
    }
    if name != [] && !ValidName(name) {
      var i :| 0 <= i < |name| && !IsTokenOctet(name[i]);
      assert !IsTokenChar(name[i] as char);
    }
  }

  lemma FieldIsAllowed(f: Field)
    ensures Acceptable(f) <==> FieldAllowed(f)
  {
    TokenIsSpelled(f.name);
    ForbiddenIsSpelled(f.name);
  }

  lemma DecimalIsSpelled(v: Bytes)
    ensures IsDecimal(v) <==> v != [] && forall i :: 0 <= i < |v| ==> '0' as int <= v[i] <= '9' as int
  {
    if AllDigits(v) {
      forall i | 0 <= i < |v| ensures '0' as int <= v[i] <= '9' as int {
        assert IsDigit(v[i]);
      }
    }
  }

  /** The field at `i` is of the kind. */
  predicate At(fields: seq<Field>, kind: Kind, i: nat)
    requires i < |fields|
  {
    KindOf(fields[i].name) == kind
  }

  lemma {:induction false} NoValueMeansNone(fields: seq<Field>, kind: Kind)
    ensures ValuesOf(fields, kind) == [] <==> forall i :: 0 <= i < |fields| ==> !At(fields, kind, i)
  {
    if fields != [] {
      var n := |fields| - 1;
      var front := fields[..n];
      NoValueMeansNone(front, kind);
      SameAt(fields, kind, n);
      assert |ValuesOf(fields, kind)| == |ValuesOf(front, kind)| + if At(fields, kind, n) then 1 else 0;
    }
  }

  lemma SameAt(fields: seq<Field>, kind: Kind, n: nat)
    requires n <= |fields|
    ensures forall i :: 0 <= i < n ==> At(fields[..n], kind, i) == At(fields, kind, i)
  {
  }

  lemma {:induction false} ValuesStand(fields: seq<Field>, kind: Kind)
    ensures forall v :: v in ValuesOf(fields, kind) <==>
              exists i :: 0 <= i < |fields| && At(fields, kind, i) && fields[i].value == v
  {
    if fields != [] {
      var n := |fields| - 1;
      var front := fields[..n];
      ValuesStand(front, kind);
      assert forall i :: 0 <= i < n ==> At(front, kind, i) == At(fields, kind, i);
      assert At(fields, kind, n) == (KindOf(fields[n].name) == kind);
      forall v | v in ValuesOf(fields, kind)
        ensures exists i :: 0 <= i < |fields| && At(fields, kind, i) && fields[i].value == v
      {
        if v in ValuesOf(front, kind) {
          var i :| 0 <= i < n && At(front, kind, i) && front[i].value == v;
          assert At(fields, kind, i) && fields[i].value == v;
        }
      }
    }
  }

  lemma {:induction false} OneValueMeansNoTwo(fields: seq<Field>, kind: Kind)
    ensures |ValuesOf(fields, kind)| <= 1 <==>
              forall i, j :: 0 <= i < j < |fields| ==> !At(fields, kind, i) || !At(fields, kind, j)
  {
    if fields != [] {
      var n := |fields| - 1;
      var front := fields[..n];
      OneValueMeansNoTwo(front, kind);
      NoValueMeansNone(front, kind);
      assert forall i :: 0 <= i < n ==> At(front, kind, i) == At(fields, kind, i);
      assert |ValuesOf(fields, kind)| == |ValuesOf(front, kind)| + if At(fields, kind, n) then 1 else 0;
    }
  }

  predicate AllPairs(items: seq<Item>) {
    forall i :: 0 <= i < |items| ==> items[i].Pair?
  }

  lemma SpelledAt(fields: seq<Field>, i: nat)
    requires i < |fields|
    ensures At(fields, ContentLength, i) <==> Spells(fields[i].name, "content-length")
    ensures At(fields, TransferEncoding, i) <==> Spells(fields[i].name, "transfer-encoding")
    ensures Frames(fields[i].name) <==> At(fields, ContentLength, i) || At(fields, TransferEncoding, i)
  {
    ContentLengthIsSpelled(fields[i].name);
    TransferEncodingIsSpelled(fields[i].name);
  }

  ghost predicate NoTwoFrame(fields: seq<Field>) {
    forall i, j :: 0 <= i < j < |fields| ==> !(Frames(fields[i].name) && Frames(fields[j].name))
  }

  /** At most one framing value in all means that no two fields frame. */
  lemma FramingStands(fields: seq<Field>)
    ensures var lengths, codings := ValuesOf(fields, ContentLength), ValuesOf(fields, TransferEncoding);
            |lengths| <= 1 && |codings| <= 1 && (lengths == [] || codings == []) <==> NoTwoFrame(fields)
  {
    OneValueMeansNoTwo(fields, ContentLength);
    OneValueMeansNoTwo(fields, TransferEncoding);
    NoValueMeansNone(fields, ContentLength);
    NoValueMeansNone(fields, TransferEncoding);
    forall i | 0 <= i < |fields|
      ensures Frames(fields[i].name) <==> At(fields, ContentLength, i) || At(fields, TransferEncoding, i)
    {
      SpelledAt(fields, i);
    }
    if !NoTwoFrame(fields) {
      var i, j :| 0 <= i < j < |fields| && Frames(fields[i].name) && Frames(fields[j].name);
      assert At(fields, ContentLength, i) || At(fields, TransferEncoding, i);
      assert At(fields, ContentLength, j) || At(fields, TransferEncoding, j);
    } else if ValuesOf(fields, ContentLength) != [] && ValuesOf(fields, TransferEncoding) != [] {
      TwoKindsFrame(fields);
    }
  }

  lemma TwoKindsFrame(fields: seq<Field>)
    requires ValuesOf(fields, ContentLength) != [] && ValuesOf(fields, TransferEncoding) != []
    ensures !NoTwoFrame(fields)
  {
    NoValueMeansNone(fields, ContentLength);
    NoValueMeansNone(fields, TransferEncoding);
    var i: nat :| i < |fields| && At(fields, ContentLength, i);
    var j: nat :| j < |fields| && At(fields, TransferEncoding, j);
    SpelledAt(fields, i);
    SpelledAt(fields, j);
    var first, second := if i < j then i else j, if i < j then j else i;
    assert first < second && Frames(fields[first].name) && Frames(fields[second].name);
  }

  ghost predicate AllFramed(fields: seq<Field>) {
    forall i :: 0 <= i < |fields| ==> FramingAllowed(fields[i])
  }

  lemma ChunkedIsSpelled(v: Bytes)
    ensures Lower(v) == CHUNKED <==> Spells(v, "chunked")
  {
    LoweredIsSpelled(v, "chunked");
  }

  lemma FramingValuesStand(fields: seq<Field>)
    ensures AllFramed(fields) <==>
              && (forall v :: v in ValuesOf(fields, ContentLength) ==> IsDecimal(v))
              && (forall v :: v in ValuesOf(fields, TransferEncoding) ==> Lower(v) == CHUNKED)
  {
    ValuesStand(fields, ContentLength);
    ValuesStand(fields, TransferEncoding);
    forall i | 0 <= i < |fields|
      ensures FramingAllowed(fields[i]) <==>
                && (At(fields, ContentLength, i) ==> IsDecimal(fields[i].value))
                && (At(fields, TransferEncoding, i) ==> Lower(fields[i].value) == CHUNKED)
    {
      SpelledAt(fields, i);
      DecimalIsSpelled(fields[i].value);
      ChunkedIsSpelled(fields[i].value);
    }
    if AllFramed(fields) {
      forall v | v in ValuesOf(fields, ContentLength) ensures IsDecimal(v) {
        var i: nat :| i < |fields| && At(fields, ContentLength, i) && fields[i].value == v;
        assert FramingAllowed(fields[i]);
      }
      forall v | v in ValuesOf(fields, TransferEncoding) ensures Lower(v) == CHUNKED {
        var i: nat :| i < |fields| && At(fields, TransferEncoding, i) && fields[i].value == v;
        assert FramingAllowed(fields[i]);
      }
    }
  }

  lemma OneValue(lengths: seq<Bytes>, codings: seq<Bytes>)
    requires |lengths| <= 1 && |codings| <= 1
    ensures (forall v :: v in lengths ==> IsDecimal(v)) <==> (lengths != [] ==> IsDecimal(lengths[0]))
    ensures (forall v :: v in codings ==> Lower(v) == CHUNKED) <==> (codings != [] ==> Lower(codings[0]) == CHUNKED)
  {
  }

  lemma FramingIsAllowed(fields: seq<Field>)
    ensures ValidFraming(ValuesOf(fields, ContentLength), ValuesOf(fields, TransferEncoding)) <==>
              AllFramed(fields) && NoTwoFrame(fields)
  {
    FramingStands(fields);
    FramingValuesStand(fields);
    var lengths, codings := ValuesOf(fields, ContentLength), ValuesOf(fields, TransferEncoding);
    if |lengths| <= 1 && |codings| <= 1 {
      OneValue(lengths, codings);
    }
  }

  /**
   A list is accepted exactly if every item is a pair with an allowed name and value, at
   most one field is spelled `content-length` or `transfer-encoding`, in whatever case,
   and its value is a decimal number, or spells `chunked`.
   */
  lemma AcceptedIsAllowed(items: seq<Item>)
    ensures Accepted(items) <==> ListAllowed(items)
  {
    if AllPairs(items) {
      var fields := FieldsOf(items);
      forall i | 0 <= i < |items| ensures Acceptable(items[i].field) <==> FieldAllowed(items[i].field) {
        FieldIsAllowed(items[i].field);
      }
      FramingIsAllowed(fields);
      assert AllFramed(fields) <==> forall i :: 0 <= i < |items| ==> FramingAllowed(items[i].field) by {
        if AllFramed(fields) {
          forall i | 0 <= i < |items| ensures FramingAllowed(items[i].field) {
            assert FramingAllowed(fields[i]);
          }
        }
      }
      NoTwoItemsFrame(items);
    }
  }

  lemma NoTwoItemsFrame(items: seq<Item>)
    requires AllPairs(items)
    ensures NoTwoFrame(FieldsOf(items)) <==>
              forall i, j :: 0 <= i < j < |items| ==> !(Frames(items[i].field.name) && Frames(items[j].field.name))
  {
    var fields := FieldsOf(items);
    if NoTwoFrame(fields) {
      forall i, j | 0 <= i < j < |items| ensures !(Frames(items[i].field.name) && Frames(items[j].field.name)) {
        assert fields[i] == items[i].field && fields[j] == items[j].field;
      }
    }
  }

  // ------------------------------------------------- where the output comes from

  /** The kept fields stand at these places, in order, and all others are of the dropped kinds. */
  ghost predicate Places(fields: seq<Field>, kinds: set<Kind>, kept: seq<Field>, places: seq<nat>) {
    && |places| == |kept|
    && (forall j :: 0 <= j < |places| ==> places[j] < |fields| && kept[j] == fields[places[j]])
    && (forall j, k :: 0 <= j < k < |places| ==> places[j] < places[k])
    && (forall i: nat :: i < |fields| ==> (i in places <==> KindOf(fields[i].name) !in kinds))
  }

  lemma {:induction false} WithoutPlaces(fields: seq<Field>, kinds: set<Kind>) returns (places: seq<nat>)
    ensures Places(fields, kinds, Without(fields, kinds), places)
  {
    places := [];
    if fields != [] {
      var n := |fields| - 1;
      var before := WithoutPlaces(fields[..n], kinds);
      places := if KindOf(fields[n].name) in kinds then before else before + [n];
      PlacesOneMore(fields, kinds, Without(fields[..n], kinds), before);
    }
  }

  lemma PlacesOneMore(fields: seq<Field>, kinds: set<Kind>, kept: seq<Field>, places: seq<nat>)
    requires fields != [] && Places(fields[..|fields| - 1], kinds, kept, places)
    ensures var n := |fields| - 1;
            if KindOf(fields[n].name) in kinds then Places(fields, kinds, kept, places)
            else Places(fields, kinds, kept + [fields[n]], places + [n])
  {
    var n := |fields| - 1;
    assert forall i :: 0 <= i < n ==> fields[..n][i] == fields[i];
    assert n !in places;
  }

  /**
   Of an accepted list, the output holds exactly the fields spelled neither `host` nor
   `accept-encoding`, in whatever case, unchanged and in order; then identity coding and
   the trusted host.
   */
  lemma OutputIsSpelled(items: seq<Item>, authority: Bytes) returns (places: seq<nat>)
    requires Accepted(items)
    ensures var out := Pipeline(items, authority).value;
            && |out| == |places| + 2
            && out[|places|] == Field(Encoded("accept-encoding"), Encoded("identity"))
            && out[|places| + 1] == Field(Encoded("host"), authority)
            && (forall j :: 0 <= j < |places| ==> places[j] < |items| && items[places[j]] == Pair(out[j]))
    ensures forall j, k :: 0 <= j < k < |places| ==> places[j] < places[k]
    ensures forall i: nat :: i < |items| ==>
              (i in places <==> !Spells(items[i].field.name, "host") && !Spells(items[i].field.name, "accept-encoding"))
  {
    PipelineIsCanonical(items, authority);
    var fields := FieldsOf(items);
    places := WithoutPlaces(fields, TRUSTED);
    forall i: nat | i < |items|
      ensures KindOf(fields[i].name) in TRUSTED <==>
                Spells(items[i].field.name, "host") || Spells(items[i].field.name, "accept-encoding")
    {
      HostIsSpelled(fields[i].name);
      AcceptEncodingIsSpelled(fields[i].name);
    }
  }
}

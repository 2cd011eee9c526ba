/** The bounded, ordered, duplicate-free address list that a connection is pinned to. */
module Addresses {
  import opened Prelude
  import opened Ordering

  /** Every element of `xs` once, where it first occurs. */
  function Firsts(xs: seq<string>): seq<string> {
    if xs == [] then []
    else
      var front, last := Firsts(xs[..|xs| - 1]), xs[|xs| - 1];
      if last in front then front else front + [last]
  }

  function Position(xs: seq<string>, x: string): (i: nat)
    requires x in xs
    ensures i < |xs| && xs[i] == x && x !in xs[..i]
  {
    if xs[0] == x then 0
    else
      var i := Position(xs[1..], x);
      assert xs[..i + 1] == [xs[0]] + xs[1..][..i];
      i + 1
  }

  lemma PositionInPrefix(xs: seq<string>, n: nat, x: string)
    requires n <= |xs| && x in xs[..n]
    ensures x in xs && Position(xs, x) == Position(xs[..n], x)
  {
    var i := Position(xs[..n], x);
    var j := Position(xs, x);
    assert xs[..n][i] == xs[i];
    assert forall k :: 0 <= k < j ==> xs[k] == xs[..j][k] != x;
    assert forall k :: 0 <= k < i ==> xs[k] == xs[..n][..i][k] != x;
  }

  /** No repetition, nothing lost, and the order of first occurrences. */
  lemma {:induction false} FirstsKeepOrder(xs: seq<string>)
    ensures NoDuplicates(Firsts(xs))
    ensures forall x :: x in Firsts(xs) <==> x in xs
    ensures forall i, j :: 0 <= i < j < |Firsts(xs)| ==> Position(xs, Firsts(xs)[i]) < Position(xs, Firsts(xs)[j])
  {
    if xs == [] {
    } else {
      var n := |xs| - 1;
      var front, last := Firsts(xs[..n]), xs[n];
      FirstsKeepOrder(xs[..n]);
      assert xs == xs[..n] + [last];
      forall i | 0 <= i < |front| ensures front[i] in xs && Position(xs, front[i]) == Position(xs[..n], front[i]) < n {
        assert front[i] in xs[..n];
        PositionInPrefix(xs, n, front[i]);
      }
      if last !in front {
        assert last !in xs[..n];
        assert Position(xs, last) == n;
      }
    }
  }

  lemma FirstsOneMore(xs: seq<string>, x: string)
    ensures Firsts(xs + [x]) == if x in Firsts(xs) then Firsts(xs) else Firsts(xs) + [x]
  {
    assert (xs + [x])[..|xs|] == xs;
  }

  /** The addresses of the candidates that pass. */
  function Canonical(verdicts: seq<Option<string>>): seq<string> {
    if verdicts == [] then []
    else
      var last := verdicts[|verdicts| - 1];
      Canonical(verdicts[..|verdicts| - 1]) + if last.Some? then [last.value] else []
  }

  /** Every candidate passes, and gives this text. */
  ghost predicate AllGive(verdicts: seq<Option<string>>, texts: seq<string>) {
    |texts| == |verdicts| && forall i :: 0 <= i < |verdicts| ==> verdicts[i] == Some(texts[i])
  }

  lemma {:induction false} CanonicalIsGiven(verdicts: seq<Option<string>>)
    ensures AllPass(verdicts) ==> AllGive(verdicts, Canonical(verdicts))
    ensures forall texts :: AllGive(verdicts, texts) ==> AllPass(verdicts) && texts == Canonical(verdicts)
  {
    if verdicts != [] {
      var n := |verdicts| - 1;
      CanonicalIsGiven(verdicts[..n]);
      forall texts | AllGive(verdicts, texts) ensures AllPass(verdicts) && texts == Canonical(verdicts) {
        assert AllGive(verdicts[..n], texts[..n]);
        assert texts == texts[..n] + [texts[n]];
      }
    }
  }

  /** The first occurrences among the first `n` candidates, candidate by candidate. */
  function Collected(verdicts: seq<Option<string>>, n: nat): seq<string>
    requires n <= |verdicts|
  {
    if n == 0 then []
    else
      var before := Collected(verdicts, n - 1);
      match verdicts[n - 1]
      case None => before
      case Some(address) => if address in before then before else before + [address]
  }

  lemma {:induction false} CollectedAreFirsts(verdicts: seq<Option<string>>, n: nat)
    requires n <= |verdicts|
    ensures Collected(verdicts, n) == Firsts(Canonical(verdicts[..n]))
  {
    if n == 0 {
    } else {
      var shorter := verdicts[..n - 1];
      CollectedAreFirsts(verdicts, n - 1);
      assert verdicts[..n][..n - 1] == shorter && verdicts[..n][n - 1] == verdicts[n - 1];
      assert Canonical(shorter) + [] == Canonical(shorter);
      if verdicts[n - 1].Some? {
        FirstsOneMore(Canonical(shorter), verdicts[n - 1].value);
      }
    }
  }

  lemma {:induction false} CollectedGrow(verdicts: seq<Option<string>>, m: nat, n: nat)
    requires m <= n <= |verdicts|
    ensures |Collected(verdicts, m)| <= |Collected(verdicts, n)|
    decreases n
  {
    if m == n {
    } else {
      CollectedGrow(verdicts, m, n - 1);
    }
  }

  predicate AllPass(verdicts: seq<Option<string>>) {
    forall i :: 0 <= i < |verdicts| ==> verdicts[i].Some?
  }

  /**
   `_validate_bounded_unique_addresses`: `verdicts` holds, for each candidate in
   order, its canonical address, or None if the address policy refuses it.
   */
  method BoundedUnique(verdicts: seq<Option<string>>, limit: nat) returns (r: Option<seq<string>>)
    ensures r.Some? <==> AllPass(verdicts) && |Firsts(Canonical(verdicts))| <= limit
    ensures r.Some? ==> r.value == Firsts(Canonical(verdicts))
    ensures match r
            case Some(found) => |found| <= limit && exists texts :: AllGive(verdicts, texts) && found == Firsts(texts)
            case None => forall texts :: AllGive(verdicts, texts) ==> |Firsts(texts)| > limit
  {
    CanonicalIsGiven(verdicts);
    CollectedAreFirsts(verdicts, |verdicts|);
    assert verdicts[..|verdicts|] == verdicts;
    r := Collect(verdicts, limit);
  }

  /** The loop over the candidates. */
  method Collect(verdicts: seq<Option<string>>, limit: nat) returns (r: Option<seq<string>>)
    ensures r.Some? <==> AllPass(verdicts) && |Collected(verdicts, |verdicts|)| <= limit
    ensures r.Some? ==> r.value == Collected(verdicts, |verdicts|)
  {
    var validated: seq<string> := [];
    var seen: set<string> := {};
    for i := 0 to |verdicts|
      invariant forall j :: 0 <= j < i ==> verdicts[j].Some?
      invariant validated == Collected(verdicts, i) && |validated| <= limit
      invariant forall x :: x in seen <==> x in validated
    {
      if verdicts[i].None? {
        return None;
      }
      var address := verdicts[i].value;
      if address in seen {
        continue;
      }
      if |validated| >= limit {
        CollectedGrow(verdicts, i + 1, |verdicts|);
        return None;
      }
      seen := seen + {address};
      validated := validated + [address];
    }
    return Some(validated);
  }
}

/** Facts about slices of sequences. */
module Slices {
  lemma SliceOfSlice<T>(s: seq<T>, pos: nat, end: nat, i: nat, j: nat)
    requires pos <= end <= |s| && i <= j <= end - pos
    ensures s[pos..end][i..j] == s[pos + i..pos + j]
  {
    var a, b := s[pos..end][i..j], s[pos + i..pos + j];
    assert forall k :: 0 <= k < j - i ==> a[k] == s[pos..end][i + k] == s[pos + i + k] == b[k];
  }

  lemma SuffixOfSlice<T>(s: seq<T>, pos: nat, end: nat, i: nat)
    requires pos <= end <= |s| && i <= end - pos
    ensures s[pos..end][i..] == s[pos + i..end]
  {
    SliceOfSlice(s, pos, end, i, end - pos);
    assert s[pos..end][i..] == s[pos..end][i..end - pos];
  }

  lemma SuffixSlice<T>(s: seq<T>, pos: nat, i: nat, j: nat)
    requires pos <= |s| && i <= j <= |s| - pos
    ensures s[pos..][i..j] == s[pos + i..pos + j]
  {
    SliceOfSlice(s, pos, |s|, i, j);
    assert s[pos..] == s[pos..|s|];
  }

  /** Equal windows have equal parts. */
  lemma SamePart<T>(s: seq<T>, pos: nat, t: seq<T>, at: nat, size: nat, i: nat, j: nat)
    requires pos + size <= |s| && at + size <= |t| && s[pos..pos + size] == t[at..at + size]
    requires i <= j <= size
    ensures s[pos + i..pos + j] == t[at + i..at + j]
  {
    SliceOfSlice(s, pos, pos + size, i, j);
    SliceOfSlice(t, at, at + size, i, j);
  }

  lemma HeadAndRest<T>(s: seq<T>, pos: nat, end: nat, head: seq<T>, rest: seq<T>)
    requires pos <= end <= |s| && s[pos..end] == head + rest
    ensures pos + |head| <= end
    ensures s[pos..pos + |head|] == head && s[pos + |head|..end] == rest
  {
    assert (head + rest)[..|head|] == head && (head + rest)[|head|..] == rest;
    SliceOfSlice(s, pos, end, 0, |head|);
    SuffixOfSlice(s, pos, end, |head|);
  }

  lemma FirstOfThree<T>(s: seq<T>, pos: nat, first: seq<T>, middle: seq<T>, last: seq<T>)
    requires pos <= |s| && s[pos..] == first + middle + last
    ensures pos + |first| <= |s|
    ensures s[pos..pos + |first|] == first && s[pos + |first|..] == middle + last
  {
    assert s[pos..|s|] == s[pos..] && first + middle + last == first + (middle + last);
    HeadAndRest(s, pos, |s|, first, middle + last);
    assert s[pos + |first|..|s|] == s[pos + |first|..];
  }

  lemma FourParts<T>(a: seq<T>, b: seq<T>, c: seq<T>, d: seq<T>)
    ensures var s := a + b + c + d;
            var i := |a| + |b|;
            && s[0..|a|] == a && s[|a|..i] == b && s[i..i + |c|] == c && s[i + |c|..] == d
  {
  }

  lemma FiveSlices<T>(s: seq<T>, i: nat, j: nat, k: nat, l: nat)
    requires i <= j <= k <= l <= |s|
    ensures s[..i] + s[i..j] + s[j..k] + s[k..l] + s[l..] == s
  {
  }
}

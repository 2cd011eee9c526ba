/**
 What the order of the manifest's lists does to the SBOM: nothing, exactly as long
 as no two components share a purl.
 */
module SbomOrder {
  import opened Prelude
  import opened Graphs
  import opened Ordering
  import opened Manifest
  import opened Sbom
  import opened RuntimeLock

  /** A component with its dependency names sorted: what is left when list orders are forgotten. */
  function Normal(c: Component): Component {
    c.(dependsOn := Sorted(c.dependsOn))
  }

  function Normals(cs: seq<Component>): (ns: seq<Component>)
    ensures |ns| == |cs|
    ensures forall i :: 0 <= i < |cs| ==> ns[i] == Normal(cs[i])
  {
    if cs == [] then [] else [Normal(cs[0])] + Normals(cs[1..])
  }

  lemma {:induction false} InsertCommutes(c: Component, cs: seq<Component>)
    ensures Normals(Insert(c, cs, Purl)) == Insert(Normal(c), Normals(cs), Purl)
  {
    if cs == [] || Leq(c.purl, cs[0].purl) {
    } else {
      InsertCommutes(c, cs[1..]);
    }
  }

  lemma {:induction false} SortCommutes(cs: seq<Component>)
    ensures Normals(SortBy(cs, Purl)) == SortBy(Normals(cs), Purl)
  {
    if cs == [] {
    } else {
      SortCommutes(cs[1..]);
      InsertCommutes(cs[0], SortBy(cs[1..], Purl));
    }
  }

  /** Two manifests that differ only in the order of their component and dependency lists. */
  ghost predicate SameUpToOrder(a: seq<Component>, b: seq<Component>) {
    multiset(Normals(a)) == multiset(Normals(b))
  }

  lemma NormalsConcat(a: seq<Component>, b: seq<Component>)
    ensures Normals(a + b) == Normals(a) + Normals(b)
  {
    forall i | 0 <= i < |a + b| ensures Normals(a + b)[i] == (Normals(a) + Normals(b))[i] {
    }
  }

  lemma NormalsOfThree(a: seq<Component>, c: Component, b: seq<Component>)
    ensures Normals(a + [c] + b) == Normals(a) + [Normal(c)] + Normals(b)
    ensures Normals([c] + (a + b)) == [Normal(c)] + (Normals(a) + Normals(b))
  {
    NormalsConcat(a + [c], b);
    NormalsConcat(a, [c]);
    NormalsConcat(a, b);
    NormalsConcat([c], a + b);
    assert Normals([c]) == [Normal(c)];
  }

  lemma {:induction false} PermutedNormals(a: seq<Component>, b: seq<Component>)
    requires multiset(a) == multiset(b)
    ensures multiset(Normals(a)) == multiset(Normals(b))
  {
    if a == [] {
      assert |b| == |multiset(b)| == 0;
    } else {
      assert a[0] in multiset(b);
      var i :| 0 <= i < |b| && b[i] == a[0];
      var before, behind := b[..i], b[i + 1..];
      var moved := [a[0]] + (before + behind);
      assert b == before + [a[0]] + behind;
      TailsAgree(a, moved);
      assert moved[1..] == before + behind;
      PermutedNormals(a[1..], before + behind);
      NormalsOfThree(before, a[0], behind);
      NormalsTail(a, moved);
    }
  }

  lemma NormalsTail(a: seq<Component>, b: seq<Component>)
    requires a != [] && b != [] && a[0] == b[0] && multiset(Normals(a[1..])) == multiset(Normals(b[1..]))
    ensures multiset(Normals(a)) == multiset(Normals(b))
  {
    assert Normals(a) == [Normal(a[0])] + Normals(a[1..]) && Normals(b) == [Normal(b[0])] + Normals(b[1..]);
  }

  /** What that means: put in some order, the components of `a` are those of `b` with permuted dependencies. */
  lemma PermutedListsAreSame(a: seq<Component>, between: seq<Component>, b: seq<Component>)
    requires multiset(between) == multiset(a) && |between| == |b|
    requires forall i :: 0 <= i < |b| ==>
               && b[i] == between[i].(dependsOn := b[i].dependsOn)
               && multiset(b[i].dependsOn) == multiset(between[i].dependsOn)
    ensures SameUpToOrder(a, b)
  {
    PermutedNormals(a, between);
    forall i | 0 <= i < |b| ensures Normals(b)[i] == Normals(between)[i] {
      SortedForgetsOrder(b[i].dependsOn, between[i].dependsOn);
    }
    assert Normals(b) == Normals(between);
  }

  lemma NormalsMembers(cs: seq<Component>)
    ensures forall c :: c in cs ==> Normal(c) in Normals(cs)
    ensures forall d :: d in Normals(cs) ==> exists c :: c in cs && Normal(c) == d
  {
    forall c | c in cs ensures Normal(c) in Normals(cs) {
      var i :| 0 <= i < |cs| && cs[i] == c;
      assert Normals(cs)[i] == Normal(c);
    }
    forall d | d in Normals(cs) ensures exists c :: c in cs && Normal(c) == d {
      var i :| 0 <= i < |cs| && Normals(cs)[i] == d;
      assert cs[i] in cs;
    }
  }

  /** Under either order a name stands for the same purl. */
  lemma SamePurls(a: seq<Component>, ia: Index, b: seq<Component>, ib: Index)
    requires Indexes(a, ia) && Indexes(b, ib) && SameUpToOrder(a, b)
    ensures forall n :: n in ia ==> n in ib && ib[n].purl == ia[n].purl
  {
    NormalsMembers(a);
    NormalsMembers(b);
    forall n | n in ia ensures n in ib && ib[n].purl == ia[n].purl {
      assert Normal(ia[n]) in multiset(Normals(b));
      var c :| c in b && Normal(c) == Normal(ia[n]);
      assert c.name == n && ib[c.name] == c;
    }
  }

  /** Both orders list the same components, up to the order of each dependency list. */
  lemma SameItems(a: seq<Component>, ia: Index, b: seq<Component>)
    requires Indexes(a, ia) && PurlsDistinct(ia) && SameUpToOrder(a, b)
    ensures Normals(Ordered(a)) == Normals(Ordered(b))
  {
    NormalsMembers(a);
    forall c, d | c in Normals(a) && d in Normals(a) && Purl(c) == Purl(d) ensures c == d {
      var c', d' :| c' in a && Normal(c') == c && d' in a && Normal(d') == d;
      assert ia[c'.name] == c' && ia[d'.name] == d';
    }
    SortForgetsOrder(Normals(a), Normals(b), Purl);
    SortCommutes(a);
    SortCommutes(b);
  }

  lemma PurlsAreMapped(index: Index, names: seq<Name>, f: Name -> string)
    requires forall n :: n in names ==> n in index && f(n) == index[n].purl
    ensures PurlsOf(index, names) == Map(f, names)
  {
    forall i | 0 <= i < |names| ensures PurlsOf(index, names)[i] == Map(f, names)[i] {
      assert names[i] in names;
    }
  }

  lemma SameEntry(ia: Index, ib: Index, reference: string, names: seq<Name>, names': seq<Name>)
    requires forall n :: n in ia ==> n in ib && ib[n].purl == ia[n].purl
    requires (forall n :: n in names ==> n in ia) && (forall n :: n in names' ==> n in ib)
    requires multiset(names) == multiset(names')
    ensures Entry(ia, reference, names) == Entry(ib, reference, names')
  {
    var f := n => if n in ia then ia[n].purl else "";
    forall n | n in names' ensures n in ia {
      assert n in multiset(names);
    }
    PurlsAreMapped(ia, names, f);
    PurlsAreMapped(ib, names', f);
    MapForgetsOrder(f, names, names');
    SortedForgetsOrder(PurlsOf(ia, names), PurlsOf(ib, names'));
  }

  datatype Property = Property(name: string, value: string)

  /** A component as the SBOM lists it, with one hash and one license. */
  datatype Listed = Listed(
    kind: string, reference: string, name: string, version: string, purl: string,
    algorithm: string, content: string, license: string, properties: seq<Property>)

  /** `_component_json`. */
  function ListedAs(c: Component): Listed {
    var marker := if c.marker.Some? then [Property("egressweave:release:runtime-marker", c.marker.value)] else [];
    Listed("library", c.purl, c.name, c.version, c.purl, "SHA-256", c.sha256, c.license,
           [Property("egressweave:release:dependency-artifact", c.fileName)] + marker)
  }

  /** The `components` list of the SBOM. */
  function Listing(items: seq<Component>): (ls: seq<Listed>)
    ensures |ls| == |items| && forall i :: 0 <= i < |ls| ==> ls[i] == ListedAs(items[i])
  {
    seq(|items|, i requires 0 <= i < |items| => ListedAs(items[i]))
  }

  /** Nothing of a component is lost in the list but what it depends on. */
  lemma ListedTellsComponents(c: Component, d: Component)
    ensures ListedAs(c) == ListedAs(d) <==> c == d.(dependsOn := c.dependsOn)
  {
    if ListedAs(c) == ListedAs(d) {
      var p, q := ListedAs(c).properties, ListedAs(d).properties;
      assert p[0] == Property("egressweave:release:dependency-artifact", c.fileName);
      assert q[0] == Property("egressweave:release:dependency-artifact", d.fileName);
      assert |p| == if c.marker.Some? then 2 else 1;
      assert |q| == if d.marker.Some? then 2 else 1;
      if c.marker.Some? {
        assert p[1].value == c.marker.value && q[1].value == d.marker.value;
      }
    }
  }

  lemma SameEntryOfItem(ia: Index, ib: Index, c: Component, d: Component)
    requires (forall n :: n in c.dependsOn ==> n in ia) && (forall n :: n in d.dependsOn ==> n in ib)
    requires forall n :: n in ia ==> n in ib && ib[n].purl == ia[n].purl
    requires Normal(c) == Normal(d)
    ensures Entry(ia, c.purl, c.dependsOn) == Entry(ib, d.purl, d.dependsOn)
  {
    assert multiset(c.dependsOn) == multiset(Sorted(d.dependsOn)) == multiset(d.dependsOn);
    SameEntry(ia, ib, c.purl, c.dependsOn, d.dependsOn);
  }

  lemma SameItemEntries(a: seq<Component>, ia: Index, b: seq<Component>, ib: Index)
    requires forall i, n :: 0 <= i < |a| && n in a[i].dependsOn ==> n in ia
    requires forall i, n :: 0 <= i < |b| && n in b[i].dependsOn ==> n in ib
    requires forall n :: n in ia ==> n in ib && ib[n].purl == ia[n].purl
    requires Normals(a) == Normals(b)
    ensures ItemEntries(a, ia) == ItemEntries(b, ib)
  {
    assert |a| == |Normals(a)| == |Normals(b)| == |b|;
    forall i | 0 <= i < |a| ensures ItemEntries(a, ia)[i] == ItemEntries(b, ib)[i] {
      assert Normals(a)[i] == Normal(a[i]) && Normals(b)[i] == Normal(b[i]);
      SameEntryOfItem(ia, ib, a[i], b[i]);
    }
  }

  lemma DependenciesAreEntries(rootRef: string, root: Root, cs: seq<Component>, index: Index)
    requires Closed(root, index) && Indexes(cs, index)
    ensures forall i, n :: 0 <= i < |Ordered(cs)| && n in Ordered(cs)[i].dependsOn ==> n in index
    ensures Dependencies(rootRef, root, cs, index)
         == [Entry(index, rootRef, root.dependsOn)] + ItemEntries(Ordered(cs), index)
  {
    OrderedIsIndexed(cs, index);
    ItemNamesAreKnown(root, Ordered(cs), index);
  }

  lemma SameListing(a: seq<Component>, b: seq<Component>)
    requires Normals(a) == Normals(b)
    ensures Listing(a) == Listing(b)
  {
    assert |a| == |Normals(a)| == |Normals(b)| == |b|;
    forall i | 0 <= i < |a| ensures Listing(a)[i] == Listing(b)[i] {
      assert Normals(a)[i] == Normal(a[i]) && Normals(b)[i] == Normal(b[i]);
    }
  }

  /** Permuting the manifest's component and dependency lists changes neither list of the SBOM. */
  lemma SbomForgetsOrder(rootRef: string, ra: Root, a: seq<Component>, ia: Index,
                         rb: Root, b: seq<Component>, ib: Index)
    requires Closed(ra, ia) && Indexes(a, ia) && Closed(rb, ib) && Indexes(b, ib)
    requires PurlsDistinct(ia)
    requires SameUpToOrder(a, b) && multiset(ra.dependsOn) == multiset(rb.dependsOn)
    ensures Dependencies(rootRef, ra, a, ia) == Dependencies(rootRef, rb, b, ib)
    ensures Listing(Ordered(a)) == Listing(Ordered(b))
  {
    SamePurls(a, ia, b, ib);
    SameItems(a, ia, b);
    SameListing(Ordered(a), Ordered(b));
    DependenciesAreEntries(rootRef, ra, a, ia);
    DependenciesAreEntries(rootRef, rb, b, ib);
    SameEntry(ia, ib, rootRef, ra.dependsOn, rb.dependsOn);
    SameItemEntries(Ordered(a), ia, Ordered(b), ib);
  }

  // ------------------------------------------------------------ equal purls

  lemma PurlIdentifies(cs: seq<Component>, index: Index)
    requires Indexes(cs, index)
    ensures KeyIdentifies(cs, Purl) <==> PurlsDistinct(index)
  {
    if KeyIdentifies(cs, Purl) {
      forall m, n | m in index && n in index && index[m].purl == index[n].purl ensures m == n {
        assert Purl(index[m]) == Purl(index[n]);
      }
    }
    if PurlsDistinct(index) {
      forall c, d | c in cs && d in cs && Purl(c) == Purl(d) ensures c == d {
        assert index[c.name] == c && index[d.name] == d;
      }
    }
  }

  /** Among orders of one component list, what the SBOM copies tells the sorted lists apart. */
  lemma ListingTellsOrder(cs: seq<Component>, index: Index, q: seq<Component>)
    requires Indexes(cs, index) && multiset(q) == multiset(cs)
    requires Listing(Ordered(q)) == Listing(Ordered(cs))
    ensures Ordered(q) == Ordered(cs)
  {
    SortByKeepsElements(cs, Purl);
    SortByKeepsElements(q, Purl);
    var a, b := Ordered(q), Ordered(cs);
    assert |a| == |Listing(a)| == |Listing(b)| == |b|;
    forall i | 0 <= i < |a| ensures a[i] == b[i] {
      assert a[i] in a && b[i] in b;
      assert a[i] in multiset(q) && b[i] in cs;
      assert Listing(a)[i].name == a[i].name && Listing(b)[i].name == b[i].name;
      assert index[a[i].name] == a[i] && index[b[i].name] == b[i];
    }
  }

  /** The sorted components are the same for every order of the manifest's list. */
  ghost predicate OrderIsFree(cs: seq<Component>) {
    forall q :: multiset(q) == multiset(cs) ==> Ordered(q) == Ordered(cs)
  }

  /** What the SBOM copies of them is the same for every order. */
  ghost predicate ListingIsFree(cs: seq<Component>) {
    forall q :: multiset(q) == multiset(cs) ==> Listing(Ordered(q)) == Listing(Ordered(cs))
  }

  lemma FreeListingIsFreeOrder(cs: seq<Component>, index: Index)
    requires Indexes(cs, index)
    ensures ListingIsFree(cs) <==> OrderIsFree(cs)
  {
    if ListingIsFree(cs) {
      forall q | multiset(q) == multiset(cs) ensures Ordered(q) == Ordered(cs) {
        ListingTellsOrder(cs, index, q);
      }
    }
  }

  /** The SBOM's component list is free of the manifest's order exactly when purls are distinct. */
  lemma OrderIsFreeIffPurlsDistinct(cs: seq<Component>, index: Index)
    requires Indexes(cs, index)
    ensures OrderIsFree(cs) <==> PurlsDistinct(index)
    ensures ListingIsFree(cs) <==> PurlsDistinct(index)
  {
    FreeListingIsFreeOrder(cs, index);
    PurlIdentifies(cs, index);
    OrderMattersIffKeysCollide(cs, Purl);
    if OrderIsFree(cs) {
      forall q | multiset(q) == multiset(cs) ensures SortBy(q, Purl) == SortBy(cs, Purl) {
        assert Ordered(q) == Ordered(cs);
      }
    }
    if PurlsDistinct(index) {
      forall q | multiset(q) == multiset(cs) ensures Ordered(q) == Ordered(cs) {
        assert SortBy(q, Purl) == SortBy(cs, Purl);
      }
    }
  }

  /** The text up to the first `@`. */
  function BeforeAt(s: string): string {
    if s == [] || s[0] == '@' then [] else [s[0]] + BeforeAt(s[1..])
  }

  lemma {:induction false} BeforeAtIsName(name: Name, rest: string)
    requires '@' !in name
    ensures BeforeAt(name + "@" + rest) == name
  {
    var s := name + "@" + rest;
    if name == [] {
    } else {
      BeforeAtIsName(name[1..], rest);
      assert s[1..] == name[1..] + "@" + rest;
    }
  }

  /** Names without `@` keep purls apart, whatever the versions. */
  lemma PlainNamesHaveDistinctPurls(a: Name, b: Name, va: string, vb: string)
    requires '@' !in a && '@' !in b && ExpectedPurl(a, va) == ExpectedPurl(b, vb)
    ensures a == b && va == vb
  {
    assert ExpectedPurl(a, va)[9..] == a + "@" + va;
    assert ExpectedPurl(b, vb)[9..] == b + "@" + vb;
    BeforeAtIsName(a, va);
    BeforeAtIsName(b, vb);
    assert (a + "@" + va)[|a| + 1..] == va && (b + "@" + vb)[|b| + 1..] == vb;
  }

  lemma PurlsCanCollide()
    ensures ExpectedPurl("a@1", "2") == ExpectedPurl("a", "1@2")
  {
    assert "pkg:pypi/" + "a@1" + "@" + "2" == "pkg:pypi/a@1@2" == "pkg:pypi/" + "a" + "@" + "1@2";
  }

  /** A dependency of the root is the name of a requirement, and so holds no `@`. */
  lemma RootDependenciesArePlain(root: Root, n: Name)
    requires RootAllowed(root) && n in root.dependsOn
    ensures '@' !in n
  {
    var names := RequiredNames(root.requirements);
    assert multiset(names) == multiset(Sorted(names)) == multiset(Sorted(root.dependsOn)) == multiset(root.dependsOn);
    assert n in multiset(names);
    var i :| 0 <= i < |names| && names[i] == n;
  }

  /** A plain component below the root, depending on one whose name holds `@`: the purls are the same. */
  function Outer(): Component {
    Component("a", "1@2", "MIT", seq(64, _ => '0'), "f", ExpectedPurl("a", "1@2"), ["a@1"], None)
  }

  function Inner(): Component {
    Component("a@1", "2", "MIT", seq(64, _ => '0'), "f", ExpectedPurl("a@1", "2"), [], None)
  }

  function Package(): Root {
    Root("r", "MIT", ["a"], [Parsed("a", "a", true)])
  }

  function Both(): Index {
    map["a" := Outer(), "a@1" := Inner()]
  }

  lemma PartsAreAllowed()
    ensures RootAllowed(Package()) && ComponentAllowed(Outer()) && ComponentAllowed(Inner())
  {
    assert RequiredNames(Package().requirements) == ["a"] == Package().dependsOn;
    assert Texts(Package().requirements) == ["a"];
  }

  lemma ChainIsSound(g: Graph<Name>, x: Name, y: Name)
    requires x != y && x in g && y in g && g[x] == [y] && g[y] == []
    ensures SoundBelow([x], g) && ReachesAny(g, [x], x) && ReachesAny(g, [x], y)
  {
    assert [y, x][..1] == [y];
    assert Topological(g, [y, x]);
    TopologicalIsAcyclic(g, [y, x], x);
    TopologicalIsAcyclic(g, [y, x], y);
    RootIsReached(g, [x], x);
    assert Edge(g, x, y);
    ReachedAcrossEdge(g, [x], x, y);
    forall n | ReachesAny(g, [x], n) ensures n in g && !OnCycle(g, n) {
      assert Reaches(g, x, n) && n in [y, x];
    }
  }

  /** A root, what it depends on, and what that depends on: a manifest of two components. */
  lemma ChainIsReviewed(root: Root, cs: seq<Component>, index: Index, x: Name, y: Name)
    requires RootAllowed(root) && Indexes(cs, index) && root.name !in index
    requires forall c :: c in cs ==> ComponentAllowed(c)
    requires cs != [] && x != y && (forall n :: n in index <==> n == x || n == y)
    requires root.dependsOn == [x] && index[x].dependsOn == [y] && index[y].dependsOn == []
    ensures Reviewed(root, cs, index)
  {
    ChainIsSound(GraphOf(index), x, y);
  }

  lemma CollidingIsReviewed(cs: seq<Component>)
    requires cs == [Outer(), Inner()] || cs == [Inner(), Outer()]
    ensures Reviewed(Package(), cs, Both())
  {
    PartsAreAllowed();
    CollidingIsIndexed(cs);
    assert |"a@1"| != |"a"| && "r"[0] != 'a';
    ChainIsReviewed(Package(), cs, Both(), "a", "a@1");
  }

  lemma CollidingIsIndexed(cs: seq<Component>)
    requires cs == [Outer(), Inner()] || cs == [Inner(), Outer()]
    ensures Indexes(cs, Both())
  {
    assert |"a@1"| != |"a"|;
  }

  /** The loader alone does not forbid `@`: a manifest it accepts in either order gives two different SBOMs. */
  lemma OrderCanMatter()
    ensures Reviewed(Package(), [Outer(), Inner()], Both()) && Reviewed(Package(), [Inner(), Outer()], Both())
    ensures Listing(Ordered([Outer(), Inner()])) != Listing(Ordered([Inner(), Outer()]))
  {
    PurlsCanCollide();
    CollidingIsReviewed([Outer(), Inner()]);
    CollidingIsReviewed([Inner(), Outer()]);
    TwoSorted(Outer(), Inner());
    TwoSorted(Inner(), Outer());
    assert Listing([Outer(), Inner()])[0].name == "a" && Listing([Inner(), Outer()])[0].name == "a@1";
    assert |"a@1"| != |"a"|;
  }

  /** Of two components with one purl, the first stays first. */
  lemma TwoSorted(c: Component, d: Component)
    requires c.purl == d.purl
    ensures Ordered([c, d]) == [c, d]
  {
    LeqReflexive(c.purl);
    assert [c, d][1..] == [d] && [d][1..] == [];
    assert SortBy([d], Purl) == Insert(d, SortBy([], Purl), Purl) == [d];
  }

  // -------------------------------------------------------- the released SBOM

  /** What the lock check adds: no component has `@` in its name, so no two share a purl. */
  lemma LockedPurlsAreDistinct(root: Root, cs: seq<Component>, index: Index, lines: seq<LockLine>, lock: Lock,
                               canonical: string -> Option<string>)
    requires Validated(root, cs, index, lines, lock, canonical)
    ensures PurlsDistinct(index)
  {
    forall m, n | m in index && n in index && index[m].purl == index[n].purl ensures m == n {
      assert index[m] in cs && index[n] in cs;
      LockedNamesArePlain(lines, lock, m);
      LockedNamesArePlain(lines, lock, n);
      PlainNamesHaveDistinctPurls(m, n, index[m].version, index[n].version);
    }
  }

  /** A manifest that passed the lock check gives one SBOM, however its lists are ordered. */
  lemma ReleasedSbomForgetsOrder(rootRef: string, ra: Root, a: seq<Component>, ia: Index,
                                 rb: Root, b: seq<Component>, ib: Index,
                                 lines: seq<LockLine>, lock: Lock, canonical: string -> Option<string>)
    requires Validated(ra, a, ia, lines, lock, canonical) && Reviewed(rb, b, ib)
    requires SameUpToOrder(a, b) && multiset(ra.dependsOn) == multiset(rb.dependsOn)
    ensures Closed(ra, ia) && Closed(rb, ib)
    ensures Dependencies(rootRef, ra, a, ia) == Dependencies(rootRef, rb, b, ib)
    ensures Listing(Ordered(a)) == Listing(Ordered(b))
  {
    LockedPurlsAreDistinct(ra, a, ia, lines, lock, canonical);
    ReviewedIsClosed(ra, a, ia);
    ReviewedIsClosed(rb, b, ib);
    SbomForgetsOrder(rootRef, ra, a, ia, rb, b, ib);
  }

  /** And that SBOM's dependency list is the manifest's graph renamed: same edges, closed, acyclic. */
  lemma ReleasedSbomGraph(digest: string, root: Root, cs: seq<Component>, index: Index,
                          lines: seq<LockLine>, lock: Lock, canonical: string -> Option<string>,
                          m: Name, n: Name, p: seq<string>)
    requires Validated(root, cs, index, lines, lock, canonical)
    requires m in index && n in index && |p| > 1
    ensures Closed(root, index)
    ensures var ds := Dependencies(RootRef(digest), root, cs, index);
            && (Targets(ds, index[m].purl, index[n].purl) <==> n in index[m].dependsOn)
            && (Targets(ds, RootRef(digest), index[n].purl) <==> n in root.dependsOn)
            && (EmittedPath(ds, p) ==> p[0] != p[|p| - 1] && exists k :: k in index && index[k].purl == p[1])
  {
    LockedPurlsAreDistinct(root, cs, index, lines, lock, canonical);
    ReviewedIsEmittable(digest, root, cs, index);
    SbomGraphIsTheManifestGraph(RootRef(digest), root, cs, index, m, n, p);
  }

  /** In it, each component's purl is the reference of exactly one entry, which holds that component's dependencies. */
  lemma ReleasedReferenceIsUnique(digest: string, root: Root, cs: seq<Component>, index: Index,
                                  lines: seq<LockLine>, lock: Lock, canonical: string -> Option<string>, n: Name)
    requires Validated(root, cs, index, lines, lock, canonical) && n in index
    ensures Closed(root, index)
    ensures var ds := Dependencies(RootRef(digest), root, cs, index);
            && ds[0].reference == RootRef(digest)
            && (forall j :: 0 < j < |ds| ==> ds[j].reference != RootRef(digest))
            && (exists i :: 0 < i < |ds| && ds[i] == Entry(index, index[n].purl, index[n].dependsOn)
                   && forall j :: 0 <= j < |ds| && ds[j].reference == index[n].purl ==> j == i)
  {
    LockedPurlsAreDistinct(root, cs, index, lines, lock, canonical);
    ReviewedIsEmittable(digest, root, cs, index);
    var ds := Dependencies(RootRef(digest), root, cs, index);
    var i := ReferenceIsUnique(ds, RootRef(digest), root, Ordered(cs), index, n);
  }

  /** The SBOM's entry says of the component what the lock says of the package. */
  ghost predicate Attested(l: Listed, c: Component, line: LockLine, canonical: string -> Option<string>) {
    && l.kind == "library" && l.name == c.name && l.version == c.version && l.license == c.license
    && l.purl == "pkg:pypi/" + c.name + "@" + c.version && l.reference == l.purl
    && l.algorithm == "SHA-256" && l.content == c.sha256
    && l.properties != [] && l.properties[0] == Property("egressweave:release:dependency-artifact", c.fileName)
    && (c.marker.None? ==> |l.properties| == 1)
    && (c.marker.Some? ==> l.properties[1..] == [Property("egressweave:release:runtime-marker", c.marker.value)])
    && line.Locked? && line.name == l.name && line.digest == l.content && line.specifiers == [Exactly(l.version)]
    && !line.url && !line.extras && line.hashes == 1
    && (c.marker.None? ==> line.marker.None?)
    && (c.marker.Some? ==> line.marker.Some? && line.marker == canonical(c.marker.value))
  }

  lemma ListedIsAttested(c: Component, line: LockLine, canonical: string -> Option<string>)
    requires ComponentAllowed(c) && LineAllowed(line) && States(line, c, canonical)
    ensures Attested(ListedAs(c), c, line, canonical)
  {
    var l := ListedAs(c);
    if c.marker.Some? {
      assert l.properties[1..] == [Property("egressweave:release:runtime-marker", c.marker.value)];
    }
  }

  /**
   The released SBOM lists every component of the manifest at one place and nothing else,
   with its version, digest, license, file name and marker, and a line of the lock states
   the same version, digest and canonical marker.
   */
  lemma ReleasedComponentIsListed(root: Root, cs: seq<Component>, index: Index, lines: seq<LockLine>, lock: Lock,
                                  canonical: string -> Option<string>, c: Component)
    returns (i: nat, k: nat)
    requires Validated(root, cs, index, lines, lock, canonical) && c in cs
    ensures var listing := Listing(Ordered(cs));
            && |listing| == |cs| && i < |listing| && k < |lines|
            && Attested(listing[i], c, lines[k], canonical)
            && forall j :: 0 <= j < |listing| && listing[j].name == c.name ==> j == i
  {
    i := ComponentHasOnePlace(cs, index, c);
    MatchedIsStated(lines, lock, c, canonical);
    k :| k < |lines| && States(lines[k], c, canonical);
    ListedIsAttested(c, lines[k], canonical);
  }

  lemma ComponentHasOnePlace(cs: seq<Component>, index: Index, c: Component) returns (i: nat)
    requires Indexes(cs, index) && c in cs
    ensures |Ordered(cs)| == |cs| && i < |Ordered(cs)| && Ordered(cs)[i] == c
    ensures forall j :: 0 <= j < |Ordered(cs)| && Ordered(cs)[j].name == c.name ==> j == i
  {
    SortByKeepsElements(cs, Purl);
    SortBySorts(cs, Purl);
    assert |Ordered(cs)| == |multiset(Ordered(cs))| == |multiset(cs)| == |cs|;
    i :| i < |Ordered(cs)| && Ordered(cs)[i] == c;
    OrderedIsIndexed(cs, index);
  }

  predicate WithoutBreaks(s: string) {
    s != [] && forall i :: 0 <= i < |s| ==> s[i] != '\r' && s[i] != '\n' && s[i] != 0 as char
  }

  /** No text of a listed component is empty or holds a line break or a NUL. */
  lemma ListedTextsAreSafe(c: Component)
    requires ComponentAllowed(c)
    ensures var l := ListedAs(c);
            && WithoutBreaks(l.name) && WithoutBreaks(l.version) && WithoutBreaks(l.purl) && WithoutBreaks(l.reference)
            && WithoutBreaks(l.content) && l.license in {"Apache-2.0", "BSD-3-Clause", "MIT", "MPL-2.0", "PSF-2.0"}
            && forall i :: 0 <= i < |l.properties| ==> WithoutBreaks(l.properties[i].value)
  {
    assert WithoutBreaks("pkg:pypi/") && WithoutBreaks("@");
    BreaksConcat("pkg:pypi/", c.name);
    BreaksConcat("pkg:pypi/" + c.name, "@");
    BreaksConcat("pkg:pypi/" + c.name + "@", c.version);
  }

  lemma BreaksConcat(a: string, b: string)
    requires WithoutBreaks(a) && WithoutBreaks(b)
    ensures WithoutBreaks(a + b)
  {
  }
}

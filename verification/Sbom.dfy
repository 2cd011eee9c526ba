/**
 The manifest's closure check and the dependency part of the SBOM built from it.
 A component list stands for the manifest's JSON list, and so also for the
 insertion order of the dictionary that indexes it by name.
 */
module Sbom {
  import opened Prelude
  import opened Graphs
  import opened Ordering
  import opened Manifest

  // -------------------------------------------------------- the reviewed texts

  /** `_text`: not empty, and without line breaks and NULs. */
  predicate SafeText(s: string) {
    s != [] && '\r' !in s && '\n' !in s && 0 as char !in s
  }

  const REVIEWED_LICENSES := {"Apache-2.0", "BSD-3-Clause", "MIT", "MPL-2.0", "PSF-2.0"}

  predicate IsSha256(s: string) {
    |s| == 64 && forall i :: 0 <= i < |s| ==> '0' <= s[i] <= '9' || 'a' <= s[i] <= 'f'
  }

  /** `_list` and, on canonical names, `_names`: safe texts without repetition. */
  predicate SafeTexts(names: seq<Name>) {
    (forall i :: 0 <= i < |names| ==> SafeText(names[i])) && NoDuplicates(names)
  }

  /** Names stand for themselves after `_name`, which replaces runs of `-`, `_` and `.` and lowers letters. */
  datatype Component = Component(
    name: Name, version: string, license: string, sha256: string, fileName: string, purl: string,
    dependsOn: seq<Name>, marker: Option<string>)

  predicate IsPlainChar(c: char) { 'a' <= c <= 'z' || '0' <= c <= '9' || c == '-' }

  /** A name that stood in a requirement: PEP 508 allows it nothing but letters, digits and the separators. */
  type PlainName = s: string | s != [] && forall i :: 0 <= i < |s| ==> IsPlainChar(s[i]) witness "a"

  /** A text given to `Requirement`, and what it names; `indexOnly` if neither a URL nor extras are given. */
  datatype Requirement = Invalid(text: string) | Parsed(text: string, name: PlainName, indexOnly: bool)

  datatype Root = Root(name: Name, license: string, dependsOn: seq<Name>, requirements: seq<Requirement>)

  function Texts(requirements: seq<Requirement>): seq<string> {
    seq(|requirements|, i requires 0 <= i < |requirements| => requirements[i].text)
  }

  function RequiredNames(requirements: seq<Requirement>): (names: seq<Name>)
    requires forall i :: 0 <= i < |requirements| ==> requirements[i].Parsed?
    ensures |names| == |requirements| && forall i :: 0 <= i < |names| ==> names[i] == requirements[i].name
  {
    seq(|requirements|, i requires 0 <= i < |requirements| => requirements[i].name)
  }

  /** The root's own fields, and its requirements naming exactly its dependencies. */
  predicate RootAllowed(root: Root) {
    && SafeText(root.name) && root.license in REVIEWED_LICENSES && SafeTexts(root.dependsOn)
    && SafeTexts(Texts(root.requirements))
    && (forall i :: 0 <= i < |root.requirements| ==>
          root.requirements[i].Parsed? && root.requirements[i].indexOnly)
    && Sorted(RequiredNames(root.requirements)) == Sorted(root.dependsOn)
  }

  /** `_component`. */
  predicate ComponentAllowed(c: Component) {
    && SafeText(c.name) && SafeText(c.version) && c.license in REVIEWED_LICENSES
    && IsSha256(c.sha256) && SafeText(c.fileName) && '/' !in c.fileName && '\\' !in c.fileName
    && c.purl == ExpectedPurl(c.name, c.version) && SafeTexts(c.dependsOn)
    && (c.marker.Some? ==> SafeText(c.marker.value) && |c.marker.value| <= 200)
  }

  function Purl(c: Component): string { c.purl }

  function ExpectedPurl(name: Name, version: string): string {
    "pkg:pypi/" + name + "@" + version
  }

  type Index = map<Name, Component>

  /** `index` is the dictionary built from the list `cs`. */
  ghost predicate Indexes(cs: seq<Component>, index: Index) {
    && (forall i, j :: 0 <= i < j < |cs| ==> cs[i].name != cs[j].name)
    && (forall c :: c in cs ==> c.name in index && index[c.name] == c)
    && (forall n :: n in index ==> index[n] in cs && index[n].name == n)
  }

  function GraphOf(index: Index): Graph<Name> {
    map n | n in index :: index[n].dependsOn
  }

  /** What loading the manifest promises. */
  ghost predicate Reviewed(root: Root, cs: seq<Component>, index: Index) {
    && RootAllowed(root)
    && cs != []
    && Indexes(cs, index)
    && root.name !in index
    && (forall c :: c in cs ==> ComponentAllowed(c))
    && SoundBelow(root.dependsOn, GraphOf(index))
    && (forall n :: n in index ==> ReachesAny(GraphOf(index), root.dependsOn, n))
  }

  /**
   The same in terms of the lists: some order of names has every package behind what it
   depends on, and whatever holds the root's dependencies and is closed holds every package.
   */
  ghost predicate Arranged(root: Root, cs: seq<Component>, index: Index, order: seq<Name>) {
    && RootAllowed(root) && cs != [] && Indexes(cs, index) && root.name !in index
    && (forall c :: c in cs ==> ComponentAllowed(c))
    && (forall n :: n in root.dependsOn ==> n in order)
    && (forall i :: 0 <= i < |order| ==>
          && order[i] in index
          && forall d :: d in index[order[i]].dependsOn ==> exists j :: 0 <= j < i && order[j] == d)
    && forall names :: HoldsBelow(root, index, names) ==> index.Keys <= names
  }

  ghost predicate HoldsBelow(root: Root, index: Index, names: set<Name>) {
    && (forall n :: n in root.dependsOn ==> n in names)
    && forall m, n :: m in names && m in index && n in index[m].dependsOn ==> n in names
  }

  lemma HoldsBelowIsClosed(root: Root, index: Index, names: set<Name>)
    ensures HoldsBelow(root, index, names) <==> ClosedUnder(root.dependsOn, GraphOf(index), names)
  {
  }

  lemma ArrangedIsReviewed(root: Root, cs: seq<Component>, index: Index, order: seq<Name>)
    requires Arranged(root, cs, index, order)
    ensures Reviewed(root, cs, index)
  {
    ArrangedIsOrdered(root, index, order);
    OrderedIsSound(root.dependsOn, GraphOf(index), order);
    LeastIsReached(root.dependsOn, GraphOf(index));
  }

  lemma ArrangedIsOrdered(root: Root, index: Index, order: seq<Name>)
    requires forall n :: n in root.dependsOn ==> n in order
    requires forall i :: 0 <= i < |order| ==>
               && order[i] in index
               && forall d :: d in index[order[i]].dependsOn ==> exists j :: 0 <= j < i && order[j] == d
    requires forall names :: HoldsBelow(root, index, names) ==> index.Keys <= names
    ensures Orders(root.dependsOn, GraphOf(index), order)
    ensures forall names :: ClosedUnder(root.dependsOn, GraphOf(index), names) ==> GraphOf(index).Keys <= names
  {
    forall names | ClosedUnder(root.dependsOn, GraphOf(index), names) ensures GraphOf(index).Keys <= names {
      HoldsBelowIsClosed(root, index, names);
    }
  }

  lemma WalkedIsArranged(root: Root, cs: seq<Component>, index: Index, order: seq<Name>, names: set<Name>)
    requires Reviewed(root, cs, index) && Orders(root.dependsOn, GraphOf(index), order) && index.Keys <= names
    requires forall others :: ClosedUnder(root.dependsOn, GraphOf(index), others) ==> names <= others
    ensures Arranged(root, cs, index, order)
  {
    forall others | HoldsBelow(root, index, others) ensures index.Keys <= others {
      HoldsBelowIsClosed(root, index, others);
    }
    forall i | 0 <= i < |order|
      ensures order[i] in index
      ensures forall d :: d in index[order[i]].dependsOn ==> exists j :: 0 <= j < i && order[j] == d
    {
      assert GraphOf(index)[order[i]] == index[order[i]].dependsOn;
    }
  }

  /** The root, the loop over raw components, then the closure check. */
  method LoadManifest(root: Root, raw: seq<Component>) returns (ok: bool, components: Index)
    ensures ok <==> exists index :: Reviewed(root, raw, index)
    ensures ok ==> Reviewed(root, raw, components)
    ensures ok <==> exists index, order :: Arranged(root, raw, index, order)
  {
    ghost var order: seq<Name>;
    ok, components, order := LoadParts(root, raw);
    ArrangedOnlyIfReviewed(root, raw);
    if ok {
      assert Arranged(root, raw, components, order);
    }
  }

  lemma ArrangedOnlyIfReviewed(root: Root, raw: seq<Component>)
    ensures (exists index, order :: Arranged(root, raw, index, order)) ==> exists index :: Reviewed(root, raw, index)
  {
    if index, order :| Arranged(root, raw, index, order) {
      ArrangedIsReviewed(root, raw, index, order);
    }
  }

  method LoadParts(root: Root, raw: seq<Component>) returns (ok: bool, components: Index, ghost order: seq<Name>)
    ensures ok ==> Reviewed(root, raw, components) && Arranged(root, raw, components, order)
    ensures !ok ==> forall index :: !Reviewed(root, raw, index)
  {
    order := [];
    forall index | Reviewed(root, raw, index) ensures Loadable(root, raw) {
      ReviewedIsLoadable(root, raw, index);
    }
    if !RootAllowed(root) || raw == [] {
      return false, map[], [];
    }
    ok, components := LoadComponents(root, raw);
    if !ok {
      return false, components, [];
    }
    ok, order := CheckClosure(root, raw, components);
    forall index | Reviewed(root, raw, index) ensures index == components {
      IndexIsUnique(raw, index, components);
    }
  }

  lemma ClosureDecides(root: Root, raw: seq<Component>, components: Index)
    requires RootAllowed(root) && raw != [] && Loadable(root, raw)
    requires Indexes(raw, components) && root.name !in components
    ensures Reviewed(root, raw, components) <==>
              && SoundBelow(root.dependsOn, GraphOf(components))
              && forall n :: n in components ==> ReachesAny(GraphOf(components), root.dependsOn, n)
  {
  }

  /** Everything below the root is known and acyclic, and nothing else is there. */
  method CheckClosure(root: Root, raw: seq<Component>, components: Index) returns (ok: bool, ghost order: seq<Name>)
    requires RootAllowed(root) && raw != [] && Loadable(root, raw)
    requires Indexes(raw, components) && root.name !in components
    ensures ok <==> Reviewed(root, raw, components)
    ensures ok ==> Arranged(root, raw, components, order)
  {
    order := [];
    var graph := GraphOf(components);
    var walk := Reachable(root.dependsOn, graph);
    ok := walk.Visited? && components.Keys <= walk.names;
    ClosureDecides(root, raw, components);
    if ok {
      order :| Orders(root.dependsOn, graph, order);
      WalkedIsArranged(root, raw, components, order, walk.names);
    }
  }

  lemma IndexIsUnique(cs: seq<Component>, a: Index, b: Index)
    requires Indexes(cs, a) && Indexes(cs, b)
    ensures a == b
  {
    assert a.Keys == b.Keys;
  }

  /** No duplicate name, never the root's, and every component allowed by itself. */
  ghost predicate Loadable(root: Root, raw: seq<Component>) {
    && (forall i, j :: 0 <= i < j < |raw| ==> raw[i].name != raw[j].name)
    && (forall i :: 0 <= i < |raw| ==>
          raw[i].name != root.name && ComponentAllowed(raw[i]))
  }

  lemma ReviewedIsLoadable(root: Root, cs: seq<Component>, index: Index)
    requires Reviewed(root, cs, index)
    ensures Loadable(root, cs)
  {
    forall i | 0 <= i < |cs|
      ensures cs[i].name != root.name && ComponentAllowed(cs[i])
    {
      assert cs[i] in cs;
    }
  }

  lemma IndexedNames(cs: seq<Component>, index: Index, n: Name)
    requires Indexes(cs, index)
    ensures n in index <==> exists i :: 0 <= i < |cs| && cs[i].name == n
  {
    if n in index {
      assert index[n] in cs;
      var i :| 0 <= i < |cs| && cs[i] == index[n];
    }
    forall i | 0 <= i < |cs| ensures cs[i].name in index {
      assert cs[i] in cs;
    }
  }

  lemma LoadableOneMore(root: Root, cs: seq<Component>, c: Component)
    requires Loadable(root, cs)
    ensures Loadable(root, cs + [c]) <==>
              ComponentAllowed(c) && c.name != root.name && forall i :: 0 <= i < |cs| ==> cs[i].name != c.name
  {
    var more := cs + [c];
    assert more[|cs|] == c && forall i :: 0 <= i < |cs| ==> more[i] == cs[i];
    if Loadable(root, more) {
      forall i | 0 <= i < |cs| ensures cs[i].name != c.name {
        assert more[i].name != more[|cs|].name;
      }
    }
  }

  lemma IndexOneMore(cs: seq<Component>, c: Component, index: Index)
    requires Indexes(cs, index) && c.name !in index
    ensures Indexes(cs + [c], index[c.name := c])
  {
    var more := cs + [c];
    forall i, j | 0 <= i < j < |more| ensures more[i].name != more[j].name {
      assert cs[i] in cs;
    }
  }

  lemma OneComponentMore(root: Root, cs: seq<Component>, c: Component, index: Index)
    requires Loadable(root, cs) && Indexes(cs, index)
    ensures Loadable(root, cs + [c]) <==> ComponentAllowed(c) && c.name !in index && c.name != root.name
    ensures c.name !in index ==> Indexes(cs + [c], index[c.name := c])
  {
    IndexedNames(cs, index, c.name);
    LoadableOneMore(root, cs, c);
    if c.name !in index {
      IndexOneMore(cs, c, index);
    }
  }

  method LoadComponents(root: Root, raw: seq<Component>) returns (ok: bool, components: Index)
    ensures ok <==> Loadable(root, raw)
    ensures ok ==> Indexes(raw, components) && root.name !in components
  {
    components := map[];
    for i := 0 to |raw|
      invariant Loadable(root, raw[..i]) && Indexes(raw[..i], components) && root.name !in components
    {
      var item := raw[i];
      OneComponentMore(root, raw[..i], item, components);
      assert raw[..i + 1] == raw[..i] + [item];
      if !ComponentAllowed(item) || item.name in components || item.name == root.name {
        LoadableHasLoadablePrefix(root, raw, i + 1);
        return false, components;
      }
      components := components[item.name := item];
    }
    assert raw[..|raw|] == raw;
    ok := true;
  }

  lemma LoadableHasLoadablePrefix(root: Root, raw: seq<Component>, n: nat)
    requires n <= |raw|
    ensures Loadable(root, raw) ==> Loadable(root, raw[..n])
  {
  }

  // -------------------------------------------------------------- emission

  datatype Dependency = Dependency(reference: string, dependsOn: seq<string>)

  /** Every dependency named in the manifest is one of its components. */
  ghost predicate Closed(root: Root, index: Index) {
    && (forall n :: n in root.dependsOn ==> n in index)
    && (forall m, n :: m in index && n in index[m].dependsOn ==> n in index)
  }

  lemma ReviewedIsClosed(root: Root, cs: seq<Component>, index: Index)
    requires Reviewed(root, cs, index)
    ensures Closed(root, index)
  {
    var g := GraphOf(index);
    forall n | n in root.dependsOn ensures n in index {
      RootIsReached(g, root.dependsOn, n);
    }
    forall m, n | m in index && n in index[m].dependsOn ensures n in index {
      assert Edge(g, m, n);
      ReachedAcrossEdge(g, root.dependsOn, m, n);
    }
  }

  function PurlsOf(index: Index, names: seq<Name>): seq<string>
    requires forall n :: n in names ==> n in index
  {
    seq(|names|, i requires 0 <= i < |names| => index[names[i]].purl)
  }

  function Entry(index: Index, reference: string, names: seq<Name>): Dependency
    requires forall n :: n in names ==> n in index
  {
    Dependency(reference, Sorted(PurlsOf(index, names)))
  }

  /** The components, in the order in which the SBOM lists them. */
  function Ordered(cs: seq<Component>): seq<Component> {
    SortBy(cs, Purl)
  }

  lemma OrderedIsIndexed(cs: seq<Component>, index: Index)
    requires Indexes(cs, index)
    ensures Indexes(Ordered(cs), index)
  {
    assert NoDuplicates(cs);
    SortByKeepsElements(cs, Purl);
  }

  /** `ds` lists the root's entry, then one entry per item. */
  ghost predicate Emits(ds: seq<Dependency>, rootRef: string, root: Root, items: seq<Component>, index: Index)
    requires Closed(root, index) && Indexes(items, index)
  {
    && |ds| == |items| + 1
    && ds[0] == Entry(index, rootRef, root.dependsOn)
    && forall i :: 0 < i < |ds| ==> ds[i] == Entry(index, items[i - 1].purl, items[i - 1].dependsOn)
  }

  lemma ItemNamesAreKnown(root: Root, items: seq<Component>, index: Index)
    requires Closed(root, index) && Indexes(items, index)
    ensures forall i, n :: 0 <= i < |items| && n in items[i].dependsOn ==> n in index
  {
    forall i, n | 0 <= i < |items| && n in items[i].dependsOn ensures n in index {
      assert items[i] in items;
    }
  }

  /** The entries of the components themselves. */
  function ItemEntries(items: seq<Component>, index: Index): (ds: seq<Dependency>)
    requires forall i, n :: 0 <= i < |items| && n in items[i].dependsOn ==> n in index
    ensures |ds| == |items|
    ensures forall i :: 0 <= i < |items| ==> ds[i] == Entry(index, items[i].purl, items[i].dependsOn)
  {
    seq(|items|, i requires 0 <= i < |items| => Entry(index, items[i].purl, items[i].dependsOn))
  }

  lemma Prepended<T>(first: T, rest: seq<T>)
    ensures forall i :: 0 < i < |[first] + rest| ==> ([first] + rest)[i] == rest[i - 1]
  {
  }

  lemma EntriesAreEmitted(rest: seq<Dependency>, rootRef: string, root: Root, items: seq<Component>, index: Index)
    requires Closed(root, index) && Indexes(items, index) && |rest| == |items|
    requires forall i, n :: 0 <= i < |items| && n in items[i].dependsOn ==> n in index
    requires forall i :: 0 <= i < |items| ==> rest[i] == Entry(index, items[i].purl, items[i].dependsOn)
    ensures Emits([Entry(index, rootRef, root.dependsOn)] + rest, rootRef, root, items, index)
  {
    Prepended(Entry(index, rootRef, root.dependsOn), rest);
  }

  /** The `dependencies` list of the SBOM. */
  function Dependencies(rootRef: string, root: Root, cs: seq<Component>, index: Index): (ds: seq<Dependency>)
    requires Closed(root, index) && Indexes(cs, index)
    ensures Indexes(Ordered(cs), index) && Emits(ds, rootRef, root, Ordered(cs), index)
  {
    OrderedIsIndexed(cs, index);
    var items := Ordered(cs);
    ItemNamesAreKnown(root, items, index);
    var rest := ItemEntries(items, index);
    EntriesAreEmitted(rest, rootRef, root, items, index);
    [Entry(index, rootRef, root.dependsOn)] + rest
  }

  /** No two components share a purl. */
  ghost predicate PurlsDistinct(index: Index) {
    forall m, n :: m in index && n in index && index[m].purl == index[n].purl ==> m == n
  }

  /** No two components share a purl, and none has the root's reference. */
  ghost predicate ReferencesDiffer(rootRef: string, index: Index) {
    PurlsDistinct(index) && forall k :: k in index ==> index[k].purl != rootRef
  }

  ghost predicate Acyclic(index: Index) {
    forall n :: n in index ==> !OnCycle(GraphOf(index), n)
  }

  /** The targets of an entry are the purls of the named components, no more and no fewer. */
  lemma TargetsAreNamed(index: Index, names: seq<Name>, t: string)
    requires forall n :: n in names ==> n in index
    ensures t in Sorted(PurlsOf(index, names)) <==> exists n :: n in names && t == index[n].purl
  {
    var purls := PurlsOf(index, names);
    SortByKeepsElements(purls, Itself);
    if n :| n in names && t == index[n].purl {
      var i :| 0 <= i < |names| && names[i] == n;
      assert purls[i] == t;
    }
    if t in purls {
      var i :| 0 <= i < |purls| && purls[i] == t;
      assert names[i] in names;
    }
  }

  lemma ReferenceOfItem(ds: seq<Dependency>, rootRef: string, root: Root, items: seq<Component>, index: Index, i: nat)
    requires Closed(root, index) && Indexes(items, index) && Emits(ds, rootRef, root, items, index) && i < |ds|
    ensures IsSorted(ds[i].dependsOn, Itself)
    ensures i > 0 ==> ds[i].reference == Purl(items[i - 1])
  {
    assert i > 0 ==> ds[i] == Entry(index, items[i - 1].purl, items[i - 1].dependsOn);
  }

  /** After the root's entry the references stand in text order, and so do the targets of every entry. */
  lemma EmittedInOrder(ds: seq<Dependency>, rootRef: string, root: Root, items: seq<Component>, index: Index)
    requires Closed(root, index) && Indexes(items, index) && Emits(ds, rootRef, root, items, index)
    requires IsSorted(items, Purl)
    ensures forall i, j :: 0 < i < j < |ds| ==> Leq(ds[i].reference, ds[j].reference)
    ensures forall i :: 0 <= i < |ds| ==> IsSorted(ds[i].dependsOn, Itself)
  {
    forall i | 0 <= i < |ds|
      ensures IsSorted(ds[i].dependsOn, Itself) && (i > 0 ==> ds[i].reference == Purl(items[i - 1]))
    {
      ReferenceOfItem(ds, rootRef, root, items, index, i);
    }
  }

  /** The SBOM lists its references and targets in text order, whatever the manifest's order. */
  lemma DependenciesInOrder(rootRef: string, root: Root, cs: seq<Component>, index: Index)
    requires Closed(root, index) && Indexes(cs, index)
    ensures var ds := Dependencies(rootRef, root, cs, index);
            && (forall i, j :: 0 < i < j < |ds| ==> Leq(ds[i].reference, ds[j].reference))
            && (forall i :: 0 <= i < |ds| ==> IsSorted(ds[i].dependsOn, Itself))
  {
    SortBySorts(cs, Purl);
    EmittedInOrder(Dependencies(rootRef, root, cs, index), rootRef, root, Ordered(cs), index);
  }

  /** Reading the emitted list as a graph: an entry with reference `p` targets `q`. */
  ghost predicate Targets(ds: seq<Dependency>, p: string, q: string) {
    exists i :: 0 <= i < |ds| && ds[i].reference == p && q in ds[i].dependsOn
  }

  ghost predicate EmittedPath(ds: seq<Dependency>, p: seq<string>) {
    p != [] && forall i :: 0 <= i < |p| - 1 ==> Targets(ds, p[i], p[i + 1])
  }

  /** The emitted list is closed: every target is the purl of a component, and so is every source but the root. */
  lemma EmittedIsClosed(ds: seq<Dependency>, rootRef: string, root: Root, items: seq<Component>, index: Index,
                        p: string, q: string)
    requires Closed(root, index) && Indexes(items, index) && Emits(ds, rootRef, root, items, index)
    requires Targets(ds, p, q)
    ensures exists n :: n in index && index[n].purl == q
    ensures p == rootRef || exists m :: m in index && index[m].purl == p
  {
    var i :| 0 <= i < |ds| && ds[i].reference == p && q in ds[i].dependsOn;
    if i == 0 {
      TargetsAreNamed(index, root.dependsOn, q);
    } else {
      var c := items[i - 1];
      assert c in items && index[c.name] == c;
      TargetsAreNamed(index, c.dependsOn, q);
    }
  }

  /** Each purl is the reference of exactly one entry, which is not the root's. */
  lemma ReferenceIsUnique(ds: seq<Dependency>, rootRef: string, root: Root, items: seq<Component>, index: Index,
                          n: Name) returns (i: nat)
    requires Closed(root, index) && Indexes(items, index) && Emits(ds, rootRef, root, items, index)
    requires ReferencesDiffer(rootRef, index) && n in index
    ensures 0 < i < |ds| && ds[i] == Entry(index, index[n].purl, index[n].dependsOn)
    ensures forall j :: 0 <= j < |ds| && ds[j].reference == index[n].purl ==> j == i
    ensures forall j :: 0 <= j < |ds| && ds[j].reference == rootRef ==> j == 0
  {
    var k :| 0 <= k < |items| && items[k] == index[n];
    i := k + 1;
    assert ds[i] == Entry(index, items[i - 1].purl, items[i - 1].dependsOn);
    forall j | 0 < j < |ds| ensures ds[j].reference != rootRef && (ds[j].reference == index[n].purl ==> j == i) {
      assert ds[j] == Entry(index, items[j - 1].purl, items[j - 1].dependsOn);
      ItemReference(rootRef, items, index, n, j - 1, k);
    }
  }

  lemma ItemReference(rootRef: string, items: seq<Component>, index: Index, n: Name, j: nat, k: nat)
    requires Indexes(items, index) && ReferencesDiffer(rootRef, index) && n in index
    requires j < |items| && k < |items| && items[k] == index[n]
    ensures items[j].purl != rootRef && (items[j].purl == index[n].purl ==> j == k)
  {
    assert items[j] in items && index[items[j].name] == items[j];
  }

  /** The emitted edges are the manifest's edges, renamed by purl. */
  lemma EdgesAreRenamed(ds: seq<Dependency>, rootRef: string, root: Root, items: seq<Component>, index: Index,
                        m: Name, n: Name)
    requires Closed(root, index) && Indexes(items, index) && Emits(ds, rootRef, root, items, index)
    requires ReferencesDiffer(rootRef, index) && m in index && n in index
    ensures Targets(ds, index[m].purl, index[n].purl) <==> n in index[m].dependsOn
    ensures Targets(ds, rootRef, index[n].purl) <==> n in root.dependsOn
  {
    var i := ReferenceIsUnique(ds, rootRef, root, items, index, m);
    TargetsAreNamed(index, index[m].dependsOn, index[n].purl);
    TargetsAreNamed(index, root.dependsOn, index[n].purl);
  }

  /** From a component, one step of the emitted list is one step of the manifest. */
  lemma EmittedStepIsManifestStep(ds: seq<Dependency>, rootRef: string, root: Root, items: seq<Component>, index: Index,
                                  m: Name, q: string) returns (n: Name)
    requires Closed(root, index) && Indexes(items, index) && Emits(ds, rootRef, root, items, index)
    requires ReferencesDiffer(rootRef, index) && m in index
    requires Targets(ds, index[m].purl, q)
    ensures n in index && index[n].purl == q && Edge(GraphOf(index), m, n)
  {
    EmittedIsClosed(ds, rootRef, root, items, index, index[m].purl, q);
    n :| n in index && index[n].purl == q;
    EdgesAreRenamed(ds, rootRef, root, items, index, m, n);
  }

  /** A path through the emitted list is a path of the manifest, renamed. */
  lemma {:induction false} EmittedPathIsManifestPath(
      ds: seq<Dependency>, rootRef: string, root: Root, items: seq<Component>, index: Index,
      p: seq<string>, m: Name) returns (names: seq<Name>)
    requires Closed(root, index) && Indexes(items, index) && Emits(ds, rootRef, root, items, index)
    requires ReferencesDiffer(rootRef, index)
    requires EmittedPath(ds, p) && m in index && index[m].purl == p[0]
    ensures |names| == |p| && IsPath(GraphOf(index), names) && names[0] == m
    ensures names[|p| - 1] in index && index[names[|p| - 1]].purl == p[|p| - 1]
    decreases |p|
  {
    names := [m];
    if |p| == 1 {
    } else {
      assert Targets(ds, p[0], p[1]);
      var n := EmittedStepIsManifestStep(ds, rootRef, root, items, index, m, p[1]);
      EmittedTail(ds, p);
      var rest := EmittedPathIsManifestPath(ds, rootRef, root, items, index, p[1..], n);
      Prefixed(GraphOf(index), m, rest);
      names := [m] + rest;
    }
  }

  lemma EmittedTail(ds: seq<Dependency>, p: seq<string>)
    requires EmittedPath(ds, p) && |p| > 1
    ensures EmittedPath(ds, p[1..])
  {
    forall i | 0 <= i < |p[1..]| - 1 ensures Targets(ds, p[1..][i], p[1..][i + 1]) {
      assert Targets(ds, p[i + 1], p[i + 1 + 1]);
    }
  }

  /** The emitted list keeps the manifest's acyclicity: no path returns to its start. */
  lemma EmittedIsAcyclic(ds: seq<Dependency>, rootRef: string, root: Root, items: seq<Component>, index: Index,
                         p: seq<string>)
    requires Closed(root, index) && Indexes(items, index) && Emits(ds, rootRef, root, items, index)
    requires ReferencesDiffer(rootRef, index)
    requires Acyclic(index)
    requires |p| > 1 && EmittedPath(ds, p)
    ensures p[0] != p[|p| - 1]
  {
    if p[0] == p[|p| - 1] {
      assert Targets(ds, p[|p| - 2], p[|p| - 2 + 1]);
      EmittedIsClosed(ds, rootRef, root, items, index, p[|p| - 2], p[|p| - 1]);
      var m :| m in index && index[m].purl == p[0];
      var names := EmittedPathIsManifestPath(ds, rootRef, root, items, index, p, m);
      assert PathFrom(GraphOf(index), names, m, m);
    }
  }

  /** `build_sbom` gives the artifact itself a reference no purl can equal. */
  function RootRef(digest: string): string {
    "urn:egressweave:artifact:sha256:" + digest
  }

  lemma RootIsNoPurl(digest: string, name: Name, version: string)
    ensures RootRef(digest) != ExpectedPurl(name, version)
  {
    assert RootRef(digest)[0] == 'u' && ExpectedPurl(name, version)[0] == 'p';
  }

  /** A reviewed manifest with distinct purls has all that the emission needs. */
  lemma ReviewedIsEmittable(digest: string, root: Root, cs: seq<Component>, index: Index)
    requires Reviewed(root, cs, index) && PurlsDistinct(index)
    ensures Closed(root, index) && Indexes(cs, index) && Acyclic(index)
    ensures ReferencesDiffer(RootRef(digest), index)
  {
    ReviewedIsClosed(root, cs, index);
    forall k | k in index ensures index[k].purl != RootRef(digest) {
      RootIsNoPurl(digest, k, index[k].version);
    }
  }

  /**
   What `build_sbom` emits for such a manifest is the manifest's graph renamed by
   purl: the same edges, no target that is not a component, and no cycle.
   */
  lemma SbomGraphIsTheManifestGraph(rootRef: string, root: Root, cs: seq<Component>, index: Index,
                                    m: Name, n: Name, p: seq<string>)
    requires Closed(root, index) && Indexes(cs, index) && Acyclic(index) && ReferencesDiffer(rootRef, index)
    requires m in index && n in index && |p| > 1
    ensures var ds := Dependencies(rootRef, root, cs, index);
            && (Targets(ds, index[m].purl, index[n].purl) <==> n in index[m].dependsOn)
            && (Targets(ds, rootRef, index[n].purl) <==> n in root.dependsOn)
            && (EmittedPath(ds, p) ==> p[0] != p[|p| - 1] && exists k :: k in index && index[k].purl == p[1])
  {
    var ds := Dependencies(rootRef, root, cs, index);
    EdgesAreRenamed(ds, rootRef, root, Ordered(cs), index, m, n);
    if EmittedPath(ds, p) {
      EmittedIsAcyclic(ds, rootRef, root, Ordered(cs), index, p);
      assert Targets(ds, p[0], p[0 + 1]);
      EmittedIsClosed(ds, rootRef, root, Ordered(cs), index, p[0], p[1]);
    }
  }
}

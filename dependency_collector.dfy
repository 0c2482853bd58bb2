/**
 * The dependency collector of the AboutLibraries Gradle plugin: given a
 * configuration whose artifacts the build tool has already resolved, it
 * gathers the module identifiers of those artifacts into a set and hands
 * them back sorted by `group:name:version`.
 *
 * Gradle's `ModuleVersionIdentifier` becomes the value type `ModuleId`; its
 * equality is taken to be equality of group, name and version.
 */
module DependencyCollector {
  import opened Lexicographic

  datatype ModuleId = ModuleId(group: string, name: string, version: string)

  /** A declared dependency; the collector only counts them. */
  datatype Dependency = Dependency(group: string, name: string, version: string)

  /**
   * A configuration after resolution: its name, its declared dependencies
   * (`allDependencies`) and the module identifiers of its resolved artifacts
   * (`resolvedConfiguration.resolvedArtifacts`, each `moduleVersion.id`).
   */
  datatype Configuration = Configuration(
    name: string,
    allDependencies: seq<Dependency>,
    resolvedArtifacts: seq<ModuleId>)

  /**
   * The sort key `group + ":" + name + ":" + version`: the three components
   * in that order, separated by one colon each.
   */
  function Key(m: ModuleId): (k: string)
    ensures |k| == |m.group| + |m.name| + |m.version| + 2
    ensures k[|m.group|] == ':' && k[|m.group| + 1 + |m.name|] == ':'
  {
    m.group + ":" + m.name + ":" + m.version
  }

  /** The key splits back into group, name and version around its two separators. */
  lemma KeyLayout(m: ModuleId)
    ensures Key(m)[..|m.group|] == m.group
    ensures Key(m)[|m.group| + 1..|m.group| + 1 + |m.name|] == m.name
    ensures Key(m)[|m.group| + |m.name| + 2..] == m.version
  {
  }

  predicate KeyLe(x: ModuleId, y: ModuleId)
  {
    LexLe(Key(x), Key(y))
  }

  /** Ascending by key, any two positions compared. */
  predicate SortedByKey(s: seq<ModuleId>)
  {
    forall i, j :: 0 <= i < j < |s| ==> KeyLe(s[i], s[j])
  }

  predicate NoDuplicates(s: seq<ModuleId>)
  {
    forall i, j :: 0 <= i < j < |s| ==> s[i] != s[j]
  }

  function Elements(s: seq<ModuleId>): (r: set<ModuleId>)
  {
    set m | m in s
  }

  /** The elements of `s` whose key is `k`, in their order in `s`. */
  function WithKey(s: seq<ModuleId>, k: string): (r: seq<ModuleId>)
    ensures forall m :: m in r <==> m in s && Key(m) == k
  {
    if s == [] then []
    else if Key(s[0]) == k then [s[0]] + WithKey(s[1..], k)
    else WithKey(s[1..], k)
  }

  /** No two distinct identifiers of `s` share a sort key. */
  predicate KeysDistinct(s: set<ModuleId>)
  {
    forall x, y :: x in s && y in s && Key(x) == Key(y) ==> x == y
  }

  /**
   * The identifiers the collector gathers: every resolved artifact's, once
   * for each declared dependency, so none at all without a declared one.
   */
  function CollectedIds(c: Configuration): (ids: set<ModuleId>)
  {
    if |c.allDependencies| == 0 then {} else Elements(c.resolvedArtifacts)
  }

  /** What `collect` promises of its result `r`. */
  ghost predicate IsCollectResult(c: Configuration, r: seq<ModuleId>)
  {
    && (forall m :: m in r <==> m in CollectedIds(c))
    && NoDuplicates(r)
    && SortedByKey(r)
  }

  // ---------------------------------------------------------------------
  // createConfigurations

  /**
   * The outer loop over the declared dependencies and the inner loop over
   * the resolved artifacts, adding each artifact's identifier to the set.
   */
  method CreateConfigurations(c: Configuration) returns (moduleIds: set<ModuleId>)
    ensures forall m :: m in moduleIds <==> |c.allDependencies| > 0 && m in c.resolvedArtifacts
  {
    moduleIds := {};
    for d := 0 to |c.allDependencies|
      invariant forall m :: m in moduleIds <==> d > 0 && m in c.resolvedArtifacts
    {
      var artifacts := c.resolvedArtifacts;
      for k := 0 to |artifacts|
        invariant forall m :: m in moduleIds <==> (d > 0 && m in artifacts) || m in artifacts[..k]
      {
        var artifactId := artifacts[k];
        assert artifacts[..k + 1] == artifacts[..k] + [artifactId];
        moduleIds := moduleIds + {artifactId};
      }
      assert artifacts[..|artifacts|] == artifacts;
    }
  }

  // ---------------------------------------------------------------------
  // collect

  /**
   * `sortedBy` first copies the hash set into a list. A hash set's iteration
   * order is unspecified, so each step picks any element not yet listed.
   */
  method HashSetIteration(s: set<ModuleId>) returns (xs: seq<ModuleId>)
    ensures forall m :: m in xs <==> m in s
    ensures NoDuplicates(xs)
  {
    xs := [];
    var rest := s;
    while rest != {}
      invariant rest <= s
      invariant forall m :: m in xs <==> m in s && m !in rest
      invariant NoDuplicates(xs)
      decreases rest
    {
      var m :| m in rest;
      xs := xs + [m];
      rest := rest - {m};
    }
  }

  /**
   * Inserts `x` ahead of the first element whose key is not below its own,
   * that is, ahead of every element with an equal key.
   */
  function InsertByKey(x: ModuleId, xs: seq<ModuleId>): (r: seq<ModuleId>)
    requires SortedByKey(xs)
    ensures SortedByKey(r)
    ensures multiset(r) == multiset(xs) + multiset{x}
  {
    if xs == [] then [x]
    else if KeyLe(x, xs[0]) then
      BelowHeadBelowAll(x, xs);
      ConsSorted(x, xs);
      [x] + xs
    else
      var tail := InsertByKey(x, xs[1..]);
      LexLeTotal(Key(x), Key(xs[0]));
      assert multiset(tail) == multiset(xs[1..] + [x]);
      LowerBoundOfPermutation(xs[0], xs[1..] + [x], tail);
      ConsSorted(xs[0], tail);
      assert xs == [xs[0]] + xs[1..];
      [xs[0]] + tail
  }

  /** A key below the first key of a sorted sequence is below all of them. */
  lemma BelowHeadBelowAll(x: ModuleId, xs: seq<ModuleId>)
    requires SortedByKey(xs) && xs != [] && KeyLe(x, xs[0])
    ensures forall j :: 0 <= j < |xs| ==> KeyLe(x, xs[j])
  {
    forall j | 0 < j < |xs| ensures KeyLe(x, xs[j]) {
      LexLeTransitive(Key(x), Key(xs[0]), Key(xs[j]));
    }
  }

  /** A key below every key of a sorted sequence can go in front of it. */
  lemma ConsSorted(y: ModuleId, s: seq<ModuleId>)
    requires SortedByKey(s)
    requires forall j :: 0 <= j < |s| ==> KeyLe(y, s[j])
    ensures SortedByKey([y] + s)
  {
    assert forall j :: 0 < j <= |s| ==> ([y] + s)[j] == s[j - 1];
  }

  /** A lower bound of every key stays one after the elements are rearranged. */
  lemma LowerBoundOfPermutation(y: ModuleId, s: seq<ModuleId>, t: seq<ModuleId>)
    requires forall j :: 0 <= j < |s| ==> KeyLe(y, s[j])
    requires multiset(t) == multiset(s)
    ensures forall j :: 0 <= j < |t| ==> KeyLe(y, t[j])
  {
    forall j | 0 <= j < |t| ensures KeyLe(y, t[j]) {
      assert t[j] in multiset(s);
      var i :| 0 <= i < |s| && s[i] == t[j];
    }
  }

  /**
   * `sortedBy { group:name:version }`: a stable sort by the key, modelled as
   * insertion sort.
   */
  function SortByKey(xs: seq<ModuleId>): (r: seq<ModuleId>)
    ensures SortedByKey(r)
    ensures multiset(r) == multiset(xs)
  {
    if xs == [] then []
    else
      assert xs == [xs[0]] + xs[1..];
      InsertByKey(xs[0], SortByKey(xs[1..]))
  }

  /**
   * `toSet()` on a list: an insertion-ordered set holding each element of
   * the list once.
   */
  function ToSet(xs: seq<ModuleId>): (r: seq<ModuleId>)
    ensures forall m :: m in r <==> m in xs
    ensures NoDuplicates(r)
    ensures NoDuplicates(xs) ==> r == xs
    decreases |xs|
  {
    if xs == [] then []
    else
      var init, last := xs[..|xs| - 1], xs[|xs| - 1];
      assert xs == init + [last];
      assert NoDuplicates(xs) ==> NoDuplicates(init) && last !in init by {
        if NoDuplicates(xs) {
          assert forall p :: 0 <= p < |init| ==> init[p] == xs[p];
        }
      }
      var kept := ToSet(init);
      if last in kept then kept else kept + [last]
  }

  /**
   * `collect`: the identifiers gathered by `createConfigurations`, sorted by
   * key and turned back into an (ordered) set.
   */
  method Collect(c: Configuration) returns (r: seq<ModuleId>)
    ensures forall m :: m in r <==> |c.allDependencies| > 0 && m in c.resolvedArtifacts
    ensures NoDuplicates(r)
    ensures SortedByKey(r)
    ensures |c.allDependencies| == 0 ==> r == []
    ensures |r| <= |c.resolvedArtifacts|
    ensures |c.allDependencies| > 0 ==> |r| == |Elements(c.resolvedArtifacts)|
  {
    var moduleIds := CreateConfigurations(c);
    var listed := HashSetIteration(moduleIds);
    var sorted := SortByKey(listed);
    NoDuplicatesPermutation(listed, sorted);
    assert forall m :: m in sorted <==> m in listed by {
      forall m ensures m in sorted <==> m in listed {
        assert m in sorted <==> m in multiset(sorted);
        assert m in listed <==> m in multiset(listed);
      }
    }
    r := ToSet(sorted);
    assert r == sorted;
    assert IsCollectResult(c, r);
    CollectResultSize(c, r);
  }

  // ---------------------------------------------------------------------
  // Lemmas about the sort

  /** Kotlin's `sortedBy` is stable: elements of one key keep their order. */
  lemma {:induction false} InsertByKeyWithKey(x: ModuleId, xs: seq<ModuleId>, k: string)
    requires SortedByKey(xs)
    ensures WithKey(InsertByKey(x, xs), k) == if Key(x) == k then [x] + WithKey(xs, k) else WithKey(xs, k)
    decreases |xs|
  {
    if xs == [] {
    } else if KeyLe(x, xs[0]) {
      assert ([x] + xs)[1..] == xs;
    } else {
      var tail := InsertByKey(x, xs[1..]);
      InsertByKeyWithKey(x, xs[1..], k);
      assert ([xs[0]] + tail)[1..] == tail;
      if Key(x) == k && Key(xs[0]) == k {
        LexLeReflexive(k);
      }
    }
  }

  lemma {:induction false} SortByKeyStable(xs: seq<ModuleId>, k: string)
    ensures WithKey(SortByKey(xs), k) == WithKey(xs, k)
    decreases |xs|
  {
    if xs != [] {
      SortByKeyStable(xs[1..], k);
      InsertByKeyWithKey(xs[0], SortByKey(xs[1..]), k);
    }
  }

  /**
   * A key-sorted list is fixed by what each key's elements are, in order.
   * So `SortByKey` is not merely some stable sort by the key: every stable
   * sort by the key, Kotlin's `sortedBy` among them, returns the same list.
   */
  lemma {:induction false} StableSortUnique(r: seq<ModuleId>, t: seq<ModuleId>)
    requires SortedByKey(r) && SortedByKey(t)
    requires forall k :: WithKey(r, k) == WithKey(t, k)
    ensures r == t
    decreases |r|
  {
    StableEmpty(r, t);
    if r != [] {
      StableHeadsAgree(r, t);
      StableTails(r, t);
      SortedTail(r);
      SortedTail(t);
      StableSortUnique(r[1..], t[1..]);
      assert r == [r[0]] + r[1..] && t == [t[0]] + t[1..];
    }
  }

  /** Lists with the same elements per key are empty together. */
  lemma StableEmpty(r: seq<ModuleId>, t: seq<ModuleId>)
    requires forall k :: WithKey(r, k) == WithKey(t, k)
    ensures r == [] <==> t == []
  {
    WithKeyOfHead(r);
    WithKeyOfHead(t);
  }

  /** Two key-sorted lists with the same elements per key start alike. */
  lemma StableHeadsAgree(r: seq<ModuleId>, t: seq<ModuleId>)
    requires SortedByKey(r) && SortedByKey(t) && r != [] && t != []
    requires forall k :: WithKey(r, k) == WithKey(t, k)
    ensures r[0] == t[0]
  {
    var k0, k1 := Key(r[0]), Key(t[0]);
    WithKeyOfHead(r);
    WithKeyOfHead(t);
    assert r[0] in WithKey(t, k0);
    var j :| 0 <= j < |t| && t[j] == r[0];
    assert t[0] in WithKey(r, k1);
    var i :| 0 <= i < |r| && r[i] == t[0];
    LexLeReflexive(k0);
    LexLeReflexive(k1);
    assert KeyLe(t[0], t[j]) && KeyLe(r[0], r[i]);
    LexLeAntisymmetric(k0, k1);
  }

  /** Equal heads taken off, the elements per key still agree. */
  lemma StableTails(r: seq<ModuleId>, t: seq<ModuleId>)
    requires r != [] && t != [] && r[0] == t[0]
    requires forall k :: WithKey(r, k) == WithKey(t, k)
    ensures forall k :: WithKey(r[1..], k) == WithKey(t[1..], k)
  {
    forall k ensures WithKey(r[1..], k) == WithKey(t[1..], k) {
      WithKeyOfTail(r, k);
      WithKeyOfTail(t, k);
      if Key(r[0]) == k {
        assert ([r[0]] + WithKey(r[1..], k))[1..] == WithKey(r[1..], k);
        assert ([t[0]] + WithKey(t[1..], k))[1..] == WithKey(t[1..], k);
      }
    }
  }

  lemma WithKeyOfTail(s: seq<ModuleId>, k: string)
    requires s != []
    ensures WithKey(s, k) == if Key(s[0]) == k then [s[0]] + WithKey(s[1..], k) else WithKey(s[1..], k)
  {
  }

  /** A non-empty sequence has an element of its first element's key. */
  lemma WithKeyOfHead(s: seq<ModuleId>)
    ensures |s| > 0 ==> WithKey(s, Key(s[0])) == [s[0]] + WithKey(s[1..], Key(s[0]))
  {
  }

  /**
   * Any key-sorted list that keeps, for every key, the input's elements of
   * that key in input order is `SortByKey` of the input.
   */
  lemma SortByKeyIsTheStableSort(xs: seq<ModuleId>, t: seq<ModuleId>)
    requires SortedByKey(t)
    requires forall k :: WithKey(t, k) == WithKey(xs, k)
    ensures t == SortByKey(xs)
  {
    forall k ensures WithKey(SortByKey(xs), k) == WithKey(t, k) {
      SortByKeyStable(xs, k);
    }
    StableSortUnique(SortByKey(xs), t);
  }

  /** `toSet()` keeps the list's order, so a sorted list stays sorted. */
  lemma {:induction false} ToSetKeepsOrder(xs: seq<ModuleId>)
    requires SortedByKey(xs)
    ensures SortedByKey(ToSet(xs))
    decreases |xs|
  {
    if xs != [] {
      var init, last := xs[..|xs| - 1], xs[|xs| - 1];
      assert xs == init + [last];
      assert SortedByKey(init);
      ToSetKeepsOrder(init);
      var kept := ToSet(init);
      UpperBoundOfPrefix(init, last);
      forall i | 0 <= i < |kept| ensures KeyLe(kept[i], last) {
        assert kept[i] in init;
      }
    }
  }

  /** In a sorted sequence every element keys no later than the last one. */
  lemma UpperBoundOfPrefix(init: seq<ModuleId>, last: ModuleId)
    requires SortedByKey(init + [last])
    ensures forall m :: m in init ==> KeyLe(m, last)
  {
    forall m | m in init ensures KeyLe(m, last) {
      var p :| 0 <= p < |init| && init[p] == m;
      assert (init + [last])[p] == m && (init + [last])[|init|] == last;
    }
  }

  /** A permutation of a duplicate-free sequence is duplicate-free. */
  lemma NoDuplicatesPermutation(a: seq<ModuleId>, b: seq<ModuleId>)
    requires NoDuplicates(a)
    requires multiset(a) == multiset(b)
    ensures NoDuplicates(b)
  {
    forall i, j | 0 <= i < j < |b| ensures b[i] != b[j] {
      if b[i] == b[j] {
        MultiplicityAtLeastTwo(b, i, j);
        NoDuplicatesMultiplicity(a, b[i]);
        assert false;
      }
    }
  }

  lemma {:induction false} MultiplicityAtLeastTwo(s: seq<ModuleId>, i: nat, j: nat)
    requires i < j < |s| && s[i] == s[j]
    ensures multiset(s)[s[i]] >= 2
  {
    assert s == s[..i] + [s[i]] + s[i + 1..j] + [s[j]] + s[j + 1..];
  }

  lemma {:induction false} NoDuplicatesMultiplicity(s: seq<ModuleId>, m: ModuleId)
    requires NoDuplicates(s)
    ensures multiset(s)[m] <= 1
    decreases |s|
  {
    if s != [] {
      assert s == [s[0]] + s[1..];
      assert NoDuplicates(s[1..]);
      NoDuplicatesMultiplicity(s[1..], m);
      if s[0] == m {
        TailOfDuplicateFree(s);
      }
    }
  }

  /** Taking the head off a duplicate-free sequence removes exactly that element. */
  lemma TailOfDuplicateFree(s: seq<ModuleId>)
    requires NoDuplicates(s) && s != []
    ensures s[0] !in s[1..]
    ensures NoDuplicates(s[1..])
    ensures Elements(s[1..]) == Elements(s) - {s[0]}
  {
    assert forall k :: 0 <= k < |s[1..]| ==> s[1..][k] == s[k + 1];
    assert s == [s[0]] + s[1..];
  }

  // ---------------------------------------------------------------------
  // Lemmas about the result of collect

  /** There are at most as many distinct identifiers as artifacts. */
  lemma {:induction false} ElementsCardinality(s: seq<ModuleId>)
    ensures |Elements(s)| <= |s|
    decreases |s|
  {
    if s != [] {
      ElementsCardinality(s[1..]);
      assert Elements(s) == Elements(s[1..]) + {s[0]};
    }
  }

  /** A duplicate-free sequence has as many distinct elements as positions. */
  lemma {:induction false} NoDuplicatesCardinality(s: seq<ModuleId>)
    requires NoDuplicates(s)
    ensures |Elements(s)| == |s|
    decreases |s|
  {
    if s != [] {
      TailOfDuplicateFree(s);
      NoDuplicatesCardinality(s[1..]);
      assert Elements(s) == Elements(s[1..]) + {s[0]};
    }
  }

  /**
   * The result has one entry per distinct resolved identifier, so never more
   * entries than resolved artifacts, and none without a declared dependency.
   */
  lemma CollectResultSize(c: Configuration, r: seq<ModuleId>)
    requires IsCollectResult(c, r)
    ensures |c.allDependencies| == 0 ==> r == []
    ensures |c.allDependencies| > 0 ==> |r| == |Elements(c.resolvedArtifacts)|
    ensures |r| <= |c.resolvedArtifacts|
  {
    NoDuplicatesCardinality(r);
    assert Elements(r) == CollectedIds(c);
    ElementsCardinality(c.resolvedArtifacts);
  }

  /**
   * Two key-sorted, duplicate-free listings of one set whose keys are all
   * distinct are the same listing.
   */
  lemma {:induction false} SortedListingUnique(a: seq<ModuleId>, b: seq<ModuleId>)
    requires SortedByKey(a) && SortedByKey(b)
    requires NoDuplicates(a) && NoDuplicates(b)
    requires Elements(a) == Elements(b)
    requires KeysDistinct(Elements(a))
    ensures a == b
    decreases |a|
  {
    ListingsEmptyTogether(a, b);
    if a != [] {
      SortedHeadsAgree(a, b);
      TailOfDuplicateFree(a);
      TailOfDuplicateFree(b);
      assert Elements(a[1..]) == Elements(b[1..]);
      KeysDistinctSubset(Elements(a), Elements(a[1..]));
      SortedTail(a);
      SortedTail(b);
      SortedListingUnique(a[1..], b[1..]);
      assert a == [a[0]] + a[1..] && b == [b[0]] + b[1..];
    }
  }

  /** Two duplicate-free listings of one set are empty together. */
  lemma ListingsEmptyTogether(a: seq<ModuleId>, b: seq<ModuleId>)
    requires NoDuplicates(a) && NoDuplicates(b)
    requires Elements(a) == Elements(b)
    ensures a == [] <==> b == []
  {
    NoDuplicatesCardinality(a);
    NoDuplicatesCardinality(b);
  }

  lemma KeysDistinctSubset(s: set<ModuleId>, t: set<ModuleId>)
    requires KeysDistinct(s) && t <= s
    ensures KeysDistinct(t)
  {
  }

  /** Two sorted listings of one set with distinct keys start alike. */
  lemma SortedHeadsAgree(a: seq<ModuleId>, b: seq<ModuleId>)
    requires SortedByKey(a) && SortedByKey(b)
    requires a != [] && b != []
    requires Elements(a) == Elements(b)
    requires KeysDistinct(Elements(a))
    ensures a[0] == b[0]
  {
    assert a[0] in Elements(b);
    var i :| 0 <= i < |b| && b[i] == a[0];
    assert b[0] in Elements(a);
    var j :| 0 <= j < |a| && a[j] == b[0];
    LexLeReflexive(Key(a[0]));
    LexLeReflexive(Key(b[0]));
    assert KeyLe(b[0], b[i]) && KeyLe(a[0], a[j]);
    LexLeAntisymmetric(Key(a[0]), Key(b[0]));
  }

  lemma SortedTail(s: seq<ModuleId>)
    requires SortedByKey(s) && s != []
    ensures SortedByKey(s[1..])
  {
    assert forall k :: 0 <= k < |s[1..]| ==> s[1..][k] == s[k + 1];
  }

  /**
   * When no two collected identifiers share a key, the output order is fixed
   * by the set of identifiers alone: it does not depend on the hash set's
   * iteration order, on the order of the artifacts or on the number of
   * declared dependencies.
   */
  lemma CollectResultDeterministic(c1: Configuration, c2: Configuration, r1: seq<ModuleId>, r2: seq<ModuleId>)
    requires IsCollectResult(c1, r1) && IsCollectResult(c2, r2)
    requires CollectedIds(c1) == CollectedIds(c2)
    requires KeysDistinct(CollectedIds(c1))
    ensures r1 == r2
  {
    assert Elements(r1) == CollectedIds(c1);
    assert Elements(r2) == CollectedIds(c2);
    SortedListingUnique(r1, r2);
  }

  /**
   * One declared dependency or any larger number gives the same results: the
   * inner loop only re-adds identifiers already in the set.
   */
  lemma DependencyCountIrrelevant(c1: Configuration, c2: Configuration, r: seq<ModuleId>)
    requires |c1.allDependencies| > 0 && |c2.allDependencies| > 0
    requires Elements(c1.resolvedArtifacts) == Elements(c2.resolvedArtifacts)
    ensures IsCollectResult(c1, r) <==> IsCollectResult(c2, r)
  {
  }

  /**
   * Keys can tie: a `:` inside a component makes two different identifiers
   * share a key, and then their relative order is the hash set's.
   */
  lemma KeysCanTie()
    ensures Key(ModuleId("a:b", "c", "1")) == Key(ModuleId("a", "b:c", "1"))
    ensures ModuleId("a:b", "c", "1") != ModuleId("a", "b:c", "1")
  {
  }

  // The worked example: `com.foo:bar:1.0`, `com.bar:baz:2.0` and
  // `com.foo:alpha:1.0`, the first resolved twice.
  const FooBar := ModuleId("com.foo", "bar", "1.0")
  const BarBaz := ModuleId("com.bar", "baz", "2.0")
  const FooAlpha := ModuleId("com.foo", "alpha", "1.0")

  lemma ExampleFirstPair()
    ensures KeyLe(BarBaz, FooAlpha)
  {
    var a, b := Key(BarBaz), Key(FooAlpha);
    KeyLayout(BarBaz);
    KeyLayout(FooAlpha);
    assert a[..7] == "com.bar" && b[..7] == "com.foo";
    assert a[..4] == a[..7][..4] && b[..4] == b[..7][..4];
    assert a[4] == a[..7][4] && b[4] == b[..7][4];
    assert FirstDifferenceBelow(a, b, 4);
  }

  lemma ExampleSecondPair()
    ensures KeyLe(FooAlpha, FooBar)
  {
    var a, b := Key(FooAlpha), Key(FooBar);
    KeyLayout(FooAlpha);
    KeyLayout(FooBar);
    assert a[..7] == b[..7] && a[7] == b[7] == ':';
    assert a[..8] == a[..7] + [a[7]] && b[..8] == b[..7] + [b[7]];
    assert a[8..13] == "alpha" && b[8..11] == "bar";
    assert a[8] == a[8..13][0] && b[8] == b[8..11][0];
    assert FirstDifferenceBelow(a, b, 8);
  }

  lemma ExampleKeysDiffer()
    ensures Key(BarBaz) != Key(FooAlpha) && Key(FooAlpha) != Key(FooBar) && Key(BarBaz) != Key(FooBar)
  {
    assert |Key(FooAlpha)| == 17 && |Key(BarBaz)| == 15 && |Key(FooBar)| == 15;
    assert Key(BarBaz)[4] == 'b' && Key(FooBar)[4] == 'f';
  }

  const Example := Configuration("implementation", [Dependency("com.foo", "bar", "1.0")],
    [FooBar, BarBaz, FooAlpha, FooBar])

  lemma ExampleIds()
    ensures CollectedIds(Example) == {FooBar, BarBaz, FooAlpha}
    ensures Elements([BarBaz, FooAlpha, FooBar]) == {FooBar, BarBaz, FooAlpha}
  {
    assert Example.resolvedArtifacts == [FooBar, BarBaz, FooAlpha, FooBar];
  }

  lemma ExampleListingSorted()
    ensures SortedByKey([BarBaz, FooAlpha, FooBar])
  {
    ExampleFirstPair();
    ExampleSecondPair();
    LexLeTransitive(Key(BarBaz), Key(FooAlpha), Key(FooBar));
    var listing := [BarBaz, FooAlpha, FooBar];
    assert listing[0] == BarBaz && listing[1] == FooAlpha && listing[2] == FooBar;
    forall i, j | 0 <= i < j < |listing| ensures KeyLe(listing[i], listing[j]) {
      if i == 0 && j == 1 {
      } else if i == 0 {
        assert j == 2;
      } else {
        assert i == 1 && j == 2;
      }
    }
  }

  lemma ExampleKeysDistinct()
    ensures NoDuplicates([BarBaz, FooAlpha, FooBar])
    ensures KeysDistinct({FooBar, BarBaz, FooAlpha})
  {
    ExampleKeysDiffer();
    assert BarBaz != FooAlpha && FooAlpha != FooBar && BarBaz != FooBar;
    forall x, y | x in {FooBar, BarBaz, FooAlpha} && y in {FooBar, BarBaz, FooAlpha} && Key(x) == Key(y)
      ensures x == y
    {
    }
  }

  /** Every result of collecting the example lists `com.bar:baz`, `com.foo:alpha`, `com.foo:bar`. */
  lemma CollectExample(r: seq<ModuleId>)
    requires IsCollectResult(Example, r)
    ensures r == [BarBaz, FooAlpha, FooBar]
  {
    ExampleListingSorted();
    ExampleKeysDistinct();
    ExampleIds();
    assert Elements(r) == CollectedIds(Example);
    SortedListingUnique(r, [BarBaz, FooAlpha, FooBar]);
  }
}

/**
 * Grouping records by category into an insertion-ordered dictionary (the `categories` object of
 * the problems and courses pages), modelled as a sequence of (name, records) pairs.
 */
module Grouping {
  import opened Seqs

  type Groups<T> = seq<(string, seq<T>)>

  function Keys<T>(g: Groups<T>): seq<string> {
    seq(|g|, i requires 0 <= i < |g| => g[i].0)
  }

  /** The key of every record, in input order. */
  function KeysOf<T>(xs: seq<T>, key: T -> string): seq<string> {
    seq(|xs|, i requires 0 <= i < |xs| => key(xs[i]))
  }

  ghost predicate DistinctKeys<T>(g: Groups<T>) {
    forall i, j :: 0 <= i < j < |g| ==> g[i].0 != g[j].0
  }

  /** A starting dictionary: distinct names, each with no records yet. */
  ghost predicate EmptySeed<T>(seed: Groups<T>) {
    DistinctKeys(seed) && forall i :: 0 <= i < |seed| ==> seed[i].1 == []
  }

  /** The records of xs whose key is k, in input order. */
  function Select<T>(xs: seq<T>, key: T -> string, k: string): seq<T>
    decreases |xs|
  {
    if xs == [] then []
    else Select(xs[..|xs| - 1], key, k) + (if key(xs[|xs| - 1]) == k then [xs[|xs| - 1]] else [])
  }

  /** All records of all groups, group after group. */
  function Flatten<T>(g: Groups<T>): seq<T>
    decreases |g|
  {
    if g == [] then [] else Flatten(g[..|g| - 1]) + g[|g| - 1].1
  }

  /** One step of the grouping loop: x joins the group named k, which is created last when k is new. */
  function Add<T>(g: Groups<T>, k: string, x: T): Groups<T> {
    var i := IndexOf(Keys(g), k);
    if i >= 0 then g[i := (k, g[i].1 + [x])] else g + [(k, [x])]
  }

  /** The dictionary after the grouping loop has run over xs. */
  function GroupAll<T>(seed: Groups<T>, xs: seq<T>, key: T -> string): Groups<T>
    decreases |xs|
  {
    if xs == [] then seed
    else
      var x := xs[|xs| - 1];
      Add(GroupAll(seed, xs[..|xs| - 1], key), key(x), x)
  }

  /** The forEach loop over the records: look the key up, then push onto its group or create it. */
  method GroupBy<T>(xs: seq<T>, key: T -> string, seed: Groups<T>) returns (groups: Groups<T>)
    ensures groups == GroupAll(seed, xs, key)
  {
    groups := seed;
    for n := 0 to |xs|
      invariant groups == GroupAll(seed, xs[..n], key)
    {
      var x := xs[n];
      var k := key(x);
      var i := IndexOf(Keys(groups), k);
      if i >= 0 {
        groups := groups[i := (k, groups[i].1 + [x])];
      } else {
        groups := groups + [(k, [x])];
      }
      assert xs[..n + 1][..n] == xs[..n];
    }
    assert xs[..|xs|] == xs;
  }

  lemma IndexOfAppendNew(xs: seq<string>, x: string)
    requires x !in xs
    ensures IndexOf(xs + [x], x) == |xs|
  {
    assert (xs + [x])[|xs|] == x;
  }

  lemma {:induction false} SelectAbsent<T>(xs: seq<T>, key: T -> string, k: string)
    requires k !in KeysOf(xs, key)
    ensures Select(xs, key, k) == []
    decreases |xs|
  {
    if xs != [] {
      var init := xs[..|xs| - 1];
      assert KeysOf(init, key) == KeysOf(xs, key)[..|xs| - 1];
      assert KeysOf(xs, key)[|xs| - 1] == key(xs[|xs| - 1]);
      SelectAbsent(init, key, k);
    }
  }

  /** One step keeps the names distinct, adds k last only when it is new, and extends only k's group. */
  lemma AddShape<T>(g: Groups<T>, k: string, x: T)
    requires DistinctKeys(g)
    ensures var r := Add(g, k, x);
      && DistinctKeys(r)
      && Keys(r) == (if k in Keys(g) then Keys(g) else Keys(g) + [k])
      && (forall i :: 0 <= i < |g| ==> r[i].1 == if g[i].0 == k then g[i].1 + [x] else g[i].1)
      && (k !in Keys(g) ==> r[|g|].1 == [x])
  {
    var i := IndexOf(Keys(g), k);
    if i >= 0 {
      assert Keys(Add(g, k, x)) == Keys(g);
    } else {
      forall j | 0 <= j < |g|
        ensures g[j].0 != k
      {
        assert Keys(g)[j] == g[j].0;
      }
      assert Keys(Add(g, k, x)) == Keys(g) + [k];
    }
  }

  /**
   * The names after the loop: distinct, the seed's names first and in their order, and besides
   * them exactly the names of the records.
   */
  lemma GroupAllKeys<T>(seed: Groups<T>, xs: seq<T>, key: T -> string)
    requires DistinctKeys(seed)
    ensures var r := GroupAll(seed, xs, key);
      && DistinctKeys(r)
      && |seed| <= |r|
      && Keys(r)[..|seed|] == Keys(seed)
      && (forall k :: k in Keys(r) <==> k in Keys(seed) || k in KeysOf(xs, key))
  {
    GroupAllPrefix(seed, xs, key);
    GroupAllNames(seed, xs, key);
  }

  /** The grouping keeps the names distinct and the seed's names first. */
  lemma {:induction false} GroupAllPrefix<T>(seed: Groups<T>, xs: seq<T>, key: T -> string)
    requires DistinctKeys(seed)
    ensures var r := GroupAll(seed, xs, key);
      DistinctKeys(r) && |seed| <= |r| && Keys(r)[..|seed|] == Keys(seed)
    decreases |xs|
  {
    if xs != [] {
      var init := xs[..|xs| - 1];
      var x := xs[|xs| - 1];
      var g := GroupAll(seed, init, key);
      GroupAllPrefix(seed, init, key);
      AddShape(g, key(x), x);
      var r := Add(g, key(x), x);
      assert |Keys(r)| == |r| && |Keys(g)| == |g|;
      assert Keys(r)[..|g|] == Keys(g);
      assert Keys(r)[..|seed|] == Keys(g)[..|seed|];
    }
  }

  /** The names of the groups are the seed's names and the records' keys. */
  lemma {:induction false} GroupAllNames<T>(seed: Groups<T>, xs: seq<T>, key: T -> string)
    requires DistinctKeys(seed)
    ensures forall k :: k in Keys(GroupAll(seed, xs, key)) <==> k in Keys(seed) || k in KeysOf(xs, key)
    decreases |xs|
  {
    if xs != [] {
      var init := xs[..|xs| - 1];
      var x := xs[|xs| - 1];
      var g := GroupAll(seed, init, key);
      GroupAllNames(seed, init, key);
      GroupAllPrefix(seed, init, key);
      AddShape(g, key(x), x);
      var r := Add(g, key(x), x);
      assert KeysOf(xs, key) == KeysOf(init, key) + [key(x)];
      forall k
        ensures k in Keys(r) <==> k in Keys(seed) || k in KeysOf(xs, key)
      {
        assert k in Keys(r) <==> k in Keys(g) || k == key(x);
        assert k in KeysOf(xs, key) <==> k in KeysOf(init, key) || k == key(x);
      }
    }
  }

  /** Each group holds exactly the records with its name, in input order. */
  lemma {:induction false} GroupAllMembers<T>(seed: Groups<T>, xs: seq<T>, key: T -> string)
    requires EmptySeed(seed)
    ensures var r := GroupAll(seed, xs, key);
      forall i :: 0 <= i < |r| ==> r[i].1 == Select(xs, key, r[i].0)
    decreases |xs|
  {
    var r := GroupAll(seed, xs, key);
    if xs == [] {
      forall i | 0 <= i < |r|
        ensures r[i].1 == Select(xs, key, r[i].0)
      {
      }
    } else {
      var init := xs[..|xs| - 1];
      var x := xs[|xs| - 1];
      var g := GroupAll(seed, init, key);
      GroupAllMembers(seed, init, key);
      GroupAllKeys(seed, init, key);
      AddShape(g, key(x), x);
      forall i | 0 <= i < |r|
        ensures r[i].1 == Select(xs, key, r[i].0)
      {
        if i == |g| {
          assert key(x) !in Keys(g);
          SelectAbsent(init, key, key(x));
        } else {
          assert Keys(r)[i] == Keys(g)[i];
        }
      }
    }
  }

  /** From position `from` on, the names come in the order of their first position in ks. */
  ghost predicate FirstSeenOrder<T>(g: Groups<T>, from: nat, ks: seq<string>) {
    forall a, b :: from <= a < b < |g| ==> SeenBefore(ks, g[a].0, g[b].0)
  }

  /** Name x occurs in ks, and earlier than name y. */
  ghost predicate SeenBefore(ks: seq<string>, x: string, y: string) {
    0 <= IndexOf(ks, x) < IndexOf(ks, y)
  }

  /** Every name beyond the seed is the name of some record. */
  lemma NewKeysSeen<T>(seed: Groups<T>, xs: seq<T>, key: T -> string)
    requires DistinctKeys(seed)
    ensures var r := GroupAll(seed, xs, key);
      |seed| <= |r| && forall a :: |seed| <= a < |r| ==> r[a].0 in KeysOf(xs, key)
  {
    var r := GroupAll(seed, xs, key);
    GroupAllKeys(seed, xs, key);
    forall a | |seed| <= a < |r|
      ensures r[a].0 in KeysOf(xs, key)
    {
      assert Keys(r)[a] == r[a].0;
    }
  }

  /** One step keeps the first-seen order when the next record's key is appended to those seen. */
  lemma FirstSeenStep<T>(g: Groups<T>, from: nat, ks: seq<string>, k: string, x: T)
    requires DistinctKeys(g) && from <= |g|
    requires forall a :: from <= a < |g| ==> g[a].0 in ks
    requires k !in Keys(g) ==> k !in ks
    requires FirstSeenOrder(g, from, ks)
    ensures FirstSeenOrder(Add(g, k, x), from, ks + [k])
  {
    var r := Add(g, k, x);
    AddShape(g, k, x);
    forall a, b | from <= a < b < |r|
      ensures SeenBefore(ks + [k], r[a].0, r[b].0)
    {
      assert b == |g| || SeenBefore(ks, g[a].0, g[b].0);
      assert Keys(r)[a] == Keys(g)[a];
      IndexOfAppend(ks, k, r[a].0);
      if b < |g| {
        assert Keys(r)[b] == Keys(g)[b];
        IndexOfAppend(ks, k, r[b].0);
      } else {
        assert Keys(r)[b] == k;
        IndexOfAppendNew(ks, k);
      }
    }
    assert FirstSeenOrder(r, from, ks + [k]);
  }

  /** The names beyond the seed come in the order in which the records first show them. */
  lemma {:induction false} GroupAllFirstSeen<T>(seed: Groups<T>, xs: seq<T>, key: T -> string)
    requires DistinctKeys(seed)
    ensures FirstSeenOrder(GroupAll(seed, xs, key), |seed|, KeysOf(xs, key))
    decreases |xs|
  {
    if xs != [] {
      var init := xs[..|xs| - 1];
      var x := xs[|xs| - 1];
      var g := GroupAll(seed, init, key);
      GroupAllFirstSeen(seed, init, key);
      GroupAllKeys(seed, init, key);
      NewKeysSeen(seed, init, key);
      FirstSeenStep(g, |seed|, KeysOf(init, key), key(x), x);
      assert KeysOf(xs, key) == KeysOf(init, key) + [key(x)];
    }
  }

  /** A record is selected under a name exactly when it is one of the records and has that name. */
  lemma {:induction false} SelectMember<T>(xs: seq<T>, key: T -> string, k: string, x: T)
    ensures x in Select(xs, key, k) <==> x in xs && key(x) == k
    decreases |xs|
  {
    if xs != [] {
      var init := xs[..|xs| - 1];
      SelectMember(init, key, k, x);
      assert xs == init + [xs[|xs| - 1]];
    }
  }

  /** Each record lands in exactly one group: the one named by its key. */
  lemma GroupOfRecord<T>(seed: Groups<T>, xs: seq<T>, key: T -> string, x: T)
    requires EmptySeed(seed) && x in xs
    ensures var r := GroupAll(seed, xs, key);
      var i := IndexOf(Keys(r), key(x));
      0 <= i && r[i].0 == key(x) && forall j :: 0 <= j < |r| ==> (x in r[j].1 <==> j == i)
  {
    var r := GroupAll(seed, xs, key);
    GroupAllKeys(seed, xs, key);
    GroupAllMembers(seed, xs, key);
    var i0 :| 0 <= i0 < |xs| && xs[i0] == x;
    assert KeysOf(xs, key)[i0] == key(x);
    var i := IndexOf(Keys(r), key(x));
    assert r[i].0 == Keys(r)[i];
    forall j | 0 <= j < |r|
      ensures x in r[j].1 <==> j == i
    {
      SelectMember(xs, key, r[j].0, x);
    }
  }

  lemma {:induction false} FlattenUpdate<T>(g: Groups<T>, i: nat, k: string, x: T)
    requires i < |g|
    ensures multiset(Flatten(g[i := (k, g[i].1 + [x])])) == multiset(Flatten(g)) + multiset{x}
    decreases |g|
  {
    var g' := g[i := (k, g[i].1 + [x])];
    var n := |g|;
    if i == n - 1 {
      assert g'[..n - 1] == g[..n - 1];
    } else {
      assert g'[..n - 1] == g[..n - 1][i := (k, g[i].1 + [x])];
      FlattenUpdate(g[..n - 1], i, k, x);
    }
  }

  /** Grouping neither drops nor duplicates a record: together the groups hold exactly the input. */
  lemma {:induction false} GroupAllPartition<T>(seed: Groups<T>, xs: seq<T>, key: T -> string)
    requires EmptySeed(seed)
    ensures multiset(Flatten(GroupAll(seed, xs, key))) == multiset(xs)
    decreases |xs|
  {
    if xs == [] {
      EmptyFlatten(seed);
    } else {
      var init := xs[..|xs| - 1];
      var x := xs[|xs| - 1];
      GroupAllPartition(seed, init, key);
      AddFlatten(GroupAll(seed, init, key), key(x), x);
      LastSplit(xs);
    }
  }

  /** One step of grouping adds exactly the new record to the groups' contents. */
  lemma AddFlatten<T>(g: Groups<T>, k: string, x: T)
    ensures multiset(Flatten(Add(g, k, x))) == multiset(Flatten(g)) + multiset{x}
  {
    var i := IndexOf(Keys(g), k);
    if i >= 0 {
      FlattenUpdate(g, i, k, x);
    } else {
      assert (g + [(k, [x])])[..|g|] == g;
    }
  }

  lemma {:induction false} EmptyFlatten<T>(g: Groups<T>)
    requires forall i :: 0 <= i < |g| ==> g[i].1 == []
    ensures Flatten(g) == []
    decreases |g|
  {
    if g != [] {
      EmptyFlatten(g[..|g| - 1]);
    }
  }

  /** The groups with at least one record, in their order: the render loop skips the others. */
  function NonEmpty<T>(g: Groups<T>): Groups<T>
    decreases |g|
  {
    if g == [] then []
    else NonEmpty(g[..|g| - 1]) + (if g[|g| - 1].1 == [] then [] else [g[|g| - 1]])
  }

  /** Skipping empty groups keeps exactly the groups that have records. */
  lemma {:induction false} NonEmptyMembers<T>(g: Groups<T>)
    ensures forall p :: p in NonEmpty(g) ==> p in g && p.1 != []
    ensures forall p :: p in g && p.1 != [] ==> p in NonEmpty(g)
    decreases |g|
  {
    if g != [] {
      var init := g[..|g| - 1];
      NonEmptyMembers(init);
      assert g == init + [g[|g| - 1]];
    }
  }

  /** The groups kept are non-empty and hold the records selected by their name, when all groups do. */
  lemma NonEmptySelect<T>(g: Groups<T>, xs: seq<T>, key: T -> string)
    requires forall i :: 0 <= i < |g| ==> g[i].1 == Select(xs, key, g[i].0)
    ensures var shown := NonEmpty(g);
      forall i :: 0 <= i < |shown| ==> shown[i].1 != [] && shown[i].1 == Select(xs, key, shown[i].0)
  {
    var shown := NonEmpty(g);
    NonEmptyMembers(g);
    forall i | 0 <= i < |shown|
      ensures shown[i].1 != [] && shown[i].1 == Select(xs, key, shown[i].0)
    {
      assert shown[i] in shown;
      var j :| 0 <= j < |g| && g[j] == shown[i];
    }
  }

  /** Skipping empty groups keeps the names distinct. */
  /** Skipping empty groups keeps the dictionary order: the kept groups come in the order of their names in g. */
  lemma {:induction false} NonEmptyKeepsOrder<T>(g: Groups<T>)
    requires DistinctKeys(g)
    ensures FirstSeenOrder(NonEmpty(g), 0, Keys(g))
    decreases |g|
  {
    if g != [] {
      var init := g[..|g| - 1];
      var last := g[|g| - 1];
      NonEmptyKeepsOrder(init);
      KeptKeys(init);
      assert Keys(g) == Keys(init) + [last.0];
      if last.1 != [] {
        assert last.0 !in Keys(init) by {
          forall j | 0 <= j < |init|
            ensures Keys(init)[j] != last.0
          {
            assert g[j] == init[j];
          }
        }
        OrderAppendGroup(NonEmpty(init), Keys(init), last);
      } else {
        OrderAppendName(NonEmpty(init), Keys(init), last.0);
      }
    }
  }

  /** The names of the kept groups are names of g. */
  lemma KeptKeys<T>(g: Groups<T>)
    ensures forall a :: 0 <= a < |NonEmpty(g)| ==> NonEmpty(g)[a].0 in Keys(g)
  {
    var kept := NonEmpty(g);
    NonEmptyMembers(g);
    forall a | 0 <= a < |kept|
      ensures kept[a].0 in Keys(g)
    {
      assert kept[a] in kept;
      var j :| 0 <= j < |g| && g[j] == kept[a];
      assert Keys(g)[j] == kept[a].0;
    }
  }

  /** A further name at the end does not disturb an order of groups whose names are all known. */
  lemma OrderAppendName<T>(h: Groups<T>, ks: seq<string>, y: string)
    requires FirstSeenOrder(h, 0, ks)
    requires forall a :: 0 <= a < |h| ==> h[a].0 in ks
    ensures FirstSeenOrder(h, 0, ks + [y])
  {
    forall a, b | 0 <= a < b < |h|
      ensures SeenBefore(ks + [y], h[a].0, h[b].0)
    {
      assert SeenBefore(ks, h[a].0, h[b].0);
      IndexOfAppend(ks, y, h[a].0);
      IndexOfAppend(ks, y, h[b].0);
    }
  }

  /** A new group with a new, last name keeps the order. */
  lemma OrderAppendGroup<T>(h: Groups<T>, ks: seq<string>, p: (string, seq<T>))
    requires FirstSeenOrder(h, 0, ks)
    requires forall a :: 0 <= a < |h| ==> h[a].0 in ks
    requires p.0 !in ks
    ensures FirstSeenOrder(h + [p], 0, ks + [p.0])
  {
    OrderAppendName(h, ks, p.0);
    IndexOfAppendNew(ks, p.0);
    var h' := h + [p];
    forall a, b | 0 <= a < b < |h'|
      ensures SeenBefore(ks + [p.0], h'[a].0, h'[b].0)
    {
      assert h'[a] == h[a];
      if b < |h| {
        assert h'[b] == h[b];
      } else {
        IndexOfAppend(ks, p.0, h[a].0);
      }
    }
  }

  lemma {:induction false} NonEmptyDistinct<T>(g: Groups<T>)
    requires DistinctKeys(g)
    ensures DistinctKeys(NonEmpty(g))
    decreases |g|
  {
    if g != [] {
      var init := g[..|g| - 1];
      var last := g[|g| - 1];
      NonEmptyDistinct(init);
      NonEmptyMembers(init);
      forall p | p in NonEmpty(init)
        ensures p.0 != last.0
      {
        assert p in init;
        var j :| 0 <= j < |init| && init[j] == p;
      }
    }
  }

  /** Skipping empty groups loses no record. */
  lemma {:induction false} NonEmptyFlatten<T>(g: Groups<T>)
    ensures Flatten(NonEmpty(g)) == Flatten(g)
    decreases |g|
  {
    if g != [] {
      var init := g[..|g| - 1];
      var last := g[|g| - 1];
      NonEmptyFlatten(init);
      if last.1 != [] {
        assert (NonEmpty(init) + [last])[..|NonEmpty(init)|] == NonEmpty(init);
      } else {
        assert NonEmpty(g) == NonEmpty(init) + [] == NonEmpty(init);
        assert Flatten(g) == Flatten(init) + [];
      }
    }
  }
}

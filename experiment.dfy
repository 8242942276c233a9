/**
 * The collection helpers of main_experiment.py: the dict-of-lists
 * accumulator (`add2dict`, `foldintodict`), the author-preserving two-way
 * split `divide_authdict`, the tag-routing loops of `split_metadata` and
 * `split_one_genre` (over a list of volumes instead of a DataFrame), and the
 * confusion-matrix count `accuracy` (over (realclass, prediction) pairs).
 */
module Experiment {
  import opened PyStr
  import opened Sampling
  import opened Ratio

  // ------------------------------------------------------------ dict of lists

  /** `d.get(k, [])`. */
  function Get<K, V>(m: map<K, seq<V>>, k: K): seq<V> {
    if k in m then m[k] else []
  }

  /** The dictionary after `add2dict(m, k, v)`. */
  function Appended<K, V>(m: map<K, seq<V>>, k: K, v: V): (r: map<K, seq<V>>)
    ensures r.Keys == m.Keys + {k}
    ensures r[k] == Get(m, k) + [v]
    ensures forall j | j in m && j != k :: r[j] == m[j]
  {
    m[k := Get(m, k) + [v]]
  }

  /** The dictionary after `add2dict` has been applied for the keys `done` of `d`. */
  function FoldedOver<K, V>(m: map<K, seq<V>>, d: map<K, V>, done: set<K>): map<K, seq<V>>
    requires done <= d.Keys
  {
    map k | k in m.Keys + done :: if k in done then Get(m, k) + [d[k]] else m[k]
  }

  /** Folding in one more key of `d`, out of those still to do, is one `add2dict` call. */
  lemma FoldedOverStep<K, V>(m: map<K, seq<V>>, d: map<K, V>, rest: set<K>, k: K)
    requires rest <= d.Keys && k in rest
    ensures Appended(FoldedOver(m, d, d.Keys - rest), k, d[k]) == FoldedOver(m, d, d.Keys - (rest - {k}))
  {
    assert Get(FoldedOver(m, d, d.Keys - rest), k) == Get(m, k);
    assert d.Keys - rest + {k} == d.Keys - (rest - {k});
  }

  /** The dictionary after `foldintodict(d, m)`. */
  function FoldedIn<K, V>(m: map<K, seq<V>>, d: map<K, V>): map<K, seq<V>> {
    FoldedOver(m, d, d.Keys)
  }

  /**
   * After `foldintodict(d1, d2)` every key of d1 has exactly one more entry
   * in d2, namely d1's value, appended at the end; keys of d2 that d1 lacks
   * keep their lists.
   */
  lemma FoldedInGainsOne<K, V>(m: map<K, seq<V>>, d: map<K, V>)
    ensures FoldedIn(m, d).Keys == m.Keys + d.Keys
    ensures forall k | k in d ::
      |FoldedIn(m, d)[k]| == |Get(m, k)| + 1 && FoldedIn(m, d)[k][..|Get(m, k)|] == Get(m, k)
      && FoldedIn(m, d)[k][|Get(m, k)|] == d[k]
    ensures forall k | k in m && k !in d :: FoldedIn(m, d)[k] == m[k]
  {
    forall k | k in d
      ensures FoldedIn(m, d)[k][..|Get(m, k)|] == Get(m, k)
    {
      assert FoldedIn(m, d)[k] == Get(m, k) + [d[k]];
    }
  }

  /** A Python dict whose values are lists, updated in place. */
  class ListDict<K(==), V> {
    var entries: map<K, seq<V>>

    constructor ()
      ensures entries == map[]
    {
      entries := map[];
    }

    /** `add2dict(self, key, value)` (main_experiment.py:15-18). */
    method Add(key: K, value: V)
      modifies this
      ensures entries == Appended(old(entries), key, value)
    {
      if key !in entries {
        entries := entries[key := []];
      }
      entries := entries[key := entries[key] + [value]];
    }

    /** `foldintodict(d, self)` (main_experiment.py:20-22). */
    method FoldIn(d: map<K, V>)
      modifies this
      ensures entries == FoldedIn(old(entries), d)
    {
      var rest := d.Keys;
      while rest != {}
        invariant rest <= d.Keys
        invariant entries == FoldedOver(old(entries), d, d.Keys - rest)
        decreases |rest|
      {
        var k :| k in rest;
        FoldedOverStep(old(entries), d, rest, k);
        Add(k, d[k]);
        rest := rest - {k};
      }
      assert d.Keys - rest == d.Keys;
    }
  }

  // --------------------------------------------------------- divide_authdict

  predicate Listed(authdict: map<string, seq<string>>, auths: seq<string>) {
    forall i | 0 <= i < |auths| :: auths[i] in authdict
  }

  /** Every listed author's documents, in author order. */
  function Flatten(authdict: map<string, seq<string>>, auths: seq<string>): seq<string>
    requires Listed(authdict, auths)
  {
    if |auths| == 0 then [] else Flatten(authdict, auths[..|auths| - 1]) + authdict[auths[|auths| - 1]]
  }

  /**
   * The greedy loop of divide_authdict (main_experiment.py:29-34): an
   * author's documents go to part2 when part1 is strictly longer, else to
   * part1.
   */
  function Greedy(authdict: map<string, seq<string>>, auths: seq<string>): (seq<string>, seq<string>)
    requires Listed(authdict, auths)
  {
    if |auths| == 0 then ([], [])
    else
      var (p1, p2) := Greedy(authdict, auths[..|auths| - 1]);
      var docs := authdict[auths[|auths| - 1]];
      if |p1| > |p2| then (p1, p2 + docs) else (p1 + docs, p2)
  }

  /** Whether author `i` is sent to part1: part1 was not longer when it came up. */
  predicate ToFirst(authdict: map<string, seq<string>>, auths: seq<string>, i: nat)
    requires i < |auths| && Listed(authdict, auths)
  {
    var (p1, p2) := Greedy(authdict, auths[..i]);
    |p1| <= |p2|
  }

  /** The documents of the first `n` authors whose side is `first`, in order. */
  function Gather(authdict: map<string, seq<string>>, auths: seq<string>, n: nat, first: bool): seq<string>
    requires n <= |auths| && Listed(authdict, auths)
  {
    if n == 0 then []
    else
      var docs := if ToFirst(authdict, auths, n - 1) == first then authdict[auths[n - 1]] else [];
      Gather(authdict, auths, n - 1, first) + docs
  }

  /**
   * Each author's whole document list lands in exactly one part: part1 is
   * the concatenation of the lists of the authors sent to part1, part2 that
   * of all the others.
   */
  lemma {:induction false} GreedyGathers(authdict: map<string, seq<string>>, auths: seq<string>, n: nat)
    requires n <= |auths| && Listed(authdict, auths)
    ensures Greedy(authdict, auths[..n]) == (Gather(authdict, auths, n, true), Gather(authdict, auths, n, false))
  {
    if n > 0 {
      GreedyGathers(authdict, auths, n - 1);
      assert auths[..n][..n - 1] == auths[..n - 1] && auths[..n][n - 1] == auths[n - 1];
      var (p1, p2) := Greedy(authdict, auths[..n - 1]);
      var docs := authdict[auths[n - 1]];
      assert Greedy(authdict, auths[..n]) == if |p1| > |p2| then (p1, p2 + docs) else (p1 + docs, p2);
      assert ToFirst(authdict, auths, n - 1) <==> |p1| <= |p2|;
      if |p1| > |p2| {
        assert p1 + [] == p1;
        assert Gather(authdict, auths, n, false) == p2 + docs;
      } else {
        assert p2 + [] == p2;
        assert Gather(authdict, auths, n, true) == p1 + docs;
        assert Gather(authdict, auths, n, false) == p2 + [];
      }
    }
  }

  /** The two parts together hold every listed document exactly as often as the lists do. */
  lemma {:induction false} GreedyPermutation(authdict: map<string, seq<string>>, auths: seq<string>)
    requires Listed(authdict, auths)
    ensures multiset(Greedy(authdict, auths).0) + multiset(Greedy(authdict, auths).1)
      == multiset(Flatten(authdict, auths))
  {
    if |auths| > 0 {
      GreedyPermutation(authdict, auths[..|auths| - 1]);
    }
  }

  /** With no author listing more than `bound` documents, the two parts differ in length by at most `bound`. */
  lemma {:induction false} GreedyBalance(authdict: map<string, seq<string>>, auths: seq<string>, bound: nat)
    requires Listed(authdict, auths)
    requires forall i | 0 <= i < |auths| :: |authdict[auths[i]]| <= bound
    ensures -(bound as int) <= |Greedy(authdict, auths).0| - |Greedy(authdict, auths).1| <= bound
  {
    if |auths| > 0 {
      GreedyBalance(authdict, auths[..|auths| - 1], bound);
      assert |authdict[auths[|auths| - 1]]| <= bound;
    }
  }

  lemma {:induction false} FlattenConcat(authdict: map<string, seq<string>>, xs: seq<string>, ys: seq<string>)
    requires Listed(authdict, xs) && Listed(authdict, ys)
    ensures Listed(authdict, xs + ys)
    ensures Flatten(authdict, xs + ys) == Flatten(authdict, xs) + Flatten(authdict, ys)
  {
    if |ys| == 0 {
      assert xs + ys == xs;
    } else {
      var init := ys[..|ys| - 1];
      FlattenConcat(authdict, xs, init);
      assert (xs + ys)[..|xs + ys| - 1] == xs + init;
    }
  }

  /** Taking one author out of the list takes exactly that author's documents out. */
  lemma FlattenRemove(authdict: map<string, seq<string>>, ys: seq<string>, j: nat)
    requires Listed(authdict, ys) && j < |ys|
    ensures Listed(authdict, ys[..j] + ys[j + 1..])
    ensures multiset(Flatten(authdict, ys))
      == multiset(Flatten(authdict, ys[..j] + ys[j + 1..])) + multiset(authdict[ys[j]])
  {
    var before, after := ys[..j], ys[j + 1..];
    assert ys == before + [ys[j]] + after;
    FlattenConcat(authdict, before, after);
    FlattenConcat(authdict, before, [ys[j]]);
    FlattenConcat(authdict, before + [ys[j]], after);
    assert Flatten(authdict, [ys[j]]) == authdict[ys[j]] by {
      assert [ys[j]][..0] == [];
    }
  }

  lemma MultisetRemove(ys: seq<string>, j: nat)
    requires j < |ys|
    ensures multiset(ys) == multiset(ys[..j] + ys[j + 1..]) + multiset{ys[j]}
  {
    assert ys == ys[..j] + [ys[j]] + ys[j + 1..];
  }

  /** Shuffling the authors does not change which documents are listed, nor how often. */
  lemma {:induction false} FlattenPermutation(authdict: map<string, seq<string>>, xs: seq<string>, ys: seq<string>)
    requires Listed(authdict, xs) && multiset(xs) == multiset(ys)
    ensures Listed(authdict, ys)
    ensures multiset(Flatten(authdict, xs)) == multiset(Flatten(authdict, ys))
    decreases |xs|
  {
    forall i | 0 <= i < |ys| ensures ys[i] in authdict {
      assert ys[i] in multiset(xs);
    }
    if |xs| > 0 {
      var x := xs[|xs| - 1];
      var init := xs[..|xs| - 1];
      assert xs == init + [x];
      assert multiset(xs) == multiset(init) + multiset{x};
      assert x in multiset(ys);
      var j :| 0 <= j < |ys| && ys[j] == x;
      var rest := ys[..j] + ys[j + 1..];
      MultisetRemove(ys, j);
      assert forall e :: multiset(init)[e] == multiset(rest)[e] by {
        forall e ensures multiset(init)[e] == multiset(rest)[e] {
          assert multiset(xs)[e] == multiset(ys)[e];
        }
      }
      assert multiset(init) == multiset(rest);
      FlattenPermutation(authdict, init, rest);
      FlattenRemove(authdict, ys, j);
    }
  }

  /**
   * The rebalancing step of divide_authdict (main_experiment.py:36-47): when
   * a part is short of `sizecap`, the tail of the other part beyond `sizecap`
   * is copied onto it (the documents stay where they were too).
   */
  function Rebalance(p1: seq<string>, p2: seq<string>, sizecap: int): (seq<string>, seq<string>) {
    if |p1| >= sizecap && |p2| >= sizecap then (p1, p2)
    else if |p1| > sizecap then (p1, p2 + p1[sizecap..])
    else if |p2| > sizecap then (p1 + p2[sizecap..], p2)
    else (p1, p2)
  }

  /**
   * Rebalancing never removes a document: each part keeps its documents as
   * a prefix and the two parts together hold the same documents; when it
   * copies, the copied documents then sit in both parts.
   */
  lemma RebalanceKeepsDocuments(p1: seq<string>, p2: seq<string>, sizecap: int)
    ensures var (r1, r2) := Rebalance(p1, p2, sizecap);
      && |p1| <= |r1| && r1[..|p1|] == p1 && |p2| <= |r2| && r2[..|p2|] == p2
      && Elems(r1 + r2) == Elems(p1 + p2)
    ensures var (r1, r2) := Rebalance(p1, p2, sizecap);
      !(|p1| >= sizecap && |p2| >= sizecap) && |p1| > sizecap ==>
        forall i | sizecap <= i < |p1| :: p1[i] in r1 && p1[i] in r2
    ensures var (r1, r2) := Rebalance(p1, p2, sizecap);
      !(|p1| >= sizecap && |p2| >= sizecap) && |p1| <= sizecap && |p2| > sizecap ==>
        forall i | sizecap <= i < |p2| :: p2[i] in r1 && p2[i] in r2
  {
    var (r1, r2) := Rebalance(p1, p2, sizecap);
    if !(|p1| >= sizecap && |p2| >= sizecap) && |p1| > sizecap {
      assert r2 == p2 + p1[sizecap..];
      assert r1 + r2 == p1 + p2 + p1[sizecap..];
      forall i | sizecap <= i < |p1| ensures p1[i] in r2 {
        assert r2[|p2| + i - sizecap] == p1[i];
      }
    } else if !(|p1| >= sizecap && |p2| >= sizecap) && |p2| > sizecap {
      assert r1 == p1 + p2[sizecap..];
      assert Elems(r1 + r2) == Elems(p1 + p2) by {
        assert r1 + r2 == p1 + p2[sizecap..] + p2;
      }
      forall i | sizecap <= i < |p2| ensures p2[i] in r1 {
        assert r1[|p1| + i - sizecap] == p2[i];
      }
    }
  }

  /** When both parts already reach `sizecap` they are returned as they are, so no document is duplicated. */
  lemma BalancedSplitIsPermutation(authdict: map<string, seq<string>>, auths: seq<string>, shuffled: seq<string>, sizecap: int)
    requires Listed(authdict, auths) && multiset(shuffled) == multiset(auths)
    requires Listed(authdict, shuffled)
    requires |Greedy(authdict, shuffled).0| >= sizecap && |Greedy(authdict, shuffled).1| >= sizecap
    ensures var (r1, r2) := Rebalance(Greedy(authdict, shuffled).0, Greedy(authdict, shuffled).1, sizecap);
      multiset(r1) + multiset(r2) == multiset(Flatten(authdict, auths))
  {
    GreedyPermutation(authdict, shuffled);
    FlattenPermutation(authdict, auths, shuffled);
  }

  /**
   * `divide_authdict(authdict, auths, ceiling, sizecap)`: `auths` is
   * shuffled in place (returned here as `shuffled`), split greedily and
   * rebalanced. The error log it writes is not modelled. The source fails
   * with NameError on `lastauth` when it must rebalance an empty author
   * list, hence the precondition.
   */
  method DivideAuthDict(authdict: map<string, seq<string>>, auths: seq<string>, sizecap: int)
    returns (shuffled: seq<string>, part1: seq<string>, part2: seq<string>)
    requires Listed(authdict, auths)
    requires |auths| > 0 || sizecap <= 0
    ensures multiset(shuffled) == multiset(auths) && Listed(authdict, shuffled)
    ensures (part1, part2) == Rebalance(Greedy(authdict, shuffled).0, Greedy(authdict, shuffled).1, sizecap)
  {
    shuffled := Shuffle(auths);
    forall i | 0 <= i < |shuffled| ensures shuffled[i] in authdict {
      assert shuffled[i] in multiset(auths);
    }
    part1 := [];
    part2 := [];
    for i := 0 to |shuffled|
      invariant (part1, part2) == Greedy(authdict, shuffled[..i])
    {
      assert shuffled[..i + 1][..i] == shuffled[..i];
      if |part1| > |part2| {
        part2 := part2 + authdict[shuffled[i]];
      } else {
        part1 := part1 + authdict[shuffled[i]];
      }
    }
    assert shuffled[..|shuffled|] == shuffled;
    if |part1| >= sizecap && |part2| >= sizecap {
      return;
    }
    if |part1| > sizecap {
      part2 := part2 + part1[sizecap..];
    } else if |part2| > sizecap {
      part1 := part1 + part2[sizecap..];
    }
  }

  // ------------------------------------------------------------ tag routing

  /** One row of the master metadata table, as the routing loops read it. */
  datatype Volume = Volume(idx: string, tags: string, author: string, firstpub: int)

  /** `set(tags.split('|'))`. */
  function TagsOf(v: Volume): set<string> {
    set t | t in Split(v.tags, '|')
  }

  /** Where a routing loop files a volume. */
  datatype Dest = Skip | Mainstream | Genre | SF | Fantasy

  /**
   * Which routing loop runs: split_one_genre with its positive tags, or
   * split_metadata with the outcome of `random.choice([True, False])` for
   * each volume (used only for volumes tagged both sf and fantasy).
   */
  datatype Router =
    | OneGenre(floor: int, ceiling: int, positiveTags: seq<string>)
    | SfFantasy(floor: int, ceiling: int, whims: seq<bool>)

  predicate Covers(router: Router, vols: seq<Volume>) {
    router.SfFantasy? ==> |router.whims| >= |vols|
  }

  predicate IsSF(tags: set<string>) {
    "sf_loc" in tags || "sf_oclc" in tags || "sf_bailey" in tags
  }

  predicate IsFantasy(tags: set<string>) {
    "fantasy_loc" in tags || "fantasy_oclc" in tags || "supernat" in tags
  }

  /**
   * The destination of volume `v` at position `i` (main_experiment.py:60,
   * 66-103 and 129, 134-149): volumes outside [floor, ceiling] and 'juv'
   * volumes are skipped, 'random'/'randomB' volumes are mainstream, and the
   * genre tests come only after that.
   */
  function Route(router: Router, v: Volume, i: nat): Dest
    requires router.SfFantasy? ==> i < |router.whims|
  {
    var tags := TagsOf(v);
    if !(router.floor <= v.firstpub <= router.ceiling) then Skip
    else if "juv" in tags then Skip
    else if "random" in tags || "randomB" in tags then Mainstream
    else match router
      case OneGenre(_, _, positiveTags) =>
        if exists j | 0 <= j < |positiveTags| :: positiveTags[j] in tags then Genre else Skip
      case SfFantasy(_, _, whims) =>
        if IsSF(tags) && IsFantasy(tags) then (if whims[i] then SF else Fantasy)
        else if IsSF(tags) then SF
        else if IsFantasy(tags) then Fantasy
        else Skip
  }

  /** The destination of every volume, in table order. */
  function Routes(router: Router, vols: seq<Volume>): (r: seq<Dest>)
    requires Covers(router, vols)
    ensures |r| == |vols| && forall i | 0 <= i < |vols| :: r[i] == Route(router, vols[i], i)
  {
    seq(|vols|, i requires 0 <= i < |vols| => Route(router, vols[i], i))
  }

  /** The author dictionary a routing loop builds for destination `dest`, given each volume's destination. */
  function Collect(vols: seq<Volume>, dests: seq<Dest>, dest: Dest): map<string, seq<string>>
    requires |dests| == |vols|
  {
    if |vols| == 0 then map[]
    else
      var prev := Collect(vols[..|vols| - 1], dests[..|vols| - 1], dest);
      var v := vols[|vols| - 1];
      if dests[|vols| - 1] == dest then Appended(prev, v.author, v.idx) else prev
  }

  /** The author dictionary for `dest` that a routing loop builds over the whole table. */
  function Dictionary(router: Router, vols: seq<Volume>, dest: Dest): map<string, seq<string>>
    requires Covers(router, vols)
  {
    Collect(vols, Routes(router, vols), dest)
  }

  /**
   * A volume id is filed under an author in the dictionary for `dest`
   * exactly when some volume with that id and author is routed to `dest`.
   */
  lemma {:induction false} CollectListed(vols: seq<Volume>, dests: seq<Dest>, dest: Dest, a: string, x: string)
    requires |dests| == |vols|
    ensures (a in Collect(vols, dests, dest) && x in Collect(vols, dests, dest)[a]) <==>
      exists i | 0 <= i < |vols| :: dests[i] == dest && vols[i].author == a && vols[i].idx == x
  {
    if |vols| > 0 {
      var n := |vols| - 1;
      var init, initDests := vols[..n], dests[..n];
      CollectListed(init, initDests, dest, a, x);
      if exists i | 0 <= i < n :: initDests[i] == dest && init[i].author == a && init[i].idx == x {
        var i :| 0 <= i < n && initDests[i] == dest && init[i].author == a && init[i].idx == x;
        assert vols[i] == init[i] && dests[i] == initDests[i];
      }
      if exists i | 0 <= i < |vols| :: dests[i] == dest && vols[i].author == a && vols[i].idx == x {
        var i :| 0 <= i < |vols| && dests[i] == dest && vols[i].author == a && vols[i].idx == x;
        if i < n {
          assert vols[i] == init[i] && dests[i] == initDests[i];
        }
      }
    }
  }

  /**
   * In split_metadata no volume is filed both as sf and as fantasy, volume
   * ids being the table's distinct index.
   */
  lemma SfFantasyNeverBoth(router: Router, vols: seq<Volume>, a: string, x: string)
    requires router.SfFantasy? && Covers(router, vols)
    requires forall i, j | 0 <= i < j < |vols| :: vols[i].idx != vols[j].idx
    ensures !(a in Dictionary(router, vols, SF) && x in Dictionary(router, vols, SF)[a]
              && a in Dictionary(router, vols, Fantasy) && x in Dictionary(router, vols, Fantasy)[a])
  {
    var dests := Routes(router, vols);
    CollectListed(vols, dests, SF, a, x);
    CollectListed(vols, dests, Fantasy, a, x);
  }

  /** In split_metadata an in-slice, non-juv, non-random volume tagged both sf and fantasy is filed as one of the two. */
  lemma BothTagsFiled(router: Router, vols: seq<Volume>, i: nat)
    requires router.SfFantasy? && Covers(router, vols) && i < |vols|
    requires router.floor <= vols[i].firstpub <= router.ceiling
    requires var tags := TagsOf(vols[i]);
      "juv" !in tags && "random" !in tags && "randomB" !in tags && IsSF(tags) && IsFantasy(tags)
    ensures var (a, x) := (vols[i].author, vols[i].idx);
      (a in Dictionary(router, vols, SF) && x in Dictionary(router, vols, SF)[a])
      || (a in Dictionary(router, vols, Fantasy) && x in Dictionary(router, vols, Fantasy)[a])
  {
    var dests := Routes(router, vols);
    var dest := dests[i];
    assert dest == SF || dest == Fantasy;
    CollectListed(vols, dests, dest, vols[i].author, vols[i].idx);
  }

  /** In split_one_genre a 'random' volume is mainstream even when it also carries a positive tag. */
  lemma RandomBeforeGenre(router: Router, v: Volume, i: nat)
    requires router.OneGenre?
    requires router.floor <= v.firstpub <= router.ceiling
    requires "juv" !in TagsOf(v) && ("random" in TagsOf(v) || "randomB" in TagsOf(v))
    ensures Route(router, v, i) == Mainstream
  {
  }

  /** The `for t in positive_tags` loop with its `break` (main_experiment.py:146-149). */
  method AnyPositive(positiveTags: seq<string>, tags: set<string>) returns (found: bool)
    ensures found <==> exists j | 0 <= j < |positiveTags| :: positiveTags[j] in tags
  {
    found := false;
    for j := 0 to |positiveTags|
      invariant !found && forall k | 0 <= k < j :: positiveTags[k] !in tags
    {
      if positiveTags[j] in tags {
        found := true;
        break;
      }
    }
  }

  /** The body of a routing loop for volume `i`: compute its destination the way the source does. */
  method RouteOne(router: Router, v: Volume, i: nat) returns (dest: Dest)
    requires router.SfFantasy? ==> i < |router.whims|
    ensures dest == Route(router, v, i)
  {
    if !(router.floor <= v.firstpub <= router.ceiling) {
      return Skip;
    }
    var tags := set t | t in Split(v.tags, '|');
    if "juv" in tags {
      return Skip;
    }
    if "random" in tags || "randomB" in tags {
      return Mainstream;
    }
    match router {
      case OneGenre(_, _, positiveTags) =>
        var found := AnyPositive(positiveTags, tags);
        dest := if found then Genre else Skip;
      case SfFantasy(_, _, whims) =>
        var issf := "sf_loc" in tags || "sf_oclc" in tags || "sf_bailey" in tags;
        var isfant := "fantasy_loc" in tags || "fantasy_oclc" in tags || "supernat" in tags;
        if issf && isfant {
          dest := if whims[i] then SF else Fantasy;
        } else if issf {
          dest := SF;
        } else if isfant {
          dest := Fantasy;
        } else {
          dest := Skip;
        }
    }
  }

  /** The routing loop of split_one_genre (main_experiment.py:129-149). */
  method SplitOneGenre(vols: seq<Volume>, floor: int, ceiling: int, positiveTags: seq<string>)
    returns (mainstream: map<string, seq<string>>, genre: map<string, seq<string>>)
    ensures mainstream == Dictionary(OneGenre(floor, ceiling, positiveTags), vols, Mainstream)
    ensures genre == Dictionary(OneGenre(floor, ceiling, positiveTags), vols, Genre)
  {
    var router := OneGenre(floor, ceiling, positiveTags);
    var m := new ListDict<string, string>();
    var g := new ListDict<string, string>();
    ghost var routes := Routes(router, vols);
    for i := 0 to |vols|
      invariant m.entries == Collect(vols[..i], routes[..i], Mainstream)
      invariant g.entries == Collect(vols[..i], routes[..i], Genre)
    {
      assert vols[..i + 1][..i] == vols[..i] && routes[..i + 1][..i] == routes[..i];
      var dest := RouteOne(router, vols[i], i);
      if dest == Mainstream {
        m.Add(vols[i].author, vols[i].idx);
      } else if dest == Genre {
        g.Add(vols[i].author, vols[i].idx);
      }
    }
    assert vols[..|vols|] == vols && routes[..|vols|] == routes;
    mainstream, genre := m.entries, g.entries;
  }

  /**
   * The routing loop of split_metadata (main_experiment.py:60-103), with
   * `whims[i]` standing for the coin `random.choice` tosses for volume `i`.
   */
  method SplitMetadata(vols: seq<Volume>, floor: int, ceiling: int, whims: seq<bool>)
    returns (mainstream: map<string, seq<string>>, sf: map<string, seq<string>>, fant: map<string, seq<string>>)
    requires |whims| >= |vols|
    ensures mainstream == Dictionary(SfFantasy(floor, ceiling, whims), vols, Mainstream)
    ensures sf == Dictionary(SfFantasy(floor, ceiling, whims), vols, SF)
    ensures fant == Dictionary(SfFantasy(floor, ceiling, whims), vols, Fantasy)
  {
    var router := SfFantasy(floor, ceiling, whims);
    var m := new ListDict<string, string>();
    var s := new ListDict<string, string>();
    var fa := new ListDict<string, string>();
    ghost var routes := Routes(router, vols);
    for i := 0 to |vols|
      invariant m.entries == Collect(vols[..i], routes[..i], Mainstream)
      invariant s.entries == Collect(vols[..i], routes[..i], SF)
      invariant fa.entries == Collect(vols[..i], routes[..i], Fantasy)
    {
      assert vols[..i + 1][..i] == vols[..i] && routes[..i + 1][..i] == routes[..i];
      var dest := RouteOne(router, vols[i], i);
      if dest == Mainstream {
        m.Add(vols[i].author, vols[i].idx);
      } else if dest == SF {
        s.Add(vols[i].author, vols[i].idx);
      } else if dest == Fantasy {
        fa.Add(vols[i].author, vols[i].idx);
      }
    }
    assert vols[..|vols|] == vols && routes[..|vols|] == routes;
    mainstream, sf, fant := m.entries, s.entries, fa.entries;
  }

  // ---------------------------------------------------------------- accuracy

  /** The number of (realclass, prediction) rows with the given side of 0.5 for each. */
  function Count(rows: seq<(real, real)>, realPositive: bool, predictedPositive: bool): nat {
    if |rows| == 0 then 0
    else
      var (realclass, pred) := rows[|rows| - 1];
      Count(rows[..|rows| - 1], realPositive, predictedPositive)
        + (if (realclass > 0.5) == realPositive && (pred > 0.5) == predictedPositive then 1 else 0)
  }

  /** tp, tn, fp and fn partition the rows (the source asserts this at main_experiment.py:246). */
  lemma {:induction false} ConfusionPartition(rows: seq<(real, real)>)
    ensures Count(rows, true, true) + Count(rows, false, false) + Count(rows, false, true) + Count(rows, true, false) == |rows|
  {
    if |rows| > 0 {
      ConfusionPartition(rows[..|rows| - 1]);
    }
  }

  /** `accuracy(df, column)`: the share of rows on the right side of 0.5; an empty table divides by zero in the source. */
  function Accuracy(rows: seq<(real, real)>): (r: real)
    requires |rows| > 0
    ensures 0.0 <= r <= 1.0
  {
    ConfusionPartition(rows);
    var right := Count(rows, true, true) + Count(rows, false, false);
    ShareBounds(right as real, |rows| as real);
    right as real / |rows| as real
  }

  /** Accuracy is one minus the error rate, and it is 1 exactly when there is no false positive or false negative. */
  lemma AccuracyComplement(rows: seq<(real, real)>)
    requires |rows| > 0
    ensures Accuracy(rows) == 1.0 - (Count(rows, false, true) + Count(rows, true, false)) as real / |rows| as real
    ensures Accuracy(rows) == 1.0 <==> Count(rows, false, true) + Count(rows, true, false) == 0
  {
    ConfusionPartition(rows);
    var n := |rows| as real;
    var right := (Count(rows, true, true) + Count(rows, false, false)) as real;
    var wrong := (Count(rows, false, true) + Count(rows, true, false)) as real;
    assert right + wrong == n;
    ShareSplit(right, wrong, n);
  }
}

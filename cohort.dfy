/**
 * `label_classes` (metafilter.py): the cohort a model is trained and tested
 * on. Every volume is labelled, the test-only positives are reserved, the
 * trainable positives are capped, the negatives are matched one to one
 * (tag mode) or sampled (date mode), and the 0/1 class dictionary is built.
 * Each phase is a method of its own, proved against the set or list the
 * source computes, and LabelClasses composes them.
 */
module Cohort {
  import opened Records
  import opened Classify
  import opened Proximity
  import opened Reservation
  import opened Sampling

  /** `metadict` as get_metadata builds it: every record is filed under its own docid. */
  predicate KeyedByDocid(meta: map<string, DocRecord>) {
    forall k | k in meta :: meta[k].docid == k
  }

  // ---------------------------------------------------------------- labelling

  /** The volume carries one of the tags of `excludeif['negatives']`. */
  predicate ExcludedFromNegatives(tagset: set<string>, negExclusions: set<string>) {
    exists t | t in negExclusions :: t in tagset
  }

  /** Of the volumes `keys`, those identify_class labels positive. */
  function PositivesAmong(meta: map<string, DocRecord>, d: Division, keys: set<string>): set<string>
    requires keys <= meta.Keys
  {
    set k | k in keys && Classification(d, meta[k]) == Positive
  }

  /** Of the volumes `keys`, those labelled negative and not excluded from the negatives. */
  function NegativesAmong(meta: map<string, DocRecord>, d: Division, negExclusions: set<string>, keys: set<string>): set<string>
    requires keys <= meta.Keys
  {
    set k | k in keys && Classification(d, meta[k]) == Negative && !ExcludedFromNegatives(meta[k].tagset, negExclusions)
  }

  /** `all_positives`: the volumes identify_class labels positive. */
  function AllPositives(meta: map<string, DocRecord>, d: Division): set<string> {
    PositivesAmong(meta, d, meta.Keys)
  }

  /** `all_negatives`: the volumes labelled negative that carry none of the excluded tags. */
  function AllNegatives(meta: map<string, DocRecord>, d: Division, negExclusions: set<string>): set<string> {
    NegativesAmong(meta, d, negExclusions, meta.Keys)
  }

  /** A volume is never both a positive and a negative. */
  lemma PositivesAndNegativesDisjoint(meta: map<string, DocRecord>, d: Division, negExclusions: set<string>)
    ensures AllPositives(meta, d) !! AllNegatives(meta, d, negExclusions)
  {
    forall k | k in AllPositives(meta, d) ensures k !in AllNegatives(meta, d, negExclusions) {
      assert Classification(d, meta[k]) == Positive;
    }
  }

  /** Labelling one more volume adds it to at most one of the two sets. */
  lemma LabelStep(meta: map<string, DocRecord>, d: Division, negExclusions: set<string>, done: set<string>, k: string,
                   outcome: Label, excluded: bool)
    requires done <= meta.Keys && k in meta && k !in done
    requires outcome == Classification(d, meta[k])
    requires outcome == Negative ==> (excluded <==> ExcludedFromNegatives(meta[k].tagset, negExclusions))
    ensures PositivesAmong(meta, d, done + {k}) ==
      PositivesAmong(meta, d, done) + (if outcome == Positive then {k} else {})
    ensures NegativesAmong(meta, d, negExclusions, done + {k}) ==
      NegativesAmong(meta, d, negExclusions, done) + (if outcome == Negative && !excluded then {k} else {})
  {
  }

  /** The volumes labelled so far, once one more is labelled. */
  lemma DoneStep(keys: set<string>, rest: set<string>, k: string)
    requires rest <= keys && k in rest
    ensures keys - (rest - {k}) == (keys - rest) + {k}
  {
  }

  /** One pass of the labelling loop: label `docid` and file it as positive, negative or neither. */
  method LabelOne(meta: map<string, DocRecord>, d: Division, negExclusions: set<string>, done: set<string>,
                  docid: string, allPositives: set<string>, allNegatives: set<string>)
    returns (positivesOut: set<string>, negativesOut: set<string>)
    requires done <= meta.Keys && docid in meta && docid !in done
    requires allPositives == PositivesAmong(meta, d, done)
    requires allNegatives == NegativesAmong(meta, d, negExclusions, done)
    ensures positivesOut == PositivesAmong(meta, d, done + {docid})
    ensures negativesOut == NegativesAmong(meta, d, negExclusions, done + {docid})
  {
    positivesOut, negativesOut := allPositives, allNegatives;
    var classflag := IdentifyClass(d, meta[docid]);
    var excluded := false;
    if classflag == Negative {
      excluded := AnyIn(negExclusions, meta[docid].tagset);
    }
    LabelStep(meta, d, negExclusions, done, docid, classflag, excluded);
    if classflag == Positive {
      positivesOut := allPositives + {docid};
    } else if classflag == Negative {
      if !excluded {
        negativesOut := allNegatives + {docid};
      }
    }
  }

  /** The first loop of label_classes (metafilter.py:357-373). */
  method ClassifyAll(meta: map<string, DocRecord>, d: Division, negExclusions: set<string>)
    returns (allPositives: set<string>, allNegatives: set<string>)
    ensures allPositives == AllPositives(meta, d)
    ensures allNegatives == AllNegatives(meta, d, negExclusions)
  {
    allPositives, allNegatives := {}, {};
    var rest := meta.Keys;
    while rest != {}
      invariant rest <= meta.Keys
      invariant allPositives == PositivesAmong(meta, d, meta.Keys - rest)
      invariant allNegatives == NegativesAmong(meta, d, negExclusions, meta.Keys - rest)
      decreases |rest|
    {
      var docid :| docid in rest;
      allPositives, allNegatives := LabelOne(meta, d, negExclusions, meta.Keys - rest, docid, allPositives, allNegatives);
      DoneStep(meta.Keys, rest, docid);
      rest := rest - {docid};
    }
    assert meta.Keys - rest == meta.Keys;
  }

  // -------------------------------------------------------------- positives

  /** How many trainable positives survive the size cap. */
  function KeptCount(trainable: nat, sizecap: int): nat {
    if sizecap > 0 && trainable > sizecap then sizecap else trainable
  }

  /**
   * The positive list of metafilter.py:388-398: `KeptCount` distinct
   * trainable positives (all of them when none had to be dropped),
   * followed by every reserved one, and no docid twice.
   */
  predicate PositivesChosen(positives: seq<string>, trainable: set<string>, reserved: set<string>, sizecap: int) {
    var kept := KeptCount(|trainable|, sizecap);
    && |positives| == kept + |reserved|
    && Elems(positives[..kept]) <= trainable
    && (kept == |trainable| ==> Elems(positives[..kept]) == trainable)
    && Elems(positives[kept..]) == reserved
    && Elems(positives) <= trainable + reserved
    && Distinct(positives)
  }

  /**
   * metafilter.py:388-398: at most `sizecap` of the trainable positives (all
   * of them when there is no cap or too few), followed by every reserved one.
   */
  method SelectPositives(trainable: set<string>, reserved: set<string>, sizecap: int)
    returns (positives: seq<string>)
    requires trainable !! reserved
    ensures PositivesChosen(positives, trainable, reserved, sizecap)
  {
    var kept: seq<string>;
    if sizecap > 0 && |trainable| > sizecap {
      kept := SampleList(trainable, sizecap);
    } else {
      kept := SetToSeq(trainable);
    }
    var back := SetToSeq(reserved);
    DistinctConcat(kept, back);
    positives := kept + back;
    assert Elems(positives) == Elems(kept) + Elems(back);
    assert positives[..|kept|] == kept && positives[|kept|..] == back;
  }

  // --------------------------------------------------------------- matching

  /** The positives that get a partner: all of them, less the reserved ones under 'donotmatch'. */
  function Matchable(positives: seq<string>, reserved: set<string>, dontMatch: bool): (r: seq<string>)
    ensures |r| <= |positives|
    ensures Elems(r) <= Elems(positives)
  {
    if |positives| == 0 then []
    else
      var last := positives[|positives| - 1];
      assert forall x | x in positives[..|positives| - 1] :: x in positives;
      var prev := Matchable(positives[..|positives| - 1], reserved, dontMatch);
      var next := if dontMatch && last in reserved then [] else [last];
      assert Elems(prev + next) == Elems(prev) + Elems(next);
      prev + next
  }

  /** The docids still in the pool. */
  function PoolIds(pool: seq<DocRecord>): set<string> {
    set r | r in pool :: r.docid
  }

  /**
   * `negatives[i]` is, of the negatives not matched before it, one nearest
   * to its positive partner `targets[i]`.
   */
  predicate NearestAt(meta: map<string, DocRecord>, allNegatives: set<string>, negatives: seq<string>,
                      targets: seq<string>, field: DateField, i: nat)
    requires i < |negatives| && i < |targets|
    requires Elems(negatives) <= meta.Keys && allNegatives <= meta.Keys && Elems(targets) <= meta.Keys
  {
    forall c | c in allNegatives - Elems(negatives[..i]) ::
      ProximityTenths(meta[negatives[i]], meta[targets[i]], field)
        <= ProximityTenths(meta[c], meta[targets[i]], field)
  }

  /** The reserved set once each reserved positive's partner has joined it (metafilter.py:436-437). */
  function WithPartners(reserved: set<string>, negatives: seq<string>, targets: seq<string>): set<string>
    requires |negatives| <= |targets|
  {
    reserved + set i | 0 <= i < |negatives| && targets[i] in reserved :: negatives[i]
  }

  /** The records of a list of docids. */
  function RecordsOf(meta: map<string, DocRecord>, ids: seq<string>): (r: seq<DocRecord>)
    requires Elems(ids) <= meta.Keys
    ensures |r| == |ids| && forall i | 0 <= i < |ids| :: r[i] == meta[ids[i]]
  {
    if |ids| == 0 then [] else [meta[ids[0]]] + RecordsOf(meta, ids[1..])
  }

  /** `negative_metadata` after `random.shuffle`: the records of all the negatives, in some order. */
  method ShuffledPool(meta: map<string, DocRecord>, allNegatives: set<string>) returns (pool: seq<DocRecord>)
    requires KeyedByDocid(meta) && allNegatives <= meta.Keys
    ensures Distinct(pool) && |pool| == |allNegatives| && PoolIds(pool) == allNegatives
    ensures forall k | 0 <= k < |pool| :: pool[k].docid in meta && meta[pool[k].docid] == pool[k]
  {
    var ids := SetToSeq(allNegatives);
    var records := RecordsOf(meta, ids);
    assert Distinct(records) by {
      forall i, j | 0 <= i < j < |records| ensures records[i] != records[j] {
        assert records[i].docid == ids[i] && records[j].docid == ids[j];
      }
    }
    pool := Shuffle(records);
    PermutationKeepsDistinct(records, pool);
    assert |pool| == |records| by {
      assert |multiset(pool)| == |multiset(records)|;
    }
    forall k | 0 <= k < |pool| ensures pool[k].docid in meta && meta[pool[k].docid] == pool[k] {
      assert pool[k] in Elems(records);
    }
    assert PoolIds(pool) == allNegatives by {
      forall x | x in PoolIds(pool) ensures x in allNegatives {
        var r :| r in pool && r.docid == x;
        assert r in Elems(records);
        var i :| 0 <= i < |records| && records[i] == r;
        assert ids[i] in Elems(ids);
      }
      forall x | x in allNegatives ensures x in PoolIds(pool) {
        var i :| 0 <= i < |ids| && ids[i] == x;
        assert records[i] in Elems(pool);
      }
    }
  }

  /** Popping a pool member removes exactly its docid from the pool's docids. */
  lemma PopPool(meta: map<string, DocRecord>, pool: seq<DocRecord>, idx: nat)
    requires idx < |pool| && Distinct(pool)
    requires forall k | 0 <= k < |pool| :: pool[k].docid in meta && meta[pool[k].docid] == pool[k]
    ensures var rest := pool[..idx] + pool[idx + 1..];
      && Distinct(rest)
      && PoolIds(rest) == PoolIds(pool) - {pool[idx].docid}
      && forall k | 0 <= k < |rest| :: rest[k].docid in meta && meta[rest[k].docid] == rest[k]
  {
    var rest := pool[..idx] + pool[idx + 1..];
    assert forall k | 0 <= k < |rest| :: rest[k] == (if k < idx then pool[k] else pool[k + 1]);
    forall r | r in rest ensures r.docid != pool[idx].docid {
      var k :| 0 <= k < |rest| && rest[k] == r;
    }
    assert forall r | r in pool :: r in rest || r == pool[idx];
  }

  /** Every remaining negative is in the pool, at a position of its own record. */
  lemma InPool(meta: map<string, DocRecord>, pool: seq<DocRecord>, c: string)
    requires c in PoolIds(pool)
    requires forall k | 0 <= k < |pool| :: pool[k].docid in meta && meta[pool[k].docid] == pool[k]
    ensures exists k | 0 <= k < |pool| :: pool[k] == meta[c]
  {
    var r :| r in pool && r.docid == c;
    var k :| 0 <= k < |pool| && pool[k] == r;
  }

  /** Nearest-ness only reads the partners of the negatives chosen so far. */
  lemma NearestAtLongerTargets(meta: map<string, DocRecord>, allNegatives: set<string>, negatives: seq<string>,
                               before: seq<string>, after: seq<string>, field: DateField)
    requires |negatives| <= |before| <= |after| && forall i | 0 <= i < |before| :: after[i] == before[i]
    requires Elems(negatives) <= allNegatives <= meta.Keys && Elems(after) <= meta.Keys && Elems(before) <= meta.Keys
    requires forall i | 0 <= i < |negatives| :: NearestAt(meta, allNegatives, negatives, before, field, i)
    ensures forall i | 0 <= i < |negatives| :: NearestAt(meta, allNegatives, negatives, after, field, i)
  {
    forall i | 0 <= i < |negatives| ensures NearestAt(meta, allNegatives, negatives, after, field, i) {
      assert NearestAt(meta, allNegatives, negatives, before, field, i);
      assert after[i] == before[i];
    }
  }

  /** Popping the nearest pool member keeps every earlier choice's nearest-ness and adds the new one's. */
  lemma NearestStep(meta: map<string, DocRecord>, allNegatives: set<string>, negatives: seq<string>,
                    targets: seq<string>, field: DateField, pool: seq<DocRecord>, idx: nat)
    requires |negatives| < |targets| && idx < |pool|
    requires Elems(negatives) <= allNegatives <= meta.Keys && Elems(targets) <= meta.Keys
    requires PoolIds(pool) == allNegatives - Elems(negatives)
    requires forall k | 0 <= k < |pool| :: pool[k].docid in meta && meta[pool[k].docid] == pool[k]
    requires forall j | 0 <= j < |pool| ::
      ProximityTenths(pool[idx], meta[targets[|negatives|]], field) <= ProximityTenths(pool[j], meta[targets[|negatives|]], field)
    requires forall i | 0 <= i < |negatives| :: NearestAt(meta, allNegatives, negatives, targets, field, i)
    ensures var grown := negatives + [pool[idx].docid];
      forall i | 0 <= i < |grown| :: NearestAt(meta, allNegatives, grown, targets, field, i)
  {
    var grown := negatives + [pool[idx].docid];
    assert pool[idx].docid in PoolIds(pool);
    forall i | 0 <= i < |grown| ensures NearestAt(meta, allNegatives, grown, targets, field, i) {
      assert grown[..i] == negatives[..i] || i == |negatives|;
      if i == |negatives| {
        assert grown[..i] == negatives;
        forall c | c in allNegatives - Elems(negatives)
          ensures ProximityTenths(meta[grown[i]], meta[targets[i]], field) <= ProximityTenths(meta[c], meta[targets[i]], field)
        {
          InPool(meta, pool, c);
        }
      } else {
        assert grown[..i] == negatives[..i];
        assert NearestAt(meta, allNegatives, negatives, targets, field, i);
      }
    }
  }

  /** The pool holds, once each, the records of exactly the negatives not yet matched. */
  predicate PoolInv(meta: map<string, DocRecord>, allNegatives: set<string>, negatives: seq<string>, pool: seq<DocRecord>) {
    && Distinct(negatives) && Elems(negatives) <= allNegatives
    && Distinct(pool) && |pool| + |negatives| == |allNegatives|
    && PoolIds(pool) == allNegatives - Elems(negatives)
    && forall k | 0 <= k < |pool| :: pool[k].docid in meta && meta[pool[k].docid] == pool[k]
  }

  /**
   * What matching has achieved for the positive partners `targets` met so
   * far: one negative each while the pool lasted, each the nearest one left,
   * and the reserved positives' partners added to the reserved set.
   */
  predicate MatchInv(meta: map<string, DocRecord>, allNegatives: set<string>, negatives: seq<string>,
                     targets: seq<string>, reserved: set<string>, reservedOut: set<string>, field: DateField)
  {
    && Elems(negatives) <= allNegatives <= meta.Keys && Elems(targets) <= meta.Keys
    && |negatives| == Min(|allNegatives|, |targets|)
    && (forall i | 0 <= i < |negatives| :: NearestAt(meta, allNegatives, negatives, targets, field, i))
    && reservedOut == WithPartners(reserved, negatives, targets)
  }

  /** A positive met while the pool is empty gets no partner, and nothing else changes. */
  lemma MatchInvNoPartner(meta: map<string, DocRecord>, allNegatives: set<string>, negatives: seq<string>,
                          before: seq<string>, anid: string, reserved: set<string>, reservedOut: set<string>, field: DateField)
    requires anid in meta && |negatives| == |allNegatives|
    requires MatchInv(meta, allNegatives, negatives, before, reserved, reservedOut, field)
    ensures MatchInv(meta, allNegatives, negatives, before + [anid], reserved, reservedOut, field)
  {
    var after := before + [anid];
    NearestAtLongerTargets(meta, allNegatives, negatives, before, after, field);
    assert WithPartners(reserved, negatives, after) == WithPartners(reserved, negatives, before);
  }

  /**
   * One pass of the matching loop for a positive that is to be matched:
   * when the pool is not empty, pop the nearest negative, record it, and
   * reserve it too when its positive is reserved.
   */
  method MatchOne(meta: map<string, DocRecord>, anid: string, reserved: set<string>, allNegatives: set<string>,
                  field: DateField, ghost targets: seq<string>, negatives: seq<string>, reservedIn: set<string>,
                  pool: seq<DocRecord>)
    returns (negativesOut: seq<string>, reservedOut: set<string>, poolOut: seq<DocRecord>)
    requires anid in meta
    requires PoolInv(meta, allNegatives, negatives, pool)
    requires MatchInv(meta, allNegatives, negatives, targets, reserved, reservedIn, field)
    ensures PoolInv(meta, allNegatives, negativesOut, poolOut)
    ensures MatchInv(meta, allNegatives, negativesOut, targets + [anid], reserved, reservedOut, field)
  {
    ghost var after := targets + [anid];
    if |pool| < 1 {
      MatchInvNoPartner(meta, allNegatives, negatives, targets, anid, reserved, reservedIn, field);
      return negatives, reservedIn, pool;
    }
    NearestAtLongerTargets(meta, allNegatives, negatives, targets, after, field);
    var idx := ClosestIdx(pool, meta[anid], field);
    var closest := pool[idx];
    assert closest.docid in PoolIds(pool);
    PopPool(meta, pool, idx);
    NearestStep(meta, allNegatives, negatives, after, field, pool, idx);
    poolOut := pool[..idx] + pool[idx + 1..];
    assert Elems(negatives + [closest.docid]) == Elems(negatives) + {closest.docid};
    negativesOut := negatives + [closest.docid];
    reservedOut := reservedIn;
    if anid in reserved {
      reservedOut := reservedOut + {closest.docid};
    }
  }

  /**
   * The outcome of tag-mode matching: as many negatives as there are
   * matchable positives, or all of them when the pool runs dry; no docid
   * twice; each the nearest one left to its partner; and the reserved set
   * grown by the partners of the reserved positives.
   */
  predicate Matched(meta: map<string, DocRecord>, positives: seq<string>, reserved: set<string>, dontMatch: bool,
                    allNegatives: set<string>, field: DateField, negatives: seq<string>, reservedOut: set<string>)
    requires Elems(positives) <= meta.Keys && allNegatives <= meta.Keys
  {
    var targets := Matchable(positives, reserved, dontMatch);
    && |negatives| == Min(|allNegatives|, |targets|)
    && Distinct(negatives) && Elems(negatives) <= allNegatives
    && (forall i | 0 <= i < |negatives| :: NearestAt(meta, allNegatives, negatives, targets, field, i))
    && reservedOut == WithPartners(reserved, negatives, targets)
  }

  /**
   * The tag-mode matching loop (metafilter.py:415-437). Every matchable
   * positive, in order, is given the nearest negative left in the shuffled
   * pool, which is popped, until the pool runs dry; a reserved positive's
   * partner joins the reserved set.
   */
  method MatchNegatives(meta: map<string, DocRecord>, positives: seq<string>, reserved: set<string>,
                        dontMatch: bool, allNegatives: set<string>, field: DateField)
    returns (negatives: seq<string>, reservedOut: set<string>)
    requires KeyedByDocid(meta)
    requires allNegatives <= meta.Keys && Elems(positives) <= meta.Keys
    ensures Matched(meta, positives, reserved, dontMatch, allNegatives, field, negatives, reservedOut)
  {
    var pool := ShuffledPool(meta, allNegatives);
    negatives := [];
    reservedOut := reserved;
    for j := 0 to |positives|
      invariant PoolInv(meta, allNegatives, negatives, pool)
      invariant MatchInv(meta, allNegatives, negatives, Matchable(positives[..j], reserved, dontMatch), reserved, reservedOut, field)
    {
      ghost var before := Matchable(positives[..j], reserved, dontMatch);
      assert positives[..j + 1][..j] == positives[..j];
      var anid := positives[j];
      if dontMatch && anid in reserved {
        assert Matchable(positives[..j + 1], reserved, dontMatch) == before;
        continue;
      }
      assert Matchable(positives[..j + 1], reserved, dontMatch) == before + [anid];
      negatives, reservedOut, pool := MatchOne(meta, anid, reserved, allNegatives, field, before, negatives, reservedOut, pool);
    }
    assert positives[..|positives|] == positives;
  }

  // ------------------------------------------------------------- dictionary

  /** The docids the class dictionary maps to `value`. */
  function ClassMembers(classes: map<string, int>, value: int): set<string> {
    set k | k in classes && classes[k] == value
  }

  /**
   * The last two loops of label_classes (metafilter.py:459-465): every
   * positive is entered with 1, then every negative with 0, so a docid on
   * both lists would end up 0.
   */
  method BuildClassDictionary(positives: seq<string>, negatives: seq<string>)
    returns (ids: set<string>, classes: map<string, int>)
    ensures ids == Elems(positives) + Elems(negatives) && classes.Keys == ids
    ensures forall k | k in classes :: classes[k] == (if k in negatives then 0 else 1)
  {
    ids, classes := {}, map[];
    for i := 0 to |positives|
      invariant ids == Elems(positives[..i]) && classes.Keys == ids
      invariant forall k | k in classes :: classes[k] == 1
    {
      assert positives[..i + 1] == positives[..i] + [positives[i]];
      ids := ids + {positives[i]};
      classes := classes[positives[i] := 1];
    }
    assert positives[..|positives|] == positives;
    for i := 0 to |negatives|
      invariant ids == Elems(positives) + Elems(negatives[..i]) && classes.Keys == ids
      invariant forall k | k in classes :: classes[k] == (if k in negatives[..i] then 0 else 1)
    {
      assert negatives[..i + 1] == negatives[..i] + [negatives[i]];
      ids := ids + {negatives[i]};
      classes := classes[negatives[i] := 0];
    }
    assert negatives[..|negatives|] == negatives;
  }

  /** With no docid on both lists, the 1s are exactly the positives and the 0s exactly the negatives. */
  lemma ClassMembersOfDisjoint(positives: seq<string>, negatives: seq<string>, classes: map<string, int>)
    requires Elems(positives) !! Elems(negatives)
    requires classes.Keys == Elems(positives) + Elems(negatives)
    requires forall k | k in classes :: classes[k] == (if k in negatives then 0 else 1)
    ensures ClassMembers(classes, 1) == Elems(positives)
    ensures ClassMembers(classes, 0) == Elems(negatives)
  {
  }

  // ---------------------------------------------------------- label_classes

  /** The dictionary of two disjoint lists without repeats has as many 1s and 0s as the lists are long. */
  lemma DictionaryCounts(positives: seq<string>, negatives: seq<string>, classes: map<string, int>)
    requires Distinct(positives) && Distinct(negatives) && Elems(positives) !! Elems(negatives)
    requires classes.Keys == Elems(positives) + Elems(negatives)
    requires forall k | k in classes :: classes[k] == (if k in negatives then 0 else 1)
    ensures ClassMembers(classes, 1) == Elems(positives) && |ClassMembers(classes, 1)| == |positives|
    ensures ClassMembers(classes, 0) == Elems(negatives) && |ClassMembers(classes, 0)| == |negatives|
  {
    ClassMembersOfDisjoint(positives, negatives, classes);
    DistinctCard(positives);
    DistinctCard(negatives);
  }

  /**
   * The negative list of metafilter.py:414-448. With a size cap: matched
   * one to one in tag mode, a random `sizecap` of them in date mode, where
   * the reserved set is left alone; with no cap, every negative.
   */
  predicate NegativesChosen(meta: map<string, DocRecord>, positives: seq<string>, reserved: set<string>, dontMatch: bool,
                            allNegatives: set<string>, sizecap: int, tagMode: bool, field: DateField,
                            negatives: seq<string>, reservedOut: set<string>)
    requires Elems(positives) <= meta.Keys && allNegatives <= meta.Keys
  {
    && Distinct(negatives) && Elems(negatives) <= allNegatives
    && (sizecap > 0 && tagMode ==> Matched(meta, positives, reserved, dontMatch, allNegatives, field, negatives, reservedOut))
    && (sizecap > 0 && !tagMode ==> |negatives| == sizecap && reservedOut == reserved)
    && (sizecap <= 0 ==> Elems(negatives) == allNegatives && reservedOut == reserved)
  }

  /** metafilter.py:414-448: the negatives, and the reserved set once matching has grown it. */
  method ChooseNegatives(meta: map<string, DocRecord>, d: Division, positives: seq<string>, reserved: set<string>,
                         dontMatch: bool, allNegatives: set<string>, sizecap: int, datetype: DateField)
    returns (negatives: seq<string>, reservedOut: set<string>)
    requires KeyedByDocid(meta)
    requires allNegatives <= meta.Keys && Elems(positives) <= meta.Keys
    requires d.ByDate? && sizecap > 0 ==> sizecap <= |allNegatives|
    ensures NegativesChosen(meta, positives, reserved, dontMatch, allNegatives, sizecap, d.ByTags?, datetype,
                            negatives, reservedOut)
  {
    reservedOut := reserved;
    if sizecap > 0 {
      if d.ByTags? {
        negatives, reservedOut := MatchNegatives(meta, positives, reserved, dontMatch, allNegatives, datetype);
      } else {
        negatives := SampleList(allNegatives, sizecap);
      }
    } else {
      negatives := SetToSeq(allNegatives);
    }
  }

  /** A matchable positive is one that is not skipped, so there are as many as the positives left after the skip. */
  lemma {:induction false} MatchableLength(positives: seq<string>, reserved: set<string>, dontMatch: bool)
    requires Distinct(positives)
    ensures |Matchable(positives, reserved, dontMatch)| == if dontMatch then |Elems(positives) - reserved| else |positives|
  {
    if |positives| > 0 {
      var init := positives[..|positives| - 1];
      var last := positives[|positives| - 1];
      MatchableLength(init, reserved, dontMatch);
      assert Elems(positives) == Elems(init) + {last};
      assert last !in Elems(init);
      if dontMatch {
        var next := if last in reserved then {} else {last};
        assert Elems(positives) - reserved == (Elems(init) - reserved) + next;
        assert (Elems(init) - reserved) !! next;
      }
    }
  }

  /** The partners a reserved positive brings into the reserved set are negatives. */
  lemma PartnersAreNegatives(reserved: set<string>, negatives: seq<string>, targets: seq<string>)
    requires |negatives| <= |targets|
    ensures WithPartners(reserved, negatives, targets) - reserved <= Elems(negatives)
  {
  }

  /** The positive list is the kept trainable positives followed by the reserved ones. */
  lemma PositivesSplit(positives: seq<string>, kept: nat, reserved: set<string>)
    requires kept <= |positives| && Elems(positives[kept..]) == reserved
    ensures Elems(positives) == Elems(positives[..kept]) + reserved
  {
    assert positives == positives[..kept] + positives[kept..];
  }

  /**
   * What label_classes promises of its result, given the positives and
   * negatives it found and the reservation it started from. The docids used
   * are the ones labelled 1 and the ones labelled 0; the 1s are positives,
   * among them every reserved one and `KeptCount` trainable ones (all of
   * them when none had to be dropped); the 0s are negatives. The returned
   * reservation grows only by negatives used. With a cap, tag mode uses one
   * negative per matched positive while they last, and date mode exactly
   * `sizecap` of them; with no cap every negative is used.
   */
  predicate CohortPromises(ids: set<string>, classes: map<string, int>, reserved: set<string>, reservedOut: set<string>,
                           allPositives: set<string>, allNegatives: set<string>, sizecap: int, tagMode: bool,
                           dontMatch: bool)
  {
    var ones := ClassMembers(classes, 1);
    var zeros := ClassMembers(classes, 0);
    var kept := KeptCount(|allPositives - reserved|, sizecap);
    && classes.Keys == ids && ids == ones + zeros
    && reserved <= ones <= allPositives && zeros <= allNegatives
    && |ones - reserved| == kept
    && (kept == |allPositives - reserved| ==> ones == allPositives)
    && reserved <= reservedOut <= ids && reservedOut - reserved <= zeros
    && (sizecap > 0 && tagMode ==> |zeros| == Min(|allNegatives|, if dontMatch then |ones - reserved| else |ones|))
    && (sizecap > 0 && !tagMode ==> |zeros| == sizecap && reservedOut == reserved)
    && (sizecap <= 0 ==> zeros == allNegatives && reservedOut == reserved)
  }

  /** What the positive list gives the class dictionary: the reserved ones and `KeptCount` trainable ones. */
  lemma PositiveFacts(positives: seq<string>, allPositives: set<string>, reserved: set<string>, sizecap: int)
    requires reserved <= allPositives
    requires PositivesChosen(positives, allPositives - reserved, reserved, sizecap)
    ensures reserved <= Elems(positives) <= allPositives
    ensures |Elems(positives) - reserved| == KeptCount(|allPositives - reserved|, sizecap)
    ensures KeptCount(|allPositives - reserved|, sizecap) == |allPositives - reserved| ==> Elems(positives) == allPositives
  {
    var kept := KeptCount(|allPositives - reserved|, sizecap);
    var front := positives[..kept];
    PositivesSplit(positives, kept, reserved);
    assert Elems(positives) - reserved == Elems(front);
    assert Distinct(front) by {
      forall i, j | 0 <= i < j < |front| ensures front[i] != front[j] {
        assert front[i] == positives[i] && front[j] == positives[j];
      }
    }
    DistinctCard(front);
  }

  /** What the negative list gives the class dictionary: its size in each mode, and the partners reserved. */
  lemma NegativeFacts(meta: map<string, DocRecord>, positives: seq<string>, reserved: set<string>, dontMatch: bool,
                      allNegatives: set<string>, sizecap: int, tagMode: bool, field: DateField,
                      negatives: seq<string>, reservedOut: set<string>)
    requires Elems(positives) <= meta.Keys && allNegatives <= meta.Keys && Distinct(positives)
    requires NegativesChosen(meta, positives, reserved, dontMatch, allNegatives, sizecap, tagMode, field, negatives, reservedOut)
    ensures reserved <= reservedOut && reservedOut - reserved <= Elems(negatives)
    ensures sizecap > 0 && tagMode ==>
      |negatives| == Min(|allNegatives|, if dontMatch then |Elems(positives) - reserved| else |positives|)
  {
    if sizecap > 0 && tagMode {
      var targets := Matchable(positives, reserved, dontMatch);
      PartnersAreNegatives(reserved, negatives, targets);
      MatchableLength(positives, reserved, dontMatch);
    }
  }

  /** The three phases together keep the promises of label_classes. */
  lemma CohortFacts(meta: map<string, DocRecord>, allPositives: set<string>, allNegatives: set<string>,
                    reserved: set<string>, dontMatch: bool, sizecap: int, tagMode: bool, field: DateField,
                    positives: seq<string>, negatives: seq<string>, reservedOut: set<string>,
                    ids: set<string>, classes: map<string, int>)
    requires allPositives <= meta.Keys && allNegatives <= meta.Keys && allPositives !! allNegatives
    requires reserved <= allPositives
    requires PositivesChosen(positives, allPositives - reserved, reserved, sizecap)
    requires Elems(positives) <= meta.Keys
    requires NegativesChosen(meta, positives, reserved, dontMatch, allNegatives, sizecap, tagMode, field, negatives, reservedOut)
    requires ids == Elems(positives) + Elems(negatives) && classes.Keys == ids
    requires forall k | k in classes :: classes[k] == (if k in negatives then 0 else 1)
    ensures ClassMembers(classes, 1) == Elems(positives) && ClassMembers(classes, 0) == Elems(negatives)
    ensures CohortPromises(ids, classes, reserved, reservedOut, allPositives, allNegatives, sizecap, tagMode, dontMatch)
  {
    PositiveFacts(positives, allPositives, reserved, sizecap);
    NegativeFacts(meta, positives, reserved, dontMatch, allNegatives, sizecap, tagMode, field, negatives, reservedOut);
    DictionaryCounts(positives, negatives, classes);
  }

  /**
   * label_classes from the reservation on (metafilter.py:381-467): cap the
   * positives, find the negatives, build the class dictionary. The two
   * lists are returned as ghosts, so that what is known of them (their
   * order, the matching) can be stated.
   */
  method AssembleCohort(meta: map<string, DocRecord>, d: Division, allPositives: set<string>, allNegatives: set<string>,
                        reserved: set<string>, dontMatch: bool, sizecap: int, datetype: DateField)
    returns (ids: set<string>, classes: map<string, int>, reservedOut: set<string>,
             ghost positives: seq<string>, ghost negatives: seq<string>)
    requires KeyedByDocid(meta)
    requires allPositives <= meta.Keys && allNegatives <= meta.Keys && allPositives !! allNegatives
    requires reserved <= allPositives
    requires d.ByDate? && sizecap > 0 ==> sizecap <= |allNegatives|
    ensures PositivesChosen(positives, allPositives - reserved, reserved, sizecap) && Elems(positives) <= allPositives
    ensures NegativesChosen(meta, positives, reserved, dontMatch, allNegatives, sizecap, d.ByTags?, datetype,
                            negatives, reservedOut)
    ensures ClassMembers(classes, 1) == Elems(positives) && ClassMembers(classes, 0) == Elems(negatives)
    ensures CohortPromises(ids, classes, reserved, reservedOut, allPositives, allNegatives, sizecap, d.ByTags?, dontMatch)
  {
    var chosen := SelectPositives(allPositives - reserved, reserved, sizecap);
    var matched;
    matched, reservedOut := ChooseNegatives(meta, d, chosen, reserved, dontMatch, allNegatives, sizecap, datetype);
    ids, classes := BuildClassDictionary(chosen, matched);
    positives, negatives := chosen, matched;
    CohortFacts(meta, allPositives, allNegatives, reserved, dontMatch, sizecap, d.ByTags?, datetype,
                positives, negatives, reservedOut, ids, classes);
  }

  /**
   * `label_classes(metadict, categorytodivideon, positive_tags, negative_tags,
   * sizecap, datetype, excludeif, donttrainconditions)`. In date mode the
   * positive criteria are no tags at all, as far as get_donttrainset is
   * concerned (see PositiveTags). The reservation it started from and the
   * two lists are returned as ghosts.
   */
  method LabelClasses(meta: map<string, DocRecord>, d: Division, sizecap: int, datetype: DateField,
                      negExclusions: set<string>, conds: set<string>, inferDate: (DocRecord, DateField) -> int)
    returns (ids: set<string>, classes: map<string, int>, reservedOut: set<string>,
             ghost reserved: set<string>, ghost positives: seq<string>, ghost negatives: seq<string>)
    requires KeyedByDocid(meta)
    requires LimitsWellFormed(conds)
    requires d.ByDate? && sizecap > 0 ==> sizecap <= |AllNegatives(meta, d, negExclusions)|
    ensures var base := BaseReservation(AllPositives(meta, d), PositiveTags(d), meta, conds, datetype, inferDate);
      base <= AllPositives(meta, d) && LimitedFrom(reserved, base, conds)
    ensures PositivesChosen(positives, AllPositives(meta, d) - reserved, reserved, sizecap)
    ensures Elems(positives) <= AllPositives(meta, d)
    ensures NegativesChosen(meta, positives, reserved, "donotmatch" in conds, AllNegatives(meta, d, negExclusions),
                            sizecap, d.ByTags?, datetype, negatives, reservedOut)
    ensures ClassMembers(classes, 1) == Elems(positives) && ClassMembers(classes, 0) == Elems(negatives)
    ensures CohortPromises(ids, classes, reserved, reservedOut, AllPositives(meta, d), AllNegatives(meta, d, negExclusions),
                           sizecap, d.ByTags?, "donotmatch" in conds)
  {
    var allPositives, allNegatives := ClassifyAll(meta, d, negExclusions);
    PositivesAndNegativesDisjoint(meta, d, negExclusions);
    var donttrain := GetDontTrainSet(allPositives, PositiveTags(d), meta, conds, datetype, inferDate);
    var dontMatch := "donotmatch" in conds;
    ids, classes, reservedOut, positives, negatives :=
      AssembleCohort(meta, d, allPositives, allNegatives, donttrain, dontMatch, sizecap, datetype);
    reserved := donttrain;
  }
}

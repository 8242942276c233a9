/**
 * `compare_dicts(a, b)` from comparemodels.py: two models' predictions, each
 * a dict from volume id to (real class, predicted probability), are compared
 * over the volumes both describe. Dict `a` is given as its list of items in
 * iteration order, dict `b` as a map (it is only looked up).
 */
module CompareModels {
  import opened Ratio

  /** (real class, predicted probability of the positive class). */
  type Prediction = (real, real)

  /** The comparison's result: (total, apct, bpct, meandiff). */
  datatype Comparison = Comparison(total: nat, apct: real, bpct: real, meandiff: real)

  /** A prediction counts as right when it is on the side of 0.5 the real class is on, 0.5 itself counting for either side. */
  predicate Correct(p: Prediction) {
    (p.0 > 0.5 && p.1 >= 0.5) || (p.0 < 0.5 && p.1 <= 0.5)
  }

  /** How much righter `a`'s prediction is than `b`'s: for a positive volume a's excess, otherwise b's. */
  function Diff(pa: Prediction, pb: Prediction): real {
    if pa.0 > 0.5 then pa.1 - pb.1 else pb.1 - pa.1
  }

  /** The ids of dict `a`. */
  function Keys(a: seq<(string, Prediction)>): set<string> {
    set i | 0 <= i < |a| :: a[i].0
  }

  /** A list of dict items has each key once. */
  predicate DistinctKeys(a: seq<(string, Prediction)>) {
    forall i, j | 0 <= i < j < |a| :: a[i].0 != a[j].0
  }

  /** The number of items of `a` whose key `b` also has. */
  function Shared(a: seq<(string, Prediction)>, b: map<string, Prediction>): nat {
    if |a| == 0 then 0
    else Shared(a[..|a| - 1], b) + (if a[|a| - 1].0 in b then 1 else 0)
  }

  /** The number of shared items on which model `a` (`ofA`) or model `b` is right, each judged by its own real class. */
  function CorrectCount(a: seq<(string, Prediction)>, b: map<string, Prediction>, ofA: bool): (r: nat)
    ensures r <= Shared(a, b)
  {
    if |a| == 0 then 0
    else
      var (key, pa) := a[|a| - 1];
      var hit := key in b && Correct(if ofA then pa else b[key]);
      CorrectCount(a[..|a| - 1], b, ofA) + (if hit then 1 else 0)
  }

  /** The `diffs` list: one difference per shared item, in `a`'s order. */
  function Diffs(a: seq<(string, Prediction)>, b: map<string, Prediction>): (r: seq<real>)
    ensures |r| == Shared(a, b)
  {
    if |a| == 0 then []
    else
      var (key, pa) := a[|a| - 1];
      Diffs(a[..|a| - 1], b) + (if key in b then [Diff(pa, b[key])] else [])
  }

  function Sum(xs: seq<real>): real {
    if |xs| == 0 then 0.0 else Sum(xs[..|xs| - 1]) + xs[|xs| - 1]
  }

  /**
   * What compare_dicts returns: the shares of right predictions and the mean
   * difference, or all zeros when nothing is shared. Both shares lie between
   * 0 and 1 and the mean is taken over one difference per shared id.
   */
  function Summary(a: seq<(string, Prediction)>, b: map<string, Prediction>): (r: Comparison)
    ensures r.total == Shared(a, b)
    ensures 0.0 <= r.apct <= 1.0 && 0.0 <= r.bpct <= 1.0
    ensures r.total > 0 ==> |Diffs(a, b)| == r.total && r.meandiff == Sum(Diffs(a, b)) / r.total as real
  {
    var total := Shared(a, b);
    if total > 0 then
      var diffs := Diffs(a, b);
      ShareBounds(CorrectCount(a, b, true) as real, total as real);
      ShareBounds(CorrectCount(a, b, false) as real, total as real);
      Comparison(total, CorrectCount(a, b, true) as real / total as real,
                 CorrectCount(a, b, false) as real / total as real, Sum(diffs) / |diffs| as real)
    else Comparison(0, 0.0, 0.0, 0.0)
  }

  /** One step of the loop over `a`'s items (comparemodels.py:61-93). */
  method CompareOne(key: string, avalue: Prediction, b: map<string, Prediction>,
                    total: nat, acorrect: nat, bcorrect: nat, diffs: seq<real>)
    returns (total': nat, acorrect': nat, bcorrect': nat, diffs': seq<real>)
    ensures total' == total + (if key in b then 1 else 0)
    ensures acorrect' == acorrect + (if key in b && Correct(avalue) then 1 else 0)
    ensures bcorrect' == bcorrect + (if key in b && Correct(b[key]) then 1 else 0)
    ensures diffs' == diffs + (if key in b then [Diff(avalue, b[key])] else [])
  {
    total', acorrect', bcorrect', diffs' := total, acorrect, bcorrect, diffs;
    if key in b {
      var bvalue := b[key];
      var (reala, predicta) := avalue;
      var (realb, predictb) := bvalue;
      total' := total' + 1;
      if reala > 0.5 && predicta >= 0.5 {
        acorrect' := acorrect' + 1;
      } else if reala < 0.5 && predicta <= 0.5 {
        acorrect' := acorrect' + 1;
      }
      if realb > 0.5 && predictb >= 0.5 {
        bcorrect' := bcorrect' + 1;
      } else if realb < 0.5 && predictb <= 0.5 {
        bcorrect' := bcorrect' + 1;
      }
      if reala > 0.5 {
        diffs' := diffs' + [predicta - predictb];
      } else {
        diffs' := diffs' + [predictb - predicta];
      }
    }
  }

  /** `compare_dicts(a, b)` (comparemodels.py:53-104); the messages it prints are not modelled. */
  method CompareDicts(a: seq<(string, Prediction)>, b: map<string, Prediction>) returns (result: Comparison)
    ensures result == Summary(a, b)
  {
    var total: nat, acorrect: nat, bcorrect: nat := 0, 0, 0;
    var diffs: seq<real> := [];
    for i := 0 to |a|
      invariant total == Shared(a[..i], b) && diffs == Diffs(a[..i], b)
      invariant acorrect == CorrectCount(a[..i], b, true) && bcorrect == CorrectCount(a[..i], b, false)
    {
      assert a[..i + 1][..i] == a[..i];
      total, acorrect, bcorrect, diffs := CompareOne(a[i].0, a[i].1, b, total, acorrect, bcorrect, diffs);
    }
    assert a[..|a|] == a;
    if total > 0 {
      result := Comparison(total, acorrect as real / total as real, bcorrect as real / total as real,
                           Sum(diffs) / |diffs| as real);
    } else {
      result := Comparison(0, 0.0, 0.0, 0.0);
    }
  }

  /** The keys of a list of items are those of all but its last item, plus the last one's, which is new when keys are distinct. */
  lemma KeysStep(a: seq<(string, Prediction)>)
    requires |a| > 0
    ensures Keys(a) == Keys(a[..|a| - 1]) + {a[|a| - 1].0}
    ensures DistinctKeys(a) ==> DistinctKeys(a[..|a| - 1]) && a[|a| - 1].0 !in Keys(a[..|a| - 1])
  {
    var init := a[..|a| - 1];
    assert forall i | 0 <= i < |init| :: init[i] == a[i];
  }

  lemma CommonStep(ks: set<string>, key: string, other: set<string>)
    requires key !in ks
    ensures |(ks + {key}) * other| == |ks * other| + (if key in other then 1 else 0)
  {
    if key in other {
      assert (ks + {key}) * other == ks * other + {key};
    } else {
      assert (ks + {key}) * other == ks * other;
    }
  }

  /** `total` is the number of ids both dicts hold. */
  lemma {:induction false} SharedIsCommonKeys(a: seq<(string, Prediction)>, b: map<string, Prediction>)
    requires DistinctKeys(a)
    ensures Shared(a, b) == |Keys(a) * b.Keys|
  {
    if |a| > 0 {
      var init := a[..|a| - 1];
      var key := a[|a| - 1].0;
      KeysStep(a);
      SharedIsCommonKeys(init, b);
      CommonStep(Keys(init), key, b.Keys);
    }
  }

  /** With no id in common the result is (0, 0, 0, 0). */
  lemma NothingShared(a: seq<(string, Prediction)>, b: map<string, Prediction>)
    requires DistinctKeys(a) && Keys(a) * b.Keys == {}
    ensures Summary(a, b) == Comparison(0, 0.0, 0.0, 0.0)
  {
    SharedIsCommonKeys(a, b);
  }

  /**
   * On a volume both models agree the class of, a right `a` against a wrong
   * `b` gives a positive difference, and a wrong `a` against a right `b` a
   * negative one.
   */
  lemma DiffSign(pa: Prediction, pb: Prediction)
    requires pa.0 == pb.0
    ensures Correct(pa) && !Correct(pb) ==> Diff(pa, pb) > 0.0
    ensures !Correct(pa) && Correct(pb) ==> Diff(pa, pb) < 0.0
  {
  }
}

/**
 * `identify_class` (metafilter.py): labels one volume positive, negative or
 * drop, either by its genre tags or by one of its dates.
 */
module Classify {
  import opened PyStr
  import opened Records

  datatype Label = Positive | Negative | Drop

  /**
   * `categorytodivideon` with the criteria that go with it: in tag mode
   * ('tagset') two sets of tags; in date mode the name of a date column and
   * the inclusive (min, max) ranges of the positive and negative classes.
   */
  datatype Division =
    | ByTags(positiveTags: set<string>, negativeTags: set<string>)
    | ByDate(field: DateField, posMin: int, posMax: int, negMin: int, negMax: int)

  /**
   * The positive criteria seen as tags. In date mode `positive_tags` holds
   * two integers, and an integer is never a member of a set of strings.
   */
  function PositiveTags(d: Division): set<string> {
    if d.ByTags? then d.positiveTags else {}
  }

  /** The "generic contrast" tags: any tag containing 'random'. */
  predicate IsRandomTag(tag: string) {
    Contains(tag, "random")
  }

  /** The final combination of the two flags (metafilter.py:191-198). */
  function Verdict(positive: bool, negative: bool): Label {
    if positive && negative then Drop
    else if negative then Negative
    else if positive then Positive
    else Drop
  }

  /** The label identify_class gives a volume, stated with quantifiers instead of flag loops. */
  function Classification(d: Division, r: DocRecord): Label {
    if "drop" in r.tagset then Drop
    else match d
      case ByTags(pos, neg) =>
        var positive := exists t | t in pos :: t in r.tagset;
        var negative := exists t | t in neg :: t in r.tagset && (!positive || !IsRandomTag(t));
        Verdict(positive, negative)
      case ByDate(field, posMin, posMax, negMin, negMax) =>
        var date := DateOf(r, field);
        if posMin <= date <= posMax then Positive
        else if negMin <= date <= negMax then Negative
        else Drop
  }

  /** A loop that sets a flag when some tag of `tags` is in `tagset`. */
  method AnyIn(tags: set<string>, tagset: set<string>) returns (found: bool)
    ensures found <==> exists t | t in tags :: t in tagset
  {
    found := false;
    var rest := tags;
    while rest != {}
      invariant rest <= tags
      invariant found <==> exists t | t in tags - rest :: t in tagset
      decreases |rest|
    {
      var tag :| tag in rest;
      if tag in tagset {
        found := true;
      }
      rest := rest - {tag};
    }
  }

  /** `identify_class(negative_tags, positive_tags, docdict, categorytodivideon)`. */
  method IdentifyClass(d: Division, r: DocRecord) returns (outcome: Label)
    ensures outcome == Classification(d, r)
  {
    if "drop" in r.tagset {
      return Drop;
    }
    var positive, negative := false, false;
    match d {
      case ByTags(pos, neg) =>
        positive := AnyIn(pos, r.tagset);
        var rest := neg;
        while rest != {}
          invariant rest <= neg
          invariant negative <==> exists t | t in neg - rest :: t in r.tagset && (!positive || !IsRandomTag(t))
          decreases |rest|
        {
          var tag :| tag in rest;
          if tag in r.tagset && !positive {
            negative := true;
          } else if tag in r.tagset && !IsRandomTag(tag) {
            negative := true;
          }
          rest := rest - {tag};
        }
      case ByDate(field, posMin, posMax, negMin, negMax) =>
        var date := DateOf(r, field);
        if posMin <= date <= posMax {
          positive := true;
        } else if negMin <= date <= negMax {
          negative := true;
        }
    }
    outcome := Verdict(positive, negative);
  }

  // ----------------------------------------------------------------- properties

  /** A 'drop' tag decides the label before any criterion is looked at. */
  lemma DropTagWins(d: Division, r: DocRecord)
    requires "drop" in r.tagset
    ensures Classification(d, r) == Drop
  {
  }

  /**
   * Tag mode: a volume is positive exactly when it has a positive tag and
   * every negative tag it has is a 'random' one.
   */
  lemma TagModePositive(pos: set<string>, neg: set<string>, r: DocRecord)
    requires "drop" !in r.tagset
    ensures Classification(ByTags(pos, neg), r) == Positive <==>
            (exists t | t in pos :: t in r.tagset) &&
            (forall t | t in neg && t in r.tagset :: IsRandomTag(t))
  {
  }

  /** Tag mode: a volume is negative exactly when it has a negative tag and no positive tag. */
  lemma TagModeNegative(pos: set<string>, neg: set<string>, r: DocRecord)
    requires "drop" !in r.tagset
    ensures Classification(ByTags(pos, neg), r) == Negative <==>
            (forall t | t in pos :: t !in r.tagset) &&
            (exists t | t in neg :: t in r.tagset)
  {
  }

  /**
   * Tag mode: a positive tag together with a negative tag that is not a
   * 'random' one is a conflict and drops the volume; so does having neither.
   */
  lemma TagModeConflictDrops(pos: set<string>, neg: set<string>, r: DocRecord)
    requires ((exists t | t in pos :: t in r.tagset) &&
              (exists t | t in neg :: t in r.tagset && !IsRandomTag(t)))
          || ((forall t | t in pos :: t !in r.tagset) && (forall t | t in neg :: t !in r.tagset))
    ensures Classification(ByTags(pos, neg), r) == Drop
  {
  }

  /**
   * Date mode: the positive range is tested first, so a date in both
   * inclusive ranges is positive, and a date in neither is dropped.
   */
  lemma DateModeRanges(field: DateField, posMin: int, posMax: int, negMin: int, negMax: int, r: DocRecord)
    requires "drop" !in r.tagset
    ensures var date := DateOf(r, field);
      var verdict := Classification(ByDate(field, posMin, posMax, negMin, negMax), r);
      && (verdict == Positive <==> posMin <= date <= posMax)
      && (verdict == Negative <==> !(posMin <= date <= posMax) && negMin <= date <= negMax)
      && (verdict == Drop <==> !(posMin <= date <= posMax) && !(negMin <= date <= negMax))
  {
  }
}

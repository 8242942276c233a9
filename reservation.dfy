/**
 * The test-only reservation of metafilter.py: `get_thresholds` reads a date
 * window from the condition tokens, and `get_donttrainset` picks the positive
 * volumes that may be tested but never trained on.
 *
 * The condition tokens are one set of strings: a tag name, an all-digit year,
 * a size cap `limit==N`, or the flag `donotmatch`; every token is also
 * looked up as a tag.
 */
module Reservation {
  import opened PyStr
  import opened Records
  import opened Classify
  import opened Sampling

  function Min(a: int, b: int): int { if a <= b then a else b }
  function Max(a: int, b: int): int { if a <= b then b else a }

  /** The tokens for which `elem.isdigit()` holds. */
  function DigitTokens(conds: set<string>): set<string> {
    set t | t in conds && IsDigits(t)
  }

  /**
   * The (past, future) window: the smaller and the larger of the numeric
   * tokens when there are exactly two of them, and (0, 3000) otherwise.
   */
  ghost function Thresholds(conds: set<string>): (int, int) {
    var digits := DigitTokens(conds);
    if |digits| == 2 then
      var a :| a in digits;
      assert |digits - {a}| == 1;
      var b :| b in digits - {a};
      (Min(DigitsValue(a), DigitsValue(b)), Max(DigitsValue(a), DigitsValue(b)))
    else (0, 3000)
  }

  /** With numeric tokens exactly `a` and `b`, the window runs from the smaller to the larger. */
  lemma ThresholdsOfTwo(conds: set<string>, a: string, b: string)
    requires a != b && DigitTokens(conds) == {a, b}
    ensures Thresholds(conds) == (Min(DigitsValue(a), DigitsValue(b)), Max(DigitsValue(a), DigitsValue(b)))
  {
    var digits := DigitTokens(conds);
    assert |digits| == 2 by {
      assert digits == {a} + {b};
    }
  }

  /** Any other number of numeric tokens (none, one, three ...) gives the default window. */
  lemma ThresholdsDefault(conds: set<string>)
    requires |DigitTokens(conds)| != 2
    ensures Thresholds(conds) == (0, 3000)
  {
  }

  /** Taking one more token out of `rest` adds it to the numeric tokens seen when it is numeric. */
  lemma DigitTokensStep(conds: set<string>, rest: set<string>, elem: string)
    requires rest <= conds && elem in rest
    ensures DigitTokens(conds - (rest - {elem})) ==
      DigitTokens(conds - rest) + (if IsDigits(elem) then {elem} else {})
    ensures elem !in DigitTokens(conds - rest)
  {
  }

  /** The window, read from a repeat-free list of the numeric tokens. */
  lemma ThresholdsOfList(conds: set<string>, seen: seq<string>)
    requires Elems(seen) == DigitTokens(conds) && Distinct(seen)
    requires forall i | 0 <= i < |seen| :: IsDigits(seen[i])
    ensures |seen| == 2 ==>
              IsDigits(seen[0]) && IsDigits(seen[1]) && Thresholds(conds) ==
              (Min(DigitsValue(seen[0]), DigitsValue(seen[1])), Max(DigitsValue(seen[0]), DigitsValue(seen[1])))
    ensures |seen| != 2 ==> Thresholds(conds) == (0, 3000)
  {
    DistinctCard(seen);
    if |seen| == 2 {
      assert Elems(seen) == {seen[0], seen[1]};
      ThresholdsOfTwo(conds, seen[0], seen[1]);
    }
  }

  /**
   * The state of get_thresholds' loop once the tokens outside `rest` are
   * read: `seen` lists the numeric ones without repeats and `thresholds`
   * holds their values.
   */
  ghost predicate ReadSoFar(conds: set<string>, rest: set<string>, seen: seq<string>, thresholds: seq<int>) {
    && rest <= conds
    && Elems(seen) == DigitTokens(conds - rest) && Distinct(seen)
    && |thresholds| == |seen|
    && forall i | 0 <= i < |seen| :: IsDigits(seen[i]) && thresholds[i] == DigitsValue(seen[i])
  }

  /** Reading one more token keeps the loop state. */
  lemma ReadStep(conds: set<string>, rest: set<string>, seen: seq<string>, thresholds: seq<int>, elem: string)
    requires ReadSoFar(conds, rest, seen, thresholds) && elem in rest
    ensures IsDigits(elem) ==>
      ReadSoFar(conds, rest - {elem}, seen + [elem], thresholds + [DigitsValue(elem)])
    ensures !IsDigits(elem) ==> ReadSoFar(conds, rest - {elem}, seen, thresholds)
  {
    DigitTokensStep(conds, rest, elem);
    if IsDigits(elem) {
      assert Elems(seen + [elem]) == Elems(seen) + {elem};
    }
  }

  /** `get_thresholds(testconditions)`. */
  method GetThresholds(conds: set<string>) returns (past: int, future: int)
    ensures (past, future) == Thresholds(conds)
    ensures past <= future
  {
    var thresholds: seq<int> := [];
    ghost var seen: seq<string> := [];
    var rest := conds;
    while rest != {}
      invariant ReadSoFar(conds, rest, seen, thresholds)
      decreases |rest|
    {
      var elem :| elem in rest;
      ReadStep(conds, rest, seen, thresholds, elem);
      if IsDigits(elem) {
        thresholds := thresholds + [DigitsValue(elem)];
        seen := seen + [elem];
      }
      rest := rest - {elem};
    }
    assert conds - rest == conds;
    ThresholdsOfList(conds, seen);
    // `thresholds.sort()` followed by the length test: only a two-element list is used.
    if |thresholds| == 2 {
      past, future := Min(thresholds[0], thresholds[1]), Max(thresholds[0], thresholds[1]);
    } else {
      past, future := 0, 3000;
    }
  }

  // -------------------------------------------------------------- reservation

  /** The volume has a positive tag that is not itself one of the conditions. */
  predicate HasOtherPositive(tagset: set<string>, positiveTags: set<string>, conds: set<string>) {
    exists t | t in positiveTags :: t in tagset && t !in conds
  }

  /** The volume carries one of the condition tokens as a tag. */
  predicate HasExclusion(tagset: set<string>, conds: set<string>) {
    exists t | t in conds :: t in tagset
  }

  /**
   * Why a positive volume is held out of training: its inferred date lies
   * outside the window, or it has a condition tag and no other positive tag.
   */
  predicate ReservedByRule(r: DocRecord, date: int, positiveTags: set<string>, conds: set<string>, past: int, future: int) {
    date < past || date > future
    || (HasExclusion(r.tagset, conds) && !HasOtherPositive(r.tagset, positiveTags, conds))
  }

  /** The reservation before any `limit==N` token is applied. */
  ghost function BaseReservation(allPositives: set<string>, positiveTags: set<string>, meta: map<string, DocRecord>,
                                 conds: set<string>, datetype: DateField, inferDate: (DocRecord, DateField) -> int): set<string>
    requires allPositives <= meta.Keys
  {
    var window := Thresholds(conds);
    set p | p in allPositives
      && ReservedByRule(meta[p], inferDate(meta[p], datetype), positiveTags, conds, window.0, window.1)
  }

  predicate IsLimitToken(tag: string) {
    Contains(tag, "limit==")
  }

  /**
   * What the source needs of a `limit==N` token: `int` must accept what is
   * left once 'limit==' is removed, and `random.sample` rejects a negative N.
   */
  predicate LimitsWellFormed(conds: set<string>) {
    forall t | t in conds && IsLimitToken(t) ::
      var n := ParseInt(ReplaceAll(t, "limit==", ""));
      n.Some? && n.value >= 0
  }

  /** N of a `limit==N` token. */
  function LimitOf(tag: string): nat
    requires IsLimitToken(tag)
    requires var n := ParseInt(ReplaceAll(tag, "limit==", "")); n.Some? && n.value >= 0
  {
    ParseInt(ReplaceAll(tag, "limit==", "")).value
  }

  /** The token `limit==N`, as a user writes it, is a limit token whose value is N. */
  lemma LimitOfToken(n: nat)
    ensures IsLimitToken("limit==" + NatToString(n))
    ensures ParseInt(ReplaceAll("limit==" + NatToString(n), "limit==", "")) == Some(n)
    ensures LimitOf("limit==" + NatToString(n)) == n
  {
    var t := NatToString(n);
    var tok := "limit==" + t;
    assert StartsWith(tok, "limit==") by {
      assert tok[..7] == "limit==";
    }
    assert tok[7..] == t;
    assert 'l' !in t by {
      forall i | 0 <= i < |t| ensures t[i] != 'l' {
        assert IsDigit(t[i]);
      }
    }
    NotContainsWithoutFirst(t, "limit==");
    assert ReplaceAll(tok, "limit==", "") == t;
    ParseIntOfNatToString(n);
  }

  /**
   * The per-volume part of `get_donttrainset`: the window test, then the
   * two flag loops over the positive tags and over the conditions.
   */
  method IsReserved(r: DocRecord, date: int, positiveTags: set<string>, conds: set<string>, past: int, future: int)
    returns (reserve: bool)
    ensures reserve == ReservedByRule(r, date, positiveTags, conds, past, future)
  {
    if date < past || date > future {
      return true;
    }
    var hasOtherPositive := false;
    var tags := positiveTags;
    while tags != {}
      invariant tags <= positiveTags
      invariant hasOtherPositive <==> exists t | t in positiveTags - tags :: t in r.tagset && t !in conds
      decreases |tags|
    {
      var tag :| tag in tags;
      if tag in r.tagset && tag !in conds {
        hasOtherPositive := true;
      }
      tags := tags - {tag};
    }
    var hasExclusion := AnyIn(conds, r.tagset);
    reserve := hasExclusion && !hasOtherPositive;
  }

  /**
   * `reserved` is what the `limit==N` tokens of `conds` leave of `base`: a
   * subset no larger than any limit, and either all of `base` or exactly
   * the size of a limit that was below the size of `base`.
   */
  predicate LimitedFrom(reserved: set<string>, base: set<string>, conds: set<string>)
    requires LimitsWellFormed(conds)
  {
    && reserved <= base
    && (forall t | t in conds && IsLimitToken(t) :: |reserved| <= LimitOf(t))
    && (reserved == base || exists t | t in conds && IsLimitToken(t) :: LimitOf(t) < |base| && |reserved| == LimitOf(t))
  }

  /** A `limit==N` token among the conditions caps the reservation at N. */
  lemma LimitTokenCaps(reserved: set<string>, base: set<string>, conds: set<string>, n: nat)
    requires LimitsWellFormed(conds) && LimitedFrom(reserved, base, conds)
    requires "limit==" + NatToString(n) in conds
    ensures |reserved| <= n
  {
    LimitOfToken(n);
  }

  /**
   * The state of the `limit==N` loop once the tokens outside `rest` are
   * applied: the set is still part of `base`, no larger than any limit read
   * so far, and either untouched or exactly the size of one of those limits.
   */
  predicate LimitsApplied(base: set<string>, conds: set<string>, rest: set<string>, reserved: set<string>)
    requires LimitsWellFormed(conds)
  {
    && rest <= conds && reserved <= base
    && (forall t | t in conds - rest && IsLimitToken(t) :: |reserved| <= LimitOf(t))
    && (reserved == base || exists t | t in conds - rest && IsLimitToken(t) :: LimitOf(t) < |base| && |reserved| == LimitOf(t))
  }

  /** Applying one more token, which samples down to its N exactly when it is a limit below the current size. */
  lemma LimitStep(base: set<string>, conds: set<string>, rest: set<string>, reserved: set<string>, tag: string, next: set<string>)
    requires LimitsWellFormed(conds) && LimitsApplied(base, conds, rest, reserved) && tag in rest
    requires next <= reserved
    requires IsLimitToken(tag) && LimitOf(tag) < |reserved| ==> |next| == LimitOf(tag)
    requires !(IsLimitToken(tag) && LimitOf(tag) < |reserved|) ==> next == reserved
    ensures LimitsApplied(base, conds, rest - {tag}, next)
  {
    assert conds - (rest - {tag}) == (conds - rest) + {tag};
    assert |next| <= |reserved| <= |base| by {
      SubsetCard(next, reserved);
      SubsetCard(reserved, base);
    }
    if next != reserved {
      assert IsLimitToken(tag) && LimitOf(tag) < |base| && |next| == LimitOf(tag);
    }
  }

  /**
   * The `limit==N` paragraph of `get_donttrainset`: every limit token whose N
   * is below the current size replaces the set by a random N-subset.
   */
  method ApplyLimits(base: set<string>, conds: set<string>) returns (reserved: set<string>)
    requires LimitsWellFormed(conds)
    ensures LimitedFrom(reserved, base, conds)
  {
    reserved := base;
    var rest := conds;
    while rest != {}
      invariant LimitsApplied(base, conds, rest, reserved)
      decreases |rest|
    {
      var tag :| tag in rest;
      var next := reserved;
      if IsLimitToken(tag) {
        var limit := LimitOf(tag);
        if limit < |reserved| {
          next := SampleSet(reserved, limit);
        }
      }
      LimitStep(base, conds, rest, reserved, tag, next);
      reserved := next;
      rest := rest - {tag};
    }
    assert conds - rest == conds;
  }

  /**
   * `get_donttrainset(all_positives, positive_tags, metadict, donttrainconditions, datetype)`.
   * The result is the rule's reservation, cut down by every `limit==N` token
   * whose N is below its size to a random subset of exactly N: so it has the
   * smallest of those sizes, and is the whole reservation when no limit bites.
   */
  method GetDontTrainSet(allPositives: set<string>, positiveTags: set<string>, meta: map<string, DocRecord>,
                         conds: set<string>, datetype: DateField, inferDate: (DocRecord, DateField) -> int)
    returns (reserved: set<string>)
    requires allPositives <= meta.Keys
    requires LimitsWellFormed(conds)
    ensures var base := BaseReservation(allPositives, positiveTags, meta, conds, datetype, inferDate);
      base <= allPositives && LimitedFrom(reserved, base, conds)
  {
    var past, future := GetThresholds(conds);
    var byRule: set<string> := {};
    var rest := allPositives;
    while rest != {}
      invariant rest <= allPositives
      invariant byRule == set p | p in allPositives - rest
        && ReservedByRule(meta[p], inferDate(meta[p], datetype), positiveTags, conds, past, future)
      decreases |rest|
    {
      var posvol :| posvol in rest;
      var reserve := IsReserved(meta[posvol], inferDate(meta[posvol], datetype), positiveTags, conds, past, future);
      if reserve {
        byRule := byRule + {posvol};
      }
      rest := rest - {posvol};
    }
    assert allPositives - rest == allPositives;
    assert byRule == BaseReservation(allPositives, positiveTags, meta, conds, datetype, inferDate);
    reserved := ApplyLimits(byRule, conds);
  }
}

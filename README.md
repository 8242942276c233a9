# Genre-model cohort selection, in Dafny

This project models the part of a literary-genre modelling pipeline that
decides which volumes a model is trained and tested on, and how two models'
predictions are compared. The pieces are:

- **Metadata.** `get_metadata` reads the metadata table, drops rows that fail
  the four exclusion dictionaries, and normalises every kept row into a
  volume record (folded nationality, placeholder author, first publication
  date). It keeps only the volumes present in the data folder. The file is
  given as its list of rows.
- **Identification.** `dirty_pairtree` restores a HathiTrust id from its
  file-name form, and `forceint` reads a number or gives 0.
- **Labelling.** `identify_class` labels a volume positive, negative or drop,
  either by genre tags or by date ranges.
- **Test-only reservation.** `get_thresholds` reads a date window from the
  condition tokens. `get_donttrainset` picks the positives that may be tested
  but not trained on, cut down by any `limit==N` token.
- **Negative matching.** `closest_idx` finds the negative nearest to a
  positive by date. A gender or nationality mismatch costs 0.6 years.
- **Cohort.** `label_classes` labels every volume, reserves the test-only
  positives and caps the trainable ones. It matches or samples the negatives
  and builds the 0/1 class dictionary.
- **Experiment helpers.** These are the dict-of-lists accumulator (`add2dict`,
  `foldintodict`), the author-preserving split `divide_authdict`, the
  tag-routing loops of `split_metadata` and `split_one_genre`, and `accuracy`.
- **Model comparison.** `compare_dicts` compares two models over the volumes
  both have predicted.

Randomness (`random.shuffle`, `random.sample`, `list(set)`) is
nondeterministic choice in module `Sampling`. Every property proved about a
caller therefore holds whatever the random generator does. The coin
`random.choice` tosses in `split_metadata` is the parameter `whims`.
`metautils.infer_date` is the function parameter `inferDate`.

Loops of the source are methods with loop invariants, proved against
specification functions. The properties the source promises are lemmas
about those functions. `add2dict`/`foldintodict` update a dictionary in
place, so they are methods of the class `Experiment.ListDict`.

Modules: `PyStr` (Python string built-ins), `Sampling`, `Ratio` (shares as
exact reals), `Records`, `Metadata`, `Classify`, `Proximity`, `Reservation`,
`Cohort`, `Experiment`, `CompareModels`.

## Model

| member | source | states |
|---|---|---|
| PyStr.LStrip | metafilter.py:54 | the result is the suffix of the input after a run of whitespace, and starts with a non-space |
| PyStr.RStrip | metafilter.py:79 | the result is the prefix of the input before a run of whitespace, and ends with a non-space |
| PyStr.Split | metafilter.py:55 | splitting on one character gives at least one piece, and no piece holds the separator |
| PyStr.JoinSplit | metafilter.py:55 | joining the pieces with the separator gives back the original string |
| PyStr.Find | metafilter.py:16 | the first index of the character, and -1 exactly when it does not occur |
| PyStr.ReplaceAll | metafilter.py:319 | a string without the pattern is returned unchanged, and a string that starts with the pattern and holds it nowhere else becomes the replacement followed by the rest |
| PyStr.ReplaceChar | metafilter.py:20-21 | every occurrence of one character becomes the other and nothing else moves |
| PyStr.NatToString | metafilter.py:89 | `str(n)` is a non-empty string of digits |
| PyStr.DigitsValueOfNatToString | metafilter.py:89 | the digits `str(n)` prints read back as n |
| PyStr.NatToStringInjective | metafilter.py:89 | different numbers print as different strings |
| PyStr.ParseInt | metafilter.py:26 | whenever `int` reads a number, the stripped text ends in a digit, and a negative number starts with '-'; the lemmas below give its value |
| PyStr.DigitsAreNumeral | metafilter.py:26 | a plain digit string is a numeral `int` accepts, of its decimal value |
| PyStr.ParseIntOfNumeral | metafilter.py:26 | `int` reads an unsigned numeral as its value |
| PyStr.ParseIntOfNegativeNumeral | metafilter.py:26 | `int` reads a minus sign followed by a numeral as the negated value |
| PyStr.ParseIntOfGroupedDigits | metafilter.py:26 | an underscore between two digit groups is ignored: `int('1_900')` is 1900 |
| PyStr.ParseIntOfNatToString | metafilter.py:26 | `int` reads back a printed natural number |
| Records.ForceInt | metafilter.py:24-30 | forceint is 0 when `int` raises, and a non-zero result is exactly what `int` read |
| Records.ForceIntOfNumeral | metafilter.py:24-30 | forceint reads back every integer `str` prints |
| Records.ForceIntWithoutDigits | metafilter.py:24-30 | a string with no digit is coerced to 0 instead of raising |
| Records.DirtyPairtree | metafilter.py:15-23 | an id with a period keeps its length and everything up to and including its first period |
| Records.CleanThenDirtyChars | metafilter.py:19-21 | the `+`/`=` substitutions undo the `:`/`/` ones character by character |
| Records.DirtyCleanRoundTrip | metafilter.py:15-23 | dirty_pairtree inverts the file-name cleaning of an id whose postfix holds a `/` |
| Records.DirtyPairtreeKeepsOrdinaryIds | metafilter.py:15-23 | an id with no `=` after its first period comes back unchanged |
| Records.DirtyPairtreeWithoutPeriod | metafilter.py:15-23 | with no period, find gives -1, so the id loses its last character as prefix and gains a period |
| Metadata.ExcludeIfLoop | metafilter.py:59-65 | bail is set exactly when some column other than 'negatives' equals its excludeif value |
| Metadata.ExcludeIfNotLoop | metafilter.py:66-68 | bail is set exactly when some column differs from its excludeifnot value |
| Metadata.ExcludeBelowLoop | metafilter.py:69-71 | bail is set exactly when some column, read by forceint, is below its bound |
| Metadata.ExcludeAboveLoop | metafilter.py:72-74 | bail is set exactly when some column, read by forceint, is above its bound |
| Metadata.Bail | metafilter.py:58-77 | the row is dropped exactly when one of the four exclusion tests hits |
| Metadata.FoldNation | metafilter.py:79-84 | the nation is the right-stripped nationality with 'ca' read as 'us' and 'ir' as 'uk' |
| Metadata.NameAuthor | metafilter.py:87-90 | a blank author becomes the next `anonymous<k>` placeholder and advances the counter by one; any other is kept stripped |
| Metadata.NormalizeRow | metafilter.py:54-104 | the record and counter of a kept row are the normalisation of that row under the current counter |
| Metadata.ReadRows | metafilter.py:50-104 | after the row loop, metadict is the row-by-row fold of the kept rows' records |
| Metadata.Intersect | metafilter.py:123-127 | the result holds the metadata volumes listed in volumeIDs |
| Metadata.GetMetadata | metafilter.py:33-129 | the result is the kept-row dictionary restricted to volumeIDs |
| Metadata.LastKept | metafilter.py:50-92 | the index of the last kept row with a given docid, or -1 when no kept row has it |
| Metadata.MetaDictEntry | metafilter.py:50-104 | a docid is in metadict exactly when some row with it is kept, and its record is the last such row's, normalised with the counter as it stood then |
| Metadata.GetMetadataKeys | metafilter.py:123-127 | a volume is returned exactly when it is in volumeIDs and some row with its docid passed every filter |
| Metadata.NationFolded | metafilter.py:79-84 | no stored nation is 'ca' or 'ir', and other nations are kept |
| Metadata.AuthorNeverBlank | metafilter.py:87-90 | the stored author is never empty and never '<blank>' |
| Metadata.FirstPubFilled | metafilter.py:103-104 | a zero firstpub remains only when no positive pubdate was known, and a non-zero one is kept |
| Metadata.NormalizeGuarantees | metafilter.py:79-104 | every normalised record has its own docid, a folded nation, a non-blank author and a filled-in firstpub |
| Metadata.GetMetadataRecords | metafilter.py:92-127 | every returned record is normalised and filed under its own docid |
| Metadata.CounterMonotone | metafilter.py:87-90 | the blank-author counter never decreases as rows are read |
| Metadata.AnonymousInjective | metafilter.py:89 | different counter values give different placeholders |
| Metadata.AnonymousNamesDistinct | metafilter.py:87-90 | two kept rows with blank authors receive different placeholder names |
| Classify.AnyIn | metafilter.py:158-160 | the flag is set exactly when some tag of the list is in the tag set |
| Classify.IdentifyClass | metafilter.py:131-198 | the flag loops give the label defined without loops: drop on a 'drop' tag, otherwise the tag test or the date ranges |
| Classify.DropTagWins | metafilter.py:153-154 | a 'drop' tag gives 'drop' whatever the criteria |
| Classify.TagModePositive | metafilter.py:156-198 | in tag mode a volume is positive exactly when it has a positive tag and every negative tag it has is a 'random' one |
| Classify.TagModeNegative | metafilter.py:156-198 | in tag mode a volume is negative exactly when it has a negative tag and no positive tag |
| Classify.TagModeConflictDrops | metafilter.py:156-198 | a volume with a positive tag and a non-random negative tag is dropped, and so is one with neither kind |
| Classify.DateModeRanges | metafilter.py:173-189 | in date mode a date in the positive range is positive, otherwise one in the negative range is negative, otherwise the volume is dropped |
| Proximity.TenthsAreExact | metafilter.py:236-243 | the integer proximity in tenths is exactly ten times the date distance plus 0.6 per mismatch |
| Proximity.TenthsPreserveOrder | metafilter.py:236-252 | the tenths order and tie candidates exactly as the source's proximities do |
| Proximity.NearerDateBeatsOneMismatch | metafilter.py:236-249 | a nearer date with at most one mismatch beats a farther one |
| Proximity.PerfectMatchOneYearAwayBeatsDoubleMismatch | metafilter.py:236-249 | a perfect gender-nation match one year farther beats a double mismatch |
| Proximity.ZeroProximityIsPerfectMatch | metafilter.py:236-243 | proximity 0 means the same date and no mismatch |
| Proximity.ClosestIdx | metafilter.py:216-254 | the index of the first candidate of least proximity |
| Reservation.ThresholdsOfTwo | metafilter.py:272-274 | exactly two numeric tokens give the window from the smaller to the larger |
| Reservation.ThresholdsDefault | metafilter.py:275-278 | any other number of numeric tokens gives (0, 3000) |
| Reservation.ThresholdsOfList | metafilter.py:266-278 | the window read from a repeat-free list of the numeric tokens |
| Reservation.GetThresholds | metafilter.py:256-281 | the returned pair is the threshold window of the tokens, and past <= future |
| Reservation.IsReserved | metafilter.py:295-313 | a positive is reserved exactly when its date is outside the window, or it has a condition tag and no other positive tag |
| Reservation.LimitOfToken | metafilter.py:317-319 | a token `limit==N` is a limit token, `int` reads N from it once 'limit==' is removed, and its limit is N |
| Reservation.LimitTokenCaps | metafilter.py:315-321 | a `limit==N` token among the conditions caps the reservation at N |
| Reservation.ApplyLimits | metafilter.py:315-321 | the result is part of the rule's set and no larger than any limit; it is untouched, or exactly the size of a limit that was below its size |
| Reservation.GetDontTrainSet | metafilter.py:283-323 | the rule's reservation among the positives (a subset of them), cut down as ApplyLimits states by the limit tokens |
| Cohort.PositivesAndNegativesDisjoint | metafilter.py:357-373 | no volume is both a positive and a negative |
| Cohort.LabelOne | metafilter.py:358-373 | one pass files the volume as positive, as negative unless excluded, or as neither |
| Cohort.ClassifyAll | metafilter.py:357-373 | the loop yields exactly the positives and the non-excluded negatives |
| Cohort.SelectPositives | metafilter.py:388-398 | exactly KeptCount distinct trainable positives (sizecap of them when there are more, otherwise all), followed by every reserved one, no docid twice |
| Cohort.Matchable | metafilter.py:420-425 | the positives to be matched are a sub-list of the positives |
| Cohort.ShuffledPool | metafilter.py:416-417 | the pool holds each negative's record exactly once |
| Cohort.MatchNegatives | metafilter.py:416-437 | min(number of negatives, number of matchable positives) distinct negatives; the i-th is nearest to the i-th matchable positive among the negatives not taken before it; the reservation gains exactly the partners of reserved positives |
| Cohort.MatchableLength | metafilter.py:420-425 | the matchable positives are all the positives, or under 'donotmatch' as many as the unreserved ones |
| Cohort.BuildClassDictionary | metafilter.py:452-465 | the ids are both lists' members, positives map to 1 and negatives to 0, and a negative wins a clash |
| Cohort.ClassMembersOfDisjoint | metafilter.py:459-465 | with disjoint lists, the 1s are exactly the positives and the 0s exactly the negatives |
| Cohort.DictionaryCounts | metafilter.py:459-465 | with disjoint repeat-free lists, the number of 1s and 0s are the lists' lengths |
| Cohort.ChooseNegatives | metafilter.py:414-448 | distinct negatives: with a cap, in tag mode exactly what MatchNegatives states, in date mode exactly sizecap with the reservation untouched; with no cap, every negative |
| Cohort.PartnersAreNegatives | metafilter.py:434-437 | what a reservation gains from partners are matched negatives |
| Cohort.PositiveFacts | metafilter.py:388-398 | the positive list holds every reserved positive and exactly KeptCount trainable ones, all of them when none is dropped |
| Cohort.NegativeFacts | metafilter.py:414-448 | the reservation grows only by chosen negatives, and in tag mode there are min(negatives, matchable positives) of them |
| Cohort.CohortFacts | metafilter.py:452-467 | the 1s and 0s of the dictionary are the two lists, and together they keep every promise of label_classes below |
| Cohort.AssembleCohort | metafilter.py:381-467 | the positive and negative lists (returned as ghosts) are chosen as SelectPositives and ChooseNegatives state, the 1s and 0s are exactly those lists, and: reserved <= 1s <= positives; the unreserved 1s number KeptCount (all when none dropped); 0s are negatives: min(negatives, matchable) of them in tag mode, sizecap in date mode, all with no cap; the reservation grows only by 0s |
| Cohort.LabelClasses | metafilter.py:325-467 | the starting reservation (a ghost) is the rule's set among identify_class's positives cut down by the limits, and from it the cohort keeps every AssembleCohort promise |
| Sampling.SetToSeq | metafilter.py:396 | `list(s)` holds every member of the set exactly once |
| Sampling.SampleList | metafilter.py:394 | `random.sample(s, k)` gives k distinct members of s |
| Sampling.SampleSet | metafilter.py:321 | `set(random.sample(s, k))` is a k-element subset of s |
| Sampling.Shuffle | metafilter.py:417 | `random.shuffle` gives a permutation |
| Experiment.Appended | main_experiment.py:15-18 | after add2dict the key's list gains the value at its end, and the other keys keep their lists |
| Experiment.FoldedOverStep | main_experiment.py:20-22 | folding in one more key is one add2dict call |
| Experiment.FoldedInGainsOne | main_experiment.py:20-22 | after foldintodict each key of d1 has d1's value appended to its old list, and other keys are unchanged |
| Experiment.ListDict.Add | main_experiment.py:15-18 | the dictionary becomes its old value with the value appended under the key |
| Experiment.ListDict.FoldIn | main_experiment.py:20-22 | the dictionary becomes its old value with every item of d folded in |
| Experiment.GreedyGathers | main_experiment.py:29-34 | each part is the concatenation of the document lists of the authors sent to it |
| Experiment.GreedyPermutation | main_experiment.py:29-34 | the two parts together hold every listed document exactly as often as the lists do |
| Experiment.GreedyBalance | main_experiment.py:29-34 | the parts differ in length by at most the largest author's list |
| Experiment.FlattenPermutation | main_experiment.py:25 | shuffling the authors keeps the listed documents and their counts |
| Experiment.RebalanceKeepsDocuments | main_experiment.py:36-47 | rebalancing keeps each part as a prefix and the set of documents, and the documents copied beyond sizecap from either part end up in both parts |
| Experiment.BalancedSplitIsPermutation | main_experiment.py:36-37 | when both parts reach sizecap, they are a permutation of the listed documents |
| Experiment.DivideAuthDict | main_experiment.py:24-47 | the authors are permuted, then the parts are the greedy split rebalanced |
| Experiment.Routes | main_experiment.py:60-103 | one destination per volume, the route of that volume |
| Experiment.CollectListed | main_experiment.py:66-103 | an id is filed under an author exactly when some volume with that id and author is routed there |
| Experiment.SfFantasyNeverBoth | main_experiment.py:88-99 | no volume is filed as both sf and fantasy |
| Experiment.BothTagsFiled | main_experiment.py:88-93 | a volume tagged both sf and fantasy is filed as one of the two |
| Experiment.RandomBeforeGenre | main_experiment.py:142-149 | a 'random' volume is mainstream even when it carries a positive tag |
| Experiment.AnyPositive | main_experiment.py:146-149 | the volume is genre exactly when some positive tag is among its tags |
| Experiment.RouteOne | main_experiment.py:66-103 | the loop body computes the volume's route |
| Experiment.SplitOneGenre | main_experiment.py:129-149 | the mainstream and genre dictionaries are those of the routing |
| Experiment.SplitMetadata | main_experiment.py:60-103 | the mainstream, sf and fantasy dictionaries are those of the routing |
| Experiment.ConfusionPartition | main_experiment.py:241-246 | tp, tn, fp and fn add up to the number of rows |
| Experiment.Accuracy | main_experiment.py:240-248 | accuracy lies between 0 and 1 |
| Experiment.AccuracyComplement | main_experiment.py:240-248 | accuracy is one minus the error rate, and it is 1 exactly when there are no fp and no fn |
| Ratio.ShareBounds | main_experiment.py:248 | (helper) a part of a positive whole divides to a share in [0, 1] |
| Ratio.ShareSplit | main_experiment.py:248 | (helper) two shares of a whole that make it up add to 1 |
| CompareModels.CorrectCount | comparemodels.py:73-81 | a model is right on no more volumes than are shared |
| CompareModels.Diffs | comparemodels.py:83-86 | one difference per shared volume |
| CompareModels.Summary | comparemodels.py:95-104 | total is the shared count, both shares lie in [0, 1], and meandiff is the mean of the differences |
| CompareModels.CompareOne | comparemodels.py:61-93 | one item adds to the counts exactly when its key is shared |
| CompareModels.CompareDicts | comparemodels.py:53-104 | the result is the summary of the two dicts |
| CompareModels.SharedIsCommonKeys | comparemodels.py:60-93 | total is the number of ids both dicts hold |
| CompareModels.NothingShared | comparemodels.py:99-104 | with no id in common the result is all zeros |
| CompareModels.DiffSign | comparemodels.py:83-86 | a right a against a wrong b gives a positive difference, and the reverse gives a negative one |

## Left out

- Reading the CSV file, the `print` calls, the `errorlog.txt` write in
  divide_authdict and the `to_csv` files: these are I/O. get_metadata takes
  its rows as a list of column maps.
- Metadata.ReadRows: every row must have the columns the code reads
  (`Readable`). Python raises KeyError otherwise, and that path is a
  precondition.
- Crashes of the source are preconditions:
  - `random.sample` asking for more than the population (date-mode negatives);
  - `int()` on a malformed `limit==N` token, and a negative N;
  - the NameError on `lastauth` when divide_authdict rebalances an empty
    author list;
  - closest_idx on an empty list;
  - accuracy on an empty table.
- `random.sample` on a set is an error from Python 3.11 on. The model takes
  the older behaviour: a random subset.
- PyStr.ParseInt and PyStr.IsDigits: only the digits 0-9 are read. Python's
  `int` and `str.isdigit` also accept other Unicode decimal digits (`int('\u0663')`
  is 3), and `str.isdigit` accepts superscripts. Whitespace is Python's full
  `str.isspace` set, and underscores between digits are modelled.
- Proximity.ClosestIdx: proximities are integer tenths instead of floats.
  Proximity.TenthsAreExact proves they are exactly ten times the exact real
  proximity, so ties and order agree. Float rounding is not modelled.
- CompareModels and Experiment.Accuracy: predictions and shares are exact
  reals, not floats.
- get_gender and get_nationality (metafilter.py:200-214) are field reads.
  Every record get_metadata builds has both keys, so their missing-key
  branch cannot occur.
- `metautils.infer_date` is not part of this model. It is the parameter
  `inferDate`.
- Experiment.SplitMetadata and Experiment.SplitOneGenre: only the routing
  loops are modelled. The date slice is applied per volume. The DataFrame
  is a list of `Volume` rows with distinct indexes. The later divide_authdict
  calls, `master.loc` and `to_csv` are left out. Experiment.DivideAuthDict
  models that step on its own.
- Experiment.DivideAuthDict: `ceiling` appears only in the error log, so it
  is not a parameter.
- Experiment.SplitMetadata: the outcome of `random.choice` is the parameter
  `whims`.
- CompareModels.CompareDicts: dict `a` is given as its list of items in
  iteration order.
- The sweep and plotting functions of main_experiment.py are outside this
  model, as are the other functions of comparemodels.py.
- Cohort.LabelClasses: the reservation it returns can hold matched
  negatives, because the code adds a reserved positive's partner
  (metafilter.py:434-437). The model follows the code.

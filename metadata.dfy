/**
 * `get_metadata` (metafilter.py) without the CSV file: the rows of the
 * metadata table arrive as a list of column-to-text maps, in file order.
 * Each row is either bailed out by one of the four exclusion dictionaries or
 * normalised into a DocRecord filed under its docid; then only the docids
 * also listed in `volumeIDs` (the volumes present in the data folder) are
 * returned.
 */
module Metadata {
  import opened PyStr
  import opened Records

  /** One row of the metadata table, as `csv.DictReader` yields it. */
  type Row = map<string, string>

  /**
   * The four exclusion dictionaries. `excludeIf`'s entry under 'negatives'
   * is not a column test (label_classes reads it), so it is skipped here.
   */
  datatype Filters = Filters(
    excludeIf: map<string, string>,
    excludeIfNot: map<string, string>,
    excludeBelow: map<string, int>,
    excludeAbove: map<string, int>)

  /** The columns get_metadata reads from every row it keeps. */
  predicate HasColumns(row: Row) {
    && "docid" in row && "genretags" in row && "nationality" in row && "author" in row
    && "date" in row && "birthdate" in row && "gender" in row && "title" in row && "firstpub" in row
  }

  /** The text of a column; a column the row lacks reads as empty here, since the methods require it. */
  function Cell(row: Row, column: string): string {
    if column in row then row[column] else ""
  }

  /** Every column the code looks up is in the row (otherwise Python raises KeyError). */
  predicate Readable(row: Row, f: Filters) {
    && HasColumns(row)
    && (forall k | k in f.excludeIf && k != "negatives" :: k in row)
    && f.excludeIfNot.Keys <= row.Keys
    && f.excludeBelow.Keys <= row.Keys
    && f.excludeAbove.Keys <= row.Keys
  }

  // ------------------------------------------------------------------ bailing

  predicate IfHit(row: Row, excludeIf: map<string, string>, keys: set<string>) {
    exists k | k in keys && k in excludeIf && k != "negatives" && k in row :: row[k] == excludeIf[k]
  }

  predicate IfNotHit(row: Row, excludeIfNot: map<string, string>, keys: set<string>) {
    exists k | k in keys && k in excludeIfNot && k in row :: row[k] != excludeIfNot[k]
  }

  predicate BelowHit(row: Row, excludeBelow: map<string, int>, keys: set<string>) {
    exists k | k in keys && k in excludeBelow && k in row :: ForceInt(row[k]) < excludeBelow[k]
  }

  predicate AboveHit(row: Row, excludeAbove: map<string, int>, keys: set<string>) {
    exists k | k in keys && k in excludeAbove && k in row :: ForceInt(row[k]) > excludeAbove[k]
  }

  /**
   * A row is left out when some `excludeif` column equals its value, some
   * `excludeifnot` column differs from its value, or some `excludebelow` /
   * `excludeabove` column, read with forceint, lies below / above its bound.
   */
  predicate Bails(row: Row, f: Filters) {
    || IfHit(row, f.excludeIf, f.excludeIf.Keys)
    || IfNotHit(row, f.excludeIfNot, f.excludeIfNot.Keys)
    || BelowHit(row, f.excludeBelow, f.excludeBelow.Keys)
    || AboveHit(row, f.excludeAbove, f.excludeAbove.Keys)
  }

  /** The `excludeif` loop: some column (other than 'negatives') equals its value. */
  method ExcludeIfLoop(row: Row, excludeIf: map<string, string>) returns (bail: bool)
    ensures bail == IfHit(row, excludeIf, excludeIf.Keys)
  {
    bail := false;
    var rest := excludeIf.Keys;
    while rest != {}
      invariant rest <= excludeIf.Keys
      invariant bail == IfHit(row, excludeIf, excludeIf.Keys - rest)
      decreases |rest|
    {
      var key :| key in rest;
      if key != "negatives" && key in row && row[key] == excludeIf[key] {
        bail := true;
      }
      rest := rest - {key};
    }
    assert excludeIf.Keys - rest == excludeIf.Keys;
  }

  /** The `excludeifnot` loop: some column differs from its value. */
  method ExcludeIfNotLoop(row: Row, excludeIfNot: map<string, string>) returns (bail: bool)
    ensures bail == IfNotHit(row, excludeIfNot, excludeIfNot.Keys)
  {
    bail := false;
    var rest := excludeIfNot.Keys;
    while rest != {}
      invariant rest <= excludeIfNot.Keys
      invariant bail == IfNotHit(row, excludeIfNot, excludeIfNot.Keys - rest)
      decreases |rest|
    {
      var key :| key in rest;
      if key in row && row[key] != excludeIfNot[key] {
        bail := true;
      }
      rest := rest - {key};
    }
    assert excludeIfNot.Keys - rest == excludeIfNot.Keys;
  }

  /** The `excludebelow` loop: some column, read with forceint, is below its bound. */
  method ExcludeBelowLoop(row: Row, excludeBelow: map<string, int>) returns (bail: bool)
    ensures bail == BelowHit(row, excludeBelow, excludeBelow.Keys)
  {
    bail := false;
    var rest := excludeBelow.Keys;
    while rest != {}
      invariant rest <= excludeBelow.Keys
      invariant bail == BelowHit(row, excludeBelow, excludeBelow.Keys - rest)
      decreases |rest|
    {
      var key :| key in rest;
      if key in row && ForceInt(row[key]) < excludeBelow[key] {
        bail := true;
      }
      rest := rest - {key};
    }
    assert excludeBelow.Keys - rest == excludeBelow.Keys;
  }

  /** The `excludeabove` loop: some column, read with forceint, is above its bound. */
  method ExcludeAboveLoop(row: Row, excludeAbove: map<string, int>) returns (bail: bool)
    ensures bail == AboveHit(row, excludeAbove, excludeAbove.Keys)
  {
    bail := false;
    var rest := excludeAbove.Keys;
    while rest != {}
      invariant rest <= excludeAbove.Keys
      invariant bail == AboveHit(row, excludeAbove, excludeAbove.Keys - rest)
      decreases |rest|
    {
      var key :| key in rest;
      if key in row && ForceInt(row[key]) > excludeAbove[key] {
        bail := true;
      }
      rest := rest - {key};
    }
    assert excludeAbove.Keys - rest == excludeAbove.Keys;
  }

  /** The four exclusion loops of metafilter.py:60-76, each of which can only set `bail`. */
  method Bail(row: Row, f: Filters) returns (bail: bool)
    ensures bail == Bails(row, f)
  {
    var byIf := ExcludeIfLoop(row, f.excludeIf);
    var byIfNot := ExcludeIfNotLoop(row, f.excludeIfNot);
    var byBelow := ExcludeBelowLoop(row, f.excludeBelow);
    var byAbove := ExcludeAboveLoop(row, f.excludeAbove);
    bail := byIf || byIfNot || byBelow || byAbove;
  }

  // ------------------------------------------------------------ normalisation

  /** `set([x.strip() for x in tagstring.strip().split('|')])`. */
  function Tagset(genretags: string): set<string> {
    set x | x in Split(Strip(genretags), '|') :: Strip(x)
  }

  /** Canadian volumes count as American and Irish ones as British. */
  function Nation(nationality: string): string {
    var nation := RStrip(nationality);
    if nation == "ca" then "us" else if nation == "ir" then "uk" else nation
  }

  /** The placeholder for the k-th volume with no author. */
  function Anonymous(k: nat): string {
    "anonymous" + NatToString(k)
  }

  /** An author field that counts as missing once stripped. */
  predicate BlankAuthor(author: string) {
    |Strip(author)| < 1 || Strip(author) == "<blank>"
  }

  /** The author column, stripped, with a blank one replaced by the next placeholder. */
  function Author(author: string, anonctr: nat): string {
    if BlankAuthor(author) then Anonymous(anonctr) else Strip(author)
  }

  /** A missing (zero) first-publication date falls back on a known publication date. */
  function FirstPub(firstpub: int, pubdate: int): int {
    if firstpub == 0 && pubdate > 0 then pubdate else firstpub
  }

  /**
   * The record get_metadata stores for a kept row (metafilter.py:78-104),
   * with `anonctr` the number of blank authors met so far.
   */
  function Normalize(row: Row, anonctr: nat): DocRecord
  {
    var pubdate := ForceInt(Cell(row, "date"));
    var firstpub := ForceInt(Cell(row, "firstpub"));
    DocRecord(
      docid := Cell(row, "docid"),
      pubdate := pubdate,
      birthdate := ForceInt(Cell(row, "birthdate")),
      firstpub := FirstPub(firstpub, pubdate),
      gender := RStrip(Cell(row, "gender")),
      nation := Nation(Cell(row, "nationality")),
      author := Author(Cell(row, "author"), anonctr),
      title := Cell(row, "title"),
      tagset := Tagset(Cell(row, "genretags")))
  }

  /** The counter after one more kept row. */
  function NextCounter(row: Row, anonctr: nat): nat
  {
    if BlankAuthor(Cell(row, "author")) then anonctr + 1 else anonctr
  }

  /** `anonctr` after the rows: the number of kept rows with a blank author. */
  function Counter(rows: seq<Row>, f: Filters): nat
  {
    if |rows| == 0 then 0
    else
      var row := rows[|rows| - 1];
      var prev := Counter(rows[..|rows| - 1], f);
      if Bails(row, f) then prev else NextCounter(row, prev)
  }

  /** `metadict` after the rows, in order; a later row with the same docid replaces an earlier one. */
  function MetaDict(rows: seq<Row>, f: Filters): map<string, DocRecord>
  {
    if |rows| == 0 then map[]
    else
      var init := rows[..|rows| - 1];
      var row := rows[|rows| - 1];
      if Bails(row, f) then MetaDict(init, f)
      else MetaDict(init, f)[Cell(row, "docid") := Normalize(row, Counter(init, f))]
  }

  /** The nationality step of the row loop (metafilter.py:79-84). */
  method FoldNation(nationality: string) returns (nation: string)
    ensures nation == Nation(nationality)
  {
    nation := RStrip(nationality);
    if nation == "ca" {
      nation := "us";
    } else if nation == "ir" {
      nation := "uk";
    }
  }

  /** The author step of the row loop (metafilter.py:87-90): a blank author takes the next placeholder. */
  method NameAuthor(rawAuthor: string, anonctr: nat) returns (author: string, anonctrOut: nat)
    ensures author == Author(rawAuthor, anonctr)
    ensures anonctrOut == if BlankAuthor(rawAuthor) then anonctr + 1 else anonctr
  {
    anonctrOut := anonctr;
    author := Strip(rawAuthor);
    if |author| < 1 || author == "<blank>" {
      author := "anonymous" + NatToString(anonctrOut);
      anonctrOut := anonctrOut + 1;
    }
  }

  /** The body of the row loop once the row is kept (metafilter.py:53-56, 79-104). */
  method NormalizeRow(row: Row, anonctr: nat) returns (record: DocRecord, anonctrOut: nat)
    requires HasColumns(row)
    ensures record == Normalize(row, anonctr) && anonctrOut == NextCounter(row, anonctr)
  {
    var volid := row["docid"];
    var tagset := Tagset(row["genretags"]);
    var nation := FoldNation(row["nationality"]);
    var author;
    author, anonctrOut := NameAuthor(row["author"], anonctr);
    record := DocRecord(docid := volid, pubdate := ForceInt(row["date"]), birthdate := ForceInt(row["birthdate"]),
                        firstpub := ForceInt(row["firstpub"]), gender := RStrip(row["gender"]), nation := nation,
                        author := author, title := row["title"], tagset := tagset);
    if record.firstpub == 0 && record.pubdate > 0 {
      record := record.(firstpub := record.pubdate);
    }
  }

  function Intersection(metadict: map<string, DocRecord>, volumeIDs: seq<string>): map<string, DocRecord> {
    map k | k in metadict && k in volumeIDs :: metadict[k]
  }

  /** One more row: `metadict` and `anonctr` after `rows[..i + 1]` from their values after `rows[..i]`. */
  lemma RowStep(rows: seq<Row>, f: Filters, i: nat)
    requires i < |rows|
    ensures MetaDict(rows[..i + 1], f)
         == if Bails(rows[i], f) then MetaDict(rows[..i], f)
            else MetaDict(rows[..i], f)[Cell(rows[i], "docid") := Normalize(rows[i], Counter(rows[..i], f))]
    ensures Counter(rows[..i + 1], f) == if Bails(rows[i], f) then Counter(rows[..i], f) else NextCounter(rows[i], Counter(rows[..i], f))
  {
    assert rows[..i + 1][..i] == rows[..i];
  }

  /** The row loop of get_metadata (metafilter.py:51-104). */
  method ReadRows(rows: seq<Row>, f: Filters) returns (metadict: map<string, DocRecord>)
    requires forall i | 0 <= i < |rows| :: Readable(rows[i], f)
    ensures metadict == MetaDict(rows, f)
  {
    metadict := map[];
    var anonctr: nat := 0;
    for i := 0 to |rows|
      invariant metadict == MetaDict(rows[..i], f) && anonctr == Counter(rows[..i], f)
    {
      RowStep(rows, f, i);
      var row := rows[i];
      assert Readable(row, f);
      var bail := Bail(row, f);
      if bail {
        continue;
      }
      var record, counter := NormalizeRow(row, anonctr);
      metadict := metadict[row["docid"] := record];
      anonctr := counter;
    }
    assert rows[..|rows|] == rows;
  }

  /** The final loop of get_metadata (metafilter.py:123-127). */
  method Intersect(metadict: map<string, DocRecord>, volumeIDs: seq<string>) returns (result: map<string, DocRecord>)
    ensures result == Intersection(metadict, volumeIDs)
  {
    result := map[];
    for i := 0 to |volumeIDs|
      invariant result.Keys == set k | k in metadict && k in volumeIDs[..i]
      invariant forall k | k in result :: result[k] == metadict[k]
    {
      assert volumeIDs[..i + 1] == volumeIDs[..i] + [volumeIDs[i]];
      if volumeIDs[i] in metadict {
        result := result[volumeIDs[i] := metadict[volumeIDs[i]]];
      }
    }
    assert volumeIDs[..|volumeIDs|] == volumeIDs;
  }

  /**
   * `get_metadata(classpath, volumeIDs, excludeif, excludeifnot,
   * excludebelow, excludeabove)` with the file already read into `rows`.
   */
  method GetMetadata(rows: seq<Row>, volumeIDs: seq<string>, f: Filters) returns (result: map<string, DocRecord>)
    requires forall i | 0 <= i < |rows| :: Readable(rows[i], f)
    ensures result == Intersection(MetaDict(rows, f), volumeIDs)
  {
    var metadict := ReadRows(rows, f);
    result := Intersect(metadict, volumeIDs);
  }

  // --------------------------------------------------------------- properties

  /** The row passes every filter and carries docid `k`. */
  predicate Kept(row: Row, f: Filters, k: string) {
    !Bails(row, f) && Cell(row, "docid") == k
  }

  /** The index of the last kept row with docid `k`, or -1 when there is none. */
  function LastKept(rows: seq<Row>, f: Filters, k: string): (r: int)
    ensures -1 <= r < |rows|
    ensures r >= 0 ==> Kept(rows[r], f, k)
    ensures forall j | r < j < |rows| :: !Kept(rows[j], f, k)
  {
    hide Bails;
    if |rows| == 0 then -1
    else if Kept(rows[|rows| - 1], f, k) then |rows| - 1
    else
      var r := LastKept(rows[..|rows| - 1], f, k);
      assert forall j | r < j < |rows| - 1 :: rows[..|rows| - 1][j] == rows[j];
      r
  }

  /**
   * metadict holds exactly the docids of the kept rows, and under each the
   * record of the LAST kept row carrying it, normalised with the blank-author
   * counter as it stood when that row was read.
   */
  lemma {:induction false} MetaDictEntry(rows: seq<Row>, f: Filters, k: string)
    ensures k in MetaDict(rows, f) <==> LastKept(rows, f, k) >= 0
    ensures k in MetaDict(rows, f) ==>
      var i := LastKept(rows, f, k);
      MetaDict(rows, f)[k] == Normalize(rows[i], Counter(rows[..i], f))
  {
    // Only the shape of the fold matters here, not what a record holds or why a row bails.
    hide Normalize;
    hide Bails;
    if |rows| > 0 {
      var last := |rows| - 1;
      var init := rows[..last];
      MetaDictEntry(init, f, k);
      if !Kept(rows[last], f, k) {
        var i := LastKept(init, f, k);
        if i >= 0 {
          assert init[..i] == rows[..i];
        }
      }
    }
  }

  /** get_metadata returns a volume exactly when it is listed in `volumeIDs` and some row with its docid passed every filter. */
  lemma GetMetadataKeys(rows: seq<Row>, volumeIDs: seq<string>, f: Filters, k: string)
    ensures k in Intersection(MetaDict(rows, f), volumeIDs) <==>
      k in volumeIDs && exists i | 0 <= i < |rows| :: Kept(rows[i], f, k)
  {
    MetaDictEntry(rows, f, k);
    var i := LastKept(rows, f, k);
    if i >= 0 {
      assert Kept(rows[i], f, k);
    }
  }

  /**
   * What normalisation guarantees of a stored record: it is filed under its
   * own docid, 'ca' and 'ir' have become 'us' and 'uk', a zero firstpub was
   * replaced by a positive pubdate, and the author is never blank.
   */
  predicate NormalizedUnder(k: string, r: DocRecord) {
    && r.docid == k
    && r.nation != "ca" && r.nation != "ir"
    && (r.firstpub == 0 ==> r.pubdate <= 0)
    && |r.author| > 0 && r.author != "<blank>"
  }

  /** No record keeps the nationality 'ca' or 'ir'. */
  lemma NationFolded(nationality: string)
    ensures Nation(nationality) != "ca" && Nation(nationality) != "ir"
    ensures RStrip(nationality) !in {"ca", "ir"} ==> Nation(nationality) == RStrip(nationality)
  {
  }

  /** The stored author is never empty and never '<blank>'. */
  lemma AuthorNeverBlank(author: string, anonctr: nat)
    ensures |Author(author, anonctr)| > 0 && Author(author, anonctr) != "<blank>"
  {
    if BlankAuthor(author) {
      assert Author(author, anonctr)[..9] == "anonymous";
    }
  }

  /** A first-publication date is zero afterwards only when no positive publication date was known. */
  lemma FirstPubFilled(firstpub: int, pubdate: int)
    ensures FirstPub(firstpub, pubdate) == 0 ==> pubdate <= 0
    ensures firstpub != 0 ==> FirstPub(firstpub, pubdate) == firstpub
  {
  }

  lemma NormalizeGuarantees(row: Row, anonctr: nat)
    ensures NormalizedUnder(Cell(row, "docid"), Normalize(row, anonctr))
  {
    NationFolded(Cell(row, "nationality"));
    AuthorNeverBlank(Cell(row, "author"), anonctr);
    FirstPubFilled(ForceInt(Cell(row, "firstpub")), ForceInt(Cell(row, "date")));
  }

  /** Every record get_metadata returns is normalised and filed under its docid. */
  lemma GetMetadataRecords(rows: seq<Row>, volumeIDs: seq<string>, f: Filters)
    ensures var result := Intersection(MetaDict(rows, f), volumeIDs);
      forall k | k in result :: NormalizedUnder(k, result[k])
  {
    forall k | k in MetaDict(rows, f) ensures NormalizedUnder(k, MetaDict(rows, f)[k]) {
      MetaDictEntry(rows, f, k);
      var i := LastKept(rows, f, k);
      NormalizeGuarantees(rows[i], Counter(rows[..i], f));
    }
  }

  /** The blank-author counter never goes down as rows are read: no prefix has counted more. */
  lemma {:induction false} CounterMonotone(rows: seq<Row>, f: Filters, a: nat)
    requires a <= |rows|
    ensures Counter(rows[..a], f) <= Counter(rows, f)
  {
    if a < |rows| {
      var init := rows[..|rows| - 1];
      assert init[..a] == rows[..a];
      CounterMonotone(init, f, a);
    } else {
      assert rows[..a] == rows;
    }
  }

  /** Two different counter values give two different placeholders. */
  lemma AnonymousInjective(m: nat, n: nat)
    requires m != n
    ensures Anonymous(m) != Anonymous(n)
  {
    NatToStringInjective(m, n);
    assert Anonymous(m)[9..] == NatToString(m);
    assert Anonymous(n)[9..] == NatToString(n);
  }

  /** Two kept rows with blank authors are given different `anonymous<k>` names. */
  lemma AnonymousNamesDistinct(rows: seq<Row>, f: Filters, i: nat, j: nat)
    requires i < j < |rows|
    requires !Bails(rows[i], f) && BlankAuthor(Cell(rows[i], "author"))
    requires !Bails(rows[j], f) && BlankAuthor(Cell(rows[j], "author"))
    ensures Normalize(rows[i], Counter(rows[..i], f)).author != Normalize(rows[j], Counter(rows[..j], f)).author
  {
    assert rows[..i + 1][..i] == rows[..i];
    assert Counter(rows[..i + 1], f) == Counter(rows[..i], f) + 1;
    assert rows[..j][..i + 1] == rows[..i + 1];
    CounterMonotone(rows[..j], f, i + 1);
    AnonymousInjective(Counter(rows[..i], f), Counter(rows[..j], f));
  }
}

/**
 * The per-volume metadata record that get_metadata builds and every other
 * part of the cohort code reads, together with the two small helpers of
 * metafilter.py that work on single values: `forceint` and `dirty_pairtree`.
 */
module Records {
  import opened PyStr

  /** The date columns a cohort can be divided or matched on. */
  datatype DateField = PubDate | BirthDate | FirstPub

  /**
   * One volume: the dictionary get_metadata stores under `metadict[volid]`.
   * The dates are already integers (forceint was applied when the row was read).
   */
  datatype DocRecord = DocRecord(
    docid: string,
    pubdate: int,
    birthdate: int,
    firstpub: int,
    gender: string,
    nation: string,
    author: string,
    title: string,
    tagset: set<string>)

  /** `docdict[datetype]` for one of the date keys. */
  function DateOf(r: DocRecord, field: DateField): int {
    match field
    case PubDate => r.pubdate
    case BirthDate => r.birthdate
    case FirstPub => r.firstpub
  }

  // ------------------------------------------------------------------ forceint

  /** `forceint(s)`: `int(s)`, or 0 when `int` raises. */
  function ForceInt(s: string): (r: int)
    ensures r != 0 ==> ParseInt(s) == Some(r)
    ensures ParseInt(s).None? ==> r == 0
  {
    match ParseInt(s)
    case Some(v) => v
    case None => 0
  }

  /** The decimal numeral Python's `str` prints for an integer. */
  function IntToString(i: int): string {
    if i >= 0 then NatToString(i) else "-" + NatToString(-i)
  }

  /** forceint reads back every integer that `str` printed. */
  lemma ForceIntOfNumeral(i: int)
    ensures ForceInt(IntToString(i)) == i
  {
    if i >= 0 {
      ParseIntOfNatToString(i);
    } else {
      var t := NatToString(-i);
      DigitsAreNumeral(t);
      DigitsValueOfNatToString(-i);
      ParseIntOfNegativeNumeral(t);
    }
  }

  /** A string with no digit at all is coerced to 0 instead of failing. */
  lemma ForceIntWithoutDigits(s: string)
    requires forall i | 0 <= i < |s| :: !IsDigit(s[i])
    ensures ForceInt(s) == 0
  {
    var l := LStrip(s);
    var t := RStrip(l);
    assert forall c | c in t :: c in s by {
      forall c | c in t ensures c in s {
        var k :| 0 <= k < |t| && t[k] == c;
        assert l[k] == c;
        assert s[|s| - |l| + k] == c;
      }
    }
  }

  // ------------------------------------------------------------ dirty_pairtree

  /**
   * `dirty_pairtree(htid)`: a HathiTrust id kept in a file name has ':' and
   * '/' written as '+' and '='; this undoes that in the part after the first
   * period, but only when that part contains an '='. Python's slices are
   * followed exactly: when there is no period, `find` gives -1, so the prefix
   * `htid[0:-1]` loses its last character and the postfix is all of `htid`.
   */
  function DirtyPairtree(htid: string): (r: string)
    ensures '.' in htid ==> |r| == |htid| && r[..Find(htid, '.') + 1] == htid[..Find(htid, '.') + 1]
  {
    var period := Find(htid, '.');
    var prefix := if period >= 0 then htid[..period]
                  else if |htid| > 0 then htid[..|htid| - 1] else "";
    var postfix := htid[period + 1..];
    var restored := if '=' in postfix then ReplaceChar(ReplaceChar(postfix, '+', ':'), '=', '/')
                    else postfix;
    assert period >= 0 ==> |prefix| == period && |restored| == |postfix| == |htid| - period - 1;
    assert period >= 0 ==> (prefix + "." + restored)[..period + 1] == htid[..period + 1];
    prefix + "." + restored
  }

  /**
   * The filename-safe form that DirtyPairtree inverts (the pairtree "clean"
   * rule): after the first period, ':' becomes '+' and '/' becomes '='.
   */
  function CleanPairtree(htid: string): string
    requires '.' in htid
  {
    var period := Find(htid, '.');
    htid[..period] + "." + ReplaceChar(ReplaceChar(htid[period + 1..], ':', '+'), '/', '=')
  }

  /** The first period of `prefix + "." + rest` is the one after `prefix`. */
  lemma FindAfterPrefix(prefix: string, rest: string)
    requires '.' !in prefix
    ensures Find(prefix + "." + rest, '.') == |prefix|
  {
    var s := prefix + "." + rest;
    assert s[|prefix|] == '.';
  }

  /** Character by character, the clean substitution followed by the dirty one is the identity. */
  lemma CleanThenDirtyChars(post: string)
    requires '+' !in post && '=' !in post
    ensures ReplaceChar(ReplaceChar(ReplaceChar(ReplaceChar(post, ':', '+'), '/', '='), '+', ':'), '=', '/') == post
  {
    var a := ReplaceChar(post, ':', '+');
    var b := ReplaceChar(a, '/', '=');
    var c := ReplaceChar(b, '+', ':');
    var d := ReplaceChar(c, '=', '/');
    forall i | 0 <= i < |post| ensures d[i] == post[i] {
      assert post[i] != '+' && post[i] != '=';
    }
  }

  lemma CleanPairtreeSplit(prefix: string, post: string)
    requires '.' !in prefix
    ensures CleanPairtree(prefix + "." + post) == prefix + "." + ReplaceChar(ReplaceChar(post, ':', '+'), '/', '=')
  {
    var htid := prefix + "." + post;
    FindAfterPrefix(prefix, post);
    assert htid[..|prefix|] == prefix && htid[|prefix| + 1..] == post;
  }

  lemma DirtyPairtreeSplit(prefix: string, post: string)
    requires '.' !in prefix && '=' in post
    ensures DirtyPairtree(prefix + "." + post) == prefix + "." + ReplaceChar(ReplaceChar(post, '+', ':'), '=', '/')
  {
    var htid := prefix + "." + post;
    FindAfterPrefix(prefix, post);
    assert htid[..|prefix|] == prefix && htid[|prefix| + 1..] == post;
  }

  /**
   * Round trip: an id whose part after the first period has a '/' and no
   * '+' or '=' comes back unchanged from its filename-safe form.
   */
  lemma DirtyCleanRoundTrip(prefix: string, post: string)
    requires '.' !in prefix
    requires '+' !in post && '=' !in post && '/' in post
    ensures DirtyPairtree(CleanPairtree(prefix + "." + post)) == prefix + "." + post
  {
    var cleaned := ReplaceChar(ReplaceChar(post, ':', '+'), '/', '=');
    CleanPairtreeSplit(prefix, post);
    var k :| 0 <= k < |post| && post[k] == '/';
    assert cleaned[k] == '=';
    DirtyPairtreeSplit(prefix, cleaned);
    CleanThenDirtyChars(post);
  }

  /** An id with a period and no '=' after it is already in its ordinary form. */
  lemma DirtyPairtreeKeepsOrdinaryIds(htid: string)
    requires '.' in htid
    requires '=' !in htid[Find(htid, '.') + 1..]
    ensures DirtyPairtree(htid) == htid
  {
    var period := Find(htid, '.');
    assert htid == htid[..period] + "." + htid[period + 1..];
  }

  /**
   * Without a period the source's slices duplicate the id, less one
   * character: "abc" becomes "ab.abc".
   */
  lemma DirtyPairtreeWithoutPeriod(htid: string)
    requires |htid| > 0 && '.' !in htid && '=' !in htid
    ensures DirtyPairtree(htid) == htid[..|htid| - 1] + "." + htid
  {
  }
}

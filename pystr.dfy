/**
 * The Python string built-ins that the metadata code relies on, written out
 * over `string` (a sequence of `char`): `str.strip`/`rstrip`, `str.split`,
 * the substring test `pat in s`, `str.replace`, `str.find`, `str.isdigit`,
 * `int(s)` and `str(n)`. Whitespace is Python's full set; digits are the
 * ASCII ones.
 */
module PyStr {

  datatype Option<T> = None | Some(value: T)

  // ---------------------------------------------------------------- whitespace

  /**
   * The characters `str.isspace()` accepts, which `str.strip()` and `int()`
   * remove: tab to carriage return, the four ASCII separators 0x1c-0x1f,
   * space, and the Unicode spaces and line and paragraph separators.
   */
  predicate IsSpace(c: char) {
    var n := c as int;
    || 0x09 <= n <= 0x0d || 0x1c <= n <= 0x20 || n == 0x85 || n == 0xa0 || n == 0x1680
    || 0x2000 <= n <= 0x200a || n == 0x2028 || n == 0x2029 || n == 0x202f || n == 0x205f || n == 0x3000
  }

  /** `s.lstrip()`: the suffix of `s` that starts at its first non-space. */
  function LStrip(s: string): (r: string)
    ensures |r| <= |s| && r == s[|s| - |r|..]
    ensures forall i | 0 <= i < |s| - |r| :: IsSpace(s[i])
    ensures |r| > 0 ==> !IsSpace(r[0])
  {
    if |s| > 0 && IsSpace(s[0]) then
      var r := LStrip(s[1..]);
      assert s[1..][|s| - 1 - |r|..] == s[|s| - |r|..];
      assert forall i | 1 <= i < |s| - |r| :: s[i] == s[1..][i - 1];
      r
    else s
  }

  /** `s.rstrip()`: the prefix of `s` that ends at its last non-space. */
  function RStrip(s: string): (r: string)
    ensures |r| <= |s| && r == s[..|r|]
    ensures forall i | |r| <= i < |s| :: IsSpace(s[i])
    ensures |r| > 0 ==> !IsSpace(r[|r| - 1])
  {
    if |s| > 0 && IsSpace(s[|s| - 1]) then
      var r := RStrip(s[..|s| - 1]);
      assert s[..|s| - 1][..|r|] == s[..|r|];
      assert forall i | |r| <= i < |s| - 1 :: s[i] == s[..|s| - 1][i];
      r
    else s
  }

  /** `s.strip()`. */
  function Strip(s: string): string {
    RStrip(LStrip(s))
  }

  // ------------------------------------------------------------------ splitting

  /** `s.split(sep)` for a one-character separator: never empty, and no piece holds `sep`. */
  function Split(s: string, sep: char): (r: seq<string>)
    ensures |r| >= 1
    ensures forall k | 0 <= k < |r| :: sep !in r[k]
  {
    if |s| == 0 then [""]
    else
      var rest := Split(s[1..], sep);
      if s[0] == sep then [""] + rest
      else [[s[0]] + rest[0]] + rest[1..]
  }

  /** `sep.join(parts)`: the inverse of `Split`. */
  function Join(parts: seq<string>, sep: char): string
    requires |parts| >= 1
  {
    if |parts| == 1 then parts[0] else parts[0] + [sep] + Join(parts[1..], sep)
  }

  lemma {:induction false} JoinSplit(s: string, sep: char)
    ensures Join(Split(s, sep), sep) == s
  {
    if |s| > 0 {
      var rest := Split(s[1..], sep);
      JoinSplit(s[1..], sep);
      if s[0] == sep {
        assert Split(s, sep)[1..] == rest;
      } else {
        var r := Split(s, sep);
        assert r[0] == [s[0]] + rest[0];
        if |rest| == 1 {
          assert Join(r, sep) == [s[0]] + rest[0];
        } else {
          assert r[1..] == rest[1..];
          assert Join(rest, sep) == rest[0] + [sep] + Join(rest[1..], sep);
        }
      }
    }
  }

  // ------------------------------------------------------------------ searching

  predicate StartsWith(s: string, pat: string) {
    |pat| <= |s| && s[..|pat|] == pat
  }

  /** Python's `pat in s` for strings: `pat` occurs somewhere in `s`. */
  predicate Contains(s: string, pat: string)
    decreases |s|
  {
    StartsWith(s, pat) || (|s| > 0 && Contains(s[1..], pat))
  }

  /** `s.find(c)`: the first index of `c`, or -1 when `c` does not occur. */
  function Find(s: string, c: char): (r: int)
    ensures -1 <= r < |s|
    ensures r >= 0 ==> s[r] == c && c !in s[..r]
    ensures r == -1 <==> c !in s
  {
    if |s| == 0 then -1
    else if s[0] == c then 0
    else
      var k := Find(s[1..], c);
      assert s[1..][..k + 1] == s[1..k + 2] by { }
      if k == -1 then -1 else k + 1
  }

  /** A string without the first character of `pat` does not contain `pat`. */
  lemma {:induction false} NotContainsWithoutFirst(s: string, pat: string)
    requires |pat| > 0 && pat[0] !in s
    ensures !Contains(s, pat)
    decreases |s|
  {
    if |s| > 0 {
      assert pat[0] !in s[1..] by {
        forall i | 0 <= i < |s| - 1 ensures s[1..][i] != pat[0] {
          assert s[1..][i] == s[i + 1];
        }
      }
      NotContainsWithoutFirst(s[1..], pat);
      if |pat| <= |s| {
        assert s[..|pat|][0] == s[0];
      }
    }
  }

  // ---------------------------------------------------------------- replacement

  /** `s.replace(pat, rep)`: left-to-right, non-overlapping. */
  function ReplaceAll(s: string, pat: string, rep: string): (r: string)
    requires |pat| > 0
    ensures !Contains(s, pat) ==> r == s
    ensures StartsWith(s, pat) && !Contains(s[|pat|..], pat) ==> r == rep + s[|pat|..]
    decreases |s|
  {
    if |s| < |pat| then s
    else if StartsWith(s, pat) then rep + ReplaceAll(s[|pat|..], pat, rep)
    else [s[0]] + ReplaceAll(s[1..], pat, rep)
  }

  /** `s.replace(a, b)` for single characters: every `a` becomes `b`, nothing else moves. */
  function ReplaceChar(s: string, a: char, b: char): (r: string)
    ensures |r| == |s|
    ensures forall i | 0 <= i < |s| :: r[i] == (if s[i] == a then b else s[i])
  {
    if |s| == 0 then [] else [if s[0] == a then b else s[0]] + ReplaceChar(s[1..], a, b)
  }

  // --------------------------------------------------------------------- digits

  predicate IsDigit(c: char) {
    '0' as int <= c as int <= '9' as int
  }

  /** `s.isdigit()`: non-empty and made of digits only. */
  predicate IsDigits(s: string) {
    |s| > 0 && forall i | 0 <= i < |s| :: IsDigit(s[i])
  }

  /** The value of a decimal numeral (leading zeros allowed, as in `int('007')`). */
  function DigitsValue(ds: string): nat
    requires forall i | 0 <= i < |ds| :: IsDigit(ds[i])
  {
    if |ds| == 0 then 0
    else
      assert IsDigit(ds[|ds| - 1]);
      DigitsValue(ds[..|ds| - 1]) * 10 + (ds[|ds| - 1] as int - '0' as int)
  }

  function Digit(d: nat): (c: char)
    requires d < 10
    ensures IsDigit(c)
  {
    ('0' as int + d) as char
  }

  /** `str(n)` for a natural number. */
  function NatToString(n: nat): (r: string)
    ensures IsDigits(r)
  {
    if n < 10 then [Digit(n)] else NatToString(n / 10) + [Digit(n % 10)]
  }

  lemma {:induction false} DigitsValueOfNatToString(n: nat)
    ensures DigitsValue(NatToString(n)) == n
  {
    if n >= 10 {
      DigitsValueOfNatToString(n / 10);
      var s := NatToString(n / 10);
      assert NatToString(n)[..|NatToString(n)| - 1] == s;
    }
  }

  /** Distinct numbers print differently (so "anonymous" + str(k) names are distinct). */
  lemma NatToStringInjective(m: nat, n: nat)
    requires m != n
    ensures NatToString(m) != NatToString(n)
  {
    DigitsValueOfNatToString(m);
    DigitsValueOfNatToString(n);
  }

  /** The character at `i` is a digit, or an underscore with a digit on either side. */
  predicate NumeralChar(s: string, i: nat)
    requires i < |s|
  {
    IsDigit(s[i]) || (s[i] == '_' && 0 < i < |s| - 1 && IsDigit(s[i - 1]) && IsDigit(s[i + 1]))
  }

  /** A numeral `int` accepts: digits, with single underscores allowed between two digits (`'1_900'`). */
  predicate IsNumeral(s: string) {
    && |s| > 0 && IsDigit(s[0]) && IsDigit(s[|s| - 1])
    && forall i | 0 <= i < |s| :: NumeralChar(s, i)
  }

  /** The numeral with its underscores taken out: only its digits are left. */
  function DropUnderscores(s: string): (r: string)
    ensures |r| <= |s|
    ensures '_' !in s ==> r == s
    ensures (forall i | 0 <= i < |s| :: IsDigit(s[i]) || s[i] == '_') ==> forall i | 0 <= i < |r| :: IsDigit(r[i])
  {
    if |s| == 0 then []
    else
      var init := DropUnderscores(s[..|s| - 1]);
      init + (if s[|s| - 1] == '_' then [] else [s[|s| - 1]])
  }

  /** The value of a numeral `int` accepts. */
  function NumeralValue(s: string): nat
    requires IsNumeral(s)
  {
    assert forall i | 0 <= i < |s| :: IsDigit(s[i]) || s[i] == '_' by {
      forall i | 0 <= i < |s| ensures IsDigit(s[i]) || s[i] == '_' {
        assert NumeralChar(s, i);
      }
    }
    DigitsValue(DropUnderscores(s))
  }

  /**
   * Python's `int(s)` on a string: surrounding whitespace is ignored, one
   * optional sign, then a numeral of the digits 0-9; anything else raises
   * ValueError, which is `None` here. (Python also reads the other Unicode
   * decimal digits, which this model does not.)
   */
  function ParseInt(s: string): (r: Option<int>)
    ensures r.Some? ==> var t := Strip(s); |t| > 0 && IsDigit(t[|t| - 1]) && (r.value < 0 ==> t[0] == '-')
  {
    Signed(Strip(s))
  }

  /** One optional sign, then a numeral: so a number read ends in a digit, and a negative one starts with '-'. */
  function Signed(t: string): (r: Option<int>)
    ensures r.Some? ==> |t| > 0 && IsDigit(t[|t| - 1]) && (r.value < 0 ==> t[0] == '-')
  {
    if |t| == 0 then None
    else
      var body := if t[0] == '-' || t[0] == '+' then t[1..] else t;
      if IsNumeral(body) then
        var magnitude: int := NumeralValue(body);
        Some(if t[0] == '-' then -magnitude else magnitude)
      else None
  }

  /** A plain digit string is a numeral of its own value. */
  lemma {:induction false} DigitsAreNumeral(s: string)
    requires IsDigits(s)
    ensures IsNumeral(s) && NumeralValue(s) == DigitsValue(s)
  {
    assert '_' !in s by {
      forall i | 0 <= i < |s| ensures s[i] != '_' {
        assert IsDigit(s[i]);
      }
    }
  }

  lemma {:induction false} DropUnderscoresConcat(a: string, b: string)
    ensures DropUnderscores(a + b) == DropUnderscores(a) + DropUnderscores(b)
  {
    if |b| > 0 {
      var b' := b[..|b| - 1];
      assert (a + b)[..|a + b| - 1] == a + b';
      DropUnderscoresConcat(a, b');
    } else {
      assert a + b == a;
    }
  }

  /** A string that neither starts nor ends with whitespace is its own `strip()`. */
  lemma {:induction false} StripUnchanged(s: string)
    requires |s| > 0 && !IsSpace(s[0]) && !IsSpace(s[|s| - 1])
    ensures Strip(s) == s
  {
  }

  /** A numeral without a sign reads as its value. */
  lemma {:induction false} SignedOfNumeral(t: string)
    requires IsNumeral(t)
    ensures Signed(t) == Some(NumeralValue(t))
  {
    assert IsDigit(t[0]);
  }

  /** A numeral after a minus sign reads as its negated value. */
  lemma {:induction false} SignedOfNegative(t: string)
    requires IsNumeral(t)
    ensures Signed("-" + t) == Some(-(NumeralValue(t) as int))
  {
    var m := "-" + t;
    assert m[0] == '-' && m[1..] == t;
  }

  /** `int` reads an unsigned numeral as its value. */
  lemma {:induction false} ParseIntOfNumeral(t: string)
    requires IsNumeral(t)
    ensures ParseInt(t) == Some(NumeralValue(t))
  {
    StripUnchanged(t);
    SignedOfNumeral(t);
  }

  /** `int` reads a minus sign and a numeral as the negated value. */
  lemma {:induction false} ParseIntOfNegativeNumeral(t: string)
    requires IsNumeral(t)
    ensures ParseInt("-" + t) == Some(-(NumeralValue(t) as int))
  {
    var m := "-" + t;
    assert m[|m| - 1] == t[|t| - 1];
    StripUnchanged(m);
    SignedOfNegative(t);
  }

  /** Underscores between digit groups are ignored: `int('1_900')` is `int('1900')`. */
  lemma {:induction false} ParseIntOfGroupedDigits(x: string, y: string)
    requires IsDigits(x) && IsDigits(y)
    ensures ParseInt(x + "_" + y) == Some(DigitsValue(x + y))
  {
    var s := x + "_" + y;
    assert IsNumeral(s) by {
      forall i | 0 <= i < |s| ensures NumeralChar(s, i) {
        if i < |x| {
          assert s[i] == x[i];
        } else if i > |x| {
          assert s[i] == y[i - |x| - 1];
        } else {
          assert s[i - 1] == x[|x| - 1] && s[i + 1] == y[0];
        }
      }
      assert s[|s| - 1] == y[|y| - 1];
    }
    ParseIntOfNumeral(s);
    DropUnderscoresConcat(x + "_", y);
    DropUnderscoresConcat(x, "_");
    assert DropUnderscores("_") == [];
    assert DropUnderscores(x + "_") == DropUnderscores(x);
    DigitsAreNumeral(x);
    DigitsAreNumeral(y);
    assert DropUnderscores(s) == x + y;
    assert NumeralValue(s) == DigitsValue(x + y);
  }

  lemma {:induction false} ParseIntOfNatToString(n: nat)
    ensures ParseInt(NatToString(n)) == Some(n)
  {
    DigitsAreNumeral(NatToString(n));
    ParseIntOfNumeral(NatToString(n));
    DigitsValueOfNatToString(n);
  }
}

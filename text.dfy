/**
 * The string operations the restriction manager relies on, as Python defines
 * them: `str.split(sep)` with a single-character separator, `'/' in s`,
 * `str.isdigit()` (over ASCII digits) and `int()` of a digit string.
 */
module Text {

  predicate IsAsciiDigit(c: char) {
    '0' <= c <= '9'
  }

  /** Python's `t.isdigit()` on ASCII text: at least one character, all of them digits. */
  predicate IsDigits(t: string) {
    |t| > 0 && forall i :: 0 <= i < |t| ==> IsAsciiDigit(t[i])
  }

  /** No leading zero, except for the single digit "0". */
  predicate IsCanonicalDigits(t: string) {
    IsDigits(t) && (|t| == 1 || t[0] != '0')
  }

  function DigitValue(c: char): (d: nat)
    requires IsAsciiDigit(c)
    ensures d < 10
  {
    (c as int) - ('0' as int)
  }

  function DigitChar(d: nat): (c: char)
    requires d < 10
    ensures IsAsciiDigit(c) && DigitValue(c) == d
  {
    (d + '0' as int) as char
  }

  /** `int(t)` for a string of ASCII digits (leading zeros allowed). */
  function DecimalValue(t: string): nat
    requires forall i :: 0 <= i < |t| ==> IsAsciiDigit(t[i])
  {
    if |t| == 0 then 0 else DecimalValue(t[..|t| - 1]) * 10 + DigitValue(t[|t| - 1])
  }

  /** `str(n)`: the shortest decimal text of `n`. */
  function DecimalText(n: nat): (t: string)
    ensures IsCanonicalDigits(t)
    ensures n < 10 <==> |t| == 1
  {
    if n < 10 then [DigitChar(n)] else DecimalText(n / 10) + [DigitChar(n % 10)]
  }

  lemma {:induction false} DecimalRoundTrip(n: nat)
    ensures DecimalValue(DecimalText(n)) == n
  {
    if n >= 10 {
      var t := DecimalText(n);
      assert t[..|t| - 1] == DecimalText(n / 10);
      DecimalRoundTrip(n / 10);
    }
  }

  lemma {:induction false} LeadingDigitPositive(t: string)
    requires IsDigits(t) && t[0] != '0'
    ensures DecimalValue(t) >= 1
    ensures |t| >= 2 ==> DecimalValue(t) >= 10
  {
    if |t| >= 2 {
      var init := t[..|t| - 1];
      assert init[0] == t[0];
      LeadingDigitPositive(init);
    }
  }

  /** A digit string without leading zeros is the decimal text of its own value. */
  lemma {:induction false} DecimalCanonical(t: string)
    requires IsCanonicalDigits(t)
    ensures DecimalText(DecimalValue(t)) == t
  {
    var init := t[..|t| - 1];
    if |t| == 1 {
      assert t == [t[0]];
    } else {
      assert init[0] == t[0];
      LeadingDigitPositive(t);
      LeadingDigitPositive(init);
      DecimalCanonical(init);
      var n := DecimalValue(t);
      assert n / 10 == DecimalValue(init) && n % 10 == DigitValue(t[|t| - 1]);
      assert t == init + [t[|t| - 1]];
    }
  }

  /** `int()` reads through a leading zero: "0" before a digit string keeps its value. */
  lemma {:induction false} LeadingZeroValue(t: string)
    requires forall i :: 0 <= i < |t| ==> IsAsciiDigit(t[i])
    ensures DecimalValue("0" + t) == DecimalValue(t)
  {
    var z := "0" + t;
    if |t| == 0 {
      assert z[..|z| - 1] == [];
    } else {
      assert z[..|z| - 1] == "0" + t[..|t| - 1];
      assert z[|z| - 1] == t[|t| - 1];
      LeadingZeroValue(t[..|t| - 1]);
    }
  }

  /** The number of occurrences of `c` in `s`. */
  function Count(s: string, c: char): (k: nat)
    ensures k == 0 <==> c !in s
    ensures k <= |s|
  {
    if |s| == 0 then 0 else (if s[0] == c then 1 else 0) + Count(s[1..], c)
  }

  /** The position of the first `c` in `s`. */
  function IndexOf(s: string, c: char): (k: nat)
    requires c in s
    ensures k < |s| && s[k] == c && c !in s[..k]
  {
    if s[0] == c then 0 else 1 + IndexOf(s[1..], c)
  }

  /** The text before the first `c`. */
  function Before(s: string, c: char): string
    requires c in s
  {
    s[..IndexOf(s, c)]
  }

  /** The text after the first `c`. */
  function After(s: string, c: char): string
    requires c in s
  {
    s[IndexOf(s, c) + 1..]
  }

  /** `c.join(parts)`. */
  function Join(parts: seq<string>, c: char): string
    requires |parts| > 0
  {
    if |parts| == 1 then parts[0] else parts[0] + [c] + Join(parts[1..], c)
  }

  /** A first `c` adds one occurrence to those after it. */
  lemma CountAfterFirst(x: string, y: string, c: char)
    requires c !in x
    ensures Count(x + [c] + y, c) == Count(y, c) + 1
  {
    CountConcat(x, [c] + y, c);
    assert x + [c] + y == x + ([c] + y);
    assert ([c] + y)[0] == c && ([c] + y)[1..] == y;
  }

  /** The first `c` cuts the text into what comes before it and what comes after it. */
  lemma CountAround(s: string, c: char)
    requires c in s
    ensures s == Before(s, c) + [c] + After(s, c)
    ensures Count(s, c) == Count(After(s, c), c) + 1
  {
    var k := IndexOf(s, c);
    assert s == s[..k] + [c] + s[k + 1..];
    CountAfterFirst(s[..k], s[k + 1..], c);
  }

  /** Python's `s.split(c)`: one piece more than there are separators, none containing one. */
  function Split(s: string, c: char): (r: seq<string>)
    ensures |r| == Count(s, c) + 1
    ensures forall i :: 0 <= i < |r| ==> c !in r[i]
    ensures Join(r, c) == s
    decreases |s|
  {
    if c !in s then [s]
    else
      CountAround(s, c);
      var rest := Split(After(s, c), c);
      var r := [Before(s, c)] + rest;
      assert r[0] == Before(s, c) && r[1..] == rest;
      r
  }

  lemma SplitNoSeparator(x: string, c: char)
    requires c !in x
    ensures Split(x, c) == [x]
  {
  }

  lemma SplitAfterFirst(x: string, y: string, c: char)
    requires c !in x
    ensures Split(x + [c] + y, c) == [x] + Split(y, c)
  {
    var s := x + [c] + y;
    IndexOfFirst(x, y, c);
    assert s[|x|] == c;
    assert Before(s, c) == x;
    assert After(s, c) == y;
  }

  /** Splitting undoes joining pieces that hold no separator. */
  lemma {:induction false} SplitJoin(parts: seq<string>, c: char)
    requires |parts| > 0
    requires forall i :: 0 <= i < |parts| ==> c !in parts[i]
    ensures Split(Join(parts, c), c) == parts
  {
    if |parts| == 1 {
      SplitNoSeparator(parts[0], c);
    } else {
      SplitJoin(parts[1..], c);
      SplitAfterFirst(parts[0], Join(parts[1..], c), c);
      assert parts == [parts[0]] + parts[1..];
    }
  }

  lemma {:induction false} IndexOfFirst(x: string, y: string, c: char)
    requires c !in x
    ensures IndexOf(x + [c] + y, c) == |x|
  {
    if |x| > 0 {
      var s := x + [c] + y;
      assert s[1..] == x[1..] + [c] + y;
      assert c !in x[1..];
      IndexOfFirst(x[1..], y, c);
    }
  }

  /** With exactly one separator, `split` yields the text before and after it. */
  lemma SplitSingle(s: string, c: char)
    requires Count(s, c) == 1
    ensures Split(s, c) == [Before(s, c), After(s, c)]
  {
    CountAround(s, c);
    SplitNoSeparator(After(s, c), c);
  }

  /** A digit string holds no character other than a digit. */
  lemma DigitsAvoid(t: string, d: char)
    requires IsDigits(t) && !IsAsciiDigit(d)
    ensures d !in t
  {
    forall i | 0 <= i < |t|
      ensures t[i] != d
    {
      assert IsAsciiDigit(t[i]);
    }
  }

  /** Joining pieces that avoid `d` with a separator other than `d` avoids `d`. */
  lemma {:induction false} JoinAvoids(parts: seq<string>, c: char, d: char)
    requires |parts| > 0 && c != d
    requires forall i :: 0 <= i < |parts| ==> d !in parts[i]
    ensures d !in Join(parts, c)
  {
    if |parts| > 1 {
      JoinAvoids(parts[1..], c, d);
    }
  }

  /** Occurrences add up over a concatenation. */
  lemma {:induction false} CountConcat(x: string, y: string, c: char)
    ensures Count(x + y, c) == Count(x, c) + Count(y, c)
  {
    if |x| == 0 {
      assert x + y == y;
    } else {
      assert (x + y)[0] == x[0] && (x + y)[1..] == x[1..] + y;
      CountConcat(x[1..], y, c);
    }
  }

  /** `c.join` of four pieces. */
  lemma JoinFour(w: string, x: string, y: string, z: string, c: char)
    ensures Join([w, x, y, z], c) == w + [c] + x + [c] + y + [c] + z
  {
    var parts := [w, x, y, z];
    assert parts[1..] == [x, y, z] && parts[1..][1..] == [y, z] && parts[1..][1..][1..] == [z];
    assert Join([y, z], c) == y + [c] + z;
    assert Join([x, y, z], c) == x + [c] + (y + [c] + z);
  }
}

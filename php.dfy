/**
 * The few PHP built-ins the modelled classes lean on, stated over byte
 * strings (a `char` stands for one byte of a PHP string).
 *
 *  - `str_replace` with one search/replace pair (`ReplaceAll`),
 *  - `substr` with a non-negative start and length (`Substr`),
 *  - `rtrim` with a one-character mask (`RTrim`),
 *  - `str_repeat` (`Repeat`),
 *  - the decimal text of an integer inside a double-quoted string
 *    (`"{$n}"`, `Decimal`) and the reading of such text (`ParseDecimal`).
 */
module Php {

  datatype Option<+T> = None | Some(value: T)

  datatype Result<+T, +E> = Ok(value: T) | Err(error: E)

  /** Number of occurrences of `c` in `s`. */
  function CountChar(s: string, c: char): nat
  {
    if s == [] then 0 else (if s[0] == c then 1 else 0) + CountChar(s[1..], c)
  }

  lemma {:induction false} CountCharConcat(s: string, t: string, c: char)
    ensures CountChar(s + t, c) == CountChar(s, c) + CountChar(t, c)
  {
    if s == [] {
      assert s + t == t;
    } else {
      assert (s + t)[0] == s[0] && (s + t)[1..] == s[1..] + t;
      CountCharConcat(s[1..], t, c);
    }
  }

  lemma {:induction false} CountCharAbsent(s: string, c: char)
    ensures CountChar(s, c) == 0 <==> c !in s
  {
    if s != [] {
      CountCharAbsent(s[1..], c);
      assert s == [s[0]] + s[1..];
    }
  }

  // ---------------------------------------------------------------------
  // str_replace($search, $replace, $subject) for one non-array pair.
  // ---------------------------------------------------------------------

  /**
   * Every non-overlapping occurrence of `p` in `s`, found left to right, is
   * replaced by `x`. An empty search string leaves the subject unchanged.
   */
  function ReplaceAll(s: string, p: string, x: string): string
    decreases |s|
  {
    if p == [] || |s| < |p| then s
    else if s[..|p|] == p then x + ReplaceAll(s[|p|..], p, x)
    else [s[0]] + ReplaceAll(s[1..], p, x)
  }

  /** A subject that does not start with the search string keeps its first byte. */
  lemma ReplaceAllStep(s: string, p: string, x: string)
    requires s != [] && p != []
    requires !(|p| <= |s| && s[..|p|] == p)
    ensures ReplaceAll(s, p, x) == [s[0]] + ReplaceAll(s[1..], p, x)
  {
    if |s| < |p| {
      assert s == [s[0]] + s[1..];
    }
  }

  /** A subject that starts with the search string begins with the replacement. */
  lemma ReplaceAllHit(s: string, p: string, x: string)
    requires p != [] && |p| <= |s| && s[..|p|] == p
    ensures ReplaceAll(s, p, x) == x + ReplaceAll(s[|p|..], p, x)
  {
  }

  /** Every byte of the result comes from the subject or from the replacement. */
  lemma {:induction false} ReplaceAllFrom(s: string, p: string, x: string)
    ensures forall c :: c in ReplaceAll(s, p, x) ==> c in s || c in x
    decreases |s|
  {
    if p == [] || |s| < |p| {
    } else if s[..|p|] == p {
      ReplaceAllFrom(s[|p|..], p, x);
      forall c | c in s[|p|..] ensures c in s { }
    } else {
      ReplaceAllFrom(s[1..], p, x);
      forall c | c in s[1..] ensures c in s { }
    }
  }

  /** A byte absent from the subject and the replacement stays absent. */
  lemma ReplaceAllKeepsAbsent(s: string, p: string, x: string, c: char)
    requires c !in s && c !in x
    ensures c !in ReplaceAll(s, p, x)
  {
    ReplaceAllFrom(s, p, x);
  }

  /** Replacing a one-byte string by text without that byte removes it entirely. */
  lemma {:induction false} ReplaceAllRemovesChar(s: string, c: char, x: string)
    requires c !in x
    ensures c !in ReplaceAll(s, [c], x)
    decreases |s|
  {
    if s != [] {
      ReplaceAllRemovesChar(s[1..], c, x);
      if s[0] == c {
        assert s[..1] == [c];
      }
    }
  }

  /** With a non-empty replacement the result starts with the subject's or the replacement's first byte. */
  lemma ReplaceAllHead(s: string, p: string, x: string)
    requires s != [] && x != []
    ensures ReplaceAll(s, p, x) != []
    ensures ReplaceAll(s, p, x)[0] == s[0] || ReplaceAll(s, p, x)[0] == x[0]
  {
  }

  /** `s` never holds `a` immediately followed by `b`. */
  predicate NoPair(s: string, a: char, b: char)
  {
    forall i :: 0 <= i < |s| - 1 ==> !(s[i] == a && s[i + 1] == b)
  }

  lemma PairConcat(s: string, t: string, a: char, b: char)
    requires NoPair(s, a, b) && NoPair(t, a, b)
    requires s != [] && t != [] ==> !(s[|s| - 1] == a && t[0] == b)
    ensures NoPair(s + t, a, b)
  {
    forall i | 0 <= i < |s + t| - 1
      ensures !((s + t)[i] == a && (s + t)[i + 1] == b)
    {
      if i + 1 < |s| {
        assert (s + t)[i] == s[i] && (s + t)[i + 1] == s[i + 1];
      } else if i >= |s| {
        assert (s + t)[i] == t[i - |s|] && (s + t)[i + 1] == t[i - |s| + 1];
      } else {
        assert (s + t)[i] == s[|s| - 1] && (s + t)[i + 1] == t[0];
      }
    }
  }

  lemma NoPairSuffix(s: string, k: nat, a: char, b: char)
    requires k <= |s| && NoPair(s, a, b)
    ensures NoPair(s[k..], a, b)
  {
    forall i | 0 <= i < |s[k..]| - 1
      ensures !(s[k..][i] == a && s[k..][i + 1] == b)
    {
      assert s[k..][i] == s[i + k] && s[k..][i + 1] == s[i + k + 1];
    }
  }

  /** Replacing the two-byte string `ab` by text containing neither byte leaves no `ab`. */
  lemma {:induction false} ReplaceAllRemovesPair(s: string, a: char, b: char, x: string)
    requires x != [] && a !in x && b !in x
    ensures NoPair(ReplaceAll(s, [a, b], x), a, b)
    decreases |s|
  {
    var p := [a, b];
    if |s| < 2 {
    } else if s[..2] == p {
      ReplaceAllRemovesPair(s[2..], a, b, x);
      PairConcat(x, ReplaceAll(s[2..], p, x), a, b);
    } else {
      var t := ReplaceAll(s[1..], p, x);
      ReplaceAllRemovesPair(s[1..], a, b, x);
      ReplaceAllHead(s[1..], p, x);
      PairConcat([s[0]], t, a, b);
    }
  }

  /** A missing pair `ab` stays missing when the replacement holds neither byte. */
  lemma {:induction false} ReplaceAllKeepsNoPair(s: string, p: string, x: string, a: char, b: char)
    requires x != [] && a !in x && b !in x
    requires NoPair(s, a, b)
    ensures NoPair(ReplaceAll(s, p, x), a, b)
    decreases |s|
  {
    if p == [] || |s| < |p| {
    } else if s[..|p|] == p {
      NoPairSuffix(s, |p|, a, b);
      ReplaceAllKeepsNoPair(s[|p|..], p, x, a, b);
      PairConcat(x, ReplaceAll(s[|p|..], p, x), a, b);
    } else {
      NoPairSuffix(s, 1, a, b);
      ReplaceAllKeepsNoPair(s[1..], p, x, a, b);
      var t := ReplaceAll(s[1..], p, x);
      if s[1..] != [] {
        ReplaceAllHead(s[1..], p, x);
      }
      PairConcat([s[0]], t, a, b);
    }
  }

  /** With a one-byte search string, replacing distributes over concatenation. */
  lemma {:induction false} ReplaceCharConcat(s: string, t: string, c: char, x: string)
    ensures ReplaceAll(s + t, [c], x) == ReplaceAll(s, [c], x) + ReplaceAll(t, [c], x)
    decreases |s|
  {
    if s == [] {
      assert s + t == t;
    } else {
      assert (s + t)[1..] == s[1..] + t;
      assert (s + t)[..1] == s[..1];
      ReplaceCharConcat(s[1..], t, c, x);
    }
  }

  /** Replacing a one-byte string by a two-byte string adds one byte per occurrence. */
  lemma {:induction false} ReplaceCharLength(s: string, c: char, x: string)
    requires |x| == 2
    ensures |ReplaceAll(s, [c], x)| == |s| + CountChar(s, c)
    decreases |s|
  {
    if s != [] {
      ReplaceCharLength(s[1..], c, x);
      assert (s[..1] == [c]) == (s[0] == c);
    }
  }

  // ---------------------------------------------------------------------
  // substr, rtrim, str_repeat
  // ---------------------------------------------------------------------

  /**
   * substr($s, $start, $length) for a non-negative start and length: at most
   * `len` bytes from `start`, cut short at the end of the string. A start at
   * or past the end yields no text.
   */
  function Substr(s: string, start: nat, len: nat): (r: string)
    ensures start + len <= |s| ==> r == s[start..start + len]
    ensures |r| <= len
    ensures start < |s| < start + len ==> r == s[start..]
    ensures start >= |s| ==> r == []
  {
    if start >= |s| then []
    else if start + len <= |s| then s[start..start + len]
    else s[start..]
  }

  /** rtrim($s, $c): drop every trailing copy of `c`. */
  function RTrim(s: string, c: char): (r: string)
    ensures r != [] ==> r[|r| - 1] != c
    ensures r <= s
    ensures forall i :: |r| <= i < |s| ==> s[i] == c
  {
    if s == [] then []
    else if s[|s| - 1] == c then RTrim(s[..|s| - 1], c)
    else s
  }

  /** str_repeat($s, $n). */
  function Repeat(s: string, n: nat): (r: string)
    ensures |r| == |s| * n
  {
    if n == 0 then [] else s + Repeat(s, n - 1)
  }

  lemma {:induction false} RepeatAbsent(s: string, n: nat, c: char)
    requires c !in s
    ensures c !in Repeat(s, n)
  {
    if n > 0 {
      RepeatAbsent(s, n - 1, c);
    }
  }

  // ---------------------------------------------------------------------
  // Integers as decimal text
  // ---------------------------------------------------------------------

  predicate IsDigit(c: char)
  {
    '0' <= c <= '9'
  }

  function DigitChar(d: nat): char
    requires d < 10
  {
    ('0' as int + d) as char
  }

  function DigitValue(c: char): nat
    requires IsDigit(c)
  {
    (c as int - '0' as int) as nat
  }

  /** The decimal digits of a natural number, most significant first, no leading zero. */
  function NatDigits(n: nat): (r: string)
    ensures r != [] && forall i :: 0 <= i < |r| ==> IsDigit(r[i])
    ensures |r| > 1 ==> r[0] != '0'
  {
    if n < 10 then [DigitChar(n)] else NatDigits(n / 10) + [DigitChar(n % 10)]
  }

  /** PHP's interpolation of an integer into a string: `"{$n}"`. */
  function Decimal(n: int): (r: string)
    ensures r != [] && ':' !in r
  {
    var r := if n < 0 then "-" + NatDigits(-n) else NatDigits(n);
    assert forall i :: 0 <= i < |r| ==> r[i] == '-' || IsDigit(r[i]);
    r
  }

  /** Value of a string of digits. */
  function DigitsValue(s: string): nat
    requires forall i :: 0 <= i < |s| ==> IsDigit(s[i])
  {
    if s == [] then 0 else DigitsValue(s[..|s| - 1]) * 10 + DigitValue(s[|s| - 1])
  }

  /** Reads the text of an integer back: an optional `-` and at least one digit. */
  function ParseDecimal(s: string): Option<int>
  {
    if s != [] && s[0] == '-' then
      (if |s| > 1 && forall i :: 1 <= i < |s| ==> IsDigit(s[i]) then Some(0 - DigitsValue(s[1..])) else None)
    else if s != [] && forall i :: 0 <= i < |s| ==> IsDigit(s[i]) then Some(DigitsValue(s))
    else None
  }

  lemma {:induction false} NatDigitsValue(n: nat)
    ensures DigitsValue(NatDigits(n)) == n
  {
    if n >= 10 {
      NatDigitsValue(n / 10);
      var r := NatDigits(n);
      assert r[..|r| - 1] == NatDigits(n / 10);
    }
  }

  /** Writing an integer in decimal and reading it back gives the integer. */
  lemma DecimalRoundTrip(n: int)
    ensures ParseDecimal(Decimal(n)) == Some(n)
  {
    if n < 0 {
      var d := NatDigits(-n);
      var s := "-" + d;
      assert s == Decimal(n);
      assert s[1..] == d;
      assert forall i :: 1 <= i < |s| ==> IsDigit(s[i]) by {
        forall i | 1 <= i < |s| ensures IsDigit(s[i]) {
          assert s[i] == d[i - 1];
        }
      }
      NatDigitsValue(-n);
    } else {
      var d := NatDigits(n);
      assert d == Decimal(n);
      assert IsDigit(d[0]);
      NatDigitsValue(n);
    }
  }

  /** `"{$code}: {$text}"`: a numeric code and a text, as the error messages put them. */
  function CodeAndText(code: int, text: string): string
  {
    Decimal(code) + ": " + text
  }

  /** Reads a code and a text back: the decimal before the first `:`, the text after `: `. */
  function ParseCodeAndText(s: string): Option<(int, string)>
  {
    match FirstColon(s, 0)
    case None => None
    case Some(k) =>
      if k + 1 < |s| && s[k + 1] == ' ' then
        match ParseDecimal(s[..k])
        case None => None
        case Some(code) => Some((code, s[k + 2..]))
      else None
  }

  /** The first `:` in `s` from `i` on. */
  function FirstColon(s: string, i: nat): (r: Option<nat>)
    requires i <= |s|
    ensures r.Some? ==> i <= r.value < |s| && s[r.value] == ':' && ':' !in s[i..r.value]
    ensures r.None? ==> ':' !in s[i..]
    decreases |s| - i
  {
    if i == |s| then None
    else if s[i] == ':' then Some(i)
    else
      var r := FirstColon(s, i + 1);
      assert s[i..] == [s[i]] + s[i + 1..];
      assert r.Some? ==> s[i..r.value] == [s[i]] + s[i + 1..r.value];
      r
  }

  /** The first `:` is found where it is. */
  lemma {:induction false} FirstColonAt(s: string, k: nat)
    requires k < |s| && s[k] == ':' && ':' !in s[..k]
    ensures FirstColon(s, 0) == Some(k)
  {
    var i := 0;
    while i < k
      invariant i <= k && FirstColon(s, i) == FirstColon(s, 0)
    {
      assert s[i] in s[..k];
      i := i + 1;
    }
  }

  /** A code and a text are read back from their message as they were written. */
  lemma CodeAndTextRoundTrip(code: int, text: string)
    ensures ParseCodeAndText(CodeAndText(code, text)) == Some((code, text))
  {
    var s := CodeAndText(code, text);
    var d := Decimal(code);
    assert s[|d|] == ':';
    assert s[..|d|] == d;
    FirstColonAt(s, |d|);
    assert s[|d| + 2..] == text;
    DecimalRoundTrip(code);
  }
}

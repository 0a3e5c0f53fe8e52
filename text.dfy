/** String helpers shared by both translators: Python's `str.join` and the
    decimal text `str()` gives an integer, with its inverse. */
module Text {

  import opened Results

  /** `sep.join(parts)`. */
  function Join(sep: string, parts: seq<string>): (r: string)
    ensures parts == [] ==> r == ""
    ensures |parts| == 1 ==> r == parts[0]
  {
    if |parts| == 0 then ""
    else if |parts| == 1 then parts[0]
    else parts[0] + sep + Join(sep, parts[1..])
  }

  /** Appending one part extends the joined text by the separator and that part. */
  lemma {:induction false} JoinSnoc(sep: string, parts: seq<string>, p: string)
    ensures Join(sep, parts + [p]) == if parts == [] then p else Join(sep, parts) + sep + p
  {
    if |parts| >= 2 {
      assert (parts + [p])[1..] == parts[1..] + [p];
      JoinSnoc(sep, parts[1..], p);
    } else if |parts| == 1 {
      assert (parts + [p])[1..] == [p];
    }
  }

  /** The empty-separator join is plain concatenation, element by element. */
  lemma {:induction false} JoinEmptyCons(parts: seq<string>)
    requires parts != []
    ensures Join("", parts) == parts[0] + Join("", parts[1..])
  {
  }

  function DigitChar(d: nat): (c: char)
    requires d < 10
    ensures '0' <= c <= '9'
  {
    "0123456789"[d]
  }

  function DigitValue(c: char): (d: nat)
    requires '0' <= c <= '9'
    ensures d < 10 && DigitChar(d) == c
  {
    (c as int - '0' as int) as nat
  }

  /** The decimal digits of `n`, most significant first, with no leading zero. */
  function NatText(n: nat): (r: string)
    ensures |r| >= 1
    ensures '0' <= r[0] <= '9'
    ensures |r| > 1 ==> r[0] != '0'
  {
    if n < 10 then [DigitChar(n)] else NatText(n / 10) + [DigitChar(n % 10)]
  }

  lemma {:induction false} NatTextDigits(n: nat)
    ensures AllDigits(NatText(n))
  {
    if n >= 10 {
      NatTextDigits(n / 10);
      var t := NatText(n);
      assert t == NatText(n / 10) + [DigitChar(n % 10)];
      assert forall k :: 0 <= k < |t| - 1 ==> t[k] == NatText(n / 10)[k];
    }
  }

  /** Python's `str(i)` for an `int`: a minus sign, then the digits of `|i|`. */
  function IntText(i: int): (r: string)
    ensures |r| >= 1
    ensures (r[0] == '-') == (i < 0)
  {
    if i < 0 then "-" + NatText(-i) else NatText(i)
  }

  /** The text of an integer is digits, after a minus sign for a negative one. */
  lemma IntTextChars(i: int)
    ensures forall k :: 0 <= k < |IntText(i)| ==> IntText(i)[k] == '-' || '0' <= IntText(i)[k] <= '9'
  {
    var n: nat := if i < 0 then -i else i;
    var digits := NatText(n);
    NatTextDigits(n);
    if i < 0 {
      assert forall k :: 1 <= k < |IntText(i)| ==> IntText(i)[k] == digits[k - 1];
    }
  }

  predicate AllDigits(s: string) {
    forall k :: 0 <= k < |s| ==> '0' <= s[k] <= '9'
  }

  /** The value of a non-empty run of decimal digits (the reading direction of `NatText`). */
  function DigitsValue(s: string): nat
    requires |s| >= 1 && AllDigits(s)
  {
    if |s| == 1 then DigitValue(s[0])
    else DigitsValue(s[..|s| - 1]) * 10 + DigitValue(s[|s| - 1])
  }

  /** Reads back an optionally signed decimal integer literal. */
  function ReadInt(s: string): Option<int> {
    if |s| >= 2 && s[0] == '-' && AllDigits(s[1..]) then
      var v: int := DigitsValue(s[1..]);
      if v == 0 then None else Some(-v)
    else if |s| >= 1 && AllDigits(s) then Some(DigitsValue(s))
    else None
  }

  lemma {:induction false} NatTextValue(n: nat)
    ensures AllDigits(NatText(n)) && DigitsValue(NatText(n)) == n
  {
    NatTextDigits(n);
    if n >= 10 {
      var t := NatText(n);
      assert t[..|t| - 1] == NatText(n / 10);
      NatTextValue(n / 10);
    }
  }

  /** A minus sign followed by the digits of a positive `n` reads back as `-n`. */
  lemma ReadNegative(n: nat)
    requires n > 0
    ensures ReadInt("-" + NatText(n)) == Some(-(n as int))
  {
    var digits := NatText(n);
    var s := "-" + digits;
    assert s[1..] == digits;
    NatTextValue(n);
  }

  /** The digits of `n` read back as `n`. */
  lemma ReadDigits(n: nat)
    ensures ReadInt(NatText(n)) == Some(n)
  {
    NatTextValue(n);
  }

  /** Reading the text of an integer gives the integer back. */
  lemma {:induction false} IntTextRoundTrip(i: int)
    ensures ReadInt(IntText(i)) == Some(i)
  {
    if i < 0 {
      var n: nat := -i;
      assert IntText(i) == "-" + NatText(n);
      ReadNegative(n);
    } else {
      var n: nat := i;
      assert IntText(i) == NatText(n);
      ReadDigits(n);
    }
  }

  /** Different integers have different texts. */
  lemma IntTextInjective(i: int, j: int)
    requires IntText(i) == IntText(j)
    ensures i == j
  {
    IntTextRoundTrip(i);
    IntTextRoundTrip(j);
  }

  /** The number of occurrences of `c` in `s`. */
  function Count(s: string, c: char): nat {
    if s == [] then 0 else (if s[0] == c then 1 else 0) + Count(s[1..], c)
  }

  lemma {:induction false} CountConcat(a: string, b: string, c: char)
    ensures Count(a + b, c) == Count(a, c) + Count(b, c)
  {
    if a == [] {
      assert a + b == b;
    } else {
      assert (a + b)[1..] == a[1..] + b;
      CountConcat(a[1..], b, c);
    }
  }

  lemma {:induction false} CountZero(s: string, c: char)
    ensures Count(s, c) == 0 <==> c !in s
  {
    if s != [] {
      CountZero(s[1..], c);
      assert s == [s[0]] + s[1..];
    }
  }
}

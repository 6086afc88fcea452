/** Decimal digits: the number a digit string denotes, padded text, and the shortest text of an integer. */
module DecimalText {

  predicate IsDigit(c: char) { '0' <= c <= '9' }

  predicate AllDigits(s: string) { forall i | 0 <= i < |s| :: IsDigit(s[i]) }

  function DigitValue(c: char): (v: int)
    requires IsDigit(c)
    ensures 0 <= v <= 9
  {
    c as int - '0' as int
  }

  function DigitChar(v: int): (c: char)
    requires 0 <= v <= 9
    ensures IsDigit(c) && DigitValue(c) == v
  {
    ('0' as int + v) as char
  }

  /** The number a digit string denotes. */
  function Number(s: string): (n: int)
    requires AllDigits(s)
    ensures 0 <= n
  {
    if s == "" then 0 else 10 * Number(s[..|s| - 1]) + DigitValue(s[|s| - 1])
  }

  function Pow10(k: nat): (p: int)
    ensures p > 0
  {
    if k == 0 then 1 else 10 * Pow10(k - 1)
  }

  /** `n` in exactly `width` digits, keeping the lowest ones. */
  function Pad(n: int, width: nat): (s: string)
    requires 0 <= n
    ensures |s| == width && AllDigits(s)
  {
    if width == 0 then "" else Pad(n / 10, width - 1) + [DigitChar(n % 10)]
  }

  lemma {:induction false} NumberOfPad(n: int, width: nat)
    requires 0 <= n < Pow10(width)
    ensures Number(Pad(n, width)) == n
  {
    if width > 0 {
      var s := Pad(n, width);
      assert s[..|s| - 1] == Pad(n / 10, width - 1);
      NumberOfPad(n / 10, width - 1);
    }
  }

  lemma {:induction false} NumberBound(s: string)
    requires AllDigits(s)
    ensures Number(s) < Pow10(|s|)
  {
    if s != "" {
      NumberBound(s[..|s| - 1]);
    }
  }

  lemma {:induction false} PadOfNumber(s: string)
    requires AllDigits(s)
    ensures Pad(Number(s), |s|) == s
  {
    if s != "" {
      PadOfNumber(s[..|s| - 1]);
      assert Number(s) / 10 == Number(s[..|s| - 1]);
      assert s == s[..|s| - 1] + [s[|s| - 1]];
    }
  }

  lemma TwoDigits(s: string)
    requires |s| == 2 && AllDigits(s)
    ensures Number(s) == 10 * DigitValue(s[0]) + DigitValue(s[1])
  {
    assert s[..1][..0] == "";
    assert Number(s[..1]) == DigitValue(s[0]);
  }

  lemma FourDigits(s: string)
    requires |s| == 4 && AllDigits(s)
    ensures Number(s) == 1_000 * DigitValue(s[0]) + 100 * DigitValue(s[1]) + 10 * DigitValue(s[2]) + DigitValue(s[3])
  {
    TwoDigits(s[..2]);
    assert s[..3][..2] == s[..2];
  }

  lemma Pow10Table()
    ensures Pow10(2) == 100 && Pow10(3) == 1_000 && Pow10(4) == 10_000 && Pow10(6) == 1_000_000
    ensures Pow10(9) == 1_000_000_000
  {
    assert Pow10(2) == 100;
    assert Pow10(4) == 10_000;
    assert Pow10(6) == 1_000_000;
    assert Pow10(8) == 100_000_000;
  }

  /** The shortest decimal text of `n`. */
  function DigitText(n: nat): (s: string)
    ensures s != "" && AllDigits(s)
  {
    if n < 10 then [DigitChar(n)] else DigitText(n / 10) + [DigitChar(n % 10)]
  }

  /** The text of a signed integer, as `BigInt.prototype.toString` gives it. */
  function IntText(n: int): string {
    if n < 0 then "-" + DigitText(-n) else DigitText(n)
  }

  lemma {:induction false} NumberOfDigitText(n: nat)
    ensures Number(DigitText(n)) == n
  {
    if n < 10 {
      assert DigitText(n)[..0] == "";
    } else {
      var s := DigitText(n);
      assert s[..|s| - 1] == DigitText(n / 10);
      NumberOfDigitText(n / 10);
    }
  }

  /** How many digits a text starts with. */
  function DigitRun(s: string): (n: nat)
    ensures n <= |s| && AllDigits(s[..n]) && (n < |s| ==> !IsDigit(s[n]))
  {
    if s == "" || !IsDigit(s[0]) then 0 else
      var rest := DigitRun(s[1..]);
      assert forall i | 0 < i < 1 + rest :: s[i] == s[1..][..rest][i - 1];
      1 + rest
  }

  /** What follows a number: nothing, or something that does not continue it. */
  predicate NoDigitNext(s: string) { s == "" || !IsDigit(s[0]) }

  lemma {:induction false} DigitRunExact(digits: string, rest: string)
    requires AllDigits(digits) && NoDigitNext(rest)
    ensures DigitRun(digits + rest) == |digits|
  {
    if digits == "" {
      assert digits + rest == rest;
    } else {
      assert (digits + rest)[1..] == digits[1..] + rest;
      DigitRunExact(digits[1..], rest);
    }
  }

  lemma SplitAtNonDigit(p: string, q: string, x: string, y: string)
    requires AllDigits(p) && AllDigits(q) && NoDigitNext(x) && NoDigitNext(y) && p + x == q + y
    ensures p == q && x == y
  {
    DigitRunExact(p, x);
    DigitRunExact(q, y);
    assert p == (p + x)[..|p|] && q == (q + y)[..|q|];
    assert x == (p + x)[|p|..] && y == (q + y)[|q|..];
  }

  function Magnitude(n: int): nat { if n < 0 then -n else n }

  lemma IntTextHead(n: int, x: string)
    ensures var s := IntText(n) + x;
            && s != "" && (s[0] == '-' <==> n < 0) && (s[0] != '-' ==> IsDigit(s[0]))
            && (if n < 0 then s[1..] else s) == DigitText(Magnitude(n)) + x
  {
    hide DigitText;
    if n < 0 {
      assert ("-" + DigitText(-n) + x)[1..] == DigitText(-n) + x;
    }
  }

  /** An integer's text is recovered from whatever it is the front of. */
  lemma IntTextSplit(m: int, n: int, x: string, y: string)
    requires NoDigitNext(x) && NoDigitNext(y) && IntText(m) + x == IntText(n) + y
    ensures m == n && x == y
  {
    hide DigitText, IntText, Number;
    IntTextHead(m, x);
    IntTextHead(n, y);
    NumberOfDigitText(Magnitude(m));
    NumberOfDigitText(Magnitude(n));
    SplitAtNonDigit(DigitText(Magnitude(m)), DigitText(Magnitude(n)), x, y);
  }
}

/** Decimal and hexadecimal numerals, printed at a fixed width or as they come. */
module Digits {
  import opened Wrappers
  import opened Numbers

  function Pow(b: nat, k: nat): (p: nat)
    ensures b > 0 ==> p > 0
  {
    if k == 0 then 1 else b * Pow(b, k - 1)
  }

  const ALPHABET := "0123456789abcdef"

  function DigitChar(d: nat): char
    requires d < 16
  {
    ALPHABET[d]
  }

  function DigitValue(c: char): Option<nat> {
    if '0' <= c <= '9' then Some((c - '0') as int)
    else if 'a' <= c <= 'f' then Some((c - 'a') as int + 10)
    else if 'A' <= c <= 'F' then Some((c - 'A') as int + 10)
    else None
  }

  /** The last `k` digits of `n` in base `b`, most significant first. */
  function Padded(b: nat, n: nat, k: nat): (s: string)
    requires 2 <= b <= 16
    ensures |s| == k
    ensures forall i | 0 <= i < k :: s[i] in ALPHABET[..b]
  {
    if k == 0 then [] else Padded(b, n / b, k - 1) + [DigitChar(n % b)]
  }

  /** The number a numeral names, None when a character is not a digit of the base. */
  function Value(b: nat, s: string): Option<nat>
    requires 2 <= b <= 16
  {
    if s == [] then Some(0)
    else
      match (Value(b, s[..|s| - 1]), DigitValue(s[|s| - 1]))
      case (Some(v), Some(d)) => if d < b then Some(v * b + d) else None
      case _ => None
  }

  /** JavaScript's `String(n)`. */
  function Decimal(n: nat): string {
    if n < 10 then [DigitChar(n)] else Decimal(n / 10) + [DigitChar(n % 10)]
  }

  /** JavaScript's `s.padStart(k, "0")`. */
  function PadStart(s: string, k: nat): string
    decreases k - |s|
  {
    if |s| >= k then s else PadStart("0" + s, k)
  }

  lemma DigitRoundTrip(d: nat)
    requires d < 16
    ensures DigitValue(DigitChar(d)) == Some(d)
  {}

  lemma DivBelow(n: nat, b: nat, p: nat)
    requires b > 0 && n < b * p
    ensures n / b < p
  {
    var q := n / b;
    assert b * q <= n;
    if q >= p { MulMonotone(b, p, q); }
  }

  lemma ValueAppend(b: nat, s: string, v: nat, d: nat)
    requires 2 <= b <= 16 && d < b && Value(b, s) == Some(v)
    ensures Value(b, s + [DigitChar(d)]) == Some(v * b + d)
  {
    DigitRoundTrip(d);
    var t := s + [DigitChar(d)];
    assert t[..|t| - 1] == s;
  }

  lemma SplitDigit(b: nat, n: nat, p: nat) returns (q: nat, d: nat)
    requires b > 0 && n < b * p
    ensures q == n / b && d == n % b && d < b && q * b + d == n && q < p
  {
    q, d := n / b, n % b;
    DivBelow(n, b, p);
  }

  lemma {:induction false} ValuePadded(b: nat, n: nat, k: nat)
    requires 2 <= b <= 16 && n < Pow(b, k)
    ensures Value(b, Padded(b, n, k)) == Some(n)
    decreases k
  {
    if k > 0 {
      var q, d := SplitDigit(b, n, Pow(b, k - 1));
      var rest := Padded(b, q, k - 1);
      assert Padded(b, n, k) == rest + [DigitChar(d)];
      assert Value(b, rest) == Some(q) by { ValuePadded(b, q, k - 1); }
      ValueAppend(b, rest, q, d);
    }
  }

  /** One more decimal digit. */
  lemma PaddedSnoc(n: nat, d: nat, k: nat)
    requires d < 10
    ensures Padded(10, 10 * n + d, k + 1) == Padded(10, n, k) + [DigitChar(d)]
  {
    assert (10 * n + d) / 10 == n && (10 * n + d) % 10 == d;
  }

  lemma PaddedTwo(c: nat, d: nat)
    requires c < 10 && d < 10
    ensures Padded(10, 10 * c + d, 2) == [DigitChar(c), DigitChar(d)]
  {
    hide Padded, DigitChar;
    PaddedSnoc(0, c, 0);
    PaddedSnoc(c, d, 1);
    assert Padded(10, 0, 0) == [];
  }

  /** A numeral that needs no padding prints the same at its own width. */
  lemma {:induction false} DecimalIsPadded(n: nat, k: nat)
    requires k > 0 && n < Pow(10, k)
    requires k == 1 || n >= Pow(10, k - 1)
    ensures Decimal(n) == Padded(10, n, k)
  {
    if k == 1 {
      assert n < 10 && n % 10 == n;
      assert Padded(10, n / 10, 0) == [];
    } else {
      DivBelow(n, 10, Pow(10, k - 1));
      assert n >= 10 * Pow(10, k - 2);
      assert n / 10 >= Pow(10, k - 2);
      DecimalIsPadded(n / 10, k - 1);
    }
  }

  /** How many digits a number takes tells how large it is. */
  lemma {:induction false} DecimalLength(n: nat, k: nat)
    requires k > 0
    ensures |Decimal(n)| <= k <==> n < Pow(10, k)
    decreases k
  {
    if k == 1 {
      assert Pow(10, 1) == 10;
    } else if n >= 10 {
      DecimalLength(n / 10, k - 1);
      if n < Pow(10, k) { DivBelow(n, 10, Pow(10, k - 1)); } else { DivAtLeast(n, 10, Pow(10, k - 1)); }
    } else {
      PowAtLeastBase(10, k);
    }
  }

  lemma {:induction false} PowAtLeastBase(b: nat, k: nat)
    requires b > 0 && k > 0
    ensures Pow(b, k) >= b
  {
    MulMonotone(b, 1, Pow(b, k - 1));
  }

  /** A two-digit field is padded with at most one zero. */
  lemma TwoDigits(n: nat)
    requires n < 100
    ensures PadStart(Decimal(n), 2) == Padded(10, n, 2)
  {
    if n < 10 {
      assert Padded(10, n / 10, 1) == Padded(10, 0, 0) + ['0'];
      assert PadStart("0" + Decimal(n), 2) == "0" + Decimal(n);
    } else {
      assert Pow(10, 1) == 10 && Pow(10, 2) == 100;
      DecimalIsPadded(n, 2);
    }
  }
}

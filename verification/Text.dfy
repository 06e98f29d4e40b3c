/**
 Searching sequences, and numerals as `printf` writes them and as digit runs are read back.
 */
module Text {

  /** Where `x` occurs last, or -1: `rindex`. */
  function LastIndex<T(==)>(s: seq<T>, x: T): (p: int)
    ensures -1 <= p < |s|
    ensures p >= 0 ==> s[p] == x
    ensures forall i | p < i < |s| :: s[i] != x
  {
    if s == [] then -1
    else if s[|s| - 1] == x then |s| - 1
    else LastIndex(s[..|s| - 1], x)
  }

  const DIGITS: string := "0123456789ABCDEF"

  function DigitValue(c: char): (d: int)
    ensures -1 <= d < 16
    ensures d >= 0 ==> DIGITS[d] == c
  {
    if '0' <= c <= '9' then c as int - '0' as int
    else if 'A' <= c <= 'F' then c as int - 'A' as int + 10
    else -1
  }

  predicate IsDigit(c: char, base: nat) {
    0 <= DigitValue(c) < base
  }

  predicate AllDigits(s: string, base: nat) {
    forall i | 0 <= i < |s| :: IsDigit(s[i], base)
  }

  /** The numeral of `n`, most significant digit first. */
  function Numeral(n: nat, base: nat): (s: string)
    requires 2 <= base <= 16
    ensures s != "" && AllDigits(s, base)
    decreases n
  {
    if n < base then [DIGITS[n]]
    else
      Shorter(n, base);
      Numeral(n / base, base) + [DIGITS[n % base]]
  }

  lemma Shorter(n: nat, base: nat)
    requires 2 <= base <= n
    ensures 0 < n / base < n && 0 <= n % base < base
    ensures n / base * base + n % base == n
  {
  }

  lemma {:induction false} NoLeadingZero(n: nat, base: nat)
    requires 2 <= base <= 16 && n > 0
    ensures Numeral(n, base)[0] != '0'
    decreases n
  {
    if n >= base {
      Shorter(n, base);
      NoLeadingZero(n / base, base);
    }
  }

  /** The number a run of digits stands for. */
  function Value(s: string, base: nat): nat
    requires AllDigits(s, base)
  {
    if s == "" then 0 else Value(s[..|s| - 1], base) * base + DigitValue(s[|s| - 1])
  }

  lemma ValueOfDigit(d: nat, base: nat)
    requires 2 <= base <= 16 && d < base
    ensures IsDigit(DIGITS[d], base) && Value([DIGITS[d]], base) == d
  {
  }

  lemma ValueAppend(s: string, d: nat, base: nat)
    requires 2 <= base <= 16 && d < base && AllDigits(s, base)
    ensures AllDigits(s + [DIGITS[d]], base) && Value(s + [DIGITS[d]], base) == Value(s, base) * base + d
  {
    assert (s + [DIGITS[d]])[..|s|] == s;
    assert DigitValue(DIGITS[d]) == d;
  }

  lemma {:induction false} NumeralValue(n: nat, base: nat)
    requires 2 <= base <= 16
    ensures Value(Numeral(n, base), base) == n
    decreases n
  {
    hide Value;
    if n < base {
      ValueOfDigit(n, base);
    } else {
      Shorter(n, base);
      NumeralValue(n / base, base);
      ValueAppend(Numeral(n / base, base), n % base, base);
    }
  }

  lemma NumeralInjective(a: nat, b: nat, base: nat)
    requires 2 <= base <= 16 && Numeral(a, base) == Numeral(b, base)
    ensures a == b
  {
    NumeralValue(a, base);
    NumeralValue(b, base);
  }

  /** How many digits a string starts with. */
  function Span(s: string, base: nat): (k: nat)
    ensures k <= |s| && AllDigits(s[..k], base)
    ensures k < |s| ==> !IsDigit(s[k], base)
  {
    if s == "" || !IsDigit(s[0], base) then 0 else 1 + Span(s[1..], base)
  }

  /** A digit run followed by something else is found whole. */
  lemma {:induction false} SpanOf(digits: string, rest: string, base: nat)
    requires AllDigits(digits, base)
    requires rest == "" || !IsDigit(rest[0], base)
    ensures Span(digits + rest, base) == |digits|
  {
    if digits == "" {
      assert digits + rest == rest;
    } else {
      assert IsDigit(digits[0], base);
      assert (digits + rest)[1..] == digits[1..] + rest;
      SpanOf(digits[1..], rest, base);
    }
  }

  /** Zero padding on the left, as in `%04o` and `%08X`. */
  function Pad(s: string, width: nat): string
    decreases width - |s|
  {
    if |s| >= width then s else Pad("0" + s, width)
  }

  lemma {:induction false} PadDigits(s: string, width: nat, base: nat)
    requires 2 <= base <= 16 && AllDigits(s, base)
    ensures AllDigits(Pad(s, width), base) && |Pad(s, width)| == if |s| >= width then |s| else width
    ensures Value(Pad(s, width), base) == Value(s, base)
    decreases width - |s|
  {
    hide Value;
    if |s| < width {
      LeadingZero(s, base);
      PadDigits("0" + s, width, base);
    }
  }

  lemma {:induction false} LeadingZero(s: string, base: nat)
    requires 2 <= base <= 16 && AllDigits(s, base)
    ensures AllDigits("0" + s, base) && Value("0" + s, base) == Value(s, base)
  {
    assert IsDigit('0', base) && DigitValue('0') == 0;
    assert forall i | 1 <= i <= |s| :: ("0" + s)[i] == s[i - 1];
    if s == "" {
      assert "0" + s == "0" && "0"[..0] == "";
      assert Value("0", base) == Value("", base) * base + 0;
    } else {
      LeadingZero(s[..|s| - 1], base);
      assert ("0" + s)[..|s|] == "0" + s[..|s| - 1];
    }
  }

  // ----- eight hexadecimal digits -----

  /** `snprintf(buffer, 9, "%08X", serial)` */
  function Hex8(serial: nat): string {
    Pad(Numeral(serial, 16), 8)
  }

  lemma {:induction false} NumeralLength(n: nat, k: nat)
    requires n < Power16(k) && k > 0
    ensures |Numeral(n, 16)| <= k
    decreases k
  {
    if n >= 16 {
      NumeralLength(n / 16, k - 1);
    }
  }

  function Power16(k: nat): nat {
    if k == 0 then 1 else 16 * Power16(k - 1)
  }

  /** A 32-bit serial takes eight digits, and no two serials the same ones. */
  lemma Hex8Injective(a: nat, b: nat)
    requires a < 0x1_0000_0000 && b < 0x1_0000_0000
    ensures |Hex8(a)| == 8 && AllDigits(Hex8(a), 16)
    ensures Hex8(a) == Hex8(b) ==> a == b
  {
    hide Pad, Numeral, Value;
    assert Power16(8) == 0x1_0000_0000 by {
      assert Power16(4) == 0x1_0000;
    }
    NumeralLength(a, 8);
    NumeralLength(b, 8);
    PadDigits(Numeral(a, 16), 8, 16);
    PadDigits(Numeral(b, 16), 8, 16);
    NumeralValue(a, 16);
    NumeralValue(b, 16);
  }
}

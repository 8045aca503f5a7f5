/** Integer text as the server reads and writes it: strconv.ParseInt with a
    64-bit result, the %x verb of fmt on an int64, and the part of math/big's
    Int.SetString (base 0) that reads `0x`-prefixed hexadecimal. */
module Numerals {

  newtype int64 = x: int | -0x8000_0000_0000_0000 <= x < 0x8000_0000_0000_0000

  const MAX_UINT64: int := 0xFFFF_FFFF_FFFF_FFFF

  /** 1 << 63: ParseInt's cutoff, the magnitude of the least int64. */
  const INT64_CUTOFF: int := 0x8000_0000_0000_0000

  /** The digit value strconv gives a byte: 0-9 for decimal digits, 10-35 for
      letters of either case, and 36, which no base accepts, for anything else. */
  function DigitValue(c: char): (d: nat)
    ensures d <= 36
  {
    if '0' <= c <= '9' then c as int - '0' as int
    else if 'a' <= c <= 'z' then c as int - 'a' as int + 10
    else if 'A' <= c <= 'Z' then c as int - 'A' as int + 10
    else 36
  }

  predicate AllDigits(s: string, base: nat)
  {
    forall k :: 0 <= k < |s| ==> DigitValue(s[k]) < base
  }

  /** The value of the digits `s` in `base`, read left to right after the
      digits already read have given `acc`. */
  function Fold(base: nat, acc: nat, s: string): (r: nat)
    requires AllDigits(s, base)
    decreases |s|
  {
    if s == [] then acc else Fold(base, acc * base + DigitValue(s[0]), s[1..])
  }

  /** The value of the digit string `s` in `base`. */
  function DigitsValue(base: nat, s: string): (r: nat)
    requires AllDigits(s, base)
  {
    Fold(base, 0, s)
  }

  /** Reading more digits never makes the value smaller. */
  lemma {:induction false} FoldGrows(base: nat, acc: nat, s: string)
    requires base >= 1
    ensures AllDigits(s, base) ==> Fold(base, acc, s) >= acc
    decreases |s|
  {
    if s != [] && AllDigits(s, base) {
      var next := acc * base + DigitValue(s[0]);
      assert next >= acc by {
        MultiplyGrows(acc, base);
      }
      assert AllDigits(s[1..], base);
      FoldGrows(base, next, s[1..]);
    }
  }

  lemma {:induction false} MultiplyGrows(a: nat, b: nat)
    requires b >= 1
    ensures a * b >= a
  {
    assert a * b == a + a * (b - 1);
  }

  lemma AllDigitsSnoc(s: string, c: char, base: nat)
    requires AllDigits(s, base) && DigitValue(c) < base
    ensures AllDigits(s + [c], base)
  {
    var t := s + [c];
    forall k | 0 <= k < |t| ensures DigitValue(t[k]) < base {
      if k < |s| {
        assert t[k] == s[k];
      }
    }
  }

  /** Reading one more digit multiplies by the base and adds the digit. */
  lemma {:induction false} FoldSnoc(base: nat, acc: nat, s: string, c: char)
    requires AllDigits(s, base) && DigitValue(c) < base
    ensures AllDigits(s + [c], base)
    ensures Fold(base, acc, s + [c]) == Fold(base, acc, s) * base + DigitValue(c)
    decreases |s|
  {
    var t := s + [c];
    AllDigitsSnoc(s, c, base);
    if s == [] {
      assert t[1..] == [];
    } else {
      var next := acc * base + DigitValue(s[0]);
      assert t[0] == s[0] && t[1..] == s[1..] + [c];
      assert AllDigits(s[1..], base);
      FoldSnoc(base, next, s[1..], c);
      var x := Fold(base, next, s[1..]);
      assert Fold(base, acc, t) == Fold(base, next, t[1..]) == x * base + DigitValue(c);
      assert Fold(base, acc, s) == x;
    }
  }

  datatype NumError = NoError | ErrSyntax | ErrRange

  /** What strconv.ParseUint returns: the value, and the error. */
  datatype UintResult = UintResult(value: nat, err: NumError)

  /** What strconv.ParseInt returns with bitSize 64. */
  datatype IntResult = IntResult(value: int64, err: NumError)

  /** The digit loop of strconv.ParseUint with bitSize 64. A byte that is not
      a digit of `base` is a syntax error; a prefix whose value passes
      2^64 - 1 is a range error at once, before the later bytes are looked
      at. Go tests `n >= cutoff` and then `n1 > maxVal`; for a digit d below
      the base both together say exactly acc * base + d > 2^64 - 1. */
  function ScanDigits(s: string, base: nat, acc: nat): (r: UintResult)
    requires 2 <= base <= 36 && acc <= MAX_UINT64
    ensures r.err == NoError <==> AllDigits(s, base) && Fold(base, acc, s) <= MAX_UINT64
    ensures r.err == NoError ==> AllDigits(s, base) && r.value == Fold(base, acc, s)
    ensures r.err == ErrSyntax ==> r.value == 0 && !AllDigits(s, base)
    ensures r.err == ErrRange ==> r.value == MAX_UINT64
    decreases |s|
  {
    if s == [] then UintResult(acc, NoError)
    else if DigitValue(s[0]) >= base then UintResult(0, ErrSyntax)
    else
      var next := acc * base + DigitValue(s[0]);
      FoldGrows(base, next, s[1..]);
      assert AllDigits(s, base) <==> AllDigits(s[1..], base);
      if next > MAX_UINT64 then UintResult(MAX_UINT64, ErrRange)
      else ScanDigits(s[1..], base, next)
  }

  /** strconv.ParseUint(s, base, 64): the empty string is a syntax error. */
  function ParseUint(s: string, base: nat): (r: UintResult)
    requires 2 <= base <= 36
    ensures r.err == NoError <==> s != [] && AllDigits(s, base) && DigitsValue(base, s) <= MAX_UINT64
    ensures r.err == NoError ==> r.value == DigitsValue(base, s)
    ensures r.err == ErrSyntax ==> r.value == 0 && (s == [] || !AllDigits(s, base))
    ensures r.err == ErrRange ==> r.value == MAX_UINT64
  {
    if s == [] then UintResult(0, ErrSyntax) else ScanDigits(s, base, 0)
  }

  /** `s` without the one leading sign ParseInt accepts. */
  function Unsigned(s: string): (r: string)
  {
    if |s| > 0 && (s[0] == '+' || s[0] == '-') then s[1..] else s
  }

  /** An optional sign followed by at least one digit of `base`. */
  predicate WellFormed(s: string, base: nat)
  {
    |Unsigned(s)| > 0 && AllDigits(Unsigned(s), base)
  }

  /** The mathematical value a well-formed numeral denotes. */
  function SignedValue(s: string, base: nat): (r: int)
    requires WellFormed(s, base)
  {
    var magnitude: int := DigitsValue(base, Unsigned(s));
    if s[0] == '-' then -magnitude else magnitude
  }

  /** strconv.ParseInt(s, base, 64). It succeeds exactly on a well-formed
      numeral whose value fits in an int64, and then returns that value. A
      syntax error comes with 0; an out-of-range numeral comes with the int64
      bound on its side. */
  function ParseInt(s: string, base: nat): (r: IntResult)
    requires 2 <= base <= 36
    ensures r.err == NoError <==>
      WellFormed(s, base) && -INT64_CUTOFF <= SignedValue(s, base) < INT64_CUTOFF
    ensures r.err == NoError ==> WellFormed(s, base) && r.value as int == SignedValue(s, base)
    ensures r.err == ErrSyntax ==> r.value == 0 && !WellFormed(s, base)
    ensures r.err == ErrRange ==>
      |s| > 0 && r.value as int == if s[0] == '-' then -INT64_CUTOFF else INT64_CUTOFF - 1
  {
    if s == [] then IntResult(0, ErrSyntax)
    else
      var neg := s[0] == '-';
      var u := ParseUint(Unsigned(s), base);
      if u.err == ErrSyntax then IntResult(0, ErrSyntax)
      else if !neg && u.value >= INT64_CUTOFF then IntResult((INT64_CUTOFF - 1) as int64, ErrRange)
      else if neg && u.value > INT64_CUTOFF then IntResult((-INT64_CUTOFF) as int64, ErrRange)
      else IntResult((if neg then -(u.value as int) else u.value as int) as int64, NoError)
  }

  predicate IsLowerHexDigit(c: char)
  {
    '0' <= c <= '9' || 'a' <= c <= 'f'
  }

  /** The digit fmt writes for a value below 16. */
  function LowerHexDigit(d: nat): (c: char)
    requires d < 16
    ensures IsLowerHexDigit(c) && DigitValue(c) == d
  {
    if d < 10 then ('0' as int + d) as char else ('a' as int + d - 10) as char
  }

  /** The form %x writes for a non-negative value: lowercase digits, no `0x`,
      and no leading zero except in "0" itself. */
  predicate IsCanonicalHex(s: string)
  {
    && |s| >= 1
    && (forall k :: 0 <= k < |s| ==> IsLowerHexDigit(s[k]))
    && (s[0] == '0' ==> |s| == 1)
  }

  /** %x of a non-negative value. */
  function HexNat(n: nat): (s: string)
    ensures IsCanonicalHex(s)
    ensures s[0] == '0' <==> n == 0
    decreases n
  {
    if n < 16 then [LowerHexDigit(n)] else HexNat(n / 16) + [LowerHexDigit(n % 16)]
  }

  /** fmt.Sprintf("%x", n) for an int64: a minus sign before the magnitude
      when negative (the least int64 included). */
  function FormatHex(n: int64): (s: string)
    ensures |s| >= 1
    ensures s[0] == '-' <==> n < 0
    ensures n < 0 ==> IsCanonicalHex(s[1..]) && s[1] != '0'
    ensures n >= 0 ==> IsCanonicalHex(s)
    ensures s[0] == '0' <==> n == 0
  {
    if n < 0 then "-" + HexNat(-(n as int)) else HexNat(n as int)
  }

  lemma {:induction false} LowerHexDigitsAreDigits(s: string)
    requires forall k :: 0 <= k < |s| ==> IsLowerHexDigit(s[k])
    ensures AllDigits(s, 16)
  {
  }

  /** Reading %x back in base 16 gives the value. */
  lemma {:induction false} HexNatRoundTrip(n: nat)
    ensures AllDigits(HexNat(n), 16) && DigitsValue(16, HexNat(n)) == n
    decreases n
  {
    LowerHexDigitsAreDigits(HexNat(n));
    if n < 16 {
      assert Fold(16, 0, HexNat(n)) == Fold(16, n, []);
    } else {
      HexNatRoundTrip(n / 16);
      FoldSnoc(16, 0, HexNat(n / 16), LowerHexDigit(n % 16));
    }
  }

  /** %x is the only canonical spelling of a value: writing back the value of
      a canonical hex string gives that string. */
  lemma {:induction false} HexNatCanonical(s: string)
    requires IsCanonicalHex(s)
    ensures AllDigits(s, 16) && HexNat(DigitsValue(16, s)) == s
    decreases |s|
  {
    LowerHexDigitsAreDigits(s);
    var last := s[|s| - 1];
    if |s| == 1 {
      assert s == [last];
      assert Fold(16, 0, s) == Fold(16, DigitValue(last), []);
      LowerHexDigitInverse(last);
    } else {
      var init := s[..|s| - 1];
      assert s == init + [last];
      assert IsCanonicalHex(init);
      HexNatCanonical(init);
      FoldSnoc(16, 0, init, last);
      var m := DigitsValue(16, init);
      assert m >= 1 by {
        assert init[1..] == s[1..|s| - 1];
        FoldGrows(16, DigitValue(init[0]), init[1..]);
      }
      var n := DigitsValue(16, s);
      assert n == m * 16 + DigitValue(last);
      assert n / 16 == m && n % 16 == DigitValue(last);
      LowerHexDigitInverse(last);
    }
  }

  lemma {:induction false} LowerHexDigitInverse(c: char)
    requires IsLowerHexDigit(c)
    ensures DigitValue(c) < 16 && LowerHexDigit(DigitValue(c)) == c
  {
  }

  /** strconv.ParseInt in base 16 reads fmt's %x of any int64 back to it. */
  lemma {:induction false} FormatHexRoundTrip(n: int64)
    ensures ParseInt(FormatHex(n), 16) == IntResult(n, NoError)
  {
    var magnitude: nat := if n < 0 then -(n as int) else n as int;
    var s := FormatHex(n);
    HexNatRoundTrip(magnitude);
    if n < 0 {
      assert Unsigned(s) == HexNat(magnitude);
    } else {
      assert s[0] != '+' && s[0] != '-' by {
        assert IsLowerHexDigit(s[0]);
      }
      assert Unsigned(s) == HexNat(magnitude);
    }
  }

  /** The outcome of new(big.Int).SetString(t, 0): a value, a rejection (Go
      returns nil), or a text whose reading this model does not cover. */
  datatype BigResult = Parsed(n: nat) | Rejected | Unmodelled

  /** Text that starts with the base prefix "0x" or "0X". */
  predicate HexPrefixed(t: string)
  {
    |t| >= 2 && t[0] == '0' && (t[1] == 'x' || t[1] == 'X')
  }

  /** SetString in base 0 on `0x`/`0X` hexadecimal text: at least one hex digit
      of either case, read to the end. Texts with an underscore after the
      prefix, and texts that start with a sign or another decimal digit (the
      decimal, octal and binary forms), are outside the model. A prefixed
      text with no digit or with a byte that is not a hex digit is rejected
      (Go returns nil), and so is a text that starts with anything else. */
  function SetStringBase0(t: string): (r: BigResult)
    ensures r.Parsed? <==> HexPrefixed(t) && |t| > 2 && AllDigits(t[2..], 16)
    ensures r.Parsed? ==> r.n == DigitsValue(16, t[2..])
    ensures r.Unmodelled? <==>
      if HexPrefixed(t) then '_' in t[2..]
      else |t| > 0 && (t[0] == '+' || t[0] == '-' || '0' <= t[0] <= '9')
  {
    if HexPrefixed(t) then
      var digits := t[2..];
      if '_' in digits then Unmodelled
      else if |digits| > 0 && AllDigits(digits, 16) then Parsed(DigitsValue(16, digits))
      else Rejected
    else if |t| > 0 && (t[0] == '+' || t[0] == '-' || '0' <= t[0] <= '9') then Unmodelled
    else Rejected
  }

  /** SetString reads `0x` followed by %x of a value back to that value. */
  lemma {:induction false} SetStringHexRoundTrip(n: nat)
    ensures SetStringBase0("0x" + HexNat(n)) == Parsed(n)
  {
    var t := "0x" + HexNat(n);
    assert t[2..] == HexNat(n);
    HexNatRoundTrip(n);
    assert '_' !in HexNat(n) by {
      forall k | 0 <= k < |HexNat(n)| ensures HexNat(n)[k] != '_' {
        assert IsLowerHexDigit(HexNat(n)[k]);
      }
    }
  }

  /** The block numbers of the server's own tests, in %x. */
  lemma FormatHexExamples()
    ensures FormatHex(11508993) == "af9d01"
    ensures FormatHex(14564562) == "de3cd2"
    ensures FormatHex(980) == "3d4"
  {
    assert HexNat(10) == "a";
    assert HexNat(175) == "af";
    assert HexNat(2809) == "af9";
    assert HexNat(44957) == "af9d";
    assert HexNat(719312) == "af9d0";
    assert HexNat(11508993) == "af9d01";
    assert HexNat(13) == "d";
    assert HexNat(222) == "de";
    assert HexNat(3555) == "de3";
    assert HexNat(56892) == "de3c";
    assert HexNat(910285) == "de3cd";
    assert HexNat(14564562) == "de3cd2";
    assert HexNat(3) == "3";
    assert HexNat(61) == "3d";
    assert HexNat(980) == "3d4";
  }
}

/**
 * `str::parse::<i32>()` (Rust's `i32::from_str`, radix 10) and the decimal
 * rendering a client uses to put an id into a path.
 */
module Decimal {
  import opened Wrappers

  const I32Min: int := -0x8000_0000
  const I32Max: int := 0x7FFF_FFFF

  predicate IsDigit(ch: char)
  {
    '0' <= ch <= '9'
  }

  predicate AllDigits(s: string)
  {
    forall i :: 0 <= i < |s| ==> IsDigit(s[i])
  }

  /** The value of a string of decimal digits, most significant first. */
  function DigitsValue(s: string): nat
    requires AllDigits(s)
  {
    if s == [] then 0 else DigitsValue(s[..|s| - 1]) * 10 + (s[|s| - 1] as int - '0' as int)
  }

  /**
   * `s.parse::<i32>()`: an optional `+` or `-`, then one or more ASCII digits
   * (leading zeros allowed), whose value must lie in the i32 range. The empty
   * string, a lone sign, any other character and an out-of-range value are
   * errors.
   */
  function ParseI32(s: string): (r: Option<int>)
    ensures r.Some? ==> I32Min <= r.value <= I32Max
    ensures r.Some? ==> s != [] && (s[0] == '-' || s[0] == '+' || IsDigit(s[0]))
  {
    if s == [] then None
    else
      var negative := s[0] == '-';
      var digits := if s[0] == '-' || s[0] == '+' then s[1..] else s;
      if digits == [] || !AllDigits(digits) then None
      else
        var v: int := if negative then -(DigitsValue(digits) as int) else DigitsValue(digits);
        if I32Min <= v <= I32Max then Some(v) else None
  }

  /** Decimal digits of `n` without leading zeros. */
  function ShowNat(n: nat): (s: string)
    ensures s != [] && AllDigits(s)
    decreases n
  {
    if n < 10 then [('0' as int + n) as char]
    else ShowNat(n / 10) + [('0' as int + n % 10) as char]
  }

  /** Decimal rendering of an integer: a `-` for negatives, no sign otherwise. */
  function ShowInt(n: int): string
  {
    if n < 0 then "-" + ShowNat(-n) else ShowNat(n)
  }

  lemma {:induction false} DigitsValueOfShow(n: nat)
    ensures DigitsValue(ShowNat(n)) == n
    decreases n
  {
    if n >= 10 {
      DigitsValueOfShow(n / 10);
      var s := ShowNat(n);
      assert s[..|s| - 1] == ShowNat(n / 10);
    }
  }

  /** Read back without the range check: the rendering of `n` has an optional sign and digits worth |n|. */
  lemma ShowIntShape(n: int)
    ensures var s := ShowInt(n);
      && s != [] && s[0] != '+'
      && (n < 0 <==> s[0] == '-')
      && var digits := if s[0] == '-' then s[1..] else s;
      && digits != [] && AllDigits(digits)
      && DigitsValue(digits) == (if n < 0 then -n else n)
  {
    if n < 0 {
      DigitsValueOfShow(-n);
      assert ShowInt(n)[1..] == ShowNat(-n);
    } else {
      DigitsValueOfShow(n);
      assert IsDigit(ShowNat(n)[0]);
    }
  }

  /** Parsing undoes rendering for every i32. */
  lemma ParseShow(n: int)
    requires I32Min <= n <= I32Max
    ensures ParseI32(ShowInt(n)) == Some(n)
  {
    ShowIntShape(n);
  }

  /** `k` zero digits. */
  function Zeros(k: nat): string
  {
    seq(k, _ => '0')
  }

  function Magnitude(v: int): nat
  {
    if v < 0 then -v else v
  }

  /**
   * The signs `i32::from_str` accepts in front of the digits of `v`: none or
   * `+` for a positive value, `-` for a negative one, any of the three for 0.
   */
  function Signs(v: int): set<string>
  {
    if v > 0 then {"", "+"} else if v < 0 then {"-"} else {"", "+", "-"}
  }

  /** Leading zeros do not change the value of a digit string. */
  lemma {:induction false} DigitsValueAfterZeros(k: nat, d: string)
    requires AllDigits(d)
    ensures AllDigits(Zeros(k) + d)
    ensures DigitsValue(Zeros(k) + d) == DigitsValue(d)
    decreases |d|
  {
    var z := Zeros(k) + d;
    assert AllDigits(z) by {
      forall i | 0 <= i < |z| ensures IsDigit(z[i]) {
        if i >= k { assert z[i] == d[i - k]; }
      }
    }
    if d == [] {
      ZerosValue(k);
      assert z == Zeros(k);
    } else {
      DigitsValueAfterZeros(k, d[..|d| - 1]);
      assert z[..|z| - 1] == Zeros(k) + d[..|d| - 1];
    }
  }

  lemma {:induction false} ZerosValue(k: nat)
    ensures AllDigits(Zeros(k)) && DigitsValue(Zeros(k)) == 0
    decreases k
  {
    if k > 0 {
      ZerosValue(k - 1);
      assert Zeros(k)[..k - 1] == Zeros(k - 1);
    }
  }

  /** Every digit string is some number `k` of leading zeros followed by the rendering of its value. */
  lemma {:induction false} DigitsNormalForm(d: string) returns (k: nat)
    requires d != [] && AllDigits(d)
    ensures d == Zeros(k) + ShowNat(DigitsValue(d))
    decreases |d|
  {
    var init := d[..|d| - 1];
    var c := d[|d| - 1];
    LastDigit(d);
    if init == [] {
      SingleDigit(c);
      k := 0;
    } else {
      var j := DigitsNormalForm(init);
      if DigitsValue(init) == 0 {
        ZerosThenZero(j);
        SingleDigit(c);
        k := j + 1;
      } else {
        ShowNatAppend(DigitsValue(init), c);
        k := j;
      }
    }
  }

  /** A digit string is its initial digits followed by its last, worth ten times the first plus the last. */
  lemma LastDigit(d: string)
    requires d != [] && AllDigits(d)
    ensures var init, c := d[..|d| - 1], d[|d| - 1];
      && d == init + [c] && IsDigit(c) && AllDigits(init)
      && DigitsValue(d) == DigitsValue(init) * 10 + (c as int - '0' as int)
  {
  }

  /** One digit is worth its own value and is its own rendering. */
  lemma SingleDigit(c: char)
    requires IsDigit(c)
    ensures ShowNat(c as int - '0' as int) == [c]
  {
  }

  lemma ZerosThenZero(k: nat)
    ensures Zeros(k) + ShowNat(0) == Zeros(k + 1)
  {
    assert ShowNat(0) == "0";
  }

  /** Appending a digit to the rendering of a positive number renders ten times it plus the digit. */
  lemma ShowNatAppend(m: nat, c: char)
    requires m > 0 && IsDigit(c)
    ensures ShowNat(m * 10 + (c as int - '0' as int)) == ShowNat(m) + [c]
  {
    var n := m * 10 + (c as int - '0' as int);
    assert n / 10 == m && n % 10 == c as int - '0' as int;
  }

  /** Every accepted text is an allowed sign, leading zeros and the rendering of the value. */
  lemma ParseSound(s: string)
    requires ParseI32(s).Some?
    ensures var v := ParseI32(s).value;
      exists sg, k: nat :: sg in Signs(v) && s == sg + Zeros(k) + ShowNat(Magnitude(v))
  {
    var v := ParseI32(s).value;
    var sg, digits := ParsedParts(s);
    var k := DigitsNormalForm(digits);
    var z, r := Zeros(k), ShowNat(Magnitude(v));
    assert s == sg + (z + r);
    assert sg + (z + r) == sg + z + r;
  }

  /** An accepted text splits into an allowed sign and the digits of the magnitude. */
  lemma ParsedParts(s: string) returns (sg: string, digits: string)
    requires ParseI32(s).Some?
    ensures sg in Signs(ParseI32(s).value) && s == sg + digits
    ensures digits != [] && AllDigits(digits) && DigitsValue(digits) == Magnitude(ParseI32(s).value)
  {
    var v := ParseI32(s).value;
    if s[0] == '-' {
      sg, digits := "-", s[1..];
    } else if s[0] == '+' {
      sg, digits := "+", s[1..];
    } else {
      sg, digits := "", s;
    }
  }

  /** Every in-range value is accepted behind any allowed sign and any number of leading zeros. */
  lemma ParseComplete(v: int, sg: string, k: nat)
    requires I32Min <= v <= I32Max && sg in Signs(v)
    ensures ParseI32(sg + Zeros(k) + ShowNat(Magnitude(v))) == Some(v)
  {
    var d := Zeros(k) + ShowNat(Magnitude(v));
    PaddedRendering(k, Magnitude(v));
    ParseSignedDigits(v, sg, d);
    SignRegroup(sg, Zeros(k), ShowNat(Magnitude(v)));
  }

  lemma SignRegroup(sg: string, z: string, r: string)
    ensures sg + z + r == sg + (z + r)
  {
  }

  /** Leading zeros and the rendering of `n` form digits worth `n`. */
  lemma PaddedRendering(k: nat, n: nat)
    ensures var d := Zeros(k) + ShowNat(n);
      d != [] && AllDigits(d) && DigitsValue(d) == n
  {
    DigitsValueAfterZeros(k, ShowNat(n));
    DigitsValueOfShow(n);
  }

  /** An allowed sign followed by digits worth |v| parses to `v`. */
  lemma ParseSignedDigits(v: int, sg: string, d: string)
    requires I32Min <= v <= I32Max && sg in Signs(v)
    requires d != [] && AllDigits(d) && DigitsValue(d) == Magnitude(v)
    ensures ParseI32(sg + d) == Some(v)
  {
    var s := sg + d;
    assert IsDigit(d[0]);
    if sg == [] {
      assert s == d;
    } else {
      assert s[0] == sg[0] && s[1..] == d;
    }
  }

  /**
   * `i32::from_str` exactly: `s` parses to `v` iff `v` is an i32 and `s` is an
   * allowed sign, any number of leading zeros and the digits of |v|. So a lone
   * sign, an empty text, a space or any other character make the parse fail.
   */
  lemma ParseExactly(s: string, v: int)
    ensures ParseI32(s) == Some(v) <==>
      I32Min <= v <= I32Max && exists sg, k: nat :: sg in Signs(v) && s == sg + Zeros(k) + ShowNat(Magnitude(v))
  {
    if ParseI32(s) == Some(v) {
      ParseSound(s);
    }
    if I32Min <= v <= I32Max && exists sg, k: nat :: sg in Signs(v) && s == sg + Zeros(k) + ShowNat(Magnitude(v)) {
      var sg, k: nat :| sg in Signs(v) && s == sg + Zeros(k) + ShowNat(Magnitude(v));
      ParseComplete(v, sg, k);
    }
  }

  /** A text ending in a non-digit, such as "1a" or "1 ", never parses. */
  lemma ParseRejectsNonDigitEnd(s: string, c: char)
    requires !IsDigit(c)
    ensures ParseI32(s + [c]) == None
  {
    var t := s + [c];
    assert t[|t| - 1] == c;
  }

  /** The rendering of a value outside the i32 range does not parse (overflow is an error). */
  lemma ParseOutOfRange(n: int)
    requires n < I32Min || I32Max < n
    ensures ParseI32(ShowInt(n)) == None
  {
    ShowIntShape(n);
  }
}

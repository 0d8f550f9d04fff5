/**
 * StringExtensions.BaseConvert: reads a numeral in base `from` over the
 * 62-character alphabet 0-9 a-z A-Z into an Int32, then writes it in base
 * `to`. Arithmetic wraps as unchecked C# does; `/` and `%` truncate toward
 * zero. A plain `Exception` is `General`.
 */
module BaseConversion {

  import opened Wrappers
  import opened Text

  // ---------------------------------------------------------------------------
  // The alphabet

  /** The position of `c` in "0123456789abcdefghijklmnopqrstuvwxyzABCDEFGHIJKLMNOPQRSTUVWXYZ", or -1. */
  function DigitValue(c: char): (v: int)
    ensures -1 <= v < 62
  {
    if '0' <= c <= '9' then c as int - '0' as int
    else if 'a' <= c <= 'z' then c as int - 'a' as int + 10
    else if 'A' <= c <= 'Z' then c as int - 'A' as int + 36
    else -1
  }

  /** The character at position `n` of the alphabet. */
  function DigitChar(n: int): (c: char)
    requires 0 <= n < 62
    ensures DigitValue(c) == n
  {
    if n < 10 then ('0' as int + n) as char
    else if n < 36 then ('a' as int + n - 10) as char
    else ('A' as int + n - 36) as char
  }

  function Abs(x: int): nat
  {
    if x < 0 then -x else x
  }

  /** C# integer division, truncating toward zero. */
  function TruncDiv(a: int, b: int): int
    requires b != 0
  {
    if (a >= 0) == (b > 0) then Abs(a) / Abs(b) else -(Abs(a) / Abs(b))
  }

  /** C# `%`: the remainder of the truncating division, with the sign of the dividend. */
  function TruncRem(a: int, b: int): (r: int)
    requires b != 0
    ensures a >= 0 ==> 0 <= r < Abs(b)
  {
    if a >= 0 then Abs(a) % Abs(b) else -(Abs(a) % Abs(b))
  }

  /** For a positive dividend and divisor the truncating and Euclidean operators agree. */
  lemma TruncPositive(a: int, b: int)
    requires a >= 0 && b > 0
    ensures TruncDiv(a, b) == a / b && TruncRem(a, b) == a % b
  {
  }

  /** The quotient of a positive value by any divisor other than 0 and 1 is smaller. */
  lemma TruncDivShrinks(a: int, b: int)
    requires a > 0 && b != 0 && b != 1
    ensures TruncDiv(a, b) < a
  {
    if b > 0 {
      assert TruncDiv(a, b) == a / b;
      DivShrinks(a, b);
    } else {
      assert TruncDiv(a, b) == -(a / -b);
      assert a / -b >= 0;
    }
  }

  lemma DivShrinks(a: int, b: int)
    requires a > 0 && b >= 2
    ensures a / b < a
  {
  }

  lemma DivMod(d: int, b: int)
    requires b > 0
    ensures d == (d / b) * b + d % b
    ensures d / b == 0 ==> d == d % b
  {
  }

  lemma MulAtLeast(p: int, b: int)
    requires p >= 0 && b >= 1
    ensures p * b >= p
  {
  }

  // ---------------------------------------------------------------------------
  // Reading: the `for` loop

  /**
   * The `for` loop from position `i` with accumulator `d`: each character's
   * position `c` is refused when `c >= from`, and otherwise `d` becomes
   * `d * from + c`, wrapped to Int32. When `strict`, a character outside the
   * alphabet (`c == -1`) is refused too.
   */
  function AccumulateFrom(src: string, from: int32, i: nat, d: int32, strict: bool): Result<int32>
    requires i <= |src|
    decreases |src| - i
  {
    if i == |src| then Ok(d)
    else
      var c := DigitValue(src[i]);
      if c >= from as int || (strict && c < 0) then Error(General)
      else AccumulateFrom(src, from, i + 1, Wrap32(d as int * from as int + c), strict)
  }

  /** The value of a numeral in base `b`, most significant digit first. */
  function NumeralValue(s: string, b: int): int
    decreases |s|
  {
    if s == [] then 0 else NumeralValue(s[..|s| - 1], b) * b + DigitValue(s[|s| - 1])
  }

  /** Every character is a digit below `b`. */
  predicate DigitsBelow(s: string, b: int)
  {
    forall i :: 0 <= i < |s| ==> 0 <= DigitValue(s[i]) < b
  }

  lemma {:induction false} NumeralValueNonNegative(s: string, b: int)
    requires b >= 1 && DigitsBelow(s, b)
    ensures s != [] ==> 0 <= NumeralValue(s[..|s| - 1], b) <= NumeralValue(s, b)
    ensures NumeralValue(s, b) >= 0
    decreases |s|
  {
    if s != [] {
      var p := s[..|s| - 1];
      assert DigitsBelow(p, b) by {
        forall k | 0 <= k < |p| ensures 0 <= DigitValue(p[k]) < b {
          assert p[k] == s[k];
        }
      }
      NumeralValueNonNegative(p, b);
      MulAtLeast(NumeralValue(p, b), b);
    }
  }

  /**
   * A numeral of valid digits whose value fits in Int32 is read exactly, by
   * either reading, from any point with the value of the prefix read so far.
   */
  lemma {:induction false} AccumulateExact(src: string, from: int32, i: nat, strict: bool)
    requires i <= |src| && from >= 1 && DigitsBelow(src, from as int)
    requires NumeralValue(src, from as int) < 0x8000_0000
    ensures 0 <= NumeralValue(src[..i], from as int) <= NumeralValue(src, from as int)
    ensures AccumulateFrom(src, from, i, NumeralValue(src[..i], from as int) as int32, strict)
      == Ok(NumeralValue(src, from as int) as int32)
    decreases |src| - i
  {
    PrefixBelow(src, from as int, i);
    if i == |src| {
      assert src[..i] == src;
    } else {
      PrefixBelow(src, from as int, i + 1);
      var v := NumeralValue(src[..i], from as int);
      assert src[..i + 1][..i] == src[..i];
      assert NumeralValue(src[..i + 1], from as int) == v * from as int + DigitValue(src[i]);
      AccumulateExact(src, from, i + 1, strict);
    }
  }

  /** A prefix of a valid numeral has a value between 0 and the whole value. */
  lemma {:induction false} PrefixBelow(s: string, b: int, i: nat)
    requires i <= |s| && b >= 1 && DigitsBelow(s, b)
    ensures 0 <= NumeralValue(s[..i], b) <= NumeralValue(s, b)
    decreases |s| - i
  {
    if i == |s| {
      assert s[..i] == s;
      NumeralValueNonNegative(s, b);
    } else {
      PrefixBelow(s, b, i + 1);
      var p := s[..i + 1];
      assert p[..|p| - 1] == s[..i];
      assert DigitsBelow(p, b) by {
        forall k | 0 <= k < |p| ensures 0 <= DigitValue(p[k]) < b {
          assert p[k] == s[k];
        }
      }
      NumeralValueNonNegative(p, b);
    }
  }

  /** In strict reading, success means every character was a digit below `from`. */
  lemma {:induction false} AccumulateStrictDigits(src: string, from: int32, i: nat, d: int32)
    requires i <= |src| && AccumulateFrom(src, from, i, d, true).Ok?
    ensures forall k :: i <= k < |src| ==> 0 <= DigitValue(src[k]) < from as int
    decreases |src| - i
  {
    if i < |src| {
      AccumulateStrictDigits(src, from, i + 1, Wrap32(d as int * from as int + DigitValue(src[i])));
    }
  }

  // ---------------------------------------------------------------------------
  // Writing: the `while` loop and Int32.ToString

  /**
   * The `while` loop from `d` on: digits `chars[d % to]` prepended while
   * `d > 0`, where `to == 0` divides by zero and a remainder of 62 or more
   * indexes past the alphabet.
   */
  function Render(d: int, to: int): Result<string>
    requires to != 1
    decreases if d > 0 then d else 0
  {
    if d <= 0 then Ok([])
    else if to == 0 then Error(DivideByZero)
    else
      var rem := TruncRem(d, to);
      if rem >= 62 then Error(IndexOutOfRange)
      else
        TruncDivShrinks(d, to);
        var rest := Render(TruncDiv(d, to), to);
        if rest.Error? then rest else Ok(rest.value + [DigitChar(rem)])
  }

  /** The decimal digits of `n`. */
  function NatDecimal(n: nat): (s: string)
    ensures |s| > 0
  {
    if n < 10 then [DigitChar(n)] else NatDecimal(n / 10) + [DigitChar(n % 10)]
  }

  /** Int32.ToString(): the decimal form, with `-` for a negative value. */
  function DecimalString(d: int32): string
  {
    if d < 0 then "-" + NatDecimal(-(d as int)) else NatDecimal(d as int)
  }

  /** One turn of the `while` loop for a positive value and a base in [2, 62]. */
  lemma RenderStep(d: int, to: int)
    requires d > 0 && 2 <= to <= 62
    ensures d / to < d && 0 <= d % to < to
    ensures Render(d, to) == Prepend(Render(d / to, to), [DigitChar(d % to)])
  {
    TruncPositive(d, to);
    DivShrinks(d, to);
  }

  /** For a positive value, the decimal form is what the `while` loop writes in base 10. */
  lemma {:induction false} NatDecimalRender(n: nat)
    requires n > 0
    ensures Render(n, 10) == Ok(NatDecimal(n))
    decreases n
  {
    RenderStep(n, 10);
    if n >= 10 {
      NatDecimalRender(n / 10);
    } else {
      assert Render(0, 10) == Ok([]);
      assert n % 10 == n;
      assert [] + [DigitChar(n)] == [DigitChar(n)];
    }
  }

  /** One turn of the `while` loop, with the quotient and remainder named. */
  lemma RenderTurn(d: int, to: int) returns (q: int, rem: int)
    requires d > 0 && 2 <= to <= 62
    ensures 0 <= q < d && 0 <= rem < to && d == q * to + rem
    ensures Render(d, to) == Prepend(Render(q, to), [DigitChar(rem)])
  {
    q, rem := d / to, d % to;
    RenderStep(d, to);
    DivMod(d, to);
  }

  lemma NumeralSnoc(t: string, x: char, b: int)
    ensures NumeralValue(t + [x], b) == NumeralValue(t, b) * b + DigitValue(x)
  {
    assert (t + [x])[..|t|] == t;
  }

  /**
   * For a base in [2, 62] a positive value is written without error as a
   * numeral of digits below `to`, without a leading zero, whose value is `d`.
   */
  lemma {:induction false} RenderValue(d: int, to: int)
    requires d > 0 && 2 <= to <= 62
    ensures Render(d, to).Ok?
    ensures var s := Render(d, to).value;
      && s != [] && s[0] != '0' && DigitsBelow(s, to) && NumeralValue(s, to) == d
    decreases d
  {
    var q, rem := RenderTurn(d, to);
    var x := DigitChar(rem);
    var t := if q == 0 then [] else (RenderValue(q, to); Render(q, to).value);
    assert Render(q, to) == Ok(t);
    var s := t + [x];
    assert Render(d, to) == Ok(s);
    NumeralSnoc(t, x, to);
    assert NumeralValue(t, to) == q;
    assert s[0] != '0' by {
      if q == 0 {
        assert rem == d;
      } else {
        assert s[0] == t[0];
      }
    }
    assert DigitsBelow(s, to) by {
      forall k | 0 <= k < |s| ensures 0 <= DigitValue(s[k]) < to {
        if k < |t| {
          assert s[k] == t[k];
        }
      }
    }
  }

  // ---------------------------------------------------------------------------
  // BaseConvert

  /** BaseConvert as written: characters outside the alphabet read as -1. */
  function BaseConvertSpec(source: string, from: int32, to: int32): Result<string>
    requires to != 1
  {
    ConvertSpec(source, from, to, false)
  }

  /** BaseConvert refusing characters outside the alphabet, as its message says it should. */
  function BaseConvertIntended(source: string, from: int32, to: int32): Result<string>
    requires to != 1
  {
    ConvertSpec(source, from, to, true)
  }

  /** The sign and digits of `source`: an optional leading `-`, and the rest. */
  function ConvertSpec(source: string, from: int32, to: int32, strict: bool): Result<string>
    requires to != 1
  {
    if |source| == 0 then Error(General)
    else
      var minus := if source[0] == '-' then "-" else "";
      var src := if minus == "" then source else source[1..];
      if |src| == 0 then Error(General)
      else
        var acc := AccumulateFrom(src, from, 0, 0, strict);
        if acc.Error? then Error(acc.failure)
        else
          var d := acc.value;
          if to == 10 || d == 0 then Ok(minus + DecimalString(d))
          else
            var digits := Render(d as int, to as int);
            if digits.Error? then digits else Ok(minus + digits.value)
  }

  /**
   * BaseConvert(source, from, to). A `to` of 1 makes the `while` loop run
   * forever, so it is excluded.
   */
  method BaseConvert(source: string, from: int32, to: int32) returns (r: Result<string>)
    requires to != 1
    ensures r == BaseConvertSpec(source, from, to)
  {
    var len := |source|;
    if len == 0 {
      return Error(General);
    }
    var minus := if source[0] == '-' then "-" else "";
    var src := if minus == "" then source else source[1..];
    len := |src|;
    if len == 0 {
      return Error(General);
    }
    var d: int32 := 0;
    for i := 0 to len
      invariant AccumulateFrom(src, from, i, d, false) == AccumulateFrom(src, from, 0, 0, false)
    {
      var c := DigitValue(src[i]);
      if c >= from as int {
        return Error(General);
      }
      d := Wrap32(d as int * from as int + c);
    }
    if to == 10 || d == 0 {
      return Ok(minus + DecimalString(d));
    }
    var result := "";
    ghost var d0 := d;
    assert Render(d as int, to as int) == Prepend(Render(d as int, to as int), result) by {
      var r0 := Render(d as int, to as int);
      if r0.Ok? {
        assert r0.value + "" == r0.value;
      }
    }
    while d > 0
      invariant Render(d0 as int, to as int) == Prepend(Render(d as int, to as int), result)
      decreases d
    {
      if to == 0 {
        return Error(DivideByZero);
      }
      var rem := TruncRem(d as int, to as int);
      if rem >= 62 {
        return Error(IndexOutOfRange);
      }
      var q := TruncDiv(d as int, to as int);
      RenderLoopStep(d as int, to as int, result);
      result := [DigitChar(rem)] + result;
      d := q as int32;
    }
    assert [] + result == result;
    return Ok(minus + result);
  }

  /** One turn of the `while` loop moves a digit from the value to the text written so far. */
  lemma RenderLoopStep(d: int, to: int, tail: string)
    requires d > 0 && to != 0 && to != 1 && TruncRem(d, to) < 62
    ensures -d <= TruncDiv(d, to) < d
    ensures Prepend(Render(d, to), tail)
      == Prepend(Render(TruncDiv(d, to), to), [DigitChar(TruncRem(d, to))] + tail)
  {
    TruncDivShrinks(d, to);
    TruncDivAbove(d, to);
    var rest := Render(TruncDiv(d, to), to);
    var x := DigitChar(TruncRem(d, to));
    assert Render(d, to) == Prepend(rest, [x]);
    if rest.Ok? {
      assert rest.value + [x] + tail == rest.value + ([x] + tail);
    }
  }

  lemma TruncDivAbove(a: int, b: int)
    requires a > 0 && b != 0
    ensures TruncDiv(a, b) >= -a
  {
    var c := Abs(b);
    DivAtMost(a, c);
    if b < 0 {
      assert TruncDiv(a, b) == -(a / c);
    } else {
      assert TruncDiv(a, b) == a / c;
    }
  }

  lemma DivAtMost(a: int, c: int)
    requires a > 0 && c >= 1
    ensures 0 <= a / c <= a
  {
  }

  /** `r`'s text followed by `tail`, or `r`'s error. */
  function Prepend(r: Result<string>, tail: string): Result<string>
  {
    if r.Error? then r else Ok(r.value + tail)
  }

  /**
   * Converting a valid numeral whose value fits in Int32, between bases in
   * [2, 62], keeps its sign and its value: the output is a numeral in base
   * `to` without a leading zero ("0" for zero).
   */
  lemma BaseConvertValue(source: string, from: int32, to: int32, strict: bool)
    requires 2 <= from <= 62 && 2 <= to <= 62
    requires var src := if |source| > 0 && source[0] == '-' then source[1..] else source;
      src != [] && DigitsBelow(src, from as int) && NumeralValue(src, from as int) < 0x8000_0000
    ensures var minus := if source[0] == '-' then "-" else "";
      var src := if minus == "" then source else source[1..];
      var r := ConvertSpec(source, from, to, strict);
      && r.Ok? && |r.value| > |minus| && r.value[..|minus|] == minus
      && var digits := r.value[|minus|..];
      && DigitsBelow(digits, to as int)
      && NumeralValue(digits, to as int) == NumeralValue(src, from as int)
      && (digits[0] == '0' ==> digits == "0")
  {
    var minus := if source[0] == '-' then "-" else "";
    var src := if minus == "" then source else source[1..];
    assert src[..0] == [];
    AccumulateExact(src, from, 0, strict);
    var v := NumeralValue(src, from as int);
    var digits: string;
    if v == 0 {
      digits := "0";
      assert DecimalString(0) == digits;
      assert NumeralValue(digits, to as int) == 0 by {
        assert digits[..0] == [];
      }
    } else {
      RenderValue(v, to as int);
      digits := Render(v, to as int).value;
      if to == 10 {
        NatDecimalRender(v);
      }
    }
    assert ConvertSpec(source, from, to, strict) == Ok(minus + digits);
    assert (minus + digits)[..|minus|] == minus;
    assert (minus + digits)[|minus|..] == digits;
  }

  /**
   * As written, a character outside the alphabet reads as -1 instead of being
   * refused: "1!" in base 10 is taken as 1 * 10 - 1 = 9, which is "1001" in
   * base 2. Refusing it is what the intended reading does.
   */
  lemma BaseConvertNonDigit()
    ensures BaseConvertSpec("1!", 10, 2) == Ok("1001")
    ensures BaseConvertIntended("1!", 10, 2) == Error(General)
  {
    var src := "1!";
    assert src[0] != '-' && DigitValue(src[0]) == 1 && DigitValue(src[1]) == -1;
    assert Wrap32(0 * 10 + 1) == 1 && Wrap32(1 * 10 + -1) == 9;
    assert AccumulateFrom(src, 10, 2, 9, false) == Ok(9);
    assert AccumulateFrom(src, 10, 1, 1, false) == Ok(9);
    assert AccumulateFrom(src, 10, 0, 0, false) == Ok(9);
    assert AccumulateFrom(src, 10, 1, 1, true) == Error(General);
    assert AccumulateFrom(src, 10, 0, 0, true) == Error(General);
    assert DigitChar(0) == '0' && DigitChar(1) == '1';
    assert Render(0, 2) == Ok([]);
    RenderStep(1, 2);
    assert Render(1, 2) == Ok("1") by {
      assert [] + "1" == "1";
    }
    RenderStep(2, 2);
    assert Render(2, 2) == Ok("10") by {
      assert "1" + "0" == "10";
    }
    RenderStep(4, 2);
    assert Render(4, 2) == Ok("100") by {
      assert "10" + "0" == "100";
    }
    RenderStep(9, 2);
    assert Render(9, 2) == Ok("1001") by {
      assert "100" + "1" == "1001";
    }
    assert "" + "1001" == "1001";
    assert BaseConvertSpec(src, 10, 2) == ConvertSpec(src, 10, 2, false);
  }

  /**
   * Under the intended reading a successful conversion came from a numeral of
   * digits below `from`.
   */
  lemma BaseConvertIntendedDigits(source: string, from: int32, to: int32)
    requires to != 1 && BaseConvertIntended(source, from, to).Ok?
    ensures var src := if source[0] == '-' then source[1..] else source;
      src != [] && DigitsBelow(src, from as int)
  {
    var src := if source[0] == '-' then source[1..] else source;
    AccumulateStrictDigits(src, from, 0, 0);
  }
}

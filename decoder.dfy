/**
 * `parse_digits`: the fixed-point decoder that turns a measurement such as
 * `-12.3` into the integer -123 (the value times ten) without floating point.
 */
module Decoder {
  import opened Bytes

  /** The integer spelled by the digit bytes of `s` read left to right; every other byte is skipped. */
  function DigitsValue(s: seq<byte>): nat
  {
    if s == [] then 0
    else
      var v, b := DigitsValue(s[..|s| - 1]), s[|s| - 1];
      if IsDigit(b) then v * 10 + (b - ZERO) as int else v
  }

  /** The sign multiplier: a `-` anywhere makes it negative. */
  function Sign(s: seq<byte>): int
  {
    if MINUS in s then -1 else 1
  }

  /** What `parse_digits` returns, as an unbounded integer. */
  function Decode(s: seq<byte>): int
  {
    Sign(s) * DigitsValue(s)
  }

  lemma {:induction false} DigitsValueMonotone(s: seq<byte>, i: nat)
    requires i <= |s|
    ensures DigitsValue(s[..i]) <= DigitsValue(s)
  {
    if i < |s| {
      assert s[..|s| - 1][..i] == s[..i];
      DigitsValueMonotone(s[..|s| - 1], i);
    } else {
      assert s[..i] == s;
    }
  }

  /**
   * `parse_digits(bytes)`; the accumulator is an `i16`, so the digits must
   * spell a number that fits in one.
   */
  method ParseDigits(bytes: seq<byte>) returns (r: i16)
    requires DigitsValue(bytes) <= I16_MAX
    ensures r as int == Decode(bytes)
  {
    var mul: i16 := 1;
    var acc: i16 := 0;
    for i := 0 to |bytes|
      invariant acc as int == DigitsValue(bytes[..i])
      invariant mul as int == Sign(bytes[..i])
    {
      var b := bytes[i];
      assert bytes[..i + 1][..i] == bytes[..i];
      assert bytes[..i + 1] == bytes[..i] + [b];
      DigitsValueMonotone(bytes, i + 1);
      if IsDigit(b) {
        acc := acc * 10 + (b - ZERO) as i16;
      } else if b == MINUS {
        mul := -1;
      }
    }
    assert bytes[..|bytes|] == bytes;
    r := mul * acc;
  }

  /** A byte that is neither a digit nor `-` does not change the decoded value, wherever it stands. */
  lemma {:induction false} DecodeIgnoresOtherBytes(a: seq<byte>, b: byte, c: seq<byte>)
    requires !IsDigit(b) && b != MINUS
    ensures Decode(a + [b] + c) == Decode(a + c)
  {
    DigitsValueIgnores(a, b, c);
    assert MINUS in a + [b] + c <==> MINUS in a + c by {
      assert forall x :: x in a + [b] + c <==> x in a || x == b || x in c;
      assert forall x :: x in a + c <==> x in a || x in c;
    }
  }

  lemma {:induction false} DigitsValueIgnores(a: seq<byte>, b: byte, c: seq<byte>)
    requires !IsDigit(b)
    ensures DigitsValue(a + [b] + c) == DigitsValue(a + c)
  {
    if c == [] {
      assert (a + [b] + c)[..|a|] == a + c;
    } else {
      var c', d := c[..|c| - 1], c[|c| - 1];
      assert (a + [b] + c)[..|a + [b] + c| - 1] == a + [b] + c';
      assert (a + c)[..|a + c| - 1] == a + c';
      DigitsValueIgnores(a, b, c');
    }
  }

  // An independent, positional reading of a measurement's text.

  function Pow10(n: nat): nat
  {
    if n == 0 then 1 else 10 * Pow10(n - 1)
  }

  predicate AllDigits(ds: seq<byte>)
  {
    forall i :: 0 <= i < |ds| ==> IsDigit(ds[i])
  }

  /** The natural number written by an all-digit string: sum of `d * 10^position`. */
  function Number(ds: seq<byte>): nat
    requires AllDigits(ds)
  {
    if ds == [] then 0 else (ds[0] - ZERO) as int * Pow10(|ds| - 1) + Number(ds[1..])
  }

  /** The text of a measurement: optional `-`, one or more digits, `.`, one digit. */
  function Format(negative: bool, whole: seq<byte>, tenth: byte): seq<byte>
  {
    (if negative then [MINUS] else []) + whole + [DOT, tenth]
  }

  predicate WellFormedMeasurement(negative: bool, whole: seq<byte>, tenth: byte)
  {
    whole != [] && AllDigits(whole) && IsDigit(tenth)
  }

  /** The exact real value such a text denotes. */
  function RealValue(negative: bool, whole: seq<byte>, tenth: byte): real
    requires AllDigits(whole) && IsDigit(tenth)
  {
    (if negative then -1.0 else 1.0) * (Number(whole) as real + (tenth - ZERO) as real / 10.0)
  }

  lemma {:induction false} NumberAppend(ds: seq<byte>, d: byte)
    requires AllDigits(ds) && IsDigit(d)
    ensures AllDigits(ds + [d]) && Number(ds + [d]) == Number(ds) * 10 + (d - ZERO) as int
  {
    assert AllDigits(ds + [d]);
    if ds != [] {
      var x, p := (ds[0] - ZERO) as int, Pow10(|ds| - 1);
      assert (ds + [d])[1..] == ds[1..] + [d];
      NumberAppend(ds[1..], d);
      assert Number(ds + [d]) == x * Pow10(|ds|) + Number(ds[1..] + [d]);
      assert Pow10(|ds|) == 10 * p;
      ShiftDigit(x, p, Number(ds[1..]));
    }
  }

  lemma ShiftDigit(x: int, p: int, rest: int)
    ensures x * (10 * p) + rest * 10 == (x * p + rest) * 10
  {
  }

  /** On an all-digit string the decoder's fold computes the positional number. */
  lemma {:induction false} DigitsValueIsNumber(ds: seq<byte>)
    requires AllDigits(ds)
    ensures DigitsValue(ds) == Number(ds)
  {
    if ds != [] {
      var init := ds[..|ds| - 1];
      assert ds == init + [ds[|ds| - 1]];
      DigitsValueIsNumber(init);
      NumberAppend(init, ds[|ds| - 1]);
    }
  }

  /**
   * On a well-formed measurement the decoder returns exactly ten times its
   * real value: the decimal point only separates digits that are read as if
   * contiguous, and a leading `-` negates.
   */
  lemma DecodeFormat(negative: bool, whole: seq<byte>, tenth: byte)
    requires WellFormedMeasurement(negative, whole, tenth)
    ensures Decode(Format(negative, whole, tenth)) == (if negative then -1 else 1) * (Number(whole) * 10 + (tenth - ZERO) as int)
    ensures Decode(Format(negative, whole, tenth)) as real == 10.0 * RealValue(negative, whole, tenth)
  {
    FormatDigits(negative, whole, tenth);
    FormatSign(negative, whole, tenth);
  }

  lemma FormatDigits(negative: bool, whole: seq<byte>, tenth: byte)
    requires WellFormedMeasurement(negative, whole, tenth)
    ensures DigitsValue(Format(negative, whole, tenth)) == Number(whole) * 10 + (tenth - ZERO) as int
  {
    var sign: seq<byte> := if negative then [MINUS] else [];
    var s := Format(negative, whole, tenth);
    var body := sign + whole;
    assert s == body + [DOT] + [tenth];
    assert s[..|s| - 1] == body + [DOT] + [];
    DigitsValueIgnores(body, DOT, []);
    assert body + [] == body;
    if negative {
      DigitsValueIgnores([], MINUS, whole);
      assert [] + [MINUS] + whole == body && [] + whole == whole;
    } else {
      assert body == whole;
    }
    DigitsValueIsNumber(whole);
  }

  lemma FormatSign(negative: bool, whole: seq<byte>, tenth: byte)
    requires WellFormedMeasurement(negative, whole, tenth)
    ensures Sign(Format(negative, whole, tenth)) == if negative then -1 else 1
  {
    var s := Format(negative, whole, tenth);
    if negative {
      assert s[0] == MINUS;
    } else {
      assert s == whole + [DOT, tenth];
      assert forall i :: 0 <= i < |s| ==> s[i] != MINUS by {
        forall i | 0 <= i < |s| ensures s[i] != MINUS {
          if i < |whole| {
            assert s[i] == whole[i];
          }
        }
      }
    }
  }
}

/** Printing numbers and reading them back. */
module Numbers {
  import opened Bytes

  const TWO64: int := 0x1_0000_0000_0000_0000
  const BUFFER_BYTES: nat := 32
  const CHAR_0: byte := 0x30
  const CHAR_9: byte := 0x39
  const LOWER_A: byte := 0x61
  const LOWER_F: byte := 0x66
  const UPPER_A: byte := 0x41
  const UPPER_F: byte := 0x46
  const LOWER_X: byte := 0x78

  // ----- numerals

  /** "0123456789abcdef" */
  function HexChar(d: nat): (c: byte)
    requires d < 16
    ensures c == CHAR_0 <==> d == 0
  {
    if d < 10 then CHAR_0 + d else LOWER_A + (d - 10)
  }

  predicate IsRadix(radix: nat) {
    radix == 8 || radix == 10 || radix == 16
  }

  /** The digits of n, most significant first. */
  function Numeral(n: nat, radix: nat): (s: seq<byte>)
    requires IsRadix(radix)
    ensures s != []
    decreases n
  {
    if n < radix then [HexChar(n)] else Numeral(n / radix, radix) + [HexChar(n % radix)]
  }

  /** The digits that are left after some have been split off. */
  function Rest(n: nat, radix: nat): seq<byte>
    requires IsRadix(radix)
  {
    if n == 0 then [] else Numeral(n, radix)
  }

  lemma NumeralStep(n: nat, radix: nat)
    requires IsRadix(radix)
    ensures Numeral(n, radix) == Rest(n / radix, radix) + [HexChar(n % radix)]
  {
    Shrinks(n, radix);
    if n < radix { assert n % radix == n; }
    hide HexChar;
  }

  lemma Shrinks(n: nat, radix: nat)
    requires IsRadix(radix)
    ensures 8 * (n / radix) <= n && (n >= radix ==> 0 < n / radix < n) && (n < radix ==> n / radix == 0)
  {
  }

  function Reversed(s: seq<byte>): (r: seq<byte>)
    ensures |r| == |s|
  {
    if s == [] then [] else Reversed(s[1..]) + [s[0]]
  }

  lemma {:induction false} ReversedMore(s: seq<byte>, c: byte)
    ensures Reversed(s + [c]) == [c] + Reversed(s)
    decreases |s|
  {
    if s == [] {
      assert [] + [c] == [c] && [c][1..] == [];
    } else {
      ReversedMore(s[1..], c);
      assert (s + [c])[1..] == s[1..] + [c];
    }
  }

  function Power(b: nat, e: nat): (p: nat)
    ensures b > 0 ==> p > 0
  {
    if e == 0 then 1 else b * Power(b, e - 1)
  }

  lemma Power8To22()
    ensures Power(8, 22) == 4 * TWO64
  {
    assert Power(8, 6) == 0x4_0000;
    assert Power(8, 12) == 0x10_0000_0000;
    assert Power(8, 18) == 0x40_0000_0000_0000;
  }

  lemma {:induction false} NumeralLength(n: nat, radix: nat, k: nat)
    requires IsRadix(radix) && k > 0 && n < Power(8, k)
    ensures |Numeral(n, radix)| <= k
    decreases n
  {
    if n >= radix {
      NumeralStep(n, radix);
      Shrinks(n, radix);
      NumeralLength(n / radix, radix, k - 1);
    }
  }

  /** The digits of a 64-bit number fit the buffer, whatever the radix. */
  lemma NumeralFits(n: nat, radix: nat)
    requires IsRadix(radix) && n < TWO64
    ensures |Numeral(n, radix)| <= 22 < BUFFER_BYTES
  {
    Power8To22();
    NumeralLength(n, radix, 22);
  }

  /** Only the number zero starts with a zero. */
  lemma {:induction false} NoLeadingZero(n: nat, radix: nat)
    requires IsRadix(radix)
    ensures Numeral(n, radix)[0] == CHAR_0 <==> n == 0
    decreases n
  {
    if n >= radix { NoLeadingZero(n / radix, radix); }
  }

  /** The digits split off so far, and the number they were split off from. */
  ghost predicate Splitting(number: nat, radix: nat, n: nat, more: bool, digits: seq<byte>)
    requires IsRadix(radix)
  {
    && |digits| <= 22 && n < Power(8, 22 - |digits|) && (more ==> n > 0 || digits == [])
    && Numeral(number, radix) == (if more then Numeral(n, radix) else []) + Reversed(digits)
  }

  lemma SplitStarts(number: nat, radix: nat)
    requires IsRadix(radix) && number < TWO64
    ensures Splitting(number, radix, number, true, [])
  {
    Power8To22();
    assert Numeral(number, radix) + [] == Numeral(number, radix);
  }

  lemma SplitStep(number: nat, radix: nat, n: nat, digits: seq<byte>)
    requires IsRadix(radix) && Splitting(number, radix, n, true, digits)
    ensures |digits| < 22
    ensures Splitting(number, radix, n / radix, n / radix > 0, digits + [HexChar(n % radix)])
  {
    NumeralStep(n, radix);
    Shrinks(n, radix);
    ReversedMore(digits, HexChar(n % radix));
    hide Numeral, Reversed, HexChar;
    Regroup(Rest(n / radix, radix), [HexChar(n % radix)], Reversed(digits));
  }

  /** fprintf_unsigned: splits the digits off from the right and prints them backwards. */
  method PrintUnsigned(number: nat, radix: nat) returns (out: seq<byte>)
    requires number < TWO64 && IsRadix(radix)
    ensures out == Numeral(number, radix)
  {
    hide Numeral, Reversed, Splitting, HexChar;
    var buffer := new byte[BUFFER_BYTES];
    var pos: nat, n: nat, more := 0, number, true;
    SplitStarts(number, radix);
    while more
      invariant pos <= BUFFER_BYTES && Splitting(number, radix, n, more, buffer[..pos])
      decreases if more then n + 1 else 0
    {
      SplitStep(number, radix, n, buffer[..pos]);
      Shrinks(n, radix);
      var rem := n % radix;
      n := n / radix;
      ghost var digits := buffer[..pos];
      buffer[pos] := HexChar(rem);
      pos := pos + 1;
      assert buffer[..pos] == digits + [HexChar(rem)];
      more := n > 0;
    }
    SplitEnds(number, radix, n, buffer[..pos]);
    out := Backwards(buffer, pos);
  }

  lemma SplitEnds(number: nat, radix: nat, n: nat, digits: seq<byte>)
    requires IsRadix(radix) && Splitting(number, radix, n, false, digits)
    ensures Reversed(digits) == Numeral(number, radix)
  {
    hide Numeral, Reversed;
    assert [] + Reversed(digits) == Reversed(digits);
  }

  /** The second loop of fprintf_unsigned. */
  method Backwards(buffer: array<byte>, count: nat) returns (out: seq<byte>)
    requires count <= buffer.Length
    ensures out == Reversed(buffer[..count])
  {
    var pos := count;
    out := [];
    hide Reversed;
    assert out + Reversed(buffer[..pos]) == Reversed(buffer[..pos]);
    while pos > 0
      invariant 0 <= pos <= count && out + Reversed(buffer[..pos]) == Reversed(buffer[..count])
    {
      pos := pos - 1;
      assert buffer[..pos + 1] == buffer[..pos] + [buffer[pos]];
      LastFirst(buffer[..pos], buffer[pos], out);
      out := out + [buffer[pos]];
    }
  }

  lemma LastFirst(s: seq<byte>, c: byte, out: seq<byte>)
    ensures out + Reversed(s + [c]) == (out + [c]) + Reversed(s)
  {
    hide Reversed;
    ReversedMore(s, c);
    Regroup(out, [c], Reversed(s));
  }

  // ----- parsing

  predicate IsDigit(c: byte) {
    CHAR_0 <= c <= CHAR_9
  }

  /** The decimal number that the leading digits stand for, after acc, in 32 bits. */
  function DecValue(s: seq<byte>, acc: u32): u32
    decreases |s|
  {
    if s == [] || !IsDigit(s[0]) then acc else DecValue(s[1..], (acc * 10 + (s[0] - CHAR_0)) % TWO32)
  }

  /** What a character adds to a hexadecimal number; one that is no digit adds nothing. */
  function HexDigit(c: byte): (d: nat)
    ensures d < 16
  {
    if IsDigit(c) then c - CHAR_0
    else if LOWER_A <= c <= LOWER_F then c - LOWER_A + 10
    else if UPPER_A <= c <= UPPER_F then c - UPPER_A + 10
    else 0
  }

  /** Every character shifts the number, in 32 bits. */
  function HexValue(s: seq<byte>, acc: u32): u32
    decreases |s|
  {
    if s == [] then acc else HexValue(s[1..], (acc * 16 % TWO32 + HexDigit(s[0])) % TWO32)
  }

  function SkipPrefix(s: seq<byte>): seq<byte> {
    if |s| >= 2 && s[0] == CHAR_0 && s[1] == LOWER_X then s[2..] else s
  }

  /** dec_str_to_int */
  method DecStrToInt(s: seq<byte>) returns (result: u32)
    ensures result == DecValue(s, 0)
  {
    result := 0;
    var i := 0;
    assert s[0..] == s;
    while i < |s| && IsDigit(s[i])
      invariant i <= |s| && DecValue(s[i..], result) == DecValue(s, 0)
    {
      assert s[i..][1..] == s[i + 1..];
      result := (result * 10 + (s[i] - CHAR_0)) % TWO32;
      i := i + 1;
    }
  }

  /** hex_str_to_int */
  method HexStrToInt(s: seq<byte>) returns (result: u32)
    ensures result == HexValue(SkipPrefix(s), 0)
  {
    result := 0;
    ghost var t := SkipPrefix(s);
    var i := 0;
    if |s| >= 2 && s[0] == CHAR_0 && s[1] == LOWER_X { i := 2; }
    assert s[i..] == t;
    while i < |s|
      invariant i <= |s| && HexValue(s[i..], result) == HexValue(t, 0)
    {
      assert s[i..][1..] == s[i + 1..];
      result := result * 16 % TWO32;
      result := (result + HexDigit(s[i])) % TWO32;
      i := i + 1;
    }
  }

  // ----- what the characters mean

  const DIGITS: string := "0123456789abcdef"
  const CAPITALS: string := "0123456789ABCDEF"

  /** The character stands for a digit, as a small letter or a capital one. */
  predicate Stands(c: byte, d: nat) {
    d < 16 && (c == DIGITS[d] as int || c == CAPITALS[d] as int)
  }

  lemma DigitSpelled(d: nat)
    requires d < 16
    ensures HexChar(d) == DIGITS[d] as int
  {
    assert DIGITS[0] == '0' && DIGITS[1] == '1' && DIGITS[2] == '2' && DIGITS[3] == '3' && DIGITS[4] == '4'
           && DIGITS[5] == '5' && DIGITS[6] == '6' && DIGITS[7] == '7';
    assert DIGITS[8] == '8' && DIGITS[9] == '9' && DIGITS[10] == 'a' && DIGITS[11] == 'b' && DIGITS[12] == 'c'
           && DIGITS[13] == 'd' && DIGITS[14] == 'e' && DIGITS[15] == 'f';
  }

  lemma DigitRead(c: byte, d: nat)
    requires Stands(c, d)
    ensures HexDigit(c) == d && (d < 10 ==> IsDigit(c) && c - CHAR_0 == d)
  {
    DigitSpelled(d);
    assert CAPITALS[0] == '0' && CAPITALS[1] == '1' && CAPITALS[2] == '2' && CAPITALS[3] == '3' && CAPITALS[4] == '4'
           && CAPITALS[5] == '5' && CAPITALS[6] == '6' && CAPITALS[7] == '7';
    assert CAPITALS[8] == '8' && CAPITALS[9] == '9' && CAPITALS[10] == 'A' && CAPITALS[11] == 'B'
           && CAPITALS[12] == 'C' && CAPITALS[13] == 'D' && CAPITALS[14] == 'E' && CAPITALS[15] == 'F';
  }

  predicate DigitsOf(ds: seq<nat>, radix: nat) {
    forall i | 0 <= i < |ds| :: ds[i] < radix
  }

  /** The number that digits stand for, the last one for the ones. */
  function Value(ds: seq<nat>, radix: nat): nat {
    if ds == [] then 0 else Value(ds[..|ds| - 1], radix) * radix + ds[|ds| - 1]
  }

  /** The digits as they are printed. */
  function Spelled(ds: seq<nat>): (s: seq<byte>)
    requires DigitsOf(ds, 16)
    ensures |s| == |ds|
  {
    seq<byte>(|ds|, i requires 0 <= i < |ds| =>
      DigitSpelled(ds[i]);
      DIGITS[ds[i]] as int)
  }

  /** The text is these digits, in small or capital letters. */
  predicate Reads(s: seq<byte>, ds: seq<nat>) {
    |s| == |ds| && forall i | 0 <= i < |s| :: Stands(s[i], ds[i])
  }

  lemma ValueStep(v: nat, radix: nat, d: nat)
    requires IsRadix(radix) && d < radix
    ensures (v * radix + d) / radix == v && (v * radix + d) % radix == d && (v * radix + d < radix <==> v == 0)
  {
  }

  lemma {:induction false} ValuePositive(ds: seq<nat>, radix: nat)
    requires IsRadix(radix) && ds != [] && ds[0] > 0
    ensures Value(ds, radix) > 0
  {
    if |ds| > 1 { ValuePositive(ds[..|ds| - 1], radix); }
  }

  lemma SpelledMore(ds: seq<nat>)
    requires DigitsOf(ds, 16) && ds != []
    ensures Spelled(ds) == Spelled(ds[..|ds| - 1]) + [HexChar(ds[|ds| - 1])]
  {
    DigitSpelled(ds[|ds| - 1]);
  }

  /** The numeral of a number is its digits in this radix, written with these characters. */
  lemma {:induction false} NumeralSpelled(ds: seq<nat>, radix: nat)
    requires IsRadix(radix) && DigitsOf(ds, radix) && ds != [] && (ds[0] > 0 || |ds| == 1)
    ensures Numeral(Value(ds, radix), radix) == Spelled(ds)
    decreases |ds|
  {
    var rest, d := ds[..|ds| - 1], ds[|ds| - 1];
    ValueStep(Value(rest, radix), radix, d);
    SpelledMore(ds);
    hide HexChar, Spelled;
    if |ds| > 1 {
      ValuePositive(rest, radix);
      NumeralSpelled(rest, radix);
    } else {
      assert rest == [];
    }
  }

  /** A text is its front, and its last character. */
  lemma ReadsFront(s: seq<byte>, ds: seq<nat>, rest: seq<byte>)
    requires Reads(s, ds) && s != []
    ensures var k := |s| - 1;
            && |ds| == |s| && Reads(s[..k], ds[..k]) && Stands(s[k], ds[k])
            && s + rest == s[..k] + ([s[k]] + rest) && ([s[k]] + rest)[0] == s[k] && ([s[k]] + rest)[1..] == rest
  {
    hide Stands;
  }

  /** Decimal digits are read as their value in 32 bits. */
  lemma {:induction false} DecMeans(s: seq<byte>, ds: seq<nat>, rest: seq<byte>)
    requires Reads(s, ds) && DigitsOf(ds, 10)
    ensures DecValue(s + rest, 0) == DecValue(rest, Value(ds, 10) % TWO32)
    decreases |s|
  {
    hide Reads, Stands, IsDigit;
    if s == [] {
      EmptyReads(s, ds, rest);
    } else {
      var k := |s| - 1;
      ReadsFront(s, ds, rest);
      DigitRead(s[k], ds[k]);
      ModStep(Value(ds[..k], 10), 10, ds[k]);
      DecMeans(s[..k], ds[..k], [s[k]] + rest);
    }
  }

  lemma EmptyReads(s: seq<byte>, ds: seq<nat>, rest: seq<byte>)
    requires Reads(s, ds) && s == []
    ensures s + rest == rest && ds == []
  {
  }

  /** Hexadecimal digits, in small or capital letters, are read as their value in 32 bits. */
  lemma {:induction false} HexMeans(s: seq<byte>, ds: seq<nat>, rest: seq<byte>)
    requires Reads(s, ds)
    ensures HexValue(s + rest, 0) == HexValue(rest, Value(ds, 16) % TWO32)
    decreases |s|
  {
    hide Reads, Stands, HexValue;
    if s == [] {
      EmptyReads(s, ds, rest);
    } else {
      var k := |s| - 1;
      ReadsFront(s, ds, rest);
      HexCharStep(Value(ds[..k], 16), s[k], ds[k], rest);
      HexMeans(s[..k], ds[..k], [s[k]] + rest);
    }
  }

  lemma HexCharStep(acc: nat, c: byte, d: nat, rest: seq<byte>)
    requires Stands(c, d)
    ensures HexValue([c] + rest, acc % TWO32) == HexValue(rest, (acc * 16 + d) % TWO32)
  {
    DigitRead(c, d);
    hide Stands, HexDigit;
    var t := [c] + rest;
    assert t[0] == c && t[1..] == rest;
    ModStep(acc, 16, d);
    ModStep(acc % TWO32 * 16, 1, d);
  }

  /** What dec_str_to_int and hex_str_to_int make of a text that is digits. */
  method ParseDigits(s: seq<byte>, hexadecimal: bool, ghost ds: seq<nat>) returns (result: u32)
    requires Reads(s, ds) && (!hexadecimal ==> DigitsOf(ds, 10))
    ensures result == Value(ds, if hexadecimal then 16 else 10) % TWO32
  {
    assert s + [] == s;
    if hexadecimal {
      HexMeans(s, ds, []);
      NotPrefixed(s, ds);
      hide HexValue, Value, Reads;
      result := HexStrToInt(s);
    } else {
      DecMeans(s, ds, []);
      hide DecValue, Value, Reads;
      result := DecStrToInt(s);
    }
  }

  lemma NotPrefixed(s: seq<byte>, ds: seq<nat>)
    requires Reads(s, ds)
    ensures SkipPrefix(s) == s
  {
    if |s| >= 2 { DigitRead(s[1], ds[1]); }
  }

  // ----- round trips

  lemma ModStep(b: nat, r: nat, d: nat)
    ensures (b % TWO32 * r + d) % TWO32 == (b * r + d) % TWO32
  {
    var q, a := b / TWO32, b % TWO32;
    assert b == q * TWO32 + a;
    Distribute(q, a, r, d);
    ModPlus(q * r, a * r + d);
  }

  lemma Distribute(q: nat, a: nat, r: nat, d: nat)
    ensures (q * TWO32 + a) * r + d == q * r * TWO32 + (a * r + d)
  {
  }

  lemma ModPlus(k: nat, x: nat)
    ensures (k * TWO32 + x) % TWO32 == x % TWO32
  {
  }

  /** A numeral without its last digit. */
  lemma NumeralThen(n: nat, radix: nat, s: seq<byte>)
    requires IsRadix(radix)
    ensures n < radix ==> Numeral(n, radix) + s == [HexChar(n % radix)] + s
    ensures n >= radix ==> Numeral(n, radix) + s == Numeral(n / radix, radix) + ([HexChar(n % radix)] + s)
  {
    NumeralStep(n, radix);
    Shrinks(n, radix);
    hide HexChar;
  }

  lemma DecStep(acc: nat, d: nat, s: seq<byte>)
    requires d < 10
    ensures DecValue([HexChar(d)] + s, acc % TWO32) == DecValue(s, (acc * 10 + d) % TWO32)
  {
    ModStep(acc, 10, d);
    assert ([HexChar(d)] + s)[1..] == s;
  }

  /** Every digit is read as what was printed, whatever the characters around it. */
  lemma HexStep(acc: nat, d: nat, s: seq<byte>)
    requires d < 16
    ensures HexValue([HexChar(d)] + s, acc % TWO32) == HexValue(s, (acc * 16 + d) % TWO32)
  {
    var t := [HexChar(d)] + s;
    assert HexDigit(t[0]) == d && t[1..] == s;
    ModStep(acc, 16, d);
    ModStep(acc % TWO32 * 16, 1, d);
    hide HexChar, HexDigit;
  }

  /** A decimal numeral is read as its number, modulo 2 to the 32; reading goes on after it. */
  lemma {:induction false} DecReads(n: nat, s: seq<byte>)
    ensures DecValue(Numeral(n, 10) + s, 0) == DecValue(s, n % TWO32)
    decreases n
  {
    NumeralThen(n, 10, s);
    Shrinks(n, 10);
    DecStep(n / 10, n % 10, s);
    hide DecValue, Numeral, HexChar;
    if n >= 10 { DecReads(n / 10, [HexChar(n % 10)] + s); }
  }

  lemma {:induction false} HexReads(n: nat, s: seq<byte>)
    ensures HexValue(Numeral(n, 16) + s, 0) == HexValue(s, n % TWO32)
    decreases n
  {
    NumeralThen(n, 16, s);
    Shrinks(n, 16);
    HexStep(n / 16, n % 16, s);
    hide HexValue, Numeral, HexChar;
    if n >= 16 { HexReads(n / 16, [HexChar(n % 16)] + s); }
  }

  /** Printing in decimal and parsing give the number back, modulo 2 to the 32, whatever comes
      after the digits. */
  lemma DecRoundTrip(n: nat, s: seq<byte>)
    requires s == [] || !IsDigit(s[0])
    ensures DecValue(Numeral(n, 10) + s, 0) == n % TWO32
    ensures n < TWO32 ==> DecValue(Numeral(n, 10), 0) == n
  {
    DecReads(n, s);
    DecReads(n, []);
    hide Numeral;
    assert Numeral(n, 10) + [] == Numeral(n, 10);
  }

  /** No hexadecimal numeral looks as if it had the prefix. */
  lemma {:induction false} NoPrefix(n: nat)
    ensures LOWER_X !in Numeral(n, 16)
    decreases n
  {
    if n >= 16 { NoPrefix(n / 16); }
  }

  /** Printing in hexadecimal and parsing give the number back, modulo 2 to the 32, with "0x"
      in front of the digits or without. */
  lemma HexRoundTrip(n: nat)
    ensures HexValue(SkipPrefix(Numeral(n, 16)), 0) == n % TWO32
    ensures HexValue(SkipPrefix([CHAR_0, LOWER_X] + Numeral(n, 16)), 0) == n % TWO32
  {
    NoPrefix(n);
    HexReads(n, []);
    hide Numeral;
    var s := Numeral(n, 16);
    assert s + [] == s;
    assert |s| >= 2 && s[1] == LOWER_X ==> LOWER_X in s;
    assert ([CHAR_0, LOWER_X] + s)[2..] == s;
  }

  /** What fprintf_unsigned prints is what dec_str_to_int reads back. */
  method ThereAndBackDec(n: u32) returns (result: u32)
    ensures result == n
  {
    DecRoundTrip(n, []);
    hide Numeral, DecValue, IsDigit;
    var s := PrintUnsigned(n, 10);
    result := DecStrToInt(s);
  }

  /** And hex_str_to_int. */
  method ThereAndBackHex(n: u32, prefix: bool) returns (result: u32)
    ensures result == n
  {
    hide Numeral, HexValue, SkipPrefix;
    HexRoundTrip(n);
    var s := PrintUnsigned(n, 16);
    if prefix { s := [CHAR_0, LOWER_X] + s; }
    result := HexStrToInt(s);
  }
}

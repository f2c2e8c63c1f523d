/**
  RGB triples and their `#rrggbb` hexadecimal form.
 */
module Rgb {

  datatype Colour = Colour(red: int, green: int, blue: int)

  /** Each channel fits in one byte. */
  predicate InRange(c: Colour) {
    0 <= c.red <= 255 && 0 <= c.green <= 255 && 0 <= c.blue <= 255
  }

  predicate IsHexDigit(ch: char) {
    '0' <= ch <= '9' || 'a' <= ch <= 'f'
  }

  /** The lower-case hexadecimal digit of a value below 16. */
  function HexDigit(d: int): (ch: char)
    requires 0 <= d < 16
    ensures IsHexDigit(ch)
  {
    if d < 10 then ('0' as int + d) as char else ('a' as int + d - 10) as char
  }

  function DigitValue(ch: char): (d: int)
    requires IsHexDigit(ch)
    ensures 0 <= d < 16 && HexDigit(d) == ch
  {
    if ch <= '9' then ch as int - '0' as int else ch as int - 'a' as int + 10
  }

  predicate AllHexDigits(s: string) {
    forall i :: 0 <= i < |s| ==> IsHexDigit(s[i])
  }

  /** The number a string of hexadecimal digits denotes, most significant first. */
  function HexValue(s: string): (v: nat)
    requires AllHexDigits(s)
  {
    if s == [] then 0 else 16 * HexValue(s[..|s| - 1]) + DigitValue(s[|s| - 1])
  }

  /** A leading zero does not change the value of a numeral. */
  lemma {:induction false} LeadingZero(s: string)
    requires AllHexDigits(s)
    ensures AllHexDigits("0" + s) && HexValue("0" + s) == HexValue(s)
  {
    var z := "0" + s;
    assert AllHexDigits(z) by {
      forall i | 0 <= i < |z| ensures IsHexDigit(z[i]) {
        if i > 0 { assert z[i] == s[i - 1]; }
      }
    }
    if s != [] {
      var init := s[..|s| - 1];
      assert z[..|z| - 1] == "0" + init;
      LeadingZero(init);
    }
  }

  /** Lower-case hexadecimal numeral without leading zeros, as Python's `x`
      format: its digits denote `n`, and only the numeral of 0 starts with `0`. */
  function Hex(n: nat): (s: string)
    ensures 1 <= |s| && AllHexDigits(s)
    ensures HexValue(s) == n
    ensures |s| > 1 ==> s[0] != '0'
  {
    if n < 16 then
      [HexDigit(n)]
    else
      var s := Hex(n / 16) + [HexDigit(n % 16)];
      assert s[..|s| - 1] == Hex(n / 16);
      assert |Hex(n / 16)| == 1 ==> Hex(n / 16)[0] == HexDigit(n / 16) && n / 16 != 0;
      s
  }

  /** Python's `'{:02x}'.format(n)`: the numeral of `n`, widened to two
      characters with a zero after the sign; a negative value keeps its `-`
      sign, which takes up the second place. */
  function Format02x(n: int): string {
    if n < 0 then "-" + Hex(-n)
    else if n < 16 then "0" + Hex(n)
    else Hex(n)
  }

  /** What `{:02x}` writes: at least two characters; for a non-negative `n`,
      hex digits that denote `n`, with a padding zero only when `n` has one
      digit, and exactly two characters for a byte; for a negative `n`, a `-`
      and the digits of `-n`. */
  lemma Format02xDenotes(n: int)
    ensures 0 <= n ==> 2 <= |Format02x(n)| && AllHexDigits(Format02x(n)) && HexValue(Format02x(n)) == n
    ensures 0 <= n ==> (|Format02x(n)| > 2 ==> Format02x(n)[0] != '0') && (|Format02x(n)| == 2 <==> n < 256)
    ensures n < 0 ==> 2 <= |Format02x(n)| && Format02x(n)[0] == '-'
    ensures n < 0 ==> AllHexDigits(Format02x(n)[1..]) && HexValue(Format02x(n)[1..]) == -n
    ensures n < 0 ==> (|Format02x(n)| > 2 ==> Format02x(n)[1] != '0')
  {
    if n < 0 {
      assert Format02x(n)[1..] == Hex(-n);
    } else if n < 16 {
      LeadingZero(Hex(n));
    } else {
      HexLength(n);
    }
  }

  /** The numeral of a number from 16 up has exactly two digits below 256. */
  lemma HexLength(n: nat)
    requires 16 <= n
    ensures |Hex(n)| == 2 <==> n < 256
  {
  }

  /** A byte is written as its two hexadecimal digits, high one first. */
  lemma {:induction false} FormatByte(n: int)
    requires 0 <= n <= 255
    ensures Format02x(n) == [HexDigit(n / 16), HexDigit(n % 16)]
  {
    if n >= 16 {
      assert Hex(n / 16) == [HexDigit(n / 16)];
    }
  }

  /** `rgb_to_hex`: `#` and the three channels in red, green, blue order. */
  function ToHex(c: Colour): (s: string)
    ensures InRange(c) ==> IsHexColour(s)
    ensures InRange(c) ==> s[1..3] == Format02x(c.red) && s[3..5] == Format02x(c.green) && s[5..] == Format02x(c.blue)
  {
    ByteLength(c.red);
    ByteLength(c.green);
    ByteLength(c.blue);
    "#" + Format02x(c.red) + Format02x(c.green) + Format02x(c.blue)
  }

  lemma ByteLength(n: int)
    ensures 0 <= n <= 255 ==> |Format02x(n)| == 2 && IsHexDigit(Format02x(n)[0]) && IsHexDigit(Format02x(n)[1])
  {
    if 0 <= n <= 255 {
      FormatByte(n);
    }
  }

  /** The canonical seven-character form `#rrggbb`. */
  predicate IsHexColour(s: string) {
    |s| == 7 && s[0] == '#' && forall i :: 1 <= i < 7 ==> IsHexDigit(s[i])
  }

  /** Reads a `#rrggbb` string back into its channels. */
  function ParseHex(s: string): (r: Option)
    ensures r.Some? <==> IsHexColour(s)
    ensures r.Some? ==> InRange(r.value)
  {
    if IsHexColour(s) then
      Some(Colour(16 * DigitValue(s[1]) + DigitValue(s[2]),
                  16 * DigitValue(s[3]) + DigitValue(s[4]),
                  16 * DigitValue(s[5]) + DigitValue(s[6])))
    else None
  }

  datatype Option = None | Some(value: Colour)

  /** Reading back the hex code of a colour gives the colour. */
  lemma ParseToHex(c: Colour)
    requires InRange(c)
    ensures ParseHex(ToHex(c)) == Some(c)
  {
    var s := ToHex(c);
    ReadByte(c.red);
    ReadByte(c.green);
    ReadByte(c.blue);
    assert s[1] == Format02x(c.red)[0] && s[2] == Format02x(c.red)[1];
    assert s[3] == Format02x(c.green)[0] && s[4] == Format02x(c.green)[1];
    assert s[5] == Format02x(c.blue)[0] && s[6] == Format02x(c.blue)[1];
  }

  /** The two digits of a byte read back as the byte. */
  lemma ReadByte(n: int)
    requires 0 <= n <= 255
    ensures |Format02x(n)| == 2 && IsHexDigit(Format02x(n)[0]) && IsHexDigit(Format02x(n)[1])
    ensures 16 * DigitValue(Format02x(n)[0]) + DigitValue(Format02x(n)[1]) == n
  {
    FormatByte(n);
    var hi, lo := HexDigit(n / 16), HexDigit(n % 16);
    assert DigitValue(hi) == n / 16;
    assert DigitValue(lo) == n % 16;
  }

  /** Writing out a parsed hex code gives the code back: every canonical string
      is the hex code of exactly one colour. */
  lemma ToHexParse(s: string)
    requires IsHexColour(s)
    ensures ParseHex(s).Some? && ToHex(ParseHex(s).value) == s
  {
    var c := ParseHex(s).value;
    ParseToHex(c);
    ParseHexInjective(ToHex(c), s);
  }

  /** Different canonical strings denote different colours. */
  lemma ParseHexInjective(s1: string, s2: string)
    requires IsHexColour(s1) && IsHexColour(s2) && ParseHex(s1) == ParseHex(s2)
    ensures s1 == s2
  {
    forall k | 1 <= k < 7 && k % 2 == 1
      ensures s1[k] == s2[k] && s1[k + 1] == s2[k + 1]
    {
      var a1, b1 := DigitValue(s1[k]), DigitValue(s1[k + 1]);
      var a2, b2 := DigitValue(s2[k]), DigitValue(s2[k + 1]);
      assert 16 * a1 + b1 == 16 * a2 + b2 by {
        if k == 1 { assert ParseHex(s1).value.red == ParseHex(s2).value.red; }
        else if k == 3 { assert ParseHex(s1).value.green == ParseHex(s2).value.green; }
        else { assert ParseHex(s1).value.blue == ParseHex(s2).value.blue; }
      }
      assert a1 == a2 && b1 == b2;
    }
    assert forall i :: 0 <= i < 7 ==> s1[i] == s2[i] by {
      forall i | 1 <= i < 7 ensures s1[i] == s2[i] {
        if i % 2 == 0 { assert s1[(i - 1) + 1] == s2[(i - 1) + 1]; }
      }
    }
  }
}

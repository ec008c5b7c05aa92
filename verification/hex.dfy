/** Hexadecimal text: the `%02X` and `%04X` formats the writer uses, and
    `int(text, 16)` restricted to plain digits, as the reader uses it. */
module Hex {
  import opened Results

  /** One byte, 0..255. */
  type Byte = b: int | 0 <= b < 0x100

  /** One 16-bit word, 0..65535. */
  type Word = w: int | 0 <= w < 0x1_0000

  predicate IsUpperHexDigit(c: char) {
    '0' <= c <= '9' || 'A' <= c <= 'F'
  }

  /** Value of one hexadecimal digit of either case; None for any other character. */
  function DigitValue(c: char): (r: Option<int>)
    ensures r.Some? ==> 0 <= r.value < 16
    ensures r.Some? <==> IsUpperHexDigit(c) || 'a' <= c <= 'f'
  {
    if '0' <= c <= '9' then Some(c as int - '0' as int)
    else if 'A' <= c <= 'F' then Some(c as int - 'A' as int + 10)
    else if 'a' <= c <= 'f' then Some(c as int - 'a' as int + 10)
    else None
  }

  /** The upper-case digit `%X` writes for a nibble. */
  function Digit(n: int): (c: char)
    requires 0 <= n < 16
    ensures IsUpperHexDigit(c)
    ensures DigitValue(c) == Some(n)
  {
    if n < 10 then ('0' as int + n) as char else ('A' as int + n - 10) as char
  }

  /** Folds a lower-case hexadecimal letter to upper case; every other character is kept. */
  function UpperHex(c: char): char {
    if 'a' <= c <= 'f' then (c as int - 'a' as int + 'A' as int) as char else c
  }

  function UpperCase(s: string): (t: string)
    ensures |t| == |s|
  {
    seq(|s|, i requires 0 <= i < |s| => UpperHex(s[i]))
  }

  function Pow16(n: nat): nat {
    if n == 0 then 1 else 16 * Pow16(n - 1)
  }

  /** Big-endian value of a run of hexadecimal digits; the empty run is 0. */
  function DigitsValue(s: string): (r: Option<nat>)
    ensures r.Some? <==> forall i :: 0 <= i < |s| ==> DigitValue(s[i]).Some?
    ensures r.Some? ==> r.value < Pow16(|s|)
  {
    if |s| == 0 then Some(0)
    else
      var high, low := DigitsValue(s[..|s| - 1]), DigitValue(s[|s| - 1]);
      if high.Some? && low.Some? then Some(high.value * 16 + low.value) else None
  }

  /** `int(s, 16)` for text made only of hexadecimal digits: the empty text and
      every text holding any other character are rejected. */
  function ParseHex(s: string): (r: Option<nat>)
    ensures r.Some? <==> |s| > 0 && forall i :: 0 <= i < |s| ==> DigitValue(s[i]).Some?
    ensures r.Some? ==> r.value < Pow16(|s|)
  {
    if |s| == 0 then None else DigitsValue(s)
  }

  /** A parsed field of at most two digits fits a byte, of at most four a word. */
  lemma ParseHexBound(s: string)
    requires ParseHex(s).Some?
    ensures |s| <= 2 ==> ParseHex(s).value < 0x100
    ensures |s| <= 4 ==> ParseHex(s).value < 0x1_0000
  {
    assert Pow16(2) == 0x100;
    assert Pow16(4) == 0x1_0000;
    if |s| == 1 {
      assert Pow16(1) == 16;
    } else if |s| == 3 {
      assert Pow16(3) == 0x1000;
    }
  }

  /** `"%02X" % b`: two upper-case digits, most significant first. */
  function Hex2(b: Byte): (s: string)
    ensures |s| == 2
    ensures IsUpperHexDigit(s[0]) && IsUpperHexDigit(s[1])
    ensures DigitValue(s[0]).value * 16 + DigitValue(s[1]).value == b
  {
    [Digit(b / 16), Digit(b % 16)]
  }

  /** `"%04X" % w`: four upper-case digits, most significant first. */
  function Hex4(w: Word): (s: string)
    ensures |s| == 4
    ensures forall i :: 0 <= i < 4 ==> IsUpperHexDigit(s[i])
    ensures ((DigitValue(s[0]).value * 16 + DigitValue(s[1]).value) * 16 + DigitValue(s[2]).value) * 16
            + DigitValue(s[3]).value == w
  {
    [Digit(w / 16 / 16 / 16), Digit(w / 16 / 16 % 16), Digit(w / 16 % 16), Digit(w % 16)]
  }

  lemma {:induction false} ParseHex2(b: Byte)
    ensures ParseHex(Hex2(b)) == Some(b)
  {
    var s := Hex2(b);
    assert s[..1][..0] == [];
    assert DigitsValue(s[..1]) == Some(b / 16);
    assert s[..|s| - 1] == s[..1];
  }

  lemma {:induction false} ParseHex4(w: Word)
    ensures ParseHex(Hex4(w)) == Some(w)
  {
    var s := Hex4(w);
    var a := w / 16;
    var b := a / 16;
    assert s[..1][..0] == [];
    assert DigitsValue(s[..1]) == Some(b / 16);
    assert s[..2][..1] == s[..1];
    assert DigitsValue(s[..2]) == Some(b);
    assert s[..3][..2] == s[..2];
    assert DigitsValue(s[..3]) == Some(a);
    assert s[..|s| - 1] == s[..3];
  }

  /** Parsing ignores letter case. */
  lemma {:induction false} ParseHexIgnoresCase(s: string)
    ensures ParseHex(UpperCase(s)) == ParseHex(s)
  {
    DigitsValueIgnoresCase(s);
  }

  lemma {:induction false} DigitsValueIgnoresCase(s: string)
    ensures DigitsValue(UpperCase(s)) == DigitsValue(s)
    decreases |s|
  {
    if |s| > 0 {
      var u := UpperCase(s);
      assert u[..|u| - 1] == UpperCase(s[..|s| - 1]);
      DigitsValueIgnoresCase(s[..|s| - 1]);
      assert DigitValue(u[|u| - 1]) == DigitValue(s[|s| - 1]);
    }
  }

  /** Writing back a parsed two-digit field gives the field in upper case. */
  lemma {:induction false} Hex2OfParsed(s: string)
    requires |s| == 2 && ParseHex(s).Some?
    ensures ParseHex(s).value < 0x100
    ensures Hex2(ParseHex(s).value) == UpperCase(s)
  {
    ParseHexBound(s);
    assert s[..1][..0] == [];
    assert s[..|s| - 1] == s[..1];
    var hi, lo := DigitValue(s[0]).value, DigitValue(s[1]).value;
    assert DigitsValue(s[..0]) == Some(0);
    assert DigitsValue(s[..1]) == Some(hi);
    assert ParseHex(s).value == hi * 16 + lo;
    DivMod16(ParseHex(s).value, hi, lo);
    DigitOfValue(s[0]);
    DigitOfValue(s[1]);
  }

  /** Writing back a parsed four-digit field gives the field in upper case. */
  lemma {:induction false} Hex4OfParsed(s: string)
    requires |s| == 4 && ParseHex(s).Some?
    ensures ParseHex(s).value < 0x1_0000
    ensures Hex4(ParseHex(s).value) == UpperCase(s)
  {
    ParseHexBound(s);
    assert s[..1][..0] == [];
    assert s[..2][..1] == s[..1];
    assert s[..3][..2] == s[..2];
    assert s[..|s| - 1] == s[..3];
    var d0, d1, d2, d3 := DigitValue(s[0]).value, DigitValue(s[1]).value, DigitValue(s[2]).value, DigitValue(s[3]).value;
    assert DigitsValue(s[..0]) == Some(0);
    assert DigitsValue(s[..1]) == Some(d0);
    var x1 := d0 * 16 + d1;
    assert DigitsValue(s[..2]) == Some(x1);
    var x2 := x1 * 16 + d2;
    assert DigitsValue(s[..3]) == Some(x2);
    var v := x2 * 16 + d3;
    assert ParseHex(s).value == v;
    DivMod16(v, x2, d3);
    DivMod16(x2, x1, d2);
    DivMod16(x1, d0, d1);
    DigitOfValue(s[0]);
    DigitOfValue(s[1]);
    DigitOfValue(s[2]);
    DigitOfValue(s[3]);
  }

  lemma DivMod16(x: int, q: int, r: int)
    requires 0 <= q && 0 <= r < 16 && x == q * 16 + r
    ensures x / 16 == q && x % 16 == r
  {
  }

  /** The digit written for a parsed digit is that digit in upper case. */
  lemma DigitOfValue(c: char)
    requires DigitValue(c).Some?
    ensures Digit(DigitValue(c).value) == UpperHex(c)
  {
  }
}

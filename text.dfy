/**
 * Text conversions used by the value core: printf's "%d" (snprintf in
 * copy_from_int32, fprintf in debug_print) and strtol with base 0, as
 * section 7.22.1.4 of ISO/IEC 9899:2011 defines it, over ASCII text.
 */
module Text {

  /** INT_MIN and INT_MAX of a 32-bit int. */
  const IntMin: int := -0x8000_0000
  const IntMax: int := 0x7fff_ffff

  /** int32_t. */
  type int32 = x: int | -0x8000_0000 <= x <= 0x7fff_ffff

  /** MAX_INTSTRING_LEN: the buffer size used for the decimal text of an int32. */
  const MaxIntStringLen: nat := 21

  datatype Option<T> = None | Some(value: T)

  /** isspace in the "C" locale. */
  predicate IsSpace(c: char) {
    c == ' ' || c == '\t' || c == '\n' || c == '\U{000B}' || c == '\U{000C}' || c == '\r'
  }

  // ---------------------------------------------------------------------
  // Decimal text, as printed by "%d"
  // ---------------------------------------------------------------------

  function DigitChar(d: nat): (c: char)
    requires d < 10
    ensures '0' <= c <= '9'
  {
    ('0' as int + d) as char
  }

  /** The decimal digits of n, most significant first, without leading zeros. */
  function Digits(n: nat): (s: string)
    ensures |s| > 0
    ensures forall i :: 0 <= i < |s| ==> '0' <= s[i] <= '9'
    ensures n > 0 ==> s[0] != '0'
    decreases n
  {
    if n < 10 then [DigitChar(n)] else Digits(n / 10) + [DigitChar(n % 10)]
  }

  /** The text "%d" produces for n: an optional minus sign, then the digits of |n|. */
  function DecimalText(n: int): (s: string)
    ensures |s| > 0
    ensures (s[0] == '-') == (n < 0)
    ensures forall i :: (if n < 0 then 1 else 0) <= i < |s| ==> '0' <= s[i] <= '9'
  {
    if n < 0 then "-" + Digits(-n) else Digits(n)
  }

  function Pow10(k: nat): (p: nat)
    ensures p >= 1
  {
    if k == 0 then 1 else 10 * Pow10(k - 1)
  }

  /** A number below 10^k has at most k digits. */
  lemma {:induction false} DigitsLength(n: nat, k: nat)
    requires k >= 1 && n < Pow10(k)
    ensures |Digits(n)| <= k
    decreases k
  {
    if n >= 10 {
      assert Pow10(k) == 10 * Pow10(k - 1);
      assert n / 10 < Pow10(k - 1);
      DigitsLength(n / 10, k - 1);
    }
  }

  /**
   * The decimal text of any int32 is at most 11 characters long, so it always
   * fits the MAX_INTSTRING_LEN buffer with its terminator and the snprintf
   * truncation check can never fire.
   */
  lemma DecimalTextFits(n: int32)
    ensures |DecimalText(n)| <= 11
    ensures |DecimalText(n)| < MaxIntStringLen
  {
    assert Pow10(10) == 10_000_000_000;
    if n < 0 {
      DigitsLength(-(n as int), 10);
    } else {
      DigitsLength(n, 10);
    }
  }

  // ---------------------------------------------------------------------
  // strtol(s, &end, 0)
  // ---------------------------------------------------------------------

  /** The value of c as a digit of a base up to 36; 36 when c is not a letter or a digit. */
  function DigitValue(c: char): (d: nat)
    ensures d <= 36
    ensures d < 10 <==> '0' <= c <= '9'
  {
    if '0' <= c <= '9' then c as int - '0' as int
    else if 'a' <= c <= 'z' then c as int - 'a' as int + 10
    else if 'A' <= c <= 'Z' then c as int - 'A' as int + 10
    else 36
  }

  /** The number a digit string denotes in the given base. */
  function Magnitude(ds: string, base: nat): nat
    decreases |ds|
  {
    if ds == [] then 0 else Magnitude(ds[..|ds| - 1], base) * base + DigitValue(ds[|ds| - 1])
  }

  /** The index of the first character at or after i that is not white space. */
  function SkipSpace(s: string, i: nat): (k: nat)
    requires i <= |s|
    ensures i <= k <= |s|
    ensures forall j :: i <= j < k ==> IsSpace(s[j])
    ensures k < |s| ==> !IsSpace(s[k])
    decreases |s| - i
  {
    if i < |s| && IsSpace(s[i]) then SkipSpace(s, i + 1) else i
  }

  /** The end of the longest run of digits of the given base that starts at i. */
  function ScanDigits(s: string, i: nat, base: nat): (k: nat)
    requires i <= |s|
    ensures i <= k <= |s|
    ensures forall j :: i <= j < k ==> DigitValue(s[j]) < base
    ensures k < |s| ==> DigitValue(s[k]) >= base
    decreases |s| - i
  {
    if i < |s| && DigitValue(s[i]) < base then ScanDigits(s, i + 1, base) else i
  }

  /** What strtol returns: the converted value and the index end points at. */
  datatype Conversion = Conversion(value: int, end: nat)

  /**
   * The unsigned integer constant that starts at index j: a hexadecimal
   * ("0x" or "0X" followed by at least one hexadecimal digit), octal (a
   * leading "0") or decimal constant, its value and the index after it. When
   * no constant starts at j, end is j itself.
   */
  function UnsignedConstant(s: string, j: nat): (r: Conversion)
    requires j <= |s|
    ensures j <= r.end <= |s|
    ensures r.end == j ==> r.value == 0
  {
    if j + 2 < |s| && s[j] == '0' && (s[j + 1] == 'x' || s[j + 1] == 'X') && DigitValue(s[j + 2]) < 16 then
      var k := ScanDigits(s, j + 2, 16);
      Conversion(Magnitude(s[j + 2..k], 16), k)
    else if j < |s| && s[j] == '0' then
      var k := ScanDigits(s, j + 1, 8);
      Conversion(Magnitude(s[j + 1..k], 8), k)
    else if j < |s| && DigitValue(s[j]) < 10 then
      var k := ScanDigits(s, j, 10);
      Conversion(Magnitude(s[j..k], 10), k)
    else
      Conversion(0, j)
  }

  /**
   * strtol with base 0 over an integer of unbounded width: leading white
   * space, an optional sign, then an unsigned constant. When there is no
   * constant nothing is converted: the value is 0 and end is the start of the
   * text, before any white space or sign.
   */
  function Strtol(s: string): (r: Conversion)
    ensures r.end <= |s|
    ensures r.end == 0 ==> r.value == 0
  {
    var i := SkipSpace(s, 0);
    var signed := i < |s| && (s[i] == '-' || s[i] == '+');
    var j := if signed then i + 1 else i;
    var c := UnsignedConstant(s, j);
    if c.end == j then Conversion(0, 0)
    else if i < |s| && s[i] == '-' then Conversion(-c.value, c.end)
    else Conversion(c.value, c.end)
  }

  /** The test `*cp == '\0' || isspace(*cp)` on the character strtol stopped at. */
  predicate StopsAtEndOrSpace(s: string, e: nat) {
    e == |s| || (e < |s| && (s[e] == '\0' || IsSpace(s[e])))
  }

  /**
   * The INT32 branch of copy_from_string: the strtol result is accepted when
   * the one character after the converted prefix is the end or white space
   * and the value lies in INT_MIN..INT_MAX.
   */
  function ParseInt32(s: string): (r: Option<int32>)
    ensures r.Some? <==> StopsAtEndOrSpace(s, Strtol(s).end) && IntMin <= Strtol(s).value <= IntMax
    ensures r.Some? ==> r.value == Strtol(s).value
  {
    var c := Strtol(s);
    if StopsAtEndOrSpace(s, c.end) && IntMin <= c.value <= IntMax then Some(c.value) else None
  }

  // ---------------------------------------------------------------------
  // Properties
  // ---------------------------------------------------------------------

  lemma {:induction false} MagnitudeOfDigits(n: nat)
    ensures Magnitude(Digits(n), 10) == n
    decreases n
  {
    var ds := Digits(n);
    if n >= 10 {
      assert ds[..|ds| - 1] == Digits(n / 10);
      MagnitudeOfDigits(n / 10);
    }
  }

  lemma {:induction false} ScanDigitsRun(s: string, i: nat, k: nat, base: nat)
    requires i <= k <= |s|
    requires forall j :: i <= j < k ==> DigitValue(s[j]) < base
    requires k < |s| ==> DigitValue(s[k]) >= base
    ensures ScanDigits(s, i, base) == k
    decreases k - i
  {
    if i < k {
      ScanDigitsRun(s, i + 1, k, base);
    }
  }

  /** The digits of m > 0 at index j, followed by a non-alphanumeric character or the end, form a decimal constant. */
  lemma DigitsConstant(s: string, j: nat, m: nat)
    requires m > 0 && j + |Digits(m)| <= |s| && s[j..j + |Digits(m)|] == Digits(m)
    requires j + |Digits(m)| < |s| ==> DigitValue(s[j + |Digits(m)|]) == 36
    ensures UnsignedConstant(s, j) == Conversion(m, j + |Digits(m)|)
  {
    var ds := Digits(m);
    var k := j + |ds|;
    assert forall i :: j <= i < k ==> s[i] == ds[i - j];
    assert s[j] == ds[0] && s[j] != '0';
    ScanDigitsRun(s, j, k, 10);
    MagnitudeOfDigits(m);
  }

  /**
   * strtol reads back what "%d" printed: for every integer n, and whatever
   * follows the text as long as it does not start with a letter or digit, the
   * conversion yields n and stops right after the text.
   */
  lemma DecimalTextConversion(n: int, rest: string)
    requires rest != [] ==> DigitValue(rest[0]) == 36
    ensures Strtol(DecimalText(n) + rest) == Conversion(n, |DecimalText(n)|)
  {
    var t := DecimalText(n);
    var s := t + rest;
    assert s[0] == t[0] && !IsSpace(s[0]);
    assert SkipSpace(s, 0) == 0;
    assert |t| < |s| ==> s[|t|] == rest[0];
    if n == 0 {
      assert t == "0" && s[0] == '0';
      ScanDigitsRun(s, 1, 1, 8);
      assert s[1..1] == [];
      assert UnsignedConstant(s, 0) == Conversion(0, 1);
    } else if n > 0 {
      assert s[0..|t|] == Digits(n);
      DigitsConstant(s, 0, n);
    } else {
      assert s[1..|t|] == Digits(-n);
      DigitsConstant(s, 1, -n);
    }
  }

  /** copy_from_int32 followed by copy_from_string gives back the number. */
  lemma ParseDecimalText(n: int32)
    ensures ParseInt32(DecimalText(n)) == Some(n)
  {
    DecimalTextConversion(n, "");
    assert DecimalText(n) + "" == DecimalText(n);
  }

  /**
   * Only the one character after the number is checked: a number followed by
   * white space is accepted whatever comes after that white space.
   */
  lemma TrailingTextAfterSpaceAccepted(n: int32, rest: string)
    ensures ParseInt32(DecimalText(n) + " " + rest) == Some(n)
  {
    var t := DecimalText(n);
    assert t + " " + rest == t + (" " + rest);
    DecimalTextConversion(n, " " + rest);
    assert (t + (" " + rest))[|t|] == ' ';
  }

  /**
   * copy_from_string rejects the text of every number outside
   * INT_MIN..INT_MAX: strtol reads the whole number, which then fails the
   * range test.
   */
  lemma ParseOutOfRange(n: int)
    requires n < IntMin || n > IntMax
    ensures ParseInt32(DecimalText(n)) == None
  {
    DecimalTextConversion(n, "");
    assert DecimalText(n) + "" == DecimalText(n);
  }

  /**
   * copy_from_string rejects a number followed directly by a character that
   * is neither a letter or digit, nor white space, nor the terminator: strtol
   * stops on that character.
   */
  lemma ParseTrailingJunk(n: int32, c: char, rest: string)
    requires !IsSpace(c) && c != '\0' && DigitValue(c) == 36
    ensures ParseInt32(DecimalText(n) + [c] + rest) == None
  {
    var t := DecimalText(n);
    assert t + [c] + rest == t + ([c] + rest);
    DecimalTextConversion(n, [c] + rest);
    assert (t + ([c] + rest))[|t|] == c;
  }

  /** Without leading white space or a sign, strtol reads exactly the unsigned constant at the start. */
  lemma StrtolUnsigned(s: string)
    requires s != [] && !IsSpace(s[0]) && s[0] != '-' && s[0] != '+'
    ensures Strtol(s) == UnsignedConstant(s, 0)
  {
    assert SkipSpace(s, 0) == 0;
  }

  lemma ParseExampleDecimal()
    ensures ParseInt32("42") == Some(42)
  {
    ParseDecimalText(42);
    assert DecimalText(42) == "42";
  }

  lemma ParseExampleHex()
    ensures ParseInt32("0x1f") == Some(31)
  {
    var h := "0x1f";
    ScanDigitsRun(h, 2, 4, 16);
    assert h[2..4] == "1f";
    assert Magnitude("1f", 16) == 31 by {
      assert "1f"[..1] == "1" && "1"[..0] == "";
    }
    assert UnsignedConstant(h, 0) == Conversion(31, 4);
    StrtolUnsigned(h);
  }

  lemma ParseExampleOctal()
    ensures ParseInt32("010") == Some(8)
  {
    var o := "010";
    ScanDigitsRun(o, 1, 3, 8);
    assert o[1..3] == "10";
    assert Magnitude("10", 8) == 8 by {
      assert "10"[..1] == "1" && "1"[..0] == "";
    }
    assert UnsignedConstant(o, 0) == Conversion(8, 3);
    StrtolUnsigned(o);
  }

  lemma DigitsOfIntMinMagnitude()
    ensures Digits(2147483648) == "2147483648"
  {
    assert Digits(2) == "2";
    assert Digits(21) == Digits(2) + ['1'];
    assert Digits(214) == Digits(21) + ['4'];
    assert Digits(2147) == Digits(214) + ['7'];
    assert Digits(21474) == Digits(2147) + ['4'];
    assert Digits(214748) == Digits(21474) + ['8'];
    assert Digits(2147483) == Digits(214748) + ['3'];
    assert Digits(21474836) == Digits(2147483) + ['6'];
    assert Digits(214748364) == Digits(21474836) + ['4'];
    assert Digits(2147483648) == Digits(214748364) + ['8'];
  }

  lemma ParseExampleIntMin()
    ensures ParseInt32("-2147483648") == Some(-2147483648)
  {
    var t := DecimalText(-2147483648);
    DigitsOfIntMinMagnitude();
    assert t == "-" + Digits(2147483648);
    assert t == "-2147483648" by {
      assert |t| == 11 && t[0] == '-' && t[1..] == "2147483648";
    }
    ParseDecimalText(-2147483648);
  }

  lemma ParseExampleSurroundingSpace()
    ensures ParseInt32("  42  ") == Some(42)
  {
    var w := "  42  ";
    assert SkipSpace(w, 0) == 2;
    assert ScanDigits(w, 2, 10) == 4;
    assert w[2..4] == "42";
    assert "42"[..1] == "4" && "4"[..0] == "";
    assert Magnitude("42", 10) == 42;
  }

  /** No conversion: end stays at the start, whose character is checked. */
  lemma ParseExampleNoDigits()
    ensures ParseInt32("") == Some(0)
    ensures ParseInt32(" x") == Some(0)
    ensures ParseInt32("a") == None
    ensures ParseInt32("-") == None
  {
    assert SkipSpace(" x", 0) == 1;
    assert SkipSpace("-", 0) == 0;
  }

  lemma ParseExampleTrailingLetter()
    ensures ParseInt32("42x") == None
    ensures ParseInt32("0x") == None
  {
    ScanDigitsRun("42x", 0, 2, 10);
    assert UnsignedConstant("42x", 0).end == 2;
    StrtolUnsigned("42x");
    ScanDigitsRun("0x", 1, 1, 8);
    assert UnsignedConstant("0x", 0) == Conversion(0, 1);
    StrtolUnsigned("0x");
  }

  lemma ParseExampleOutOfRange()
    ensures ParseInt32("2147483648") == None
  {
    DecimalTextConversion(2147483648, "");
    DigitsOfIntMinMagnitude();
    assert DecimalText(2147483648) + "" == "2147483648";
  }
}

/** Numbers as the program prints them (%x, %u) and reads them back (strtoul). */
module Numerals {
  import opened ByteStrings

  const ULONG_MAX: nat := 0xFFFF_FFFF_FFFF_FFFF   // 64-bit unsigned long
  const UINT_RANGE: nat := 0x1_0000_0000          // 32-bit unsigned int

  function DigitChar(d: nat): char
    requires d < 16
  {
    "0123456789abcdef"[d]
  }

  /** Value of a digit or letter in the given base, or -1. */
  function DigitVal(c: char, base: nat): (v: int)
    requires (base == 10 || base == 16)
    ensures -1 <= v < base
  {
    var v := if '0' <= c <= '9' then c as int - '0' as int
             else if 'a' <= c <= 'f' then c as int - 'a' as int + 10
             else if 'A' <= c <= 'F' then c as int - 'A' as int + 10
             else -1;
    if v < base then v else -1
  }

  lemma DigitRoundTrip(d: nat, base: nat)
    requires d < base && (base == 10 || base == 16)
    ensures DigitVal(DigitChar(d), base) == d
  {
    if d < 10 {
      assert DigitChar(d) == ('0' as int + d) as char;
    } else {
      assert DigitChar(d) == ('a' as int + d - 10) as char;
    }
  }

  /** sprintf of an unsigned number: no leading zeros, "0" for zero. */
  function Print(n: nat, base: nat): (s: Bytes)
    requires (base == 10 || base == 16)
    ensures s != []
  {
    if n < base then [DigitChar(n)] else Print(n / base, base) + [DigitChar(n % base)]
  }

  function Hex(n: nat): Bytes {
    Print(n, 16)
  }

  function Decimal(n: nat): Bytes {
    Print(n, 10)
  }

  /** The run of digits at the start of the text, as a number. */
  function ReadDigits(s: Bytes, base: nat, acc: nat): nat
    requires (base == 10 || base == 16)
  {
    if s != [] && DigitVal(s[0], base) >= 0 then ReadDigits(s[1..], base, acc * base + DigitVal(s[0], base))
    else acc
  }

  predicate IsSpace(c: char) {
    c == ' ' || '\t' <= c <= '\r'
  }

  function SkipSpace(s: Bytes): Bytes {
    if s != [] && IsSpace(s[0]) then SkipSpace(s[1..]) else s
  }

  /** strtoul / strtoull: white space, a sign, for base 16 an optional 0x, digits; saturating. */
  function StrToUL(s: Bytes, base: nat): (n: nat)
    requires (base == 10 || base == 16)
    ensures n <= ULONG_MAX
  {
    var t := SkipSpace(s);
    var negative := t != [] && t[0] == '-';
    var u := if t != [] && (t[0] == '-' || t[0] == '+') then t[1..] else t;
    var digits := if base == 16 && |u| > 2 && u[0] == '0' && (u[1] == 'x' || u[1] == 'X') && DigitVal(u[2], 16) >= 0
                  then u[2..] else u;
    var n := ReadDigits(digits, base, 0);
    if n > ULONG_MAX then ULONG_MAX
    else if negative && n > 0 then ULONG_MAX + 1 - n
    else n
  }

  /** Every printed character is a digit of that base. */
  lemma {:induction false} PrintedDigits(n: nat, base: nat)
    requires (base == 10 || base == 16)
    ensures forall i :: 0 <= i < |Print(n, base)| ==> DigitVal(Print(n, base)[i], base) >= 0
    decreases n
  {
    DigitRoundTrip(n % base, base);
    if n >= base {
      PrintedDigits(n / base, base);
    } else {
      assert n % base == n;
    }
  }

  lemma {:induction false} ReadConcat(a: Bytes, b: Bytes, base: nat, acc: nat)
    requires (base == 10 || base == 16)
    requires forall i :: 0 <= i < |a| ==> DigitVal(a[i], base) >= 0
    ensures ReadDigits(a + b, base, acc) == ReadDigits(b, base, ReadDigits(a, base, acc))
    decreases |a|
  {
    if a == [] {
      EmptyConcat(b);
    } else {
      ConsConcat(a, b);
      ReadConcat(a[1..], b, base, acc * base + DigitVal(a[0], base));
    }
  }

  lemma {:induction false} ReadPrinted(n: nat, base: nat)
    requires (base == 10 || base == 16)
    ensures ReadDigits(Print(n, base), base, 0) == n
    decreases n
  {
    DigitRoundTrip(n % base, base);
    var last := [DigitChar(n % base)];
    assert last[1..] == [];
    if n >= base {
      PrintedDigits(n / base, base);
      ReadPrinted(n / base, base);
      ReadConcat(Print(n / base, base), last, base, 0);
      assert ReadDigits(last, base, n / base) == ReadDigits([], base, n / base * base + n % base);
    } else {
      assert n % base == n;
      assert ReadDigits(last, base, 0) == ReadDigits([], base, 0 * base + n);
    }
  }

  lemma {:induction false} PrintedLead(n: nat, base: nat)
    requires (base == 10 || base == 16)
    ensures var p := Print(n, base); p[0] == '0' ==> n == 0
    ensures n < base <==> |Print(n, base)| == 1
    decreases n
  {
    if n >= base {
      PrintedLead(n / base, base);
      assert Print(n, base)[0] == Print(n / base, base)[0];
      assert n / base > 0;
    } else {
      DigitRoundTrip(n, base);
    }
  }

  /** Reading back a printed number, when the text goes on with something that is neither a digit nor an x. */
  lemma PrintRoundTrip(n: nat, base: nat, rest: Bytes)
    requires (base == 10 || base == 16) && n <= ULONG_MAX
    requires rest != [] ==> DigitVal(rest[0], base) < 0 && rest[0] != 'x' && rest[0] != 'X'
    ensures StrToUL(Print(n, base) + rest, base) == n
  {
    var p := Print(n, base);
    var s := p + rest;
    PrintedDigits(n, base);
    ReadPrinted(n, base);
    ReadConcat(p, rest, base, 0);
    PrintedLead(n, base);
    assert s[0] == p[0] && DigitVal(s[0], base) >= 0;
    assert SkipSpace(s) == s;
    if |p| > 1 {
      assert s[0] != '0';
    } else {
      assert |s| > 1 ==> s[1] == rest[0];
    }
  }

  function Pow16(w: nat): nat {
    if w == 0 then 1 else 16 * Pow16(w - 1)
  }

  lemma {:induction false} HexLength(n: nat, width: nat)
    requires width >= 1 && n < Pow16(width)
    ensures |Hex(n)| <= width
    decreases width
  {
    if n >= 16 {
      HexLength(n / 16, width - 1);
    }
  }

  /** The size of one buffer load of at most 65536 bytes takes at most five hex digits. */
  lemma HexWidth(n: nat)
    requires n <= 65536
    ensures |Hex(n)| <= 5
  {
    assert Pow16(5) == 1048576;
    HexLength(n, 5);
  }

  // ------------------------------------------------------------------------------------------------------
  // Numerals as others write them

  /** The hex digit for d, in either case. */
  predicate IsHexDigit(c: char, d: nat) {
    d < 16 && (c == "0123456789ABCDEF"[d] || c == "0123456789abcdef"[d])
  }

  /** A numeral for n: digits, of any case, with or without leading zeros. */
  predicate Spelled(s: Bytes, n: nat, base: nat)
    requires base == 10 || base == 16
  {
    s != [] && IsHexDigit(s[|s| - 1], n % base) && if |s| == 1 then n < base else Spelled(s[..|s| - 1], n / base, base)
  }

  /** What may follow a numeral. */
  predicate EndsNumeral(rest: Bytes) {
    rest != [] ==> rest[0] !in "0123456789ABCDEFabcdefxX"
  }

  lemma HexDigitValue(c: char, d: nat, base: nat)
    requires IsHexDigit(c, d) && d < base && (base == 10 || base == 16)
    ensures DigitVal(c, base) == d && !IsSpace(c) && c !in "+-xX" && (c == '0' <==> d == 0)
  {
    var i := d;
    assert i == 0 || i == 1 || i == 2 || i == 3 || i == 4 || i == 5 || i == 6 || i == 7
        || i == 8 || i == 9 || i == 10 || i == 11 || i == 12 || i == 13 || i == 14 || i == 15;
  }

  lemma NoHexDigit(rest: Bytes)
    requires EndsNumeral(rest) && rest != []
    ensures DigitVal(rest[0], 16) < 0 && DigitVal(rest[0], 10) < 0 && rest[0] != 'x' && rest[0] != 'X'
  {
  }

  lemma ReadOne(c: char, d: nat, base: nat, acc: nat)
    requires IsHexDigit(c, d) && d < base && (base == 10 || base == 16)
    ensures ReadDigits([c], base, acc) == acc * base + d
  {
    hide DigitVal, IsHexDigit;
    HexDigitValue(c, d, base);
    assert [c][1..] == [];
  }

  lemma {:induction false} ReadSpelled(s: Bytes, n: nat, base: nat)
    requires (base == 10 || base == 16) && Spelled(s, n, base)
    ensures ReadDigits(s, base, 0) == n
    ensures forall i :: 0 <= i < |s| ==> DigitVal(s[i], base) >= 0 && !IsSpace(s[i]) && s[i] !in "+-xX"
    decreases |s|
  {
    hide DigitVal, IsHexDigit, ReadDigits, IsSpace;
    var m := |s| - 1;
    HexDigitValue(s[m], n % base, base);
    if m == 0 {
      assert s == [s[0]];
      ReadOne(s[0], n, base, 0);
    } else {
      ReadSpelled(s[..m], n / base, base);
      ReadConcat(s[..m], [s[m]], base, 0);
      assert s == s[..m] + [s[m]];
      ReadOne(s[m], n % base, base, n / base);
    }
  }

  function Saturated(n: nat): nat {
    if n > ULONG_MAX then ULONG_MAX else n
  }

  /** A numeral is read as its number, saturating, whatever the case of its digits. */
  lemma SpelledRoundTrip(s: Bytes, n: nat, base: nat, rest: Bytes)
    requires (base == 10 || base == 16) && Spelled(s, n, base) && EndsNumeral(rest)
    ensures StrToUL(s + rest, base) == Saturated(n)
  {
    hide DigitVal, Spelled;
    ReadAll(s, n, base, rest);
    var t := s + rest;
    assert t[0] == s[0] && SkipSpace(t) == t;
    if |s| > 1 {
      assert t[1] == s[1];
    } else if rest != [] {
      assert t[1] == rest[0];
      NoHexDigit(rest);
    }
  }

  lemma ReadAll(s: Bytes, n: nat, base: nat, rest: Bytes)
    requires (base == 10 || base == 16) && Spelled(s, n, base) && EndsNumeral(rest)
    ensures ReadDigits(s + rest, base, 0) == n && s != [] && DigitVal(s[0], base) >= 0
    ensures forall i :: 0 <= i < |s| ==> !IsSpace(s[i]) && s[i] !in "+-xX"
  {
    ReadSpelled(s, n, base);
    ReadConcat(s, rest, base, 0);
    if rest != [] {
      NoHexDigit(rest);
    }
  }

  /** White space is skipped. */
  lemma AfterSpace(s: Bytes, n: nat, base: nat, rest: Bytes)
    requires (base == 10 || base == 16) && Spelled(s, n, base) && EndsNumeral(rest)
    ensures StrToUL(" \t" + (s + rest), base) == Saturated(n)
  {
    hide DigitVal, Spelled, EndsNumeral, ReadDigits;
    var t := s + rest;
    ReadAll(s, n, base, rest);
    SpelledRoundTrip(s, n, base, rest);
    assert t[0] == s[0] && SkipSpace(t) == t;
    assert (" \t" + t)[1..] == "\t" + t && ("\t" + t)[1..] == t;
    assert SkipSpace("\t" + t) == SkipSpace(t);
  }

  /** A plus sign is skipped, and a minus sign negates modulo 2^64. */
  lemma AfterSign(s: Bytes, n: nat, base: nat, rest: Bytes)
    requires (base == 10 || base == 16) && Spelled(s, n, base) && EndsNumeral(rest)
    ensures StrToUL("+" + (s + rest), base) == Saturated(n)
    ensures 0 < n <= ULONG_MAX ==> StrToUL("-" + (s + rest), base) == 0x1_0000_0000_0000_0000 - n
  {
    hide DigitVal, Spelled, EndsNumeral, ReadDigits;
    var t := s + rest;
    ReadAll(s, n, base, rest);
    assert t[0] == s[0];
    assert ("+" + t)[1..] == t && ("-" + t)[1..] == t;
    NotPrefixed(s, rest);
  }

  /** "0x" may stand in front of the digits. */
  lemma AfterPrefix(s: Bytes, n: nat, rest: Bytes)
    requires Spelled(s, n, 16) && EndsNumeral(rest)
    ensures StrToUL("0x" + (s + rest), 16) == StrToUL("0X" + (s + rest), 16) == Saturated(n)
  {
    hide DigitVal, Spelled, EndsNumeral, ReadDigits;
    var t := s + rest;
    ReadAll(s, n, 16, rest);
    assert t[0] == s[0];
    assert ("0x" + t)[2..] == t && ("0X" + t)[2..] == t;
  }

  lemma NotPrefixed(s: Bytes, rest: Bytes)
    requires s != [] && EndsNumeral(rest) && forall i :: 0 <= i < |s| ==> s[i] !in "+-xX"
    ensures |s + rest| > 1 ==> (s + rest)[1] != 'x' && (s + rest)[1] != 'X'
  {
    if |s| > 1 {
      assert (s + rest)[1] == s[1];
    } else if rest != [] {
      assert (s + rest)[1] == rest[0];
      NoHexDigit(rest);
    }
  }

  /** Text that does not begin with a number counts as 0. */
  lemma NoNumeral(rest: Bytes)
    requires EndsNumeral(rest) && (rest != [] ==> !IsSpace(rest[0]) && rest[0] !in "+-")
    ensures StrToUL(rest, 16) == 0
  {
    if rest != [] {
      NoHexDigit(rest);
    }
  }


  /** What the program prints is a numeral in this sense: the most significant digit first. */
  lemma {:induction false} PrintIsSpelled(n: nat, base: nat)
    requires base == 10 || base == 16
    ensures Spelled(Print(n, base), n, base)
    decreases n
  {
    var p := Print(n, base);
    assert IsHexDigit(DigitChar(n % base), n % base);
    if n >= base {
      PrintIsSpelled(n / base, base);
      assert p[..|p| - 1] == Print(n / base, base);
    } else {
      assert n % base == n;
    }
  }
}

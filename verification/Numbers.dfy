/**
 Decimal and hexadecimal numerals: reading them as atoi and strtol do, and printing them.
 */
module Numbers {
  import opened Bits
  import opened CStrings

  function DigitVal(c: char): (v: nat)
    requires IsHex(c)
    ensures v < 16 && (IsDigit(c) ==> v < 10)
  {
    if IsDigit(c) then (c - '0') as nat
    else if 'a' <= c <= 'f' then 10 + (c - 'a') as nat
    else 10 + (c - 'A') as nat
  }

  /** The characters that count as digits and as blanks. */
  lemma {:induction false} CharactersExactly(c: char)
    ensures IsDigit(c) <==> c in "0123456789"
    ensures IsHex(c) <==> c in "0123456789" || c in "abcdef" || c in "ABCDEF"
    ensures IsSpace(c) <==> c in [' ', 9 as char, 10 as char, 11 as char, 12 as char, 13 as char]
  {
    if IsDigit(c) {
      assert c == "0123456789"[(c - '0') as int];
    }
    if 'a' <= c <= 'f' {
      assert c == "abcdef"[(c - 'a') as int];
    }
    if 'A' <= c <= 'F' {
      assert c == "ABCDEF"[(c - 'A') as int];
    }
  }

  /** What each digit is worth. */
  lemma DigitValues()
    ensures forall i :: 0 <= i < 16 ==> IsHex("0123456789abcdef"[i]) && DigitVal("0123456789abcdef"[i]) == i
    ensures forall i :: 0 <= i < 6 ==> IsHex("ABCDEF"[i]) && DigitVal("ABCDEF"[i]) == 10 + i
  {
  }

  function DecValue(s: string): nat
    requires AllDigits(s)
  {
    if s == [] then 0 else 10 * DecValue(s[..|s| - 1]) + DigitVal(s[|s| - 1])
  }

  function HexValue(s: string): nat
    requires AllHex(s)
  {
    if s == [] then 0 else 0x10 * HexValue(s[..|s| - 1]) + DigitVal(s[|s| - 1])
  }

  /** Conversion of an integer to the 32-bit int type. */
  function ToInt32(v: int): (r: int)
    ensures -0x8000_0000 <= r < 0x8000_0000
  {
    var u := v % 0x1_0000_0000;
    if u < 0x8000_0000 then u else u - 0x1_0000_0000
  }

  predicate IsSpace(c: char) {
    c == ' ' || c == '\t' || c == '\n' || c == '\r' || c == 11 as char || c == 12 as char
  }

  function SkipSpaces(s: string): string {
    if s != [] && IsSpace(s[0]) then SkipSpaces(s[1..]) else s
  }

  function DigitPrefix(s: string): (d: string)
    ensures AllDigits(d)
  {
    if s != [] && IsDigit(s[0]) then [s[0]] + DigitPrefix(s[1..]) else []
  }

  /** atoi: blanks, an optional sign, then as many digits as there are; numbers that do not
      fit are cut to 32 bits, as the usual C library does. */
  function Atoi(s: string): int {
    var t := SkipSpaces(s);
    if t != [] && t[0] == '-' then ToInt32(-(DecValue(DigitPrefix(t[1..])) as int))
    else if t != [] && t[0] == '+' then ToInt32(DecValue(DigitPrefix(t[1..])))
    else ToInt32(DecValue(DigitPrefix(t)))
  }

  lemma {:induction false} DigitPrefixOfDigits(s: string)
    requires AllDigits(s)
    ensures DigitPrefix(s) == s
  {
    if s != [] {
      DigitPrefixOfDigits(s[1..]);
      assert s == [s[0]] + s[1..];
    }
  }

  /** On plain digits atoi is the decimal value. */
  lemma {:induction false} AtoiOfDigits(s: string)
    requires AllDigits(s) && DecValue(s) < 0x8000_0000
    ensures Atoi(s) == DecValue(s)
  {
    DigitPrefixOfDigits(s);
    hide DecValue, DigitPrefix;
    assert s != [] ==> IsDigit(s[0]);
    assert SkipSpaces(s) == s;
  }

  // ---------- the texts atoi reads ----------

  predicate AllSpaces(s: string) {
    forall i :: 0 <= i < |s| ==> IsSpace(s[i])
  }

  /** A text taken apart as atoi does: blanks, a sign or none, digits, and a tail that does not go on
      with what came before it. */
  ghost predicate TakenApart(t: string, blanks: string, sign: string, digits: string, tail: string) {
    && t == blanks + sign + digits + tail
    && AllSpaces(blanks)
    && (sign == [] || sign == "+" || sign == "-")
    && AllDigits(digits)
    && (tail != [] ==> !IsDigit(tail[0]))
    && (sign == [] && digits == [] && tail != [] ==> !IsSpace(tail[0]) && tail[0] != '+' && tail[0] != '-')
  }

  function Signed(sign: string, digits: string): int
    requires AllDigits(digits)
  {
    ToInt32(if sign == "-" then -(DecValue(digits) as int) else DecValue(digits))
  }

  lemma {:induction false} SkipBlanks(blanks: string, rest: string)
    requires AllSpaces(blanks) && (rest != [] ==> !IsSpace(rest[0]))
    ensures SkipSpaces(blanks + rest) == rest
  {
    if blanks == [] {
      assert blanks + rest == rest;
    } else {
      SkipBlanks(blanks[1..], rest);
      assert (blanks + rest)[1..] == blanks[1..] + rest;
    }
  }

  lemma {:induction false} TakeDigits(digits: string, tail: string)
    requires AllDigits(digits) && (tail != [] ==> !IsDigit(tail[0]))
    ensures DigitPrefix(digits + tail) == digits
  {
    if digits == [] {
      assert digits + tail == tail;
    } else {
      TakeDigits(digits[1..], tail);
      assert (digits + tail)[1..] == digits[1..] + tail;
    }
  }

  lemma {:induction false} ReadsAsTakenApart(t: string, blanks: string, sign: string, digits: string, tail: string)
    requires TakenApart(t, blanks, sign, digits, tail)
    ensures Atoi(t) == Signed(sign, digits)
  {
    var number := digits + tail;
    var rest := sign + number;
    assert t == blanks + rest;
    SkipBlanks(blanks, rest);
    TakeDigits(digits, tail);
    hide SkipSpaces, DigitPrefix, DecValue, ToInt32;
    if sign == [] {
      assert rest == number;
    } else {
      assert rest[1..] == number;
    }
  }

  lemma {:induction false} SplitBlanks(t: string) returns (blanks: string)
    ensures AllSpaces(blanks) && t == blanks + SkipSpaces(t)
    ensures SkipSpaces(t) != [] ==> !IsSpace(SkipSpaces(t)[0])
  {
    if t != [] && IsSpace(t[0]) {
      var more := SplitBlanks(t[1..]);
      blanks := [t[0]] + more;
      assert t == [t[0]] + t[1..];
    } else {
      blanks := [];
    }
  }

  lemma {:induction false} SplitDigits(s: string) returns (tail: string)
    ensures s == DigitPrefix(s) + tail && (tail != [] ==> !IsDigit(tail[0]))
  {
    if s != [] && IsDigit(s[0]) {
      tail := SplitDigits(s[1..]);
      assert s == [s[0]] + s[1..];
    } else {
      tail := s;
    }
  }

  lemma {:induction false} TakeApart(t: string) returns (blanks: string, sign: string, digits: string, tail: string)
    ensures TakenApart(t, blanks, sign, digits, tail)
  {
    hide SkipSpaces, DigitPrefix;
    blanks := SplitBlanks(t);
    var rest := SkipSpaces(t);
    sign := if rest != [] && (rest[0] == '+' || rest[0] == '-') then [rest[0]] else [];
    var number := rest[|sign|..];
    assert rest == sign + number;
    digits := DigitPrefix(number);
    tail := SplitDigits(number);
    Reassociate(blanks, sign, digits, tail);
  }

  lemma Reassociate(a: string, b: string, c: string, d: string)
    ensures a + b + c + d == a + (b + (c + d))
  {
  }

  /** atoi reads v exactly from the texts that are blanks, an optional sign, digits and a tail, with v
      the signed number cut to 32 bits. */
  lemma {:induction false} AtoiExactly(t: string, v: int)
    ensures Atoi(t) == v <==>
            exists blanks, sign, digits, tail ::
              TakenApart(t, blanks, sign, digits, tail) && v == Signed(sign, digits)
  {
    var blanks, sign, digits, tail := TakeApart(t);
    ReadsAsTakenApart(t, blanks, sign, digits, tail);
    hide Atoi, Signed;
    forall b, s, d, r | TakenApart(t, b, s, d, r) ensures Signed(s, d) == Atoi(t) {
      ReadsAsTakenApart(t, b, s, d, r);
    }
  }

  function Pow10(n: nat): (r: nat)
    ensures r >= 1
  {
    if n == 0 then 1 else 10 * Pow10(n - 1)
  }

  lemma {:induction false} DecValueBound(s: string)
    requires AllDigits(s)
    ensures DecValue(s) < Pow10(|s|)
  {
    if s != [] {
      DecValueBound(s[..|s| - 1]);
    }
  }

  lemma {:induction false} HexValueBound(s: string)
    requires AllHex(s) && |s| <= 2
    ensures HexValue(s) <= 0xFF
  {
    if s != [] {
      HexValueBound(s[..|s| - 1]);
      assert |s| == 2 ==> s[..1][..0] == [];
    }
  }

  // ---------- printing ----------

  const DIGITS := "0123456789abcdef"
  const CAPITALS := "0123456789ABCDEF"

  /** Decimal without leading zeros. */
  function Dec(n: nat): (s: string)
    ensures AllDigits(s) && |s| >= 1
  {
    DigitChars();
    if n < 10 then [DIGITS[n]] else Dec(n / 10) + [DIGITS[n % 10]]
  }

  lemma DigitChars()
    ensures forall i :: 0 <= i < 16 ==> IsHex(DIGITS[i]) && DigitVal(DIGITS[i]) == i
    ensures forall i :: 0 <= i < 10 ==> IsDigit(DIGITS[i])
  {
  }

  lemma {:induction false} DecRoundTrip(n: nat)
    ensures DecValue(Dec(n)) == n
  {
    DigitChars();
    if n < 10 {
      assert Dec(n)[..0] == [];
    } else {
      DecRoundTrip(n / 10);
      assert Dec(n)[..|Dec(n)| - 1] == Dec(n / 10);
    }
  }

  lemma {:induction false} DecLength(n: nat, k: nat)
    requires n < Pow10(k) && k >= 1
    ensures |Dec(n)| <= k
  {
    if n >= 10 {
      DecLength(n / 10, k - 1);
    }
  }

  /** Two capital hexadecimal digits. */
  function Capital2(b: Byte): string {
    [CAPITALS[b / 0x10], CAPITALS[b % 0x10]]
  }

  lemma {:induction false} CapitalRoundTrip(b: Byte)
    ensures AllHex(Capital2(b)) && HexValue(Capital2(b)) == b
  {
    assert forall i :: 0 <= i < 16 ==> IsHex(CAPITALS[i]) && DigitVal(CAPITALS[i]) == i;
    var s := Capital2(b);
    assert s[..1] == [s[0]] && s[..1][..0] == [];
    assert HexValue([s[0]]) == DigitVal(s[0]);
  }

  /** Two lower-case hexadecimal digits. */
  function Hex2(b: Byte): string {
    [DIGITS[b / 0x10], DIGITS[b % 0x10]]
  }

  /** The lower-case form of a text. */
  function Lower(s: string): (t: string)
    ensures |t| == |s|
    ensures forall i :: 0 <= i < |s| ==> t[i] == if 'A' <= s[i] <= 'Z' then s[i] - 'A' + 'a' else s[i]
  {
    seq(|s|, i requires 0 <= i < |s| => if 'A' <= s[i] <= 'Z' then s[i] - 'A' + 'a' else s[i])
  }

  /** Capital digits are worth the same. */
  lemma {:induction false} CaseIrrelevant(s: string)
    requires AllHex(s)
    ensures AllHex(Lower(s)) && HexValue(Lower(s)) == HexValue(s)
  {
    if s != [] {
      var last := |s| - 1;
      CaseIrrelevant(s[..last]);
      assert Lower(s)[..last] == Lower(s[..last]);
      hide HexValue;
      assert DigitVal(Lower(s)[last]) == DigitVal(s[last]);
    }
  }

  lemma HexRoundTrip(b: Byte)
    ensures AllHex(Hex2(b)) && HexValue(Hex2(b)) == b
  {
    DigitChars();
    var s := Hex2(b);
    assert s[..1] == [s[0]] && s[..1][..0] == [];
    assert HexValue([s[0]]) == DigitVal(s[0]);
  }
}

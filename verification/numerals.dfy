/**
 * Positional numerals as Python writes and reads them: `str(n)` and `oct(n)`
 * on one side, `int(s)` on the other.
 */
module Numerals {
  import opened Results
  import Text

  const DigitChars: string := "0123456789"

  /** The value of an ASCII decimal digit. */
  function DigitValue(c: char): (r: Option<nat>)
    ensures r.Some? ==> r.value < 10 && DigitChars[r.value] == c
    ensures forall v :: 0 <= v < 10 && DigitChars[v] == c ==> r == Some(v)
  {
    if '0' <= c <= '9' then Some(c as int - '0' as int) else None
  }

  /** Every character of `s` is a digit of the given base. */
  predicate AllDigits(s: string, base: nat)
  {
    forall i :: 0 <= i < |s| ==> DigitValue(s[i]).Some? && DigitValue(s[i]).value < base
  }

  /** `n` written in `base` without leading zeros, most significant digit first. */
  function ToDigits(n: nat, base: nat): (r: string)
    requires 2 <= base <= 10
    ensures |r| >= 1 && AllDigits(r, base)
    ensures r[0] == '0' ==> n == 0 && r == "0"
    decreases n
  {
    if n < base then [DigitChars[n]]
    else
      DivMod(n, base);
      var p, d := ToDigits(n / base, base), n % base;
      DigitsAppend(p, d, base);
      p + [DigitChars[d]]
  }

  /** Appending a digit of `base` to digits of `base` gives digits of
      `base`, with the same first character. */
  lemma DigitsAppend(p: string, d: nat, base: nat)
    requires 2 <= base <= 10 && d < base && |p| >= 1 && AllDigits(p, base)
    ensures AllDigits(p + [DigitChars[d]], base) && (p + [DigitChars[d]])[0] == p[0]
  {
    assert DigitValue(DigitChars[d]) == Some(d);
  }

  /** The value of a non-empty string of digits of `base`. */
  function FromDigits(s: string, base: nat): (r: Option<nat>)
    requires 2 <= base <= 10
    ensures r.Some? <==> |s| >= 1 && AllDigits(s, base)
    decreases |s|
  {
    if |s| == 0 then None
    else
      var d := DigitValue(s[|s| - 1]);
      if d.None? || d.value >= base then None
      else if |s| == 1 then Some(d.value)
      else match FromDigits(s[..|s| - 1], base)
        case None => None
        case Some(v) => Some(v * base + d.value)
  }

  /** Dividing by the base: the quotient is smaller, and with the remainder
      it gives the number back. */
  lemma DivMod(n: nat, base: nat)
    requires 2 <= base <= n
    ensures 1 <= n / base < n && (n / base) * base + n % base == n && n % base < base
  {
  }

  /** Reading a numeral gives back the number it was written from. */
  lemma {:induction false} FromToDigits(n: nat, base: nat)
    requires 2 <= base <= 10
    ensures FromDigits(ToDigits(n, base), base) == Some(n)
    decreases n
  {
    if n >= base {
      var p := ToDigits(n / base, base);
      var c := DigitChars[n % base];
      var s := p + [c];
      assert ToDigits(n, base) == s;
      assert |s| >= 2 && s[..|s| - 1] == p && s[|s| - 1] == c;
      DivMod(n, base);
      FromToDigits(n / base, base);
      assert DigitValue(c) == Some(n % base);
    }
  }

  /** `t` without its leading sign, when it has one. */
  function Unsigned(t: string): string
  {
    if |t| > 0 && (t[0] == '-' || t[0] == '+') then t[1..] else t
  }

  /** The text `int` accepts once white space is stripped: an optional sign,
      then at least one ASCII digit. */
  predicate IntLiteral(t: string)
  {
    |Unsigned(t)| >= 1 && AllDigits(Unsigned(t), 10)
  }

  /** `int` on text without surrounding white space. */
  function ParseLiteral(t: string): Option<int>
  {
    if |t| > 0 && (t[0] == '-' || t[0] == '+') then
      match FromDigits(t[1..], 10)
      case None => None
      case Some(v) =>
        var x: int := v;
        Some(if t[0] == '-' then -x else x)
    else
      match FromDigits(t, 10)
      case None => None
      case Some(v) => Some(v)
  }

  /** The information separators U+001C to U+001F. `str.isspace` counts
      them as white space, but `int` does not skip them, and they are never
      part of a numeral. */
  predicate IsSeparator(c: char)
  {
    0x1C <= c as int <= 0x1F
  }

  /** `s` holds no information separator. */
  predicate NoSeparators(s: string)
  {
    forall i :: 0 <= i < |s| ==> !IsSeparator(s[i])
  }

  /** Python's `int(s)` in base 10: surrounding white space is ignored, and
      what is left must be an integer literal. The white space `int` skips
      is that of `str.isspace` without the information separators; as these
      can stand nowhere else in an accepted text either, a text holding one
      is refused, and on any other text skipping `int`'s white space is
      `strip`. */
  function ParseInt(s: string): Option<int>
  {
    if !NoSeparators(s) then None else ParseLiteral(Text.Strip(s))
  }

  /** `int` accepts exactly an integer literal; the digits give the
      magnitude, and the value is negative only after a `-`, never positive
      after one. */
  lemma ParseLiteralSpec(t: string)
    ensures ParseLiteral(t).Some? <==> IntLiteral(t)
    ensures var r := ParseLiteral(t);
      && (r.Some? ==> FromDigits(Unsigned(t), 10) == Some(if r.value < 0 then -r.value else r.value))
      && (r.Some? && r.value < 0 ==> t[0] == '-')
      && (r.Some? && t[0] == '-' ==> r.value <= 0)
  {
  }

  /** What `int(s)` accepts and what it yields: the text must hold no
      information separator and, once surrounding white space is stripped,
      must be an optional sign and at least one ASCII digit; the digits give
      the magnitude, and the value is negative only after a `-`, never
      positive after one. */
  lemma ParseIntSpec(s: string)
    ensures ParseInt(s).Some? <==> NoSeparators(s) && IntLiteral(Text.Strip(s))
    ensures var r := ParseInt(s);
      && (r.Some? ==> FromDigits(Unsigned(Text.Strip(s)), 10) == Some(if r.value < 0 then -r.value else r.value))
      && (r.Some? && r.value < 0 ==> Text.Strip(s)[0] == '-')
      && (r.Some? && Text.Strip(s)[0] == '-' ==> r.value <= 0)
  {
    ParseLiteralSpec(Text.Strip(s));
  }

  /** Python's `str(n)` for an integer. */
  function ShowInt(n: int): (r: string)
    ensures |r| >= 1 && (r[0] == '-' <==> n < 0)
  {
    if n < 0 then "-" + ToDigits(-n, 10) else ToDigits(n, 10)
  }

  /** A string that neither starts nor ends with white space is its own strip. */
  lemma StripUnpadded(s: string)
    requires |s| >= 1 && !Text.IsSpace(s[0]) && !Text.IsSpace(s[|s| - 1])
    ensures Text.Strip(s) == s
  {
    assert s[0..0 + |s|] == s;
    assert s[..0] == [] && s[|s|..] == [];
    assert Text.StrippedAt(s, 0, s);
    Text.StripUnique(s, 0, s);
  }

  /** A numeral's first and last characters are digits, not white space or a sign. */
  lemma NumeralEnds(m: nat)
    ensures var d := ToDigits(m, 10);
      && '0' <= d[0] <= '9' && '0' <= d[|d| - 1] <= '9'
      && !Text.IsSpace(d[0]) && !Text.IsSpace(d[|d| - 1])
  {
    var d := ToDigits(m, 10);
    assert DigitValue(d[|d| - 1]).Some?;
    assert DigitValue(d[0]).Some?;
  }

  /** `int(str(n)) == n`. */
  lemma ParseShowInt(n: int)
    ensures ParseInt(ShowInt(n)) == Some(n)
  {
    var s := ShowInt(n);
    var m: nat := if n < 0 then -n else n;
    var d := ToDigits(m, 10);
    NumeralEnds(m);
    FromToDigits(m, 10);
    DigitsHaveNoSeparators(d);
    if n < 0 {
      assert s == "-" + d;
      assert s[|s| - 1] == d[|d| - 1];
      assert NoSeparators(s) by {
        forall i | 0 <= i < |s| ensures !IsSeparator(s[i]) {
          if i > 0 {
            assert s[i] == d[i - 1];
          }
        }
      }
      StripUnpadded(s);
      assert s[1..] == d;
      ParseMinusSign(s, s);
    } else {
      assert s == d;
      StripUnpadded(s);
      ParseUnsigned(s, d);
    }
  }

  /** Python's `oct(n)` for a non-negative integer: `0o` and the octal digits. */
  function Oct(n: nat): (r: string)
    ensures |r| >= 3 && r[..2] == "0o" && AllDigits(r[2..], 8)
  {
    "0o" + ToDigits(n, 8)
  }

  /** The number an `oct` rendering denotes. */
  function ParseOct(s: string): Option<nat>
  {
    if |s| >= 2 && s[..2] == "0o" then FromDigits(s[2..], 8) else None
  }

  /** Stripped text that starts with a digit reads as a numeral. */
  lemma ParseUnsigned(s: string, t: string)
    requires NoSeparators(s) && Text.Strip(s) == t && |t| >= 1 && '0' <= t[0] <= '9'
    ensures ParseInt(s) == FromDigits(t, 10)
  {
    LiteralUnsigned(t);
  }

  lemma LiteralUnsigned(t: string)
    requires |t| >= 1 && '0' <= t[0] <= '9'
    ensures ParseLiteral(t) == FromDigits(t, 10)
  {
    assert t[0] != '-' && t[0] != '+';
  }

  /** Stripped text that starts with `+` reads as the numeral after it. */
  lemma ParsePlusSign(s: string, t: string)
    requires NoSeparators(s) && Text.Strip(s) == t && |t| >= 1 && t[0] == '+'
    ensures ParseInt(s) == FromDigits(t[1..], 10)
  {
    LiteralPlus(t);
  }

  lemma LiteralPlus(t: string)
    requires |t| >= 1 && t[0] == '+'
    ensures ParseLiteral(t) == FromDigits(t[1..], 10)
  {
  }

  /** Stripped text that starts with `-` reads as the negated numeral
      after it. */
  lemma ParseMinusSign(s: string, t: string)
    requires NoSeparators(s) && Text.Strip(s) == t && |t| >= 1 && t[0] == '-'
    ensures FromDigits(t[1..], 10).Some? ==> ParseInt(s) == Some(0 - FromDigits(t[1..], 10).value as int)
  {
    LiteralMinus(t);
  }

  lemma LiteralMinus(t: string)
    requires |t| >= 1 && t[0] == '-'
    ensures FromDigits(t[1..], 10).Some? ==> ParseLiteral(t) == Some(0 - FromDigits(t[1..], 10).value as int)
  {
  }

  /** Decimal digits are not information separators. */
  lemma DigitsHaveNoSeparators(d: string)
    requires AllDigits(d, 10)
    ensures NoSeparators(d)
  {
    forall i | 0 <= i < |d| ensures !IsSeparator(d[i]) {
      assert DigitValue(d[i]).Some?;
    }
  }

  /** A single digit reads as its value. */
  lemma ParseOneDigit(s: string)
    requires |s| == 1 && '0' <= s[0] <= '9'
    ensures ParseInt(s) == Some(s[0] as int - '0' as int)
  {
    StripUnpadded(s);
    assert NoSeparators(s);
    ParseUnsigned(s, s);
  }

  /** A minus sign and a single digit read as the digit's value negated. */
  lemma ParseMinusOneDigit(s: string)
    requires |s| == 2 && s[0] == '-' && '0' <= s[1] <= '9'
    ensures ParseInt(s) == Some('0' as int - s[1] as int)
  {
    StripUnpadded(s);
    assert NoSeparators(s) by {
      assert !IsSeparator(s[0]) && !IsSeparator(s[1]);
    }
    ParseMinusSign(s, s);
    assert s[1..] == [s[1]];
  }

  /** `int` ignores surrounding white space: `int(' 2\n') == 2`. */
  lemma ParsePadded(s: string)
    requires s == " 2\n"
    ensures ParseInt(s) == Some(2)
  {
    PaddedTwo(s);
    assert NoSeparators(s) by {
      assert s[0] == ' ' && s[1] == '2' && s[2] == '\n';
    }
    ParseUnsigned(s, "2");
  }

  /** `int` takes a `+` sign: `int('+3') == 3`. */
  lemma ParsePlus(s: string)
    requires s == "+3"
    ensures ParseInt(s) == Some(3)
  {
    StripUnpadded(s);
    assert NoSeparators(s) by {
      assert s[0] == '+' && s[1] == '3';
    }
    ParsePlusSign(s, s);
    assert s[1..] == "3";
  }

  /** `int` takes leading zeros: `int('007') == 7`. */
  lemma ParseLeadingZeros(s: string)
    requires s == "007"
    ensures ParseInt(s) == Some(7)
  {
    StripUnpadded(s);
    DigitsHaveNoSeparators(s);
    ParseUnsigned(s, s);
    assert s[..2] == "00" && s[..2][..1] == "0";
    assert FromDigits(s[..2][..1], 10) == Some(0);
    assert FromDigits(s[..2], 10) == Some(0);
  }

  /** `int` refuses a sign alone. */
  lemma ParseSignAlone(s: string)
    requires s == "-"
    ensures ParseInt(s) == None
  {
    StripUnpadded(s);
    assert s[1..] == [];
  }

  /** `int` refuses white space between digits. */
  lemma ParseInnerSpace(s: string)
    requires s == "1 2"
    ensures ParseInt(s) == None
  {
    StripUnpadded(s);
    assert NoSeparators(s) by {
      assert s[0] == '1' && s[1] == ' ' && s[2] == '2';
    }
    ParseUnsigned(s, s);
    assert s[..2] == "1 " && s[..2][1] == ' ';
    assert FromDigits(s[..2], 10) == None;
  }

  /** `int` does not skip an information separator, although `strip`
      would: `int('\x1c1')` is refused. */
  lemma ParseSeparatorPadded(s: string)
    requires |s| == 2 && s[0] == 0x1C as char && s[1] == '1'
    ensures Text.Strip(s) == "1"
    ensures ParseInt(s) == None
  {
    assert Text.IsSpace(s[0]) && !Text.IsSpace(s[1]);
    assert s[..1] == [s[0]] && s[1..2] == "1" && s[2..] == [];
    assert Text.StrippedAt(s, 1, "1");
    Text.StripUnique(s, 1, "1");
    assert IsSeparator(s[0]);
  }

  /** `int` refuses blank text. */
  lemma ParseBlank(s: string)
    requires s == " "
    ensures ParseInt(s) == None
  {
    AllSpaceStrip(s);
  }

  lemma PaddedTwo(s: string)
    requires s == " 2\n"
    ensures Text.Strip(s) == "2"
  {
    assert s[..1] == " " && s[1..2] == "2" && s[2..] == "\n";
    assert Text.StrippedAt(s, 1, "2");
    Text.StripUnique(s, 1, "2");
  }

  lemma AllSpaceStrip(s: string)
    requires s == " "
    ensures Text.Strip(s) == ""
  {
    assert s[..1] == s && s[1..] == [];
    assert Text.StrippedAt(s, 1, "");
    Text.StripUnique(s, 1, "");
  }

  /** `oct` loses nothing: reading its output gives the number back. */
  lemma ParseOctOct(n: nat)
    ensures ParseOct(Oct(n)) == Some(n)
  {
    assert Oct(n)[2..] == ToDigits(n, 8);
    FromToDigits(n, 8);
  }
}

/**
 Printing integers in bases 2 to 32: a writer that counts digits and then fills a
 buffer from the end, and one that appends them in reverse. Both write the one
 numeral without leading zeros that parses back to the number.
 */
module Digits {
  import opened BitSets
  import opened Options

  /** The supported base nearest to the one asked for. */
  function Clamp(base: int): (b: nat)
    ensures 2 <= b <= 32
    ensures forall c: nat | 2 <= c <= 32 :: Distance(b, base) <= Distance(c, base)
  {
    if base < 2 then 2 else if base > 32 then 32 else base
  }

  function Distance(a: int, b: int): nat {
    if a < b then b - a else a - b
  }

  function DigitChar(d: nat): char
    requires d < 32
  {
    if d < 10 then '0' + d as char else 'A' + (d - 10) as char
  }

  function DigitValue(c: char): Option<nat> {
    if '0' <= c <= '9' then Some((c - '0') as nat)
    else if 'A' <= c <= 'V' then Some((c - 'A') as nat + 10)
    else None
  }

  /** The numeral of `v`, most significant digit first. */
  function Numeral(v: nat, base: nat): (s: string)
    requires 2 <= base <= 32
    ensures |s| > 0
    decreases v
  {
    if v < base then [DigitChar(v)]
    else Quotient(v, base); Numeral(v / base, base) + [DigitChar(v % base)]
  }

  /** The value of a string of digits of the base. */
  function Parse(s: string, base: nat): Option<nat>
    requires 2 <= base <= 32
  {
    if s == [] then Some(0)
    else
      var front, digit := Parse(s[..|s| - 1], base), DigitValue(s[|s| - 1]);
      if front.Some? && digit.Some? && digit.value < base then Some(front.value * base + digit.value) else None
  }

  lemma Quotient(v: nat, base: nat)
    requires base >= 2
    ensures v == v / base * base + v % base && v % base < base
    ensures v > 0 ==> v / base < v
    ensures v / base == 0 <==> v < base
  {
    var q := v / base;
    assert v == q * base + v % base;
    Multiple(q, base);
    assert q * base == q + q * (base - 1);
    Multiple(q, base - 1);
  }

  lemma QuotientIs(q: nat, d: nat, base: nat)
    requires base >= 2 && d < base
    ensures (q * base + d) / base == q && (q * base + d) % base == d
  {
    var v := q * base + d;
    Quotient(v, base);
    SmallMultiple(v / base - q, d - v % base, base);
  }

  /** Two remainders never differ by a multiple of the base. */
  lemma SmallMultiple(k: int, e: int, base: int)
    requires k * base == e && -base < e < base
    ensures k == 0
  {
    Multiple(k, base);
    Multiple(-k, base);
    assert (-k) * base == -(k * base);
  }

  lemma Multiple(k: int, base: int)
    requires base > 0
    ensures k > 0 ==> k * base >= base
    ensures k >= 0 ==> k * base >= k
  {
    if k > 0 {
      assert k * base == base + (k - 1) * base;
      assert (k - 1) * base >= 0;
    }
    if k >= 0 {
      assert k * base == k + k * (base - 1);
      assert k * (base - 1) >= 0;
    }
  }

  lemma DigitInverse(d: nat)
    requires d < 32
    ensures DigitValue(DigitChar(d)) == Some(d)
  {
  }

  lemma {:induction false} ParseNumeral(v: nat, base: nat)
    requires 2 <= base <= 32
    ensures Parse(Numeral(v, base), base) == Some(v)
    decreases v
  {
    Quotient(v, base);
    if v < base {
      assert Parse([], base) == Some(0);
      assert [DigitChar(v)][..0] == [];
      DigitInverse(v);
    } else {
      ParseNumeral(v / base, base);
      DigitInverse(v % base);
      assert Numeral(v, base)[..|Numeral(v, base)| - 1] == Numeral(v / base, base);
    }
  }

  /** No leading zero: only the numeral of 0 begins with one. */
  lemma {:induction false} NoLeadingZero(v: nat, base: nat)
    requires 2 <= base <= 32
    ensures Numeral(v, base)[0] == '0' <==> v == 0
    decreases v
  {
    Quotient(v, base);
    if v >= base {
      NoLeadingZero(v / base, base);
    }
  }

  /** There is one such numeral: any digit string without a leading zero is its value's numeral. */
  lemma {:induction false} NumeralParse(s: string, base: nat)
    requires 2 <= base <= 32 && |s| > 0 && Parse(s, base).Some? && (s[0] == '0' ==> |s| == 1)
    ensures Numeral(Parse(s, base).value, base) == s
    decreases |s|
  {
    var front, d := s[..|s| - 1], DigitValue(s[|s| - 1]).value;
    assert s == front + [s[|s| - 1]];
    assert DigitChar(d) == s[|s| - 1];
    if front == [] {
      assert Parse(s, base) == Some(d);
    } else {
      NumeralParse(front, base);
      NotZero(front, base);
      QuotientIs(Parse(front, base).value, d, base);
      Quotient(Parse(s, base).value, base);
    }
  }

  lemma NotZero(s: string, base: nat)
    requires 2 <= base <= 32 && |s| > 0 && Parse(s, base).Some? && s[0] != '0'
    requires Numeral(Parse(s, base).value, base) == s
    ensures Parse(s, base).value > 0
  {
    NoLeadingZero(Parse(s, base).value, base);
  }

  /** A value of `w` bits has at most `w` digits. */
  lemma {:induction false} NumeralLength(v: nat, base: nat, w: nat)
    requires 2 <= base <= 32 && w > 0 && v < Pow2(w)
    ensures |Numeral(v, base)| <= w
    decreases v
  {
    Quotient(v, base);
    if v >= base {
      HalvesAtLeast(v, base);
      NumeralLength(v / base, base, w - 1);
    }
  }

  /** Dividing by a base at least halves. */
  lemma HalvesAtLeast(v: nat, base: nat)
    requires base >= 2
    ensures 2 * (v / base) <= v
  {
    var q := v / base;
    Quotient(v, base);
    assert q * base == q + q * (base - 1);
    Multiple(q, base - 1);
  }

  // ----- The two-pass writer -----

  /** The digits of `v` still to be written, when higher digits remain only if `v` is not 0. */
  function Remaining(v: nat, base: nat): string
    requires 2 <= base <= 32
  {
    if v == 0 then [] else Numeral(v, base)
  }

  lemma TakeDigit(v: nat, base: nat)
    requires 2 <= base <= 32
    ensures v / base >= 0 && 0 <= v % base < base
    ensures Numeral(v, base) == Remaining(v / base, base) + [DigitChar(v % base)]
  {
    Quotient(v, base);
    QuotientIs(0, if v < base then v else 0, base);
  }

  /** A buffer with a terminated string written at `at`. */
  function Terminated(was: seq<char>, at: nat, s: string): seq<char>
    requires at + |s| < |was|
  {
    was[..at] + s + ['\0'] + was[at + |s| + 1..]
  }

  /** A sign in front. */
  lemma SignInFront(was: seq<char>, s: string)
    requires |s| + 1 < |was|
    ensures Terminated(was[0 := '-'], 1, s) == Terminated(was, 0, ['-'] + s)
  {
  }

  /** Counts digits, terminates the string, then fills it from its last digit. */
  method WriteUnsigned(value: nat, str: array<char>, at: nat, base: nat)
    requires 2 <= base <= 32 && at + |Numeral(value, base)| < str.Length
    modifies str
    ensures str[..] == Terminated(old(str[..]), at, Numeral(value, base))
  {
    var length := CountDigits(value, base);
    str[at + length] := '\0';
    FillDigits(value, str, at, length, base);
  }

  /** The buffer once all but the first `length` digits are in place. */
  function Filled(was: seq<char>, at: nat, numeral: string, length: nat): seq<char>
    requires length <= |numeral| && at + |numeral| <= |was|
  {
    was[..at + length] + numeral[length..] + was[at + |numeral|..]
  }

  lemma FillStep(was: seq<char>, at: nat, numeral: string, length: nat)
    requires length < |numeral| && at + |numeral| <= |was|
    ensures Filled(was, at, numeral, length + 1)[at + length := numeral[length]] == Filled(was, at, numeral, length)
  {
  }

  method FillDigits(value: nat, str: array<char>, at: nat, digits: nat, base: nat)
    requires 2 <= base <= 32 && digits == |Numeral(value, base)| && at + digits <= str.Length
    modifies str
    ensures str[..] == Filled(old(str[..]), at, Numeral(value, base), 0)
  {
    ghost var numeral, was := Numeral(value, base), str[..];
    var v: nat, length := value, digits;
    assert Filled(was, at, numeral, length) == was;
    while true
      invariant 0 < length <= digits && Numeral(v, base) == numeral[..length]
      invariant str[..] == Filled(was, at, numeral, length)
      decreases length
    {
      length := length - 1;
      TakeDigit(v, base);
      assert numeral[..length + 1][length] == DigitChar(v % base);
      str[at + length] := DigitChar(v % base);
      FillStep(was, at, numeral, length);
      v := v / base;
      assert numeral[..length] == Remaining(v, base);
      if v == 0 {
        break;
      }
    }
  }

  method CountDigits(value: nat, base: nat) returns (length: nat)
    requires 2 <= base <= 32
    ensures length == |Numeral(value, base)|
  {
    length := 0;
    var v: nat := value;
    while true
      invariant length + |Numeral(v, base)| == |Numeral(value, base)|
      decreases v + if length == 0 then 1 else 0
    {
      length := length + 1;
      TakeDigit(v, base);
      Quotient(v, base);
      v := v / base;
      if v == 0 {
        break;
      }
    }
  }

  // ----- Signed values -----

  /** The least signed value of `w` bits. */
  function Minimum(w: nat): int
    requires w > 0
  {
    0 - Pow2(w - 1)
  }

  /** The value read as unsigned in `w` bits: the one number of `w` bits that is congruent to it. */
  function Unsigned(value: int, w: nat): (u: nat)
    requires w > 0 && Minimum(w) <= value < Pow2(w - 1)
    ensures u < Pow2(w) && Congruent(u, value, Pow2(w))
  {
    WholeMultiples(Pow2(w));
    if value < 0 then value + Pow2(w) else value
  }

  predicate Congruent(a: int, b: int, m: nat)
    requires m > 0
  {
    (a - b) % m == 0
  }

  lemma WholeMultiples(m: nat)
    requires m > 0
    ensures m % m == 0 && 0 % m == 0
  {
    if m > 1 {
      QuotientIs(1, 0, m);
    }
  }

  /** Base 10 prints a sign and the magnitude; any other base the two's complement. */
  function Printed(value: int, base: int, w: nat): (s: string)
    requires w > 0 && Minimum(w) <= value < Pow2(w - 1)
  {
    if base == 10 && value < 0 then ['-'] + Numeral(-value, 10) else Numeral(Unsigned(value, w), Clamp(base))
  }

  function ParseSigned(s: string): Option<int> {
    if s != [] && s[0] == '-' then
      var magnitude := Parse(s[1..], 10);
      if magnitude.Some? then Some(0 - magnitude.value) else None
    else
      var magnitude := Parse(s, 10);
      if magnitude.Some? then Some(magnitude.value) else None
  }

  lemma {:induction false} NoSign(v: nat, base: nat)
    requires 2 <= base <= 32
    ensures '-' !in Numeral(v, base) && '\0' !in Numeral(v, base)
    decreases v
  {
    if v >= base {
      Quotient(v, base);
      NoSign(v / base, base);
    }
  }

  /**
   What `s` must be to print `value`: in base 10 it reads as the value, in any other
   base as a number of `w` bits that differs from it by a multiple of 2^w; and no
   zero is written in front, nor a sign where none is due.
   */
  predicate ReadsBack(s: string, value: int, base: int, w: nat) {
    && (if base == 10 then
          ParseSigned(s) == Some(value)
        else
          var parsed := Parse(s, Clamp(base));
          parsed.Some? && parsed.value < Pow2(w) && Congruent(parsed.value, value, Pow2(w)))
    && (if s != [] && s[0] == '-' then base == 10 && value < 0 && Plain(s[1..]) else Plain(s))
  }

  /** Digits without a leading zero. */
  predicate Plain(digits: string) {
    digits != [] && (digits[0] == '0' ==> |digits| == 1)
  }

  /** The string in a buffer, up to its terminator. */
  function Terminating(buffer: seq<char>): string {
    if buffer == [] || buffer[0] == '\0' then [] else [buffer[0]] + Terminating(buffer[1..])
  }

  lemma {:induction false} TerminatedString(s: string, rest: seq<char>)
    requires '\0' !in s
    ensures Terminating(s + ['\0'] + rest) == s
  {
    var buffer := s + ['\0'] + rest;
    if s != [] {
      assert buffer[0] == s[0] && s[0] in s;
      assert buffer[1..] == s[1..] + ['\0'] + rest;
      TerminatedString(s[1..], rest);
    }
  }

  lemma PrintedInFront(was: seq<char>, value: int, base: int, w: nat)
    requires w > 0 && Minimum(w) <= value < Pow2(w - 1) && |Printed(value, base, w)| < |was|
    ensures Terminating(Terminated(was, 0, Printed(value, base, w))) == Printed(value, base, w)
  {
    var s := Printed(value, base, w);
    if base == 10 && value < 0 {
      NoSign(-value, 10);
    } else {
      NoSign(Unsigned(value, w), Clamp(base));
    }
    assert Terminated(was, 0, s) == s + ['\0'] + was[|s| + 1..];
    TerminatedString(s, was[|s| + 1..]);
  }

  lemma PlainNumeral(v: nat, base: nat)
    requires 2 <= base <= 32
    ensures Plain(Numeral(v, base))
  {
    NoLeadingZero(v, base);
  }

  /** Every printed value reads back: the value itself in base 10, its bits in the others. */
  lemma PrintedParses(value: int, base: int, w: nat)
    requires w > 0 && Minimum(w) <= value < Pow2(w - 1)
    ensures ReadsBack(Printed(value, base, w), value, base, w)
    ensures |Printed(value, base, w)| <= w + 1
  {
    var digits := if base == 10 && value < 0 then Numeral(-value, 10) else Numeral(Unsigned(value, w), Clamp(base));
    if base == 10 && value < 0 {
      PlainNumeral(-value, 10);
    } else {
      PlainNumeral(Unsigned(value, w), Clamp(base));
    }
    if base == 10 && value < 0 {
      ParseNumeral(-value, 10);
      NumeralLength(-value, 10, w);
      assert Printed(value, base, w)[1..] == Numeral(-value, 10);
    } else {
      ParseNumeral(Unsigned(value, w), Clamp(base));
      NoSign(Unsigned(value, w), Clamp(base));
      NumeralLength(Unsigned(value, w), Clamp(base), w);
    }
  }

  /**
   Negation in a type of `w` bits. A type narrower than 32 bits is negated in 32 and
   narrowed again, so that its minimum stays what it is; in any other the minimum has
   no negation.
   */
  function Negate(value: int, w: nat): Option<int>
    requires w > 0
  {
    if value != Minimum(w) then Some(-value) else if w < 32 then Some(value) else None
  }

  /** Where negation is not defined. */
  predicate Overflows(value: int, base: int, w: nat)
    requires w > 0
  {
    base == 10 && w >= 32 && value == Minimum(w)
  }

  /** The signed writer of base 10: false where negation overflows. */
  method WriteSigned(value: int, str: array<char>, w: nat) returns (ok: bool)
    requires w > 0 && Minimum(w) <= value < Pow2(w - 1)
    requires |Printed(value, 10, w)| < str.Length
    modifies str
    ensures ok <==> !Overflows(value, 10, w)
    ensures ok ==> str[..] == Terminated(old(str[..]), 0, Printed(value, 10, w))
  {
    var i, v := 0, value;
    ghost var was := str[..];
    if v < 0 {
      str[i] := '-';
      i := i + 1;
      var negated := Negate(v, w);
      if negated.None? {
        return false;
      }
      v := negated.value;
      SignInFront(was, Numeral(Unsigned(v, w), 10));
      assert str[..] == was[0 := '-'];
    }
    WriteUnsigned(Unsigned(v, w), str, i, 10);
    ok := true;
  }

  /** Writes any value in any base, as a terminated string at the front of the buffer. */
  method Xtoa(value: int, str: array<char>, base: int, w: nat) returns (ok: bool)
    requires w > 0 && Minimum(w) <= value < Pow2(w - 1)
    requires |Printed(value, base, w)| < str.Length
    modifies str
    ensures ok <==> !Overflows(value, base, w)
    ensures ok ==> str[..] == Terminated(old(str[..]), 0, Printed(value, base, w))
    ensures ok ==> ReadsBack(Terminating(str[..]), value, base, w)
  {
    PrintedInFront(str[..], value, base, w);
    PrintedParses(value, base, w);
    var b := Clamp(base);
    if b != 10 {
      WriteUnsigned(Unsigned(value, w), str, 0, b);
      ok := true;
    } else {
      ok := WriteSigned(value, str, w);
    }
  }

  // ----- Appending to a string -----

  class Text {
    var contents: string

    constructor ()
      ensures contents == []
    {
      contents := [];
    }

    method Append(c: char)
      modifies this
      ensures contents == old(contents) + [c]
    {
      contents := contents + [c];
    }

    method AppendReversed(s: string)
      modifies this
      ensures contents == old(contents) + Reversed(s)
    {
      assert s[|s|..] == [];
      for i := |s| downto 0
        invariant contents == old(contents) + Reversed(s[i..])
      {
        assert s[i..][1..] == s[i + 1..];
        contents := contents + [s[i]];
      }
    }
  }

  function Reversed(s: string): string {
    if s == [] then [] else Reversed(s[1..]) + [s[0]]
  }

  lemma {:induction false} ReversedAppend(s: string, c: char)
    ensures Reversed(s + [c]) == [c] + Reversed(s)
  {
    if s != [] {
      assert (s + [c])[1..] == s[1..] + [c];
      ReversedAppend(s[1..], c);
    }
  }

  /** Collects the digits from the last to the first, then appends them in reverse. */
  method AppendUnsigned(s: Text, value: nat, base: int)
    modifies s
    ensures s.contents == old(s.contents) + Numeral(value, Clamp(base))
  {
    var b := Clamp(base);
    var v: nat, reversed: string := value, [];
    while true
      modifies {}
      invariant Numeral(value, b) == Numeral(v, b) + Reversed(reversed)
      decreases v + if reversed == [] then 1 else 0
    {
      TakeDigit(v, b);
      Quotient(v, b);
      ReversedAppend(reversed, DigitChar(v % b));
      reversed := reversed + [DigitChar(v % b)];
      v := v / b;
      if v == 0 {
        assert Numeral(value, b) == Reversed(reversed);
        break;
      }
    }
    s.AppendReversed(reversed);
  }

  lemma Suffix(s: string, t: string)
    ensures (s + t)[|s|..] == t
  {
  }

  /** Appends what the buffer writer writes. */
  method AppendSigned(s: Text, value: int, base: int, w: nat) returns (ok: bool)
    requires w > 0 && Minimum(w) <= value < Pow2(w - 1)
    modifies s
    ensures ok <==> !Overflows(value, base, w)
    ensures ok ==> s.contents == old(s.contents) + Printed(value, base, w)
    ensures ok ==> |old(s.contents)| <= |s.contents| && ReadsBack(s.contents[|old(s.contents)|..], value, base, w)
  {
    var v := value;
    if base == 10 && v < 0 {
      s.Append('-');
      var negated := Negate(v, w);
      if negated.None? {
        return false;
      }
      v := negated.value;
    }
    AppendUnsigned(s, Unsigned(v, w), base);
    ok := true;
    PrintedParses(value, base, w);
    Suffix(old(s.contents), Printed(value, base, w));
  }

  /** The two printers agree. */
  method PrintersAgree(value: int, base: int, w: nat) returns (ok: bool, appended: string, written: string)
    requires w > 0 && Minimum(w) <= value < Pow2(w - 1)
    ensures ok <==> !Overflows(value, base, w)
    ensures ok ==> appended + ['\0'] == written && |appended| <= w + 1
    ensures ok ==> ReadsBack(appended, value, base, w)
  {
    PrintedParses(value, base, w);
    var text := new Text();
    ok := AppendSigned(text, value, base, w);
    appended := text.contents;
    var buffer := new char[w + 2](_ => ' ');
    var ok' := Xtoa(value, buffer, base, w);
    written := [];
    if ok {
      assert appended == Printed(value, base, w);
      written := buffer[..|appended| + 1];
    }
  }
}

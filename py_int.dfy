/** Python's `int(x)` as the loader applies it to YAML values, and `str(k)` for
    integers, the form in which a node index is written inside a reference. */
module PyInt {
  import opened Wrappers
  import opened YamlValue

  /** The ASCII whitespace `int()` skips around a number: tab, line feed,
      vertical tab, form feed, carriage return and space. */
  predicate IsSpace(c: char) {
    9 <= c as int <= 13 || c == ' '
  }

  predicate IsDigit(c: char) {
    '0' <= c <= '9'
  }

  function TrimLeft(s: string): (r: string)
    ensures |r| <= |s|
    ensures r != [] ==> !IsSpace(r[0])
  {
    if s != [] && IsSpace(s[0]) then TrimLeft(s[1..]) else s
  }

  function TrimRight(s: string): (r: string)
    ensures |r| <= |s|
    ensures r != [] ==> !IsSpace(r[|r| - 1])
  {
    if s != [] && IsSpace(s[|s| - 1]) then TrimRight(s[..|s| - 1]) else s
  }

  function Strip(s: string): string {
    TrimRight(TrimLeft(s))
  }

  /** The digits of a base-10 literal: digits, with single underscores allowed
      between two digits (`1_000`). */
  predicate DecimalDigits(s: string) {
    && |s| > 0
    && IsDigit(s[0])
    && IsDigit(s[|s| - 1])
    && (forall i :: 0 <= i < |s| ==> IsDigit(s[i]) || s[i] == '_')
    && (forall i :: 0 <= i < |s| - 1 && s[i] == '_' ==> s[i + 1] != '_')
  }

  /** The number the digits of `s` spell, underscores skipped. */
  function DigitsValue(s: string): nat {
    if s == [] then 0
    else
      var last := s[|s| - 1];
      if IsDigit(last) then DigitsValue(s[..|s| - 1]) * 10 + (last as int - '0' as int)
      else DigitsValue(s[..|s| - 1])
  }

  /** `int(s)` for a string `s`: surrounding whitespace, an optional sign and a
      base-10 literal; anything else raises `ValueError` (here `None`). */
  function ParseInt(s: string): Option<int> {
    var t := Strip(s);
    if |t| > 0 && (t[0] == '+' || t[0] == '-') then
      if DecimalDigits(t[1..]) then
        var n: int := DigitsValue(t[1..]);
        Some(if t[0] == '-' then -n else n)
      else None
    else if DecimalDigits(t) then Some(DigitsValue(t))
    else None
  }

  /** What `int()` accepts: once surrounding whitespace is stripped, a base-10
      literal, possibly after one sign; an unsigned literal is not negative. */
  lemma ParseIntExactly(s: string)
    ensures ParseInt(s).Some? <==>
      var t := Strip(s);
      DecimalDigits(t) || (|t| > 0 && (t[0] == '+' || t[0] == '-') && DecimalDigits(t[1..]))
    ensures ParseInt(s).Some? && DecimalDigits(Strip(s)) ==> ParseInt(s).value >= 0
  {
  }

  /** `int(v)` for a YAML value: an integer is itself, a boolean is 1 or 0 (a
      Python `bool` is an `int`), a string is parsed, and anything else raises. */
  function IntOf(v: Value): (r: Option<int>)
    ensures r.Some? ==> v.Int? || v.Bool? || v.Str?
    ensures v.Int? ==> r == Some(v.i)
    ensures v.Str? ==> r == ParseInt(v.s)
  {
    match v
    case Int(n) => Some(n)
    case Bool(b) => Some(if b then 1 else 0)
    case Str(s) => ParseInt(s)
    case _ => None
  }

  function DigitChar(d: nat): (c: char)
    requires d < 10
    ensures IsDigit(c) && c as int - '0' as int == d
  {
    ('0' as int + d) as char
  }

  /** `str(n)` for a natural number: its decimal digits, no leading zero. */
  function NatToStr(n: nat): (s: string)
    ensures |s| > 0
    ensures forall i :: 0 <= i < |s| ==> IsDigit(s[i])
  {
    if n < 10 then [DigitChar(n)] else NatToStr(n / 10) + [DigitChar(n % 10)]
  }

  /** `str(k)` for any integer. */
  function IntToStr(k: int): string {
    if k < 0 then "-" + NatToStr(-k) else NatToStr(k)
  }

  lemma {:induction false} NatToStrValue(n: nat)
    ensures DigitsValue(NatToStr(n)) == n
  {
    if n >= 10 {
      var s := NatToStr(n);
      NatToStrValue(n / 10);
      assert s[..|s| - 1] == NatToStr(n / 10);
    }
  }

  /** `int(str(k)) == k` for every integer `k`. */
  lemma ParseIntRoundTrip(k: int)
    ensures ParseInt(IntToStr(k)) == Some(k)
  {
    var s := IntToStr(k);
    assert s != [] && !IsSpace(s[0]) && !IsSpace(s[|s| - 1]);
    assert Strip(s) == s;
    if k < 0 {
      assert s[1..] == NatToStr(-k);
      NatToStrValue(-k);
    } else {
      NatToStrValue(k);
    }
  }

  /** Trimming the left of text followed by a space keeps that space at the
      end, unless nothing but spaces is left. */
  lemma {:induction false} TrimLeftAppendSpace(s: string, c: char)
    requires IsSpace(c)
    ensures TrimLeft(s + [c]) == (if TrimLeft(s) == [] then [] else TrimLeft(s) + [c])
  {
    if s != [] {
      assert (s + [c])[0] == s[0];
      if IsSpace(s[0]) {
        assert (s + [c])[1..] == s[1..] + [c];
        TrimLeftAppendSpace(s[1..], c);
      }
    } else {
      assert [] + [c] == [c];
      assert [c][1..] == [];
    }
  }

  lemma TrimLeftSpaceCons(c: char, s: string)
    requires IsSpace(c)
    ensures TrimLeft([c] + s) == TrimLeft(s)
  {
    assert ([c] + s)[1..] == s;
  }

  lemma TrimRightSpaceSnoc(s: string, c: char)
    requires IsSpace(c)
    ensures TrimRight(s + [c]) == TrimRight(s)
  {
    assert (s + [c])[..|s|] == s;
  }

  /** Stripping ignores one whitespace character on either side. */
  lemma StripSurrounded(s: string, before: char, after: char)
    requires IsSpace(before) && IsSpace(after)
    ensures Strip([before] + s + [after]) == Strip(s)
  {
    assert [before] + s + [after] == [before] + (s + [after]);
    TrimLeftSpaceCons(before, s + [after]);
    TrimLeftAppendSpace(s, after);
    if TrimLeft(s) != [] {
      TrimRightSpaceSnoc(TrimLeft(s), after);
    }
  }

  /** Whitespace around a number does not change what `int()` reads. */
  lemma ParseIntIgnoresSurroundingSpace(s: string, before: char, after: char)
    requires IsSpace(before) && IsSpace(after)
    ensures ParseInt([before] + s + [after]) == ParseInt(s)
  {
    StripSurrounded(s, before, after);
  }

  /** Other ASCII control characters are not whitespace to `int()`: a leading
      file separator (0x1C) makes the text unreadable. */
  lemma FileSeparatorNotSkipped()
    ensures ParseInt([28 as char, '5']) == None
  {
    var s := [28 as char, '5'];
    assert !IsSpace(s[0]) && !IsSpace(s[1]);
    assert Strip(s) == s;
    assert !DecimalDigits(s);
  }

  /** `str(k)` never holds a bracket, so it can sit between `[` and `]` in a reference. */
  lemma IntToStrHasNoBrackets(k: int)
    ensures '[' !in IntToStr(k) && ']' !in IntToStr(k)
  {
    var s := IntToStr(k);
    assert forall i :: 0 <= i < |s| ==> s[i] == '-' || IsDigit(s[i]);
  }
}

/**
 * String helpers shared by the two cores: Ruby's `String#strip` and
 * `String#include?`, and the decimal formatting that JavaScript's `String(n)`
 * and `padStart` perform, with a parser that inverts it.
 */
module Text {

  /** The characters Ruby's `strip` removes: NUL, tab, line feed, vertical tab,
      form feed, carriage return and space. */
  predicate IsSpace(c: char) {
    c == '\0' || c == '\t' || c == '\n' || c == '\U{B}' || c == '\U{C}' || c == '\r' || c == ' '
  }

  predicate AllSpace(s: string) {
    forall k :: 0 <= k < |s| ==> IsSpace(s[k])
  }

  /** Drops the leading whitespace of `s`. */
  function TrimLeft(s: string): string {
    if s != [] && IsSpace(s[0]) then TrimLeft(s[1..]) else s
  }

  /** Drops the trailing whitespace of `s`. */
  function TrimRight(s: string): string {
    if s != [] && IsSpace(s[|s| - 1]) then TrimRight(s[..|s| - 1]) else s
  }

  /** Ruby's `s.strip`. */
  function Strip(s: string): string {
    TrimRight(TrimLeft(s))
  }

  /** `TrimLeft` removes a whitespace prefix and stops at the first other character. */
  lemma {:induction false} TrimLeftSpec(s: string)
    ensures var r := TrimLeft(s);
            |r| <= |s| && r == s[|s| - |r|..] && AllSpace(s[..|s| - |r|]) &&
            (r == [] || !IsSpace(r[0]))
  {
    if s != [] && IsSpace(s[0]) {
      TrimLeftSpec(s[1..]);
      var r := TrimLeft(s[1..]);
      assert s[..|s| - |r|] == [s[0]] + s[1..][..|s| - 1 - |r|];
    }
  }

  /** `TrimRight` removes a whitespace suffix and stops at the last other character. */
  lemma {:induction false} TrimRightSpec(s: string)
    ensures var r := TrimRight(s);
            |r| <= |s| && r == s[..|r|] && AllSpace(s[|r|..]) &&
            (r == [] || !IsSpace(r[|r| - 1]))
  {
    if s != [] && IsSpace(s[|s| - 1]) {
      TrimRightSpec(s[..|s| - 1]);
      var r := TrimRight(s[..|s| - 1]);
      assert s[|r|..] == s[..|s| - 1][|r|..] + [s[|s| - 1]];
    }
  }

  /** `s.strip` is `s` with only whitespace removed at its two ends (starting
      at `a`), and it neither starts nor ends with whitespace. */
  lemma StripSpec(s: string)
    ensures var r := Strip(s);
            var a := |s| - |TrimLeft(s)|;
            0 <= a && a + |r| <= |s| && r == s[a..a + |r|] && AllSpace(s[..a]) && AllSpace(s[a + |r|..]) &&
            (r == [] || (!IsSpace(r[0]) && !IsSpace(r[|r| - 1])))
  {
    var l := TrimLeft(s);
    TrimLeftSpec(s);
    TrimRightSpec(l);
    var r := TrimRight(l);
    var a := |s| - |l|;
    assert l == s[a..];
    assert r == l[..|r|];
    assert r == s[a..a + |r|];
    assert s[a + |r|..] == l[|r|..];
    assert AllSpace(s[..a]);
    assert AllSpace(s[a + |r|..]);
    if r != [] {
      assert r[0] == l[0];
    }
  }

  /** `s.strip.empty?` holds exactly when every character of `s` is whitespace. */
  lemma StripEmptyIffAllSpace(s: string)
    ensures Strip(s) == [] <==> AllSpace(s)
  {
    var l := TrimLeft(s);
    TrimLeftSpec(s);
    TrimRightSpec(l);
    var a := |s| - |l|;
    if l == [] {
      assert s[..a] == s;
    } else {
      assert s[a] == l[0];
    }
  }

  /** Ruby's `s.include?(t)`: `t` occurs in `s` as a contiguous substring. */
  function Contains(s: string, t: string): bool
    decreases |s|
  {
    if |s| < |t| then false
    else s[..|t|] == t || Contains(s[1..], t)
  }

  /** `t` starts at index `i` of `s`. */
  predicate OccursAt(s: string, t: string, i: int) {
    0 <= i <= |s| - |t| && s[i..i + |t|] == t
  }

  /** The recursive `Contains` agrees with the positional definition of a substring. */
  lemma {:induction false} ContainsAt(s: string, t: string)
    ensures Contains(s, t) <==> exists i :: OccursAt(s, t, i)
    decreases |s|
  {
    if |s| >= |t| {
      if s[..|t|] == t {
        assert OccursAt(s, t, 0);
      } else if s != [] {
        ContainsAt(s[1..], t);
        if Contains(s[1..], t) {
          var i :| OccursAt(s[1..], t, i);
          assert OccursAt(s, t, i + 1);
        }
        if i :| OccursAt(s, t, i) {
          assert i > 0;
          assert OccursAt(s[1..], t, i - 1);
        }
      }
    }
  }

  /** Appending to a string never destroys an occurrence already in it. */
  lemma {:induction false} ContainsExtend(s: string, u: string, t: string)
    requires Contains(s, t)
    ensures Contains(s + u, t)
    decreases |s|
  {
    if s[..|t|] == t {
      assert (s + u)[..|t|] == t;
    } else {
      ContainsExtend(s[1..], u, t);
      assert (s + u)[1..] == s[1..] + u;
    }
  }

  /** Decimal digits. */
  predicate IsDigit(c: char) { '0' <= c <= '9' }

  predicate AllDigits(s: string) {
    forall k :: 0 <= k < |s| ==> IsDigit(s[k])
  }

  function DigitChar(d: nat): (c: char)
    requires d < 10
    ensures IsDigit(c) && c as int - '0' as int == d
  {
    ['0', '1', '2', '3', '4', '5', '6', '7', '8', '9'][d]
  }

  /** JavaScript's `String(n)` for a non-negative integer: decimal, no leading zero. */
  function NatToString(n: nat): (r: string)
    ensures |r| >= 1 && AllDigits(r)
    ensures |r| > 1 ==> r[0] != '0'
    ensures n < 10 <==> |r| == 1
  {
    if n < 10 then [DigitChar(n)] else NatToString(n / 10) + [DigitChar(n % 10)]
  }

  /** JavaScript's `String(i)` for any integer: a minus sign before the magnitude. */
  function IntToString(i: int): string {
    if i < 0 then "-" + NatToString(-i) else NatToString(i)
  }

  /** The value of a string of decimal digits (the empty string reads as 0). */
  function ParseNat(s: string): nat
    requires AllDigits(s)
  {
    if s == [] then 0
    else ParseNat(s[..|s| - 1]) * 10 + (s[|s| - 1] as int - '0' as int)
  }

  /** Reading back what `NatToString` wrote gives the number again. */
  lemma {:induction false} ParseNatToString(n: nat)
    ensures ParseNat(NatToString(n)) == n
  {
    if n >= 10 {
      var s := NatToString(n);
      assert s[..|s| - 1] == NatToString(n / 10);
      ParseNatToString(n / 10);
    }
  }

  /** `String(i)` reads back as `i`: the digits of a non-negative number, or a
      minus sign followed by the digits of the magnitude. */
  lemma IntToStringReads(i: int)
    ensures var r := IntToString(i);
            (i >= 0 ==> AllDigits(r) && ParseNat(r) == i) &&
            (i < 0 ==> |r| >= 2 && r[0] == '-' && AllDigits(r[1..]) && ParseNat(r[1..]) == -i)
  {
    if i >= 0 {
      ParseNatToString(i);
    } else {
      var r := IntToString(i);
      assert r[1..] == NatToString(-i);
      ParseNatToString(-i);
    }
  }

  /** A run of `k` copies of `c`. */
  function Repeat(c: char, k: nat): (r: string)
    ensures |r| == k && forall j :: 0 <= j < k ==> r[j] == c
  {
    if k == 0 then [] else [c] + Repeat(c, k - 1)
  }

  /** JavaScript's `s.padStart(width, c)` with a one-character filler. */
  function PadStart(s: string, width: nat, c: char): (r: string)
    ensures |r| == if |s| >= width then |s| else width
    ensures r[|r| - |s|..] == s
    ensures forall j :: 0 <= j < |r| - |s| ==> r[j] == c
  {
    if |s| >= width then s else Repeat(c, width - |s|) + s
  }

  /** Leading zeros do not change the value of a digit string. */
  lemma {:induction false} ParseNatLeadingZeros(z: string, s: string)
    requires forall j :: 0 <= j < |z| ==> z[j] == '0'
    requires AllDigits(s)
    ensures AllDigits(z + s) && ParseNat(z + s) == ParseNat(s)
    decreases |s|
  {
    if s == [] {
      assert z + s == z;
      ZerosParseToZero(z);
    } else {
      var t := s[..|s| - 1];
      assert (z + s)[..|z + s| - 1] == z + t;
      ParseNatLeadingZeros(z, t);
    }
  }

  lemma {:induction false} ZerosParseToZero(z: string)
    requires forall j :: 0 <= j < |z| ==> z[j] == '0'
    ensures AllDigits(z) && ParseNat(z) == 0
  {
    if z != [] {
      ZerosParseToZero(z[..|z| - 1]);
    }
  }
}

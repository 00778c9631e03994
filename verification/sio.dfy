/** The signal-safe number printer of csapp.c. */
module Sio {
  import opened Arithmetic

  const NUL: char := '\0'

  /** The largest magnitude of a long that has a negation, plus one. */
  const LONG_LIMIT: int := 0x8000_0000_0000_0000

  // ---------- Digits ----------

  /** The character for a digit: 0 to 9, then a to z. */
  function DigitChar(d: int): (c: char)
    requires 0 <= d < 36
    ensures c != NUL && c != '-'
  {
    if d < 10 then '0' + d as char else 'a' + (d - 10) as char
  }

  /** The digit that a character stands for. */
  function DigitValue(c: char): int {
    if '0' <= c <= '9' then c as int - '0' as int else c as int - 'a' as int + 10
  }

  /** The digits in the order of their values. */
  const DIGITS: seq<char> := "0123456789abcdefghijklmnopqrstuvwxyz"

  /** The character for a digit is the one at its index, and has that index for its value. */
  lemma DigitRoundTrip(d: int)
    requires 0 <= d < 36
    ensures DigitChar(d) == "0123456789abcdefghijklmnopqrstuvwxyz"[d]
    ensures DigitValue("0123456789abcdefghijklmnopqrstuvwxyz"[d]) == d
  {
  }

  /** Reading digits from left to right, in base b, after having read a. */
  ghost function ValueFrom(a: int, s: seq<char>, b: int): int
    decreases |s|
  {
    if s == [] then a else ValueFrom(a * b + DigitValue(s[0]), s[1..], b)
  }

  /** Each further digit counts as one, and those before it count for b times as much. */
  lemma {:induction false} ReadOneMore(a: int, s: seq<char>, c: char, b: int)
    ensures ValueFrom(a, [], b) == a
    ensures ValueFrom(a, s + [c], b) == ValueFrom(a, s, b) * b + DigitValue(c)
    decreases |s|
  {
    if s == [] {
      assert [c][1..] == [];
      assert s + [c] == [c];
    } else {
      assert (s + [c])[1..] == s[1..] + [c];
      ReadOneMore(a * b + DigitValue(s[0]), s[1..], c, b);
    }
  }

  /** Reading an optional sign and digits. */
  ghost function Parse(s: seq<char>, b: int): int {
    if s != [] && s[0] == '-' then -ValueFrom(0, s[1..], b) else ValueFrom(0, s, b)
  }

  /** Reading digits from right to left: what t, written in reverse, adds to a. */
  ghost function ValueBack(a: int, t: seq<char>, b: int): int
    decreases |t|
  {
    if t == [] then a else ValueBack(a * b + DigitValue(t[|t| - 1]), t[..|t| - 1], b)
  }

  ghost function Reversed(s: seq<char>): (r: seq<char>)
    ensures |r| == |s|
  {
    seq(|s|, i requires 0 <= i < |s| => s[|s| - 1 - i])
  }

  lemma NothingRead(a: int, t: seq<char>, b: int)
    requires t == []
    ensures ValueBack(a, t, b) == a && Pow2(0) == 1
  {
  }

  /** Reading the reverse forwards is reading backwards. */
  lemma {:induction false} ReadReversed(a: int, t: seq<char>, b: int)
    ensures ValueFrom(a, Reversed(t), b) == ValueBack(a, t, b)
    decreases |t|
  {
    if t != [] {
      var n := |t| - 1;
      assert Reversed(t)[0] == t[n];
      assert Reversed(t)[1..] == Reversed(t[..n]);
      ReadReversed(a * b + DigitValue(t[n]), t[..n], b);
    }
  }

  /** The next digit goes at the end of the reversed number. */
  lemma AppendDigit(v: int, t: seq<char>, b: int)
    requires 2 <= b <= 36 && v >= 0
    ensures ValueBack(v / b, t + [DigitChar(v % b)], b) == ValueBack(v, t, b)
  {
    hide DigitChar, DigitValue;
    var t' := t + [DigitChar(v % b)];
    assert t'[..|t|] == t && t'[|t|] == DigitChar(v % b);
    DigitRoundTrip(v % b);
    assert v / b * b + v % b == v;
  }

  lemma {:induction false} Pow2Monotone(m: nat, n: nat)
    requires m <= n
    ensures 1 <= Pow2(m) <= Pow2(n)
    decreases n
  {
    if m < n {
      Pow2Monotone(m, n - 1);
    } else if m > 0 {
      Pow2Monotone(m - 1, n - 1);
    }
  }

  lemma LongLimit()
    ensures Pow2(63) == LONG_LIMIT
  {
    assert Pow2(8) == 256;
    assert Pow2(16) == 65536;
    assert Pow2(24) == 0x100_0000;
    assert Pow2(32) == 0x1_0000_0000;
    assert Pow2(40) == 0x100_0000_0000;
    assert Pow2(48) == 0x1_0000_0000_0000;
    assert Pow2(56) == 0x100_0000_0000_0000;
    assert Pow2(63) == 0x8000_0000_0000_0000;
  }

  /** Halving, or more, each time. */
  lemma QuotientBound(v: int, b: int, p: int, v0: int)
    requires 2 <= b && v >= 0 && p >= 1 && v * p <= v0
    ensures v / b * (2 * p) <= v0
  {
    var q := v / b;
    assert q * b <= v;
    assert q * 2 <= q * b;
    assert q * 2 * p <= v * p;
  }

  // ---------- sio_reverse ----------

  method StrLen(s: array<char>) returns (n: int)
    requires exists k :: 0 <= k < s.Length && s[k] == NUL
    ensures 0 <= n < s.Length && s[n] == NUL && forall k :: 0 <= k < n ==> s[k] != NUL
  {
    n := 0;
    while s[n] != NUL
      invariant 0 <= n < s.Length
      invariant forall k :: 0 <= k < n ==> s[k] != NUL
      decreases s.Length - n
    {
      n := n + 1;
    }
  }

  /** sio_reverse: reverse the string up to its terminator. */
  method Reverse(s: array<char>, ghost n: nat)
    requires n < s.Length && s[n] == NUL && forall k :: 0 <= k < n ==> s[k] != NUL
    modifies s
    ensures s[..n] == Reversed(old(s[..n])) && s[n..] == old(s[n..])
  {
    var len := StrLen(s);
    assert len == n;
    var i, j := 0, len - 1;
    while i < j
      invariant 0 <= i <= j + 2 && i + j == n - 1
      invariant forall k :: 0 <= k < i ==> s[k] == old(s[n - 1 - k]) && s[n - 1 - k] == old(s[k])
      invariant forall k :: i <= k <= j ==> s[k] == old(s[k])
      invariant s[n..] == old(s[n..])
      decreases j - i
    {
      var c := s[i];
      s[i] := s[j];
      s[j] := c;
      i := i + 1;
      j := j - 1;
    }
    forall k | 0 <= k < n
      ensures s[..n][k] == Reversed(old(s[..n]))[k]
    {
    }
  }

  // ---------- sio_ltoa ----------

  /** t is a number in base b, last digit first, without a superfluous zero at its end. */
  ghost predicate Numeral(t: seq<char>, b: int) {
    && t != []
    && (forall k :: 0 <= k < |t| ==> IsDigit(t[k], b))
    && (|t| > 1 ==> t[|t| - 1] != '0')
  }

  ghost predicate IsDigit(c: char, b: int) {
    0 <= b <= 36 && c in DIGITS[..b]
  }

  /** The digits of a magnitude, last digit first: the do-while loop of sio_ltoa. */
  method PutDigits(mag: int, s: array<char>, b: int) returns (i: nat)
    requires 0 <= mag < LONG_LIMIT && 2 <= b <= 36 && s.Length >= 66
    modifies s
    ensures 1 <= i <= 63 && Numeral(s[..i], b) && ValueBack(0, s[..i], b) == mag
  {
    hide ValueBack, DigitValue, DigitChar, IsDigit, Pow2;
    i := 0;
    var v := mag;
    NothingRead(v, s[..i], b);
    while true
      invariant 0 <= v && (i == 0 || v > 0)
      invariant v * Pow2(i) <= mag && i <= 63
      invariant ValueBack(v, s[..i], b) == mag
      invariant forall k :: 0 <= k < i ==> IsDigit(s[k], b)
      decreases v
    {
      ghost var t := s[..i];
      DigitsBound(v, i, mag);
      AppendDigit(v, t, b);
      QuotientBound(v, b, Pow2(i), mag);
      NewDigit(v, b);
      s[i] := DigitChar(v % b);
      assert s[..i + 1] == t + [DigitChar(v % b)];
      i := i + 1;
      ghost var last := v;
      v := v / b;
      if v <= 0 {
        LastDigit(last, b);
        break;
      }
    }
  }

  lemma DigitsBound(v: int, i: nat, mag: int)
    requires 0 <= v && (i == 0 || v > 0) && v * Pow2(i) <= mag < LONG_LIMIT && i <= 63
    ensures i < 63 && Pow2(i) >= 1 && Pow2(i + 1) == 2 * Pow2(i)
  {
    LongLimit();
    Pow2Monotone(0, i);
    if v > 0 {
      TimesAtLeast(v, Pow2(i));
    }
  }

  lemma TimesAtLeast(v: int, p: int)
    requires v >= 1 && p >= 1
    ensures v * p >= p
  {
  }

  lemma NewDigit(v: int, b: int)
    requires v >= 0 && 2 <= b <= 36
    ensures 0 <= v % b < 36 && IsDigit(DigitChar(v % b), b) && 0 <= v / b && (v > 0 ==> v / b < v)
  {
    DigitRoundTrip(v % b);
    Smaller(v, b);
  }

  lemma Smaller(v: int, b: int)
    requires v >= 0 && b >= 2
    ensures 0 <= v / b && (v > 0 ==> v / b < v)
  {
    var q := v / b;
    assert q * 2 <= q * b <= v;
  }

  lemma LastDigit(v: int, b: int)
    requires v >= 0 && 2 <= b <= 36 && v / b <= 0
    ensures 0 <= v < b && v % b == v && (v > 0 ==> DigitChar(v) != '0')
  {
    assert v == v / b * b + v % b;
    assert v / b >= 0;
  }

  /** The text of a number: a sign for a negative one, at least one digit, no superfluous zero in front. */
  ghost predicate Text(s: seq<char>, v: int, b: int) {
    var digits := if v < 0 && s != [] then s[1..] else s;
    && (v < 0 ==> s != [] && s[0] == '-')
    && digits != []
    && (forall k :: 0 <= k < |digits| ==> IsDigit(digits[k], b))
    && (|digits| > 1 ==> digits[0] != '0')
  }

  /** sio_ltoa, for every long but the one whose negation overflows. */
  method Ltoa(v: int, s: array<char>, b: int) returns (ghost n: nat)
    requires -LONG_LIMIT < v < LONG_LIMIT && 2 <= b <= 36 && s.Length >= 66
    modifies s
    ensures n <= 64 && s[n] == NUL && forall k :: 0 <= k < n ==> s[k] != NUL
    ensures Text(s[..n], v, b) && Parse(s[..n], b) == v
    ensures var first := if v < 0 then 1 else 0;
            && first < n && (v < 0 ==> s[0] == '-') && (first + 1 < n ==> s[first] != '0')
            && forall k :: first <= k < n ==> s[k] in "0123456789abcdefghijklmnopqrstuvwxyz"[..b]
  {
    hide Text, Parse, ValueBack, Numeral, IsDigit;
    var neg := v < 0;
    var mag := if neg then -v else v;
    var i := PutDigits(mag, s, b);
    ghost var t := s[..i];
    if neg {
      s[i] := '-';
      i := i + 1;
    }
    s[i] := NUL;
    n := i;
    assert s[..n] == if neg then t + ['-'] else t;
    NoNul(t, b);
    assert forall k :: 0 <= k < |t| ==> s[k] == t[k];
    assert s[n..][0] == NUL;
    Reverse(s, n);
    assert s[n] == s[n..][0];
    assert forall k :: 0 <= k < n ==> s[k] == s[..n][k];
    TextOf(t, v, b);
    TextMeans(s[..n], v, b);
  }

  lemma TextMeans(s: seq<char>, v: int, b: int)
    requires Text(s, v, b) && 2 <= b <= 36
    ensures var first := if v < 0 then 1 else 0;
            && first < |s| && (v < 0 ==> s[0] == '-') && (first + 1 < |s| ==> s[first] != '0')
            && forall k :: first <= k < |s| ==> s[k] in "0123456789abcdefghijklmnopqrstuvwxyz"[..b]
  {
    var first := if v < 0 then 1 else 0;
    var digits := if v < 0 then s[1..] else s;
    forall k | first <= k < |s|
      ensures s[k] in "0123456789abcdefghijklmnopqrstuvwxyz"[..b]
    {
      assert s[k] == digits[k - first];
      DigitMeans(s[k], b);
    }
  }

  lemma DigitMeans(c: char, b: int)
    requires IsDigit(c, b)
    ensures 0 <= b <= 36 && c in "0123456789abcdefghijklmnopqrstuvwxyz"[..b]
  {
    assert DIGITS == "0123456789abcdefghijklmnopqrstuvwxyz";
  }

  lemma NoNul(t: seq<char>, b: int)
    requires Numeral(t, b)
    ensures forall k :: 0 <= k < |t| ==> t[k] != NUL && t[k] != '-'
  {
  }

  lemma TextOf(t: seq<char>, v: int, b: int)
    requires Numeral(t, b) && ValueBack(0, t, b) == if v < 0 then -v else v
    ensures var s := Reversed(if v < 0 then t + ['-'] else t); Text(s, v, b) && Parse(s, b) == v
  {
    hide IsDigit, ValueFrom, ValueBack;
    NoNul(t, b);
    ReadReversed(0, t, b);
    assert Reversed(t + ['-'])[1..] == Reversed(t);
    assert Reversed(t)[0] == t[|t| - 1];
  }
}

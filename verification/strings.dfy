/** The small part of Python's `str` behaviour the scheduler relies on:
    `count`, `split`, `join`, `find`, ASCII `lower`, `str(int)` and
    `int(s, 16)`. */
module Strings {
  import opened Wrappers

  /** `s.count(c)` for a one-character `c`. */
  function Count(s: string, c: char): nat {
    if |s| == 0 then 0 else (if s[0] == c then 1 else 0) + Count(s[1..], c)
  }

  lemma {:induction false} CountConcat(a: string, b: string, c: char)
    ensures Count(a + b, c) == Count(a, c) + Count(b, c)
  {
    if |a| > 0 {
      assert (a + b)[1..] == a[1..] + b;
      CountConcat(a[1..], b, c);
    } else {
      assert a + b == b;
    }
  }

  lemma {:induction false} CountAbsent(s: string, c: char)
    ensures Count(s, c) == 0 <==> c !in s
  {
    if |s| > 0 {
      CountAbsent(s[1..], c);
      assert s == [s[0]] + s[1..];
    }
  }

  /** `s.split(c)`: the pieces between occurrences of `c`. Like Python it
      always yields at least one piece, and one more than there are
      separators. */
  function Split(s: string, c: char): (parts: seq<string>)
    ensures |parts| == Count(s, c) + 1
    ensures forall i :: 0 <= i < |parts| ==> c !in parts[i]
  {
    if |s| == 0 then [""]
    else
      var rest := Split(s[1..], c);
      if s[0] == c then [""] + rest
      else [[s[0]] + rest[0]] + rest[1..]
  }

  /** `sep.join(parts)` for a one-character separator. */
  function Join(parts: seq<string>, c: char): string {
    if |parts| == 0 then ""
    else if |parts| == 1 then parts[0]
    else parts[0] + [c] + Join(parts[1..], c)
  }

  lemma JoinCons(p: string, rest: seq<string>, c: char)
    requires |rest| > 0
    ensures Join([p] + rest, c) == p + [c] + Join(rest, c)
  {
    assert ([p] + rest)[1..] == rest;
  }

  /** Joining two non-empty runs of pieces puts one separator between them. */
  lemma {:induction false} JoinConcat(a: seq<string>, b: seq<string>, c: char)
    requires |a| > 0 && |b| > 0
    ensures Join(a + b, c) == Join(a, c) + [c] + Join(b, c)
  {
    if |a| == 1 {
      assert a + b == [a[0]] + b;
      JoinCons(a[0], b, c);
    } else {
      JoinConcat(a[1..], b, c);
      assert a + b == [a[0]] + (a[1..] + b);
      JoinCons(a[0], a[1..] + b, c);
      JoinCons(a[0], a[1..], c);
      assert a == [a[0]] + a[1..];
    }
  }

  /** Splitting and re-joining gives back the original string. */
  lemma {:induction false} JoinSplit(s: string, c: char)
    ensures Join(Split(s, c), c) == s
  {
    if |s| > 0 {
      var rest := Split(s[1..], c);
      JoinSplit(s[1..], c);
      assert s == [s[0]] + s[1..];
      if s[0] == c {
        JoinCons("", rest, c);
      } else {
        JoinFirstChar(s[0], rest, s[1..], c);
      }
    }
  }

  /** Putting a character in front of the first piece puts it in front of
      the joined text. */
  lemma JoinFirstChar(ch: char, rest: seq<string>, tail: string, c: char)
    requires |rest| > 0 && Join(rest, c) == tail
    ensures Join([[ch] + rest[0]] + rest[1..], c) == [ch] + tail
  {
    if |rest| > 1 {
      JoinCons(rest[0], rest[1..], c);
      JoinCons([ch] + rest[0], rest[1..], c);
      assert rest == [rest[0]] + rest[1..];
    }
  }

  /** Splitting at a separator placed between `a` and `b` splits each side. */
  lemma {:induction false} SplitAround(a: string, b: string, c: char)
    ensures Split(a + [c] + b, c) == Split(a, c) + Split(b, c)
  {
    if |a| == 0 {
      assert a + [c] + b == [c] + b;
      assert ([c] + b)[1..] == b;
    } else {
      assert (a + [c] + b)[1..] == a[1..] + [c] + b;
      SplitAround(a[1..], b, c);
    }
  }

  /** A separator-free string is its own single piece. */
  lemma {:induction false} SplitNoSeparator(s: string, c: char)
    requires c !in s
    ensures Split(s, c) == [s]
  {
    if |s| > 0 {
      SplitNoSeparator(s[1..], c);
      assert s == [s[0]] + s[1..];
    }
  }

  /** Joining separator-free pieces and splitting again gives the pieces back. */
  lemma {:induction false} SplitJoin(parts: seq<string>, c: char)
    requires |parts| > 0
    requires forall i :: 0 <= i < |parts| ==> c !in parts[i]
    ensures Split(Join(parts, c), c) == parts
  {
    if |parts| == 1 {
      SplitNoSeparator(parts[0], c);
    } else {
      SplitJoin(parts[1..], c);
      SplitNoSeparator(parts[0], c);
      SplitAround(parts[0], Join(parts[1..], c), c);
      assert parts == [parts[0]] + parts[1..];
    }
  }

  /** Index of the first `c` in `s` (Python's `find`), when there is one. */
  function Find(s: string, c: char): (r: Option<nat>)
    ensures r.None? <==> c !in s
    ensures r.Some? ==> r.value < |s| && s[r.value] == c && c !in s[..r.value]
  {
    if |s| == 0 then None
    else if s[0] == c then Some(0)
    else match Find(s[1..], c)
      case None => None
      case Some(i) =>
        assert s[..i + 1] == [s[0]] + s[1..][..i];
        Some(i + 1)
  }

  /** Index of the last `c` in `s` (Python's `rfind`), when there is one. */
  function RFind(s: string, c: char): (r: Option<nat>)
    ensures r.None? <==> c !in s
    ensures r.Some? ==> r.value < |s| && s[r.value] == c && c !in s[r.value + 1..]
  {
    if |s| == 0 then None
    else if s[|s| - 1] == c then Some(|s| - 1)
    else
      match RFind(s[..|s| - 1], c)
      case None =>
        NotInLast(s, c, 0);
        None
      case Some(i) =>
        NotInLast(s, c, i + 1);
        Some(i)
  }

  /** A character missing from a suffix of everything but the last, and not
      the last, is missing from that suffix of the whole. */
  lemma NotInLast(s: string, c: char, j: nat)
    requires j < |s| && c !in s[..|s| - 1][j..] && s[|s| - 1] != c
    ensures c !in s[j..]
  {
    assert s[j..] == s[..|s| - 1][j..] + [s[|s| - 1]];
  }

  /** ASCII `lower()`. */
  function LowerChar(ch: char): char {
    if 'A' <= ch <= 'Z' then (ch as int + 32) as char else ch
  }

  function Lower(s: string): (r: string)
    ensures |r| == |s|
    ensures forall i :: 0 <= i < |s| ==> r[i] == LowerChar(s[i])
  {
    if |s| == 0 then "" else [LowerChar(s[0])] + Lower(s[1..])
  }

  // Decimal numerals: `str(n)` for Python integers.

  function DigitChar(d: nat): char
    requires d < 10
  {
    "0123456789"[d]
  }

  predicate IsDigit(ch: char) {
    '0' <= ch <= '9'
  }

  function DigitValue(ch: char): nat
    requires IsDigit(ch)
  {
    ch as int - '0' as int
  }

  function NatToString(n: nat): (s: string)
    ensures |s| > 0
    ensures forall i :: 0 <= i < |s| ==> IsDigit(s[i])
  {
    if n < 10 then [DigitChar(n)] else NatToString(n / 10) + [DigitChar(n % 10)]
  }

  /** `str(n)`: a minus sign for negative numbers, then the digits. */
  function IntToString(n: int): string {
    if n < 0 then "-" + NatToString(-n) else NatToString(n)
  }

  /** The value of a non-empty string of decimal digits. */
  function DecimalValue(s: string): nat
    requires forall i :: 0 <= i < |s| ==> IsDigit(s[i])
  {
    if |s| == 0 then 0 else DecimalValue(s[..|s| - 1]) * 10 + DigitValue(s[|s| - 1])
  }

  /** Reading back `str(n)` gives `n`. */
  lemma {:induction false} NatToStringRoundTrip(n: nat)
    ensures DecimalValue(NatToString(n)) == n
  {
    if n >= 10 {
      NatToStringRoundTrip(n / 10);
      var s := NatToString(n);
      assert s[..|s| - 1] == NatToString(n / 10);
    }
  }

  // Hexadecimal numerals: `int(s, 16)` on a plain string of hex digits.

  predicate IsHexDigit(ch: char) {
    IsDigit(ch) || 'a' <= ch <= 'f' || 'A' <= ch <= 'F'
  }

  function HexDigitValue(ch: char): (v: nat)
    requires IsHexDigit(ch)
    ensures v < 16
  {
    if IsDigit(ch) then DigitValue(ch)
    else if 'a' <= ch <= 'f' then ch as int - 'a' as int + 10
    else ch as int - 'A' as int + 10
  }

  function HexDigitChar(d: nat): (ch: char)
    requires d < 16
    ensures IsHexDigit(ch) && HexDigitValue(ch) == d
  {
    "0123456789abcdef"[d]
  }

  function HexValue(s: string): nat
    requires forall i :: 0 <= i < |s| ==> IsHexDigit(s[i])
  {
    if |s| == 0 then 0 else HexValue(s[..|s| - 1]) * 16 + HexDigitValue(s[|s| - 1])
  }

  function Pow16(k: nat): (r: nat)
    ensures r > 0
  {
    if k == 0 then 1 else 16 * Pow16(k - 1)
  }

  lemma {:induction false} HexValueConcat(a: string, b: string)
    requires forall i :: 0 <= i < |a| ==> IsHexDigit(a[i])
    requires forall i :: 0 <= i < |b| ==> IsHexDigit(b[i])
    ensures forall i :: 0 <= i < |a + b| ==> IsHexDigit((a + b)[i])
    ensures HexValue(a + b) == HexValue(a) * Pow16(|b|) + HexValue(b)
    decreases |b|
  {
    if |b| == 0 {
      assert a + b == a;
    } else {
      var ab := a + b;
      var b' := b[..|b| - 1];
      var c := b[|b| - 1];
      assert ab == (a + b') + [c] && b == b' + [c];
      HexValueConcat(a, b');
      HexLast(ab, a + b', c);
      HexLast(b, b', c);
      HexCombine(HexValue(a), Pow16(|b'|), HexValue(b'), HexDigitValue(c), HexValue(a + b'));
    }
  }

  /** Reading one more hex digit. */
  lemma HexLast(s: string, init: string, c: char)
    requires s == init + [c]
    requires forall i :: 0 <= i < |s| ==> IsHexDigit(s[i])
    ensures forall i :: 0 <= i < |init| ==> IsHexDigit(init[i])
    ensures IsHexDigit(c) && HexValue(s) == HexValue(init) * 16 + HexDigitValue(c)
  {
    assert s[..|s| - 1] == init && s[|s| - 1] == c;
    assert forall i :: 0 <= i < |init| ==> init[i] == s[i];
  }

  /** The arithmetic of one step of `HexValueConcat`. */
  lemma HexCombine(x: nat, p: nat, y: nat, d: nat, xy: nat)
    requires xy == x * p + y
    ensures xy * 16 + d == x * (16 * p) + (y * 16 + d)
  {
  }

  /** `int(s, 16)`: None stands for the ValueError raised on an empty string
      or a character that is not a hex digit. */
  function ParseHex(s: string): (r: Option<nat>)
    ensures r.Some? <==> |s| > 0 && forall i :: 0 <= i < |s| ==> IsHexDigit(s[i])
  {
    if |s| > 0 && forall i :: 0 <= i < |s| ==> IsHexDigit(s[i]) then Some(HexValue(s)) else None
  }
}

/**
 Strings as sequences of Unicode scalar values, with the byte and code-unit widths of their
 UTF-8 and UTF-16 encodings, the trimming of the standard library, and decimal numerals.
 */
module Text {
  import opened Prelude

  function Utf8Width(c: char): (w: nat)
    ensures 1 <= w <= 4
  {
    var n := c as int;
    if n < 0x80 then 1 else if n < 0x800 then 2 else if n < 0x1_0000 then 3 else 4
  }

  function Utf8Len(s: string): nat {
    if s == [] then 0 else Utf8Width(s[0]) + Utf8Len(s[1..])
  }

  function Utf16Width(c: char): (w: nat)
    ensures 1 <= w <= 2
  {
    if c as int < 0x1_0000 then 1 else 2
  }

  function Utf16Len(s: string): nat {
    if s == [] then 0 else Utf16Width(s[0]) + Utf16Len(s[1..])
  }

  lemma {:induction false} Utf8LenAppend(a: string, b: string)
    ensures Utf8Len(a + b) == Utf8Len(a) + Utf8Len(b)
  {
    if a == [] {
      assert a + b == b;
    } else {
      assert (a + b)[1..] == a[1..] + b;
      Utf8LenAppend(a[1..], b);
    }
  }

  lemma {:induction false} Utf16LenAppend(a: string, b: string)
    ensures Utf16Len(a + b) == Utf16Len(a) + Utf16Len(b)
  {
    if a == [] {
      assert a + b == b;
    } else {
      assert (a + b)[1..] == a[1..] + b;
      Utf16LenAppend(a[1..], b);
    }
  }

  /** The White_Space property. */
  predicate IsWhitespace(c: char) {
    var n := c as int;
    || 0x09 <= n <= 0x0D || n == 0x20 || n == 0x85 || n == 0xA0 || n == 0x1680
    || 0x2000 <= n <= 0x200A || n == 0x2028 || n == 0x2029 || n == 0x202F || n == 0x205F || n == 0x3000
  }

  /** The general category Cc. */
  predicate IsControl(c: char) {
    var n := c as int;
    n < 0x20 || 0x7F <= n < 0xA0
  }

  function TrimStart(s: string): string {
    if s != [] && IsWhitespace(s[0]) then TrimStart(s[1..]) else s
  }

  function TrimEnd(s: string): string {
    if s != [] && IsWhitespace(s[|s| - 1]) then TrimEnd(s[..|s| - 1]) else s
  }

  function Trim(s: string): string {
    TrimEnd(TrimStart(s))
  }

  /** The widths change at these characters: 7, 11 and 16 bits in UTF-8, the basic plane in UTF-16. */
  lemma WidthsWritten(c: char)
    ensures Utf8Width(c) == 1 <==> c <= '\U{7F}'
    ensures Utf8Width(c) == 2 <==> '\U{80}' <= c <= '\U{7FF}'
    ensures Utf8Width(c) == 3 <==> '\U{800}' <= c <= '\U{FFFF}'
    ensures Utf16Width(c) == 2 <==> c >= '\U{10000}'
  {
  }

  lemma WhitespaceWritten(c: char)
    ensures IsWhitespace(c) <==>
            c in "\U{9}\U{A}\U{B}\U{C}\U{D} \U{85}\U{A0}\U{1680}\U{2000}\U{2001}\U{2002}\U{2003}\U{2004}\U{2005}"
              || c in "\U{2006}\U{2007}\U{2008}\U{2009}\U{200A}\U{2028}\U{2029}\U{202F}\U{205F}\U{3000}"
    ensures IsControl(c) <==> c <= '\U{1F}' || '\U{7F}' <= c <= '\U{9F}'
  {
    if IsWhitespace(c) {
      var n := c as int;
      assert n in {9, 10, 11, 12, 13, 0x20, 0x85, 0xA0, 0x1680, 0x2000, 0x2001, 0x2002, 0x2003, 0x2004, 0x2005, 0x2006,
                   0x2007, 0x2008, 0x2009, 0x200A, 0x2028, 0x2029, 0x202F, 0x205F, 0x3000};
    }
  }

  predicate AllSpace(s: string) {
    forall i :: 0 <= i < |s| ==> IsWhitespace(s[i])
  }

  lemma {:induction false} TrimStartIs(s: string) returns (a: string)
    ensures s == a + TrimStart(s) && AllSpace(a) && (TrimStart(s) != [] ==> !IsWhitespace(TrimStart(s)[0]))
  {
    a := [];
    if s != [] && IsWhitespace(s[0]) {
      a := TrimStartIs(s[1..]);
      a := [s[0]] + a;
    }
  }

  lemma {:induction false} TrimEndIs(s: string) returns (b: string)
    ensures s == TrimEnd(s) + b && AllSpace(b)
    ensures TrimEnd(s) != [] ==> !IsWhitespace(TrimEnd(s)[|TrimEnd(s)| - 1])
  {
    b := [];
    if s != [] && IsWhitespace(s[|s| - 1]) {
      b := TrimEndIs(s[..|s| - 1]);
      b := b + [s[|s| - 1]];
    }
  }

  /** Trimming takes the white space around a text, all of it and nothing else. */
  lemma TrimIs(s: string) returns (a: string, b: string)
    ensures s == a + Trim(s) + b && AllSpace(a) && AllSpace(b)
    ensures Trim(s) != [] ==> !IsWhitespace(Trim(s)[0]) && !IsWhitespace(Trim(s)[|Trim(s)| - 1])
  {
    a := TrimStartIs(s);
    b := TrimEndIs(TrimStart(s));
    assert Trim(s) != [] ==> Trim(s)[0] == TrimStart(s)[0];
  }

  predicate EndsWith(s: string, t: string) {
    |t| <= |s| && s[|s| - |t|..] == t
  }

  /** Trimming the front of `a + b` stays inside `a` when `a` holds something to stop at. */
  lemma {:induction false} TrimStartAppend(a: string, b: string)
    requires exists i :: 0 <= i < |a| && !IsWhitespace(a[i])
    ensures TrimStart(a + b) == TrimStart(a) + b
  {
    if IsWhitespace(a[0]) {
      assert (a + b)[1..] == a[1..] + b;
      var i :| 0 <= i < |a| && !IsWhitespace(a[i]);
      assert a[1..][i - 1] == a[i];
      TrimStartAppend(a[1..], b);
    }
  }

  lemma SeparatorInLonger(p: string, x: string, q: string, y: string, sep: char)
    requires p + [sep] + x == q + [sep] + y && |x| < |y|
    ensures sep in y
  {
    assert (p + [sep] + x)[|p|] == sep;
    assert (q + [sep] + y)[|p|] == y[|p| - |q| - 1];
  }

  /** What follows the last separator is determined. */
  lemma AfterLast(p: string, x: string, q: string, y: string, sep: char)
    requires p + [sep] + x == q + [sep] + y
    requires sep !in x && sep !in y
    ensures x == y
  {
    var s := p + [sep] + x;
    assert |x| == |y| by {
      if |x| < |y| {
        SeparatorInLonger(p, x, q, y, sep);
      } else if |y| < |x| {
        SeparatorInLonger(q, y, p, x, sep);
      }
    }
    assert x == s[|s| - |x|..] && y == s[|s| - |x|..];
  }

  lemma SameTail(p: string, q: string, t: string)
    requires p + t == q + t
    ensures p == q
  {
    var s := p + t;
    assert |p| == |q| && p == s[..|p|] && q == s[..|p|];
  }

  lemma SameHead(h: string, p: string, q: string)
    requires h + p == h + q
    ensures p == q
  {
    assert p == (h + p)[|h|..] && q == (h + q)[|h|..];
  }

  // ---- Decimal numerals

  function DigitChar(d: nat): char
    requires d < 10
  {
    (('0' as int) + d) as char
  }

  predicate IsDigit(c: char) { '0' <= c <= '9' }

  function DigitValue(c: char): nat
    requires IsDigit(c)
  {
    (c as int) - ('0' as int)
  }

  function Dec(n: nat): (s: string)
    ensures s != []
    ensures forall c :: c in s ==> IsDigit(c)
  {
    if n < 10 then [DigitChar(n)] else Dec(n / 10) + [DigitChar(n % 10)]
  }

  function DecValue(s: string): nat
    requires forall c :: c in s ==> IsDigit(c)
  {
    if s == [] then 0 else DecValue(s[..|s| - 1]) * 10 + DigitValue(s[|s| - 1])
  }

  lemma {:induction false} DecRoundTrip(n: nat)
    ensures DecValue(Dec(n)) == n
  {
    if n >= 10 {
      DecRoundTrip(n / 10);
      assert Dec(n)[..|Dec(n)| - 1] == Dec(n / 10);
    } else {
      assert Dec(n)[..0] == [];
      assert DecValue([]) == 0;
    }
  }

  lemma DecInjective(m: nat, n: nat)
    requires Dec(m) == Dec(n)
    ensures m == n
  {
    DecRoundTrip(m);
    DecRoundTrip(n);
  }

  function Pow10(n: nat): (p: nat)
    ensures p > 0
  {
    if n == 0 then 1 else 10 * Pow10(n - 1)
  }

  /** A number below 10^k has at most k digits. */
  lemma {:induction false} DecLength(n: nat, k: nat)
    requires k > 0 && n < Pow10(k)
    ensures |Dec(n)| <= k
  {
    if n >= 10 {
      assert Pow10(k) == 10 * Pow10(k - 1);
      assert k > 1 by { assert Pow10(1) == 10 * Pow10(0); }
      DecLength(n / 10, k - 1);
    }
  }

  /** A 64-bit number has at most twenty digits. */
  lemma U64Digits(id: nat)
    requires id <= U64_MAX
    ensures |Dec(id)| <= 20
  {
    assert Pow10(5) == 10_0000 by {
      assert Pow10(1) == 10 * Pow10(0) && Pow10(2) == 10 * Pow10(1) && Pow10(3) == 10 * Pow10(2)
          && Pow10(4) == 10 * Pow10(3);
    }
    assert Pow10(10) == 100_0000_0000 by {
      assert Pow10(6) == 10 * Pow10(5) && Pow10(7) == 10 * Pow10(6) && Pow10(8) == 10 * Pow10(7)
          && Pow10(9) == 10 * Pow10(8);
    }
    assert Pow10(15) == 1_000_0000_0000_0000 by {
      assert Pow10(11) == 10 * Pow10(10) && Pow10(12) == 10 * Pow10(11) && Pow10(13) == 10 * Pow10(12)
          && Pow10(14) == 10 * Pow10(13);
    }
    assert Pow10(20) == 1_0000_0000_0000_0000_0000 by {
      assert Pow10(16) == 10 * Pow10(15) && Pow10(17) == 10 * Pow10(16) && Pow10(18) == 10 * Pow10(17)
          && Pow10(19) == 10 * Pow10(18);
    }
    DecLength(id, 20);
  }

  lemma {:induction false} AsciiLength(s: string)
    requires forall i :: 0 <= i < |s| ==> s[i] as int < 0x80
    ensures Utf8Len(s) == |s| && Utf16Len(s) == |s|
  {
    if s != [] {
      assert forall i :: 0 <= i < |s[1..]| ==> s[1..][i] == s[i + 1];
      AsciiLength(s[1..]);
    }
  }

  lemma DigitsAreAscii(s: string)
    requires forall c :: c in s ==> IsDigit(c)
    ensures Utf8Len(s) == |s|
  {
    forall i | 0 <= i < |s| ensures s[i] as int < 0x80 {
      assert s[i] in s;
    }
    AsciiLength(s);
  }

  /** `{:02}` of a signed number: at least two characters, zero-filled. */
  function PadTwo(n: int): string {
    if n < 0 then "-" + Dec(-n) else if n < 10 then "0" + Dec(n) else Dec(n)
  }
}

/** HTML escaping, unescaping and length estimation, from crates/bot/src/html.rs and caption.rs. */
module Html {
  import opened Prelude
  import opened Text

  // ---- Escaping

  function EscapeChar(c: char): string {
    match c
    case '&' => "&amp;"
    case '<' => "&lt;"
    case '>' => "&gt;"
    case '"' => "&quot;"
    case '\'' => "&#39;"
    case _ => [c]
  }

  function Escape(s: string): string {
    if s == [] then [] else EscapeChar(s[0]) + Escape(s[1..])
  }

  lemma {:induction false} EscapeAppend(a: string, b: string)
    ensures Escape(a + b) == Escape(a) + Escape(b)
  {
    if a == [] {
      assert a + b == b;
    } else {
      assert (a + b)[1..] == a[1..] + b;
      EscapeAppend(a[1..], b);
    }
  }

  /** `html_escape`. */
  method HtmlEscape(input: string) returns (out: string)
    ensures out == Escape(input)
  {
    out := [];
    for i := 0 to |input|
      invariant out == Escape(input[..i])
    {
      assert input[..i + 1] == input[..i] + [input[i]];
      EscapeAppend(input[..i], [input[i]]);
      assert Escape([input[i]]) == EscapeChar(input[i]) + Escape([]);
      out := out + EscapeChar(input[i]);
    }
    assert input[..|input|] == input;
  }

  // ---- Unescaping

  predicate EndsEntity(c: char) {
    c == ';' || c == '&' || IsWhitespace(c)
  }

  /** How many characters the entity loop takes from `s`, having taken `bytes` bytes. */
  function EntityLen(s: string, bytes: nat): (n: nat)
    ensures n <= |s|
  {
    if s == [] || EndsEntity(s[0]) || bytes > 10 then 0
    else 1 + EntityLen(s[1..], bytes + Utf8Width(s[0]))
  }

  function RadixDigit(c: char): (d: nat)
    ensures d <= 16
  {
    if '0' <= c <= '9' then (c as int) - ('0' as int)
    else if 'a' <= c <= 'f' then (c as int) - ('a' as int) + 10
    else if 'A' <= c <= 'F' then (c as int) - ('A' as int) + 10
    else 16
  }

  function RadixValue(s: string, radix: nat): nat {
    if s == [] then 0 else RadixValue(s[..|s| - 1], radix) * radix + RadixDigit(s[|s| - 1])
  }

  /** What follows a plus sign, if there is one. */
  function Unsigned(s: string): string {
    if s != [] && s[0] == '+' then s[1..] else s
  }

  /** A 32-bit number in the radix, with an optional plus sign. */
  function ParseU32(s: string, radix: nat): Option<nat> {
    var digits := Unsigned(s);
    if digits == [] || (exists i :: 0 <= i < |digits| && RadixDigit(digits[i]) >= radix) then None
    else if RadixValue(digits, radix) > U32_MAX then None
    else Some(RadixValue(digits, radix))
  }

  function CharOf(code: nat): Option<char> {
    if code < 0xD800 || 0xE000 <= code < 0x11_0000 then Some(code as char) else None
  }

  function NumericEntity(digits: string, radix: nat, entity: string): string {
    var code := ParseU32(digits, radix);
    if code.Some? && CharOf(code.value).Some? then [CharOf(code.value).value] else "&" + entity + ";"
  }

  /** What a closed entity stands for; an unknown one stands for itself. */
  function DecodeEntity(entity: string): string {
    if entity == "amp" then "&"
    else if entity == "lt" then "<"
    else if entity == "gt" then ">"
    else if entity == "quot" then "\""
    else if entity == "apos" || entity == "#39" then "'"
    else if "#x" <= entity || "#X" <= entity then NumericEntity(entity[2..], 16, entity)
    else if "#" <= entity then NumericEntity(entity[1..], 10, entity)
    else "&" + entity + ";"
  }

  function Unescape(s: string): string {
    if s == [] then []
    else if s[0] != '&' then [s[0]] + Unescape(s[1..])
    else
      var n := EntityLen(s[1..], 0);
      if 1 + n < |s| && s[1 + n] == ';' then DecodeEntity(s[1..1 + n]) + Unescape(s[2 + n..])
      else "&" + s[1..1 + n] + Unescape(s[1 + n..])
  }

  lemma {:induction false} UnescapePlain(s: string)
    requires '&' !in s
    ensures Unescape(s) == s
  {
    hide DecodeEntity, EntityLen;
    if s != [] {
      UnescapePlain(s[1..]);
    }
  }

  /** The inner loop: where the entity starting at `start` stops. */
  method EntityStop(value: string, start: nat) returns (i: nat)
    requires start <= |value|
    ensures i == start + EntityLen(value[start..], 0) && i <= |value|
  {
    i := start;
    var bytes: nat := 0;
    while i < |value| && !EndsEntity(value[i]) && bytes <= 10
      invariant start <= i <= |value|
      invariant (i - start) + EntityLen(value[i..], bytes) == EntityLen(value[start..], 0)
    {
      assert value[i..][1..] == value[i + 1..];
      bytes := bytes + Utf8Width(value[i]);
      i := i + 1;
    }
  }

  /** One step of the outer loop on `value[at..]`, whose entity stops at `i`. */
  lemma UnescapeStep(value: string, at: nat, i: nat)
    requires at < |value| && value[at] == '&' && i == at + 1 + EntityLen(value[at + 1..], 0) && i <= |value|
    ensures Unescape(value[at..]) ==
            if i < |value| && value[i] == ';' then DecodeEntity(value[at + 1..i]) + Unescape(value[i + 1..])
            else "&" + value[at + 1..i] + Unescape(value[i..])
  {
    var rest, n := value[at..], EntityLen(value[at + 1..], 0);
    assert rest[1..] == value[at + 1..];
    assert rest[1..1 + n] == value[at + 1..i];
    assert rest[1 + n..] == value[i..];
    assert i < |value| ==> rest[2 + n..] == value[i + 1..];
  }

  /** What the entity at `at` contributes, and where reading goes on. */
  method ReadEntity(value: string, at: nat) returns (piece: string, next: nat)
    requires at < |value| && value[at] == '&'
    ensures at < next <= |value| && Unescape(value[at..]) == piece + Unescape(value[next..])
  {
    hide Unescape, DecodeEntity;
    var i := EntityStop(value, at + 1);
    UnescapeStep(value, at, i);
    var entity := value[at + 1..i];
    if i < |value| && value[i] == ';' {
      return DecodeEntity(entity), i + 1;
    } else {
      return "&" + entity, i;
    }
  }

  /** One turn of the outer loop. */
  method ReadPiece(value: string, at: nat) returns (piece: string, next: nat)
    requires at < |value|
    ensures at < next <= |value| && Unescape(value[at..]) == piece + Unescape(value[next..])
  {
    if value[at] == '&' {
      piece, next := ReadEntity(value, at);
    } else {
      assert value[at..][1..] == value[at + 1..];
      piece, next := [value[at]], at + 1;
    }
  }

  lemma Associate(a: string, b: string, c: string)
    ensures a + (b + c) == a + b + c
  {
  }

  /** `unescape`. */
  method UnescapeHtml(value: string) returns (result: string)
    ensures result == Unescape(value)
  {
    if '&' !in value {
      UnescapePlain(value);
      return value;
    }
    result := [];
    var at := 0;
    while at < |value|
      invariant at <= |value|
      invariant result + Unescape(value[at..]) == Unescape(value)
    {
      var piece, next := ReadPiece(value, at);
      Associate(result, piece, Unescape(value[next..]));
      result := result + piece;
      at := next;
    }
  }

  /** A short entity name and its semicolon are read whole. */
  lemma {:induction false} EntityLenOf(name: string, t: string, bytes: nat)
    requires forall i :: 0 <= i < |name| ==> !EndsEntity(name[i]) && name[i] as int < 0x80
    requires bytes + |name| <= 11
    ensures EntityLen(name + ";" + t, bytes) == |name|
  {
    var s := name + ";" + t;
    if name != [] {
      assert s[1..] == name[1..] + ";" + t;
      EntityLenOf(name[1..], t, bytes + 1);
    }
  }

  lemma UnescapeEntity(name: string, t: string)
    requires forall i :: 0 <= i < |name| ==> !EndsEntity(name[i]) && name[i] as int < 0x80
    requires |name| <= 11
    ensures Unescape("&" + name + ";" + t) == DecodeEntity(name) + Unescape(t)
  {
    var s := "&" + name + ";" + t;
    EntityLenOf(name, t, 0);
    assert s[1..] == name + ";" + t;
    assert s[1..1 + |name|] == name;
    assert s[2 + |name|..] == t;
  }

  /** The entity an escaped character is written as. */
  function EntityName(c: char): string {
    match c
    case '&' => "amp"
    case '<' => "lt"
    case '>' => "gt"
    case '"' => "quot"
    case '\'' => "#39"
    case _ => ""
  }

  lemma EscapeCharForm(c: char)
    ensures EntityName(c) == "" ==> EscapeChar(c) == [c] && c != '&' && c != '<'
    ensures EntityName(c) != "" ==>
              && EscapeChar(c) == "&" + EntityName(c) + ";" && DecodeEntity(EntityName(c)) == [c]
              && |EntityName(c)| <= 4
              && forall i :: 0 <= i < |EntityName(c)| ==>
                 !EndsEntity(EntityName(c)[i]) && EntityName(c)[i] as int < 0x80
    ensures EntityName(c) != "" ==> c as int < 0x80
  {
  }

  /** The five characters that are escaped, and how. */
  lemma EscapesWritten()
    ensures Escape("&") == "&amp;" && Escape("<") == "&lt;" && Escape(">") == "&gt;"
    ensures Escape("\"") == "&quot;" && Escape("'") == "&#39;"
    ensures forall c :: c !in "&<>\"'" ==> EscapeChar(c) == [c]
  {
    assert "&"[1..] == [] && "<"[1..] == [] && ">"[1..] == [] && "\""[1..] == [] && "'"[1..] == [];
    forall c: char | c !in "&<>\"'" ensures EscapeChar(c) == [c] {
      assert "&<>\"'"[0] == '&' && "&<>\"'"[1] == '<' && "&<>\"'"[2] == '>';
      assert "&<>\"'"[3] == '"' && "&<>\"'"[4] == '\'';
    }
  }

  /** Unescaping undoes escaping, for every string. */
  lemma {:induction false} UnescapeOfEscape(s: string)
    ensures Unescape(Escape(s)) == s
  {
    if s != [] {
      var c, rest := s[0], Escape(s[1..]);
      UnescapeOfEscape(s[1..]);
      EscapeCharForm(c);
      if EntityName(c) == "" {
        assert ([c] + rest)[1..] == rest;
      } else {
        UnescapeEntity(EntityName(c), rest);
        assert EscapeChar(c) + rest == "&" + EntityName(c) + ";" + rest;
      }
    }
  }

  lemma {:induction false} DecimalDigits(s: string)
    requires forall c :: c in s ==> IsDigit(c)
    ensures RadixValue(s, 10) == DecValue(s)
    ensures forall i :: 0 <= i < |s| ==> RadixDigit(s[i]) < 10
  {
    if s != [] {
      assert s[|s| - 1] in s;
      DecimalDigits(s[..|s| - 1]);
    }
  }

  lemma ParseDecimal(n: nat)
    requires n <= U32_MAX
    ensures ParseU32(Dec(n), 10) == Some(n)
  {
    DecimalDigits(Dec(n));
    DecRoundTrip(n);
    assert Dec(n)[0] in Dec(n);
  }

  /** The numeric entity of a character is read back as that character. */
  lemma UnescapeNumeric(c: char, t: string)
    ensures Unescape("&" + ("#" + Dec(c as int)) + ";" + t) == [c] + Unescape(t)
  {
    var code: nat := c as int;
    var name := "#" + Dec(code);
    ParseDecimal(code);
    DecRoundTrip(code);
    SevenDigits(code);
    forall i | 0 <= i < |name| ensures !EndsEntity(name[i]) && name[i] as int < 0x80 {
      assert i > 0 ==> name[i] in Dec(code);
    }
    UnescapeEntity(name, t);
    assert name[1..] == Dec(code);
    NumericName(name, code);
  }

  /** A plus sign before the number makes no difference. */
  lemma UnescapePlus(c: char, t: string)
    ensures Unescape("&" + ("#+" + Dec(c as int)) + ";" + t) == [c] + Unescape(t)
  {
    hide Unescape, DecValue, Dec, DecodeEntity, ParseU32;
    var code: nat := c as int;
    var name := "#+" + Dec(code);
    ParseDecimal(code);
    SevenDigits(code);
    forall i | 0 <= i < |name| ensures !EndsEntity(name[i]) && name[i] as int < 0x80 {
      assert i > 1 ==> name[i] in Dec(code);
    }
    UnescapeEntity(name, t);
    assert Dec(code)[0] in Dec(code);
    PlusName(name, Dec(code), code);
  }

  lemma PlusName(name: string, digits: string, code: nat)
    requires name == "#+" + digits && digits != "" && digits[0] != '+'
    requires ParseU32(digits, 10) == Some(code) && CharOf(code).Some?
    ensures DecodeEntity(name) == [CharOf(code).value]
  {
    hide RadixValue, RadixDigit, CharOf;
    assert name[1..] == "+" + digits && ("+" + digits)[1..] == digits;
    assert Unsigned("+" + digits) == digits && Unsigned(digits) == digits;
    assert ParseU32("+" + digits, 10) == ParseU32(digits, 10);
  }

  lemma SevenDigits(code: nat)
    requires code < 0x11_0000
    ensures |Dec(code)| <= 7
  {
    assert code < Pow10(7) by {
      assert Pow10(1) == 10 && Pow10(2) == 100 && Pow10(3) == 1000 && Pow10(4) == 10000 && Pow10(5) == 100000;
    }
    DecLength(code, 7);
  }

  lemma NumericName(name: string, code: nat)
    requires |name| > 1 && name[0] == '#' && (forall c :: c in name[1..] ==> IsDigit(c))
    requires ParseU32(name[1..], 10) == Some(code) && CharOf(code).Some?
    requires DecValue(name[1..]) == code
    ensures DecodeEntity(name) == [CharOf(code).value]
  {
    assert name[1] in name[1..];
    if name == "#39" {
      assert name[1..][..1] == "3" && name[1..][..1][..0] == [] && name[1..][1] == '9';
      assert DecValue("3") == DecValue([]) * 10 + 3;
      assert DecValue(name[1..]) == DecValue("3") * 10 + 9;
    }
  }

  /** Hexadecimal numerals, with either case of letters. */
  function HexChar(d: nat, upper: bool): char
    requires d < 16
  {
    if d < 10 then (('0' as int) + d) as char else ((if upper then 'A' else 'a') as int + d - 10) as char
  }

  function Hex(n: nat, upper: bool): (s: string)
    ensures s != []
  {
    if n < 16 then [HexChar(n, upper)] else Hex(n / 16, upper) + [HexChar(n % 16, upper)]
  }

  predicate IsHexChar(c: char) {
    '0' <= c <= '9' || 'a' <= c <= 'f' || 'A' <= c <= 'F'
  }

  lemma {:induction false} HexRead(n: nat, upper: bool)
    ensures RadixValue(Hex(n, upper), 16) == n
    ensures forall i :: 0 <= i < |Hex(n, upper)| ==> IsHexChar(Hex(n, upper)[i])
    decreases n
  {
    if n >= 16 {
      HexRead(n / 16, upper);
      assert Hex(n, upper)[..|Hex(n, upper)| - 1] == Hex(n / 16, upper);
    } else {
      assert Hex(n, upper)[..0] == [] && RadixValue([], 16) == 0;
    }
  }

  function Pow16(n: nat): (p: nat)
    ensures p > 0
  {
    if n == 0 then 1 else 16 * Pow16(n - 1)
  }

  lemma {:induction false} HexDigits(n: nat, k: nat, upper: bool)
    requires k > 0 && n < Pow16(k)
    ensures |Hex(n, upper)| <= k
  {
    if n >= 16 {
      assert k > 1 by { assert Pow16(1) == 16 * Pow16(0); }
      HexDigits(n / 16, k - 1, upper);
    }
  }

  lemma HexLength(n: nat, upper: bool)
    requires n < 0x11_0000
    ensures |Hex(n, upper)| <= 6
  {
    assert Pow16(6) == 0x100_0000 by {
      assert Pow16(1) == 16 && Pow16(2) == 256 && Pow16(3) == 4096 && Pow16(4) == 0x1_0000 && Pow16(5) == 0x10_0000;
    }
    HexDigits(n, 6, upper);
  }

  lemma ParseHex(n: nat, upper: bool)
    requires n < 0x11_0000
    ensures ParseU32(Hex(n, upper), 16) == Some(n)
  {
    HexRead(n, upper);
    var s := Hex(n, upper);
    forall i | 0 <= i < |s| ensures RadixDigit(s[i]) < 16 && s[i] != '+' {
      assert IsHexChar(s[i]);
    }
  }

  /** The hexadecimal entity of a character is read back as that character, in either case throughout. */
  lemma UnescapeHexadecimal(c: char, upper: bool, marker: char, t: string)
    requires marker == 'x' || marker == 'X'
    ensures Unescape("&" + (['#', marker] + Hex(c as int, upper)) + ";" + t) == [c] + Unescape(t)
  {
    hide Unescape, Hex, RadixValue, ParseU32;
    var code: nat := c as int;
    var name := ['#', marker] + Hex(code, upper);
    HexRead(code, upper);
    HexLength(code, upper);
    ParseHex(code, upper);
    forall i | 0 <= i < |name| ensures !EndsEntity(name[i]) && name[i] as int < 0x80 {
      assert i > 1 ==> IsHexChar(name[i]) by {
        if i > 1 {
          assert IsHexChar(Hex(code, upper)[i - 2]);
        }
      }
    }
    UnescapeEntity(name, t);
    assert name[2..] == Hex(code, upper);
    assert name[1] == marker != '3' && (marker == 'x' ==> "#x" <= name) && (marker == 'X' ==> "#X" <= name);
  }

  /** The entities read by name, and any other name, which stays as it was written. */
  lemma UnescapeNamed(name: string, t: string)
    requires forall i :: 0 <= i < |name| ==> 'a' <= name[i] <= 'z'
    requires |name| <= 11
    ensures var r := Unescape("&" + name + ";" + t);
            if name == "amp" then r == "&" + Unescape(t)
            else if name == "lt" then r == "<" + Unescape(t)
            else if name == "gt" then r == ">" + Unescape(t)
            else if name == "quot" then r == "\"" + Unescape(t)
            else if name == "apos" then r == "'" + Unescape(t)
            else r == "&" + name + ";" + Unescape(t)
  {
    hide Unescape;
    UnescapeEntity(name, t);
    assert name != [] ==> name[0] != '#';
  }

  /** A number that is no character stays as it was written. */
  lemma UnescapeNoCharacter(code: nat, t: string)
    requires 0xD800 <= code < 0xE000 || 0x11_0000 <= code < 100_0000_0000
    ensures Unescape("&" + ("#" + Dec(code)) + ";" + t) == "&" + ("#" + Dec(code)) + ";" + Unescape(t)
  {
    hide Unescape, Dec, DecValue, RadixValue, DecodeEntity;
    var name := "#" + Dec(code);
    DecimalDigits(Dec(code));
    DecRoundTrip(code);
    TenDigits(code);
    forall i | 0 <= i < |name| ensures !EndsEntity(name[i]) && name[i] as int < 0x80 {
      assert i > 0 ==> name[i] in Dec(code);
    }
    UnescapeEntity(name, t);
    assert name[1..] == Dec(code);
    DigitsNotMarker(name, code);
  }

  lemma TenDigits(code: nat)
    requires code < 100_0000_0000
    ensures |Dec(code)| <= 10
  {
    assert Pow10(10) == 100_0000_0000 by {
      assert Pow10(5) == 10_0000 by {
        assert Pow10(1) == 10 && Pow10(2) == 100 && Pow10(3) == 1000 && Pow10(4) == 10000;
      }
      assert Pow10(6) == 10 * Pow10(5) && Pow10(7) == 10 * Pow10(6) && Pow10(8) == 10 * Pow10(7);
      assert Pow10(9) == 10 * Pow10(8);
    }
    DecLength(code, 10);
  }

  lemma DigitsNotMarker(name: string, code: nat)
    requires |name| > 1 && name[0] == '#' && name[1..] == Dec(code) && code > 100 && RadixValue(Dec(code), 10) == code
    requires CharOf(code).None? || code > U32_MAX
    ensures DecodeEntity(name) == "&" + name + ";"
  {
    assert name[1] in Dec(code);
    assert |name| > 3 by {
      assert code >= 10 && code / 10 >= 10 && |Dec(code)| == 1 + |Dec(code / 10)| && |Dec(code / 10)| >= 2;
    }
  }

  predicate DigitOf(c: char, radix: nat) {
    '0' <= c <= '9' || (radix == 16 && IsHexChar(c))
  }

  /** The text is a number in the radix, with an optional plus sign, and fits 32 bits. */
  predicate IsNumber(s: string, radix: nat) {
    var digits := Unsigned(s);
    && digits != "" && RadixValue(digits, radix) < 0x1_0000_0000
    && forall i :: 0 <= i < |digits| ==> DigitOf(digits[i], radix)
  }

  lemma DigitBelow(c: char, radix: nat)
    requires radix == 10 || radix == 16
    ensures RadixDigit(c) < radix <==> DigitOf(c, radix)
  {
  }

  lemma ParsesNumbers(s: string, radix: nat)
    requires radix == 10 || radix == 16
    ensures ParseU32(s, radix).Some? <==> IsNumber(s, radix)
  {
    hide RadixDigit, DigitOf, RadixValue, Unsigned;
    var digits := Unsigned(s);
    forall i | 0 <= i < |digits| ensures RadixDigit(digits[i]) < radix <==> DigitOf(digits[i], radix) {
      DigitBelow(digits[i], radix);
    }
  }

  /** A numeric entity whose digits make no number stays as it was written. */
  lemma UnescapeNoNumber(body: string, radix: nat, t: string)
    requires forall i :: 0 <= i < |body| ==> !EndsEntity(body[i])
    requires if radix == 16 then body != "" && body[0] in ['x', 'X'] && !IsNumber(body[1..], 16)
             else radix == 10 && !("x" <= body) && !("X" <= body) && !IsNumber(body, 10)
    ensures Unescape("&" + ("#" + body) + ";" + t) == "&" + ("#" + body) + ";" + Unescape(t)
  {
    hide Unescape, ParseU32, IsNumber, RadixValue;
    var name := "#" + body;
    UnescapeClosed(name, t);
    assert name[1..] == body;
    ThirtyNine();
    if radix == 16 {
      ParsesNumbers(body[1..], 16);
      assert name[2..] == body[1..];
      assert body[0] == 'x' ==> "#x" <= name;
      assert body[0] == 'X' ==> "#X" <= name;
    } else {
      ParsesNumbers(body, 10);
      assert "#x" <= name ==> "x" <= body;
      assert "#X" <= name ==> "X" <= body;
    }
  }

  lemma ThirtyNine()
    ensures IsNumber("39", 10)
  {
    assert "39"[0] == '3' && "39"[1] == '9';
    assert "39"[..1] == "3" && "3"[..0] == [] && RadixValue([], 10) == 0 && RadixValue("3", 10) == 3;
  }

  /** Without an ampersand, reading goes on past a text. */
  lemma {:induction false} UnescapePast(a: string, b: string)
    requires '&' !in a
    ensures Unescape(a + b) == a + Unescape(b)
  {
    hide DecodeEntity, EntityLen;
    if a == [] {
      assert a + b == b;
    } else {
      assert (a + b)[1..] == a[1..] + b;
      UnescapePast(a[1..], b);
    }
  }

  lemma {:induction false} NoEntity(s: string, bytes: nat)
    requires ';' !in s
    ensures var n := EntityLen(s, bytes); n < |s| ==> s[n] != ';'
  {
    if s != [] {
      NoEntity(s[1..], bytes + Utf8Width(s[0]));
    }
  }

  lemma UnescapeBare(s: string, n: nat)
    requires s != [] && s[0] == '&' && EntityLen(s[1..], 0) == n && 1 + n <= |s| && (1 + n < |s| ==> s[1 + n] != ';')
    requires Unescape(s[1 + n..]) == s[1 + n..]
    ensures Unescape(s) == s
  {
    hide EntityLen, DecodeEntity;
    assert s == "&" + s[1..1 + n] + s[1 + n..];
  }

  /** A text without a semicolon holds no entity. */
  lemma {:induction false} UnescapeUnclosed(s: string)
    requires ';' !in s
    ensures Unescape(s) == s
    decreases |s|
  {
    hide DecodeEntity, EntityLen;
    if s != [] {
      if s[0] == '&' {
        var n := EntityLen(s[1..], 0);
        NoEntity(s[1..], 0);
        UnescapeUnclosed(s[1 + n..]);
        UnescapeBare(s, n);
      } else {
        UnescapeUnclosed(s[1..]);
      }
    }
  }

  /** The entity loop takes characters until it has taken more than ten bytes. */
  lemma {:induction false} EntityLenBytes(name: string, t: string, bytes: nat)
    requires (forall i :: 0 <= i < |name| ==> !EndsEntity(name[i])) && (t == [] || EndsEntity(t[0]))
    ensures var n := EntityLen(name + t, bytes);
            && n <= |name| && (forall k :: 0 <= k < n ==> bytes + Utf8Len(name[..k]) <= 10)
            && (n < |name| ==> bytes + Utf8Len(name[..n]) > 10)
  {
    var n := EntityLen(name + t, bytes);
    if name == [] {
      assert name + t == t;
    } else if bytes <= 10 {
      var w := Utf8Width(name[0]);
      assert (name + t)[1..] == name[1..] + t;
      EntityLenBytes(name[1..], t, bytes + w);
      forall k | 0 < k <= n ensures Utf8Len(name[..k]) == w + Utf8Len(name[1..][..k - 1]) {
        assert name[..k][1..] == name[1..][..k - 1];
      }
    }
  }

  /** The entity is read when all but its last character take at most ten bytes. */
  predicate ShortEnough(name: string) {
    name == "" || Utf8Len(name[..|name| - 1]) <= 10
  }

  /** A closed name is read as an entity exactly when it is short enough, and stays as it was written otherwise. */
  lemma UnescapeClosed(name: string, t: string)
    requires forall i :: 0 <= i < |name| ==> !EndsEntity(name[i])
    ensures var s := "&" + name + ";" + t;
            Unescape(s) == (if ShortEnough(name) then DecodeEntity(name) else "&" + name + ";") + Unescape(t)
  {
    hide Unescape, DecodeEntity, Utf8Len, EntityLen;
    var s, n := "&" + name + ";" + t, EntityLen(name + (";" + t), 0);
    EntityLenBytes(name, ";" + t, 0);
    assert s[1..] == name + (";" + t);
    if n < |name| {
      var rest := name[n..] + ";";
      PrefixBytes(name, n);
      UnescapePast(rest, t);
      OpenShape(name, t, n);
      UnescapeOpen(s, n);
      assert name == name[..n] + name[n..];
    } else {
      assert s[1..1 + n] == name && s[2 + n..] == t && s[1 + n] == ';';
      UnescapeShut(s, n);
    }
  }

  lemma OpenShape(name: string, t: string, n: nat)
    requires n < |name|
    ensures var s := "&" + name + ";" + t;
            s[1..1 + n] == name[..n] && s[1 + n..] == name[n..] + ";" + t && s[1 + n] == name[n]
  {
  }

  lemma PrefixBytes(name: string, n: nat)
    requires n < |name|
    ensures Utf8Len(name[..n]) <= Utf8Len(name[..|name| - 1])
  {
    var most := name[..|name| - 1];
    assert most == most[..n] + most[n..] && most[..n] == name[..n];
    Utf8LenAppend(most[..n], most[n..]);
  }

  lemma UnescapeOpen(s: string, n: nat)
    requires 1 + n < |s| && s[0] == '&' && EntityLen(s[1..], 0) == n && s[1 + n] != ';'
    ensures Unescape(s) == "&" + s[1..1 + n] + Unescape(s[1 + n..])
  {
    hide EntityLen, DecodeEntity;
  }

  lemma UnescapeShut(s: string, n: nat)
    requires 1 + n < |s| && s[0] == '&' && EntityLen(s[1..], 0) == n && s[1 + n] == ';'
    ensures Unescape(s) == DecodeEntity(s[1..1 + n]) + Unescape(s[2 + n..])
  {
    hide EntityLen, DecodeEntity;
  }

  // ---- The length of rendered HTML

  /** The characters before the next `>`. */
  function TagLen(s: string): (n: nat)
    ensures n <= |s|
  {
    if s == [] || s[0] == '>' then 0 else 1 + TagLen(s[1..])
  }

  /** The characters the entity skip passes over. */
  function SkipLen(s: string): (n: nat)
    ensures n <= |s|
  {
    if s == [] || s[0] == ';' || s[0] == ' ' || s[0] == '<' then 0 else 1 + SkipLen(s[1..])
  }

  /** The trimmed, lower-cased name starts with `br`; only ASCII letters lower to these two. */
  predicate IsBreak(name: string) {
    var t := Trim(name);
    |t| >= 2 && t[0] in "bB" && t[1] in "rR"
  }

  function HtmlLen(s: string): nat
    decreases |s|
  {
    if s == [] then 0
    else if s[0] == '<' then
      var n := TagLen(s[1..]);
      (if IsBreak(s[1..1 + n]) then 1 else 0) + if 1 + n < |s| then HtmlLen(s[2 + n..]) else 0
    else if s[0] == '&' then
      var n := SkipLen(s[1..]);
      1 + if 1 + n < |s| && s[1 + n] == ';' then HtmlLen(s[2 + n..]) else HtmlLen(s[1 + n..])
    else Utf16Width(s[0]) + HtmlLen(s[1..])
  }

  method TagStop(html: string, start: nat) returns (i: nat)
    requires start <= |html|
    ensures i == start + TagLen(html[start..]) && i <= |html|
  {
    i := start;
    while i < |html| && html[i] != '>'
      invariant start <= i <= |html|
      invariant (i - start) + TagLen(html[i..]) == TagLen(html[start..])
    {
      assert html[i..][1..] == html[i + 1..];
      i := i + 1;
    }
  }

  method SkipStop(html: string, start: nat) returns (i: nat)
    requires start <= |html|
    ensures i == start + SkipLen(html[start..]) && i <= |html|
  {
    i := start;
    while i < |html| && html[i] != ';' && html[i] != ' ' && html[i] != '<'
      invariant start <= i <= |html|
      invariant (i - start) + SkipLen(html[i..]) == SkipLen(html[start..])
    {
      assert html[i..][1..] == html[i + 1..];
      i := i + 1;
    }
  }

  lemma TagStep(html: string, at: nat, i: nat)
    requires at < |html| && html[at] == '<' && i == at + 1 + TagLen(html[at + 1..]) && i <= |html|
    ensures HtmlLen(html[at..]) ==
            (if IsBreak(html[at + 1..i]) then 1 else 0) + if i < |html| then HtmlLen(html[i + 1..]) else 0
  {
    var rest, n := html[at..], TagLen(html[at + 1..]);
    assert rest[1..] == html[at + 1..];
    assert rest[1..1 + n] == html[at + 1..i];
    assert i < |html| ==> rest[2 + n..] == html[i + 1..];
  }

  /** What starts with an ampersand counts one unit up to its semicolon or whatever else ends it. */
  lemma HtmlLenOfEntity(s: string)
    requires s != [] && s[0] == '&'
    ensures var n := SkipLen(s[1..]);
            && 1 + n <= |s|
            && HtmlLen(s) == 1 + if 1 + n < |s| && s[1 + n] == ';' then HtmlLen(s[2 + n..]) else HtmlLen(s[1 + n..])
  {
  }

  lemma SkipStep(html: string, at: nat, i: nat)
    requires at < |html| && html[at] == '&' && i == at + 1 + SkipLen(html[at + 1..]) && i <= |html|
    ensures HtmlLen(html[at..]) ==
            1 + if i < |html| && html[i] == ';' then HtmlLen(html[i + 1..]) else HtmlLen(html[i..])
  {
    hide HtmlLen, SkipLen;
    var rest, n := html[at..], SkipLen(html[at + 1..]);
    assert rest[1..] == html[at + 1..];
    assert rest[1 + n..] == html[i..];
    assert i < |html| ==> rest[2 + n..] == html[i + 1..];
    HtmlLenOfEntity(rest);
  }

  lemma {:induction false} TagLenOf(name: string, t: string)
    requires '>' !in name && (t == [] || t[0] == '>')
    ensures TagLen(name + t) == |name|
  {
    if name == [] {
      assert name + t == t;
    } else {
      assert (name + t)[1..] == name[1..] + t;
      TagLenOf(name[1..], t);
    }
  }

  /** A tag counts one unit when it is a line break and none otherwise, closed or not. */
  lemma HtmlLenTag(name: string, t: string)
    requires '>' !in name
    ensures HtmlLen("<" + name + ">" + t) == (if IsBreak(name) then 1 else 0) + HtmlLen(t)
    ensures HtmlLen("<" + name) == if IsBreak(name) then 1 else 0
  {
    hide IsBreak;
    var s, open := "<" + name + ">" + t, "<" + name;
    TagLenOf(name, ">" + t);
    assert s[1..] == name + (">" + t) && s[1..1 + |name|] == name && s[2 + |name|..] == t;
    TagLenOf(name, []);
    assert name + [] == name && open[1..] == name && open[1..1 + |name|] == name;
  }

  /** The break tags are those whose name, trimmed, starts with these two letters in any case. */
  lemma BreaksWritten(name: string)
    ensures IsBreak(name) <==> |Trim(name)| >= 2 && Trim(name)[..2] in ["br", "bR", "Br", "BR"]
  {
    var t := Trim(name);
    if |t| >= 2 {
      assert t[..2] == [t[0], t[1]];
    }
  }

  lemma {:induction false} SkipLenTo(name: string, t: string)
    requires forall i :: 0 <= i < |name| ==> name[i] != ';' && name[i] != ' ' && name[i] != '<'
    requires t == [] || t[0] == ' ' || t[0] == '<'
    ensures SkipLen(name + t) == |name|
  {
    if name == [] {
      assert name + t == t;
    } else {
      assert (name + t)[1..] == name[1..] + t;
      SkipLenTo(name[1..], t);
    }
  }

  /** An ampersand without a semicolon takes what follows up to a space or a tag into its one unit. */
  lemma HtmlLenAmpersand(name: string, t: string)
    requires forall i :: 0 <= i < |name| ==> name[i] != ';' && name[i] != ' ' && name[i] != '<'
    requires t == [] || t[0] == ' ' || t[0] == '<'
    ensures HtmlLen("&" + name + t) == 1 + HtmlLen(t)
  {
    hide HtmlLen, SkipLen;
    var s := "&" + name + t;
    SkipLenTo(name, t);
    assert s[1..] == name + t && s[1 + |name|..] == t;
    HtmlLenOfEntity(s);
  }

  /** Text without markup counts its UTF-16 units. */
  lemma {:induction false} HtmlLenPast(a: string, b: string)
    requires '<' !in a && '&' !in a
    ensures HtmlLen(a + b) == Utf16Len(a) + HtmlLen(b)
  {
    hide TagLen, SkipLen, IsBreak;
    if a == [] {
      assert a + b == b;
    } else {
      assert (a + b)[1..] == a[1..] + b;
      HtmlLenPast(a[1..], b);
    }
  }

  /** `estimate_html_utf16_len`. */
  method EstimateHtmlUtf16Len(html: string) returns (count: nat)
    ensures count == HtmlLen(html)
  {
    count := 0;
    var at := 0;
    while at < |html|
      invariant at <= |html|
      invariant count + HtmlLen(html[at..]) == HtmlLen(html)
    {
      if html[at] == '<' {
        var i := TagStop(html, at + 1);
        TagStep(html, at, i);
        if IsBreak(html[at + 1..i]) {
          count := count + 1;
        }
        at := if i < |html| then i + 1 else i;
      } else if html[at] == '&' {
        var i := SkipStop(html, at + 1);
        SkipStep(html, at, i);
        count := count + 1;
        at := if i < |html| && html[i] == ';' then i + 1 else i;
      } else {
        assert html[at..][1..] == html[at + 1..];
        count := count + Utf16Width(html[at]);
        at := at + 1;
      }
    }
  }

  lemma {:induction false} SkipLenOf(name: string, t: string)
    requires forall i :: 0 <= i < |name| ==> name[i] != ';' && name[i] != ' ' && name[i] != '<'
    ensures SkipLen(name + ";" + t) == |name|
  {
    if name != [] {
      assert (name + ";" + t)[1..] == name[1..] + ";" + t;
      SkipLenOf(name[1..], t);
    }
  }

  lemma HtmlLenEntity(name: string, t: string)
    requires forall i :: 0 <= i < |name| ==> name[i] != ';' && name[i] != ' ' && name[i] != '<'
    ensures HtmlLen("&" + name + ";" + t) == 1 + HtmlLen(t)
  {
    var s := "&" + name + ";" + t;
    SkipLenOf(name, t);
    assert s[1..] == name + ";" + t;
    assert s[2 + |name|..] == t;
  }

  /** The estimate of an escaped text is the length of the text. */
  lemma {:induction false} EscapedLength(s: string)
    ensures HtmlLen(Escape(s)) == Utf16Len(s)
  {
    if s != [] {
      var c, rest := s[0], Escape(s[1..]);
      EscapedLength(s[1..]);
      EscapeCharForm(c);
      if EntityName(c) == "" {
        assert ([c] + rest)[1..] == rest;
      } else {
        EntityNamePlain(c);
        HtmlLenEntity(EntityName(c), rest);
        assert EscapeChar(c) + rest == "&" + EntityName(c) + ";" + rest;
      }
    }
  }

  lemma EntityNamePlain(c: char)
    ensures forall i :: 0 <= i < |EntityName(c)| ==>
            EntityName(c)[i] != ';' && EntityName(c)[i] != ' ' && EntityName(c)[i] != '<'
  {
  }

  lemma {:induction false} PlainLength(s: string)
    requires '<' !in s && '&' !in s
    ensures HtmlLen(s) == Utf16Len(s)
  {
    if s != [] {
      PlainLength(s[1..]);
    }
  }
}

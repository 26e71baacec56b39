/**
 Flat JSON objects of strings and integers: the compact printer the captions go through, with
 or without their HTML guard, and a reader that also takes whitespace and every string escape.
 */
module Json {
  import opened Prelude
  import opened Text
  import Html

  datatype Value = Str(text: string) | Num(n: int)

  datatype Field = Field(key: string, value: Value)

  /** The last field with the key, as a map built in order keeps it. */
  function Get(obj: seq<Field>, key: string): Option<Value> {
    if obj == [] then None
    else if obj[|obj| - 1].key == key then Some(obj[|obj| - 1].value)
    else Get(obj[..|obj| - 1], key)
  }

  /** A later field outranks an earlier one of the same key. */
  lemma GetLast(obj: seq<Field>, f: Field, key: string)
    ensures Get(obj + [f], key) == (if key == f.key then Some(f.value) else Get(obj, key)) && Get([], key) == None
  {
    assert (obj + [f])[..|obj|] == obj;
  }

  // ---- Printing

  function HexDigit(d: nat): char
    requires d < 16
  {
    if d < 10 then (('0' as int) + d) as char else (('a' as int) + d - 10) as char
  }

  predicate NeedsGuard(c: char) {
    c == '&' || c == '<' || c == '>'
  }

  /** The letter of a two-character escape. */
  function ShortEscape(c: char): Option<char> {
    if c == '"' then Some('"')
    else if c == '\\' then Some('\\')
    else if c as int == 8 then Some('b')
    else if c as int == 9 then Some('t')
    else if c as int == 10 then Some('n')
    else if c as int == 12 then Some('f')
    else if c as int == 13 then Some('r')
    else None
  }

  function PrintChar(c: char, guard: bool): (r: string)
    ensures r != []
  {
    if ShortEscape(c).Some? then ['\\', ShortEscape(c).value]
    else if c as int < 0x20 || (guard && NeedsGuard(c)) then
      ['\\', 'u', '0', '0', HexDigit(c as int / 16), HexDigit(c as int % 16)]
    else [c]
  }

  function PrintChars(s: string, guard: bool): string {
    if s == [] then [] else PrintChar(s[0], guard) + PrintChars(s[1..], guard)
  }

  function PrintNum(n: int): string {
    if n < 0 then "-" + Dec(-n) else Dec(n)
  }

  function PrintValue(v: Value, guard: bool): string {
    match v
    case Str(text) => "\"" + PrintChars(text, guard) + "\""
    case Num(n) => PrintNum(n)
  }

  function PrintField(f: Field, guard: bool): string {
    "\"" + PrintChars(f.key, guard) + "\":" + PrintValue(f.value, guard)
  }

  function PrintFields(obj: seq<Field>, guard: bool): string {
    if obj == [] then []
    else if |obj| == 1 then PrintField(obj[0], guard)
    else PrintField(obj[0], guard) + "," + PrintFields(obj[1..], guard)
  }

  function Print(obj: seq<Field>, guard: bool): string {
    "{" + PrintFields(obj, guard) + "}"
  }

  // ---- Reading

  function Skip(s: string): (r: string)
    ensures |r| <= |s|
  {
    if s != [] && s[0] in " \t\n\r" then Skip(s[1..]) else s
  }

  function Hex4(s: string): Option<nat> {
    if |s| < 4 || (exists i :: 0 <= i < 4 && Html.RadixDigit(s[i]) >= 16) then None
    else
      Some(((Html.RadixDigit(s[0]) * 16 + Html.RadixDigit(s[1])) * 16 + Html.RadixDigit(s[2])) * 16
           + Html.RadixDigit(s[3]))
  }

  /** A `\u` escape after its letter, with a surrogate pair as one character. */
  function ReadUnicode(s: string): (r: Option<(char, string)>)
    ensures r.Some? ==> |r.value.1| < |s|
  {
    var hi := Hex4(s);
    if hi.None? then None
    else if hi.value < 0xD800 || hi.value >= 0xE000 then
      if hi.value < 0x11_0000 then Some((hi.value as char, s[4..])) else None
    else if hi.value >= 0xDC00 || |s| < 6 || s[4] != '\\' || s[5] != 'u' then None
    else
      var lo := Hex4(s[6..]);
      if lo.None? || lo.value < 0xDC00 || lo.value >= 0xE000 then None
      else Some(((0x1_0000 + (hi.value - 0xD800) * 0x400 + (lo.value - 0xDC00)) as char, s[10..]))
  }

  /** An escape after its backslash. */
  function ReadEscape(s: string): (r: Option<(char, string)>)
    ensures r.Some? ==> |r.value.1| < |s|
  {
    if s == [] then None
    else match s[0]
      case '"' => Some(('"', s[1..]))
      case '\\' => Some(('\\', s[1..]))
      case '/' => Some(('/', s[1..]))
      case 'b' => Some((8 as char, s[1..]))
      case 'f' => Some((12 as char, s[1..]))
      case 'n' => Some((10 as char, s[1..]))
      case 'r' => Some((13 as char, s[1..]))
      case 't' => Some((9 as char, s[1..]))
      case 'u' => ReadUnicode(s[1..])
      case _ => None
  }

  function Before(c: char, r: Option<(string, string)>): (q: Option<(string, string)>)
    ensures q.Some? <==> r.Some?
    ensures q.Some? ==> q.value == ([c] + r.value.0, r.value.1)
  {
    if r.None? then None else Some(([c] + r.value.0, r.value.1))
  }

  /** A string after its opening quote. */
  function ReadString(s: string): (r: Option<(string, string)>)
    ensures r.Some? ==> |r.value.1| < |s|
    decreases |s|
  {
    if s == [] then None
    else if s[0] == '"' then Some(([], s[1..]))
    else if s[0] == '\\' then
      var e := ReadEscape(s[1..]);
      if e.None? then None else Before(e.value.0, ReadString(e.value.1))
    else if s[0] as int < 0x20 then None
    else Before(s[0], ReadString(s[1..]))
  }

  function DigitCount(s: string): (n: nat)
    ensures n <= |s| && forall i :: 0 <= i < n ==> IsDigit(s[i])
  {
    if s != [] && IsDigit(s[0]) then
      assert forall i :: 1 <= i < 1 + DigitCount(s[1..]) ==> s[i] == s[1..][i - 1];
      1 + DigitCount(s[1..])
    else 0
  }

  /** An integer of at most 64 bits; fractions, exponents and minus zero are not integers. */
  function ReadNum(s: string): (r: Option<(int, string)>)
    ensures r.Some? ==> |r.value.1| < |s|
  {
    var negative := s != [] && s[0] == '-';
    var body := if negative then s[1..] else s;
    var n := DigitCount(body);
    if n == 0 || (n > 1 && body[0] == '0') || (n < |body| && body[n] in ".eE") then None
    else
      var magnitude: int := DecValue(body[..n]);
      if negative then
        if magnitude == 0 || magnitude > 0x8000_0000_0000_0000 then None else Some((-magnitude, body[n..]))
      else if magnitude > U64_MAX then None
      else Some((magnitude, body[n..]))
  }

  function ReadValue(s: string): (r: Option<(Value, string)>)
    ensures r.Some? ==> |r.value.1| < |s|
  {
    if s == [] then None
    else if s[0] == '"' then
      var t := ReadString(s[1..]);
      if t.None? then None else Some((Str(t.value.0), t.value.1))
    else
      var n := ReadNum(s);
      if n.None? then None else Some((Num(n.value.0), n.value.1))
  }

  /** A key and its colon. */
  function ReadKey(s: string): (r: Option<(string, string)>)
    ensures r.Some? ==> |r.value.1| < |s|
  {
    var s := Skip(s);
    if s == [] || s[0] != '"' then None
    else
      var key := ReadString(s[1..]);
      if key.None? then None
      else
        var t := Skip(key.value.1);
        if t == [] || t[0] != ':' then None else Some((key.value.0, t[1..]))
  }

  function ReadField(s: string): (r: Option<(Field, string)>)
    ensures r.Some? ==> |r.value.1| < |s|
  {
    var key := ReadKey(s);
    if key.None? then None
    else
      var v := ReadValue(Skip(key.value.1));
      if v.None? then None else Some((Field(key.value.0, v.value.0), Skip(v.value.1)))
  }

  /** One or more fields and the closing brace. */
  function ReadFields(s: string): Option<(seq<Field>, string)>
    decreases |s|
  {
    var f := ReadField(s);
    if f.None? || f.value.1 == [] then None
    else if f.value.1[0] == '}' then Some(([f.value.0], f.value.1[1..]))
    else if f.value.1[0] != ',' then None
    else
      var more := ReadFields(f.value.1[1..]);
      if more.None? then None else Some(([f.value.0] + more.value.0, more.value.1))
  }

  /** A whole text that is one object. */
  function Decode(s: string): Option<seq<Field>> {
    var s := Skip(s);
    if s == [] || s[0] != '{' then None
    else
      var t := Skip(s[1..]);
      var r := if t != [] && t[0] == '}' then Some(([], t[1..])) else ReadFields(t);
      if r.None? || Skip(r.value.1) != [] then None else Some(r.value.0)
  }

  // ---- The escapes, written out

  /** The two-character escapes as they are printed; other control characters are printed by number. */
  lemma EscapesPrinted(guard: bool)
    ensures PrintChar('"', guard) == "\\\"" && PrintChar('\\', guard) == "\\\\"
    ensures PrintChar('\U{8}', guard) == "\\b" && PrintChar('\t', guard) == "\\t" && PrintChar('\n', guard) == "\\n"
    ensures PrintChar('\U{C}', guard) == "\\f" && PrintChar('\r', guard) == "\\r"
    ensures PrintChar('\0', guard) == "\\u0000" && PrintChar('\U{1B}', guard) == "\\u001b"
    ensures PrintChar('/', guard) == "/" && PrintChar('\U{7F}', guard) == "\U{7F}" && PrintChar('\'', guard) == "'"
    ensures PrintChar('<', false) == "<" && PrintChar('<', true) == "\\u003c"
    ensures PrintChar('>', false) == ">" && PrintChar('>', true) == "\\u003e"
    ensures PrintChar('&', false) == "&" && PrintChar('&', true) == "\\u0026"
  {
  }

  /** The two-character escapes as they are read; no other letter makes one. */
  lemma EscapesRead(c: char, t: string)
    ensures var r := ReadEscape([c] + t);
            && (c in "\"\\/" ==> r == Some((c, t)))
            && (c == 'b' ==> r == Some(('\U{8}', t))) && (c == 'f' ==> r == Some(('\U{C}', t)))
            && (c == 'n' ==> r == Some(('\n', t))) && (c == 'r' ==> r == Some(('\r', t)))
            && (c == 't' ==> r == Some(('\t', t))) && (c !in "\"\\/bfnrtu" ==> r == None)
    ensures ReadEscape([]) == None
  {
    assert ([c] + t)[1..] == t;
    var letters := "\"\\/bfnrtu";
    assert letters[0] == '"' && letters[1] == '\\' && letters[2] == '/' && letters[3] == 'b' && letters[4] == 'f';
    assert letters[5] == 'n' && letters[6] == 'r' && letters[7] == 't' && letters[8] == 'u';
  }

  /** Four hexadecimal digits in either case. */
  function Quad(n: nat, upper: bool): (r: string)
    requires n < 0x1_0000
    ensures |r| == 4
  {
    [Html.HexChar(n / 0x1000, upper), Html.HexChar(n / 0x100 % 16, upper), Html.HexChar(n / 0x10 % 16, upper),
     Html.HexChar(n % 16, upper)]
  }

  lemma HexCharValue(d: nat, upper: bool)
    requires d < 16
    ensures Html.RadixDigit(Html.HexChar(d, upper)) == d
  {
  }

  lemma QuadRead(n: nat, upper: bool, t: string)
    requires n < 0x1_0000
    ensures Hex4(Quad(n, upper) + t) == Some(n) && (Quad(n, upper) + t)[4..] == t
  {
    hide Html.RadixDigit, Html.HexChar;
    var a, b, c, d := n / 0x1000, n / 0x100 % 16, n / 0x10 % 16, n % 16;
    HexCharValue(a, upper);
    HexCharValue(b, upper);
    HexCharValue(c, upper);
    HexCharValue(d, upper);
    var s := Quad(n, upper) + t;
    assert s[0] == Html.HexChar(a, upper) && s[1] == Html.HexChar(b, upper);
    assert s[2] == Html.HexChar(c, upper) && s[3] == Html.HexChar(d, upper);
    HexSum(n);
  }

  lemma HexSum(n: nat)
    requires n < 0x1_0000
    ensures ((n / 0x1000 * 16 + n / 0x100 % 16) * 16 + n / 0x10 % 16) * 16 + n % 16 == n
  {
    var a, b := n / 0x10, n / 0x100;
    assert n == a * 16 + n % 16 && a == b * 16 + a % 16 && b == n / 0x1000 * 16 + b % 16;
  }

  /** Every character is read back from its number: four digits, or a pair of surrogates of four each. */
  lemma UnicodeRead(c: char, upper: bool, t: string)
    ensures var n := c as int;
            n < 0x1_0000 ==> ReadUnicode(Quad(n, upper) + t) == Some((c, t))
    ensures var n := c as int;
            n >= 0x1_0000 ==>
              var high, low := 0xD800 + (n - 0x1_0000) / 0x400, 0xDC00 + (n - 0x1_0000) % 0x400;
              ReadUnicode(Quad(high, upper) + ("\\u" + (Quad(low, upper) + t))) == Some((c, t))
  {
    hide Hex4, Quad;
    var n := c as int;
    if n < 0x1_0000 {
      QuadRead(n, upper, t);
    } else {
      var high, low := 0xD800 + (n - 0x1_0000) / 0x400, 0xDC00 + (n - 0x1_0000) % 0x400;
      var rest := "\\u" + (Quad(low, upper) + t);
      QuadRead(high, upper, rest);
      QuadRead(low, upper, t);
      var s := Quad(high, upper) + rest;
      assert s[4] == rest[0] && s[5] == rest[1] && s[6..] == s[4..][2..] == Quad(low, upper) + t;
      assert s[10..] == s[6..][4..] == t;
    }
  }

  // ---- Reading what was printed

  lemma HexDigitValue(d: nat)
    requires d < 16
    ensures Html.RadixDigit(HexDigit(d)) == d
  {
  }

  lemma ReadUnicodeOf(code: nat, t: string)
    requires code < 0x100
    ensures ReadUnicode(['0', '0', HexDigit(code / 16), HexDigit(code % 16)] + t) == Some((code as char, t))
  {
    var s := ['0', '0', HexDigit(code / 16), HexDigit(code % 16)] + t;
    HexDigitValue(code / 16);
    HexDigitValue(code % 16);
    assert Html.RadixDigit(s[0]) == 0 && Html.RadixDigit(s[1]) == 0;
    assert Hex4(s) == Some(code);
    assert s[4..] == t;
  }

  lemma ReadShortEscape(c: char, t: string)
    requires ShortEscape(c).Some?
    ensures ReadEscape([ShortEscape(c).value] + t) == Some((c, t))
  {
    assert ([ShortEscape(c).value] + t)[1..] == t;
  }

  lemma ReadPrintedChar(c: char, guard: bool, t: string)
    ensures ReadString(PrintChar(c, guard) + t) == Before(c, ReadString(t))
  {
    var s := PrintChar(c, guard) + t;
    if ShortEscape(c).Some? {
      assert s[1..] == [ShortEscape(c).value] + t;
      ReadShortEscape(c, t);
    } else if c as int < 0x20 || (guard && NeedsGuard(c)) {
      var code := c as int;
      assert s[1..] == ['u', '0', '0', HexDigit(code / 16), HexDigit(code % 16)] + t;
      assert s[1..][1..] == ['0', '0', HexDigit(code / 16), HexDigit(code % 16)] + t;
      ReadUnicodeOf(code, t);
      assert ReadEscape(s[1..]) == Some((c, t));
    } else {
      assert s[1..] == t;
    }
  }

  lemma CharsShape(s: string, guard: bool, t: string)
    requires s != []
    ensures PrintChars(s, guard) + "\"" + t == PrintChar(s[0], guard) + (PrintChars(s[1..], guard) + "\"" + t)
  {
  }

  lemma {:induction false} ReadPrintedString(s: string, guard: bool, t: string)
    ensures ReadString(PrintChars(s, guard) + "\"" + t) == Some((s, t))
  {
    if s == [] {
      assert PrintChars(s, guard) + "\"" + t == "\"" + t;
      assert ("\"" + t)[1..] == t;
    } else {
      var rest := PrintChars(s[1..], guard) + "\"" + t;
      CharsShape(s, guard, t);
      ReadPrintedChar(s[0], guard, rest);
      ReadPrintedString(s[1..], guard, t);
      assert [s[0]] + s[1..] == s;
    }
  }

  lemma {:induction false} DigitCountOf(d: string, t: string)
    requires (forall c :: c in d ==> IsDigit(c)) && (t == [] || !IsDigit(t[0]))
    ensures DigitCount(d + t) == |d|
  {
    if d == [] {
      assert d + t == t;
    } else {
      assert d[0] in d;
      assert (d + t)[1..] == d[1..] + t;
      DigitCountOf(d[1..], t);
    }
  }

  lemma {:induction false} NoLeadingZero(n: nat)
    requires n > 0
    ensures Dec(n)[0] != '0'
  {
    if n >= 10 {
      NoLeadingZero(n / 10);
    }
  }

  predicate Fits64(n: int) {
    -0x8000_0000_0000_0000 <= n <= U64_MAX
  }

  /** What may follow a value: a comma, the closing brace, or white space. */
  predicate Delimited(t: string) {
    t != "" && (t[0] == ',' || t[0] == '}' || IsBlank(t[0]))
  }

  predicate IsBlank(c: char) {
    c == ' ' || c == '\t' || c == '\n' || c == '\r'
  }

  lemma PrintedDigits(m: nat, t: string)
    requires Delimited(t)
    ensures var s := Dec(m) + t;
            && DigitCount(s) == |Dec(m)| > 0 && s[..|Dec(m)|] == Dec(m) && s[|Dec(m)|..] == t
            && DecValue(Dec(m)) == m && (m > 0 ==> s[0] != '0') && (m == 0 ==> |Dec(m)| == 1)
            && IsDigit(s[0]) && s[|Dec(m)|] == t[0]
  {
    DecRoundTrip(m);
    DigitCountOf(Dec(m), t);
    if m > 0 {
      NoLeadingZero(m);
    }
    assert Dec(m)[0] in Dec(m);
  }

  lemma ReadPrintedNum(n: int, t: string)
    requires Fits64(n) && Delimited(t)
    ensures ReadNum(PrintNum(n) + t) == Some((n, t))
  {
    hide Dec, DecValue, DigitCount;
    var m: nat := if n < 0 then -n else n;
    var s := Dec(m) + t;
    PrintedDigits(m, t);
    if n < 0 {
      assert PrintNum(n) + t == "-" + s;
      ReadNegative(s, n, t);
    } else {
      ReadNatural(s, m, t);
    }
  }

  lemma ReadNatural(s: string, m: nat, t: string)
    requires m <= U64_MAX && DigitCount(s) > 0 && s[0] != '-' && (s[0] == '0' ==> DigitCount(s) == 1)
    requires s[DigitCount(s)..] == t && t != [] && t[0] !in ".eE" && DecValue(s[..DigitCount(s)]) == m
    ensures ReadNum(s) == Some((m, t))
  {
    assert s[DigitCount(s)] == t[0];
  }

  lemma ReadNegative(s: string, n: int, t: string)
    requires -0x8000_0000_0000_0000 <= n < 0 && DigitCount(s) > 0 && (s[0] == '0' ==> DigitCount(s) == 1)
    requires s[DigitCount(s)..] == t && t != [] && t[0] !in ".eE" && DecValue(s[..DigitCount(s)]) == -n
    ensures ReadNum("-" + s) == Some((n, t))
  {
    assert ("-" + s)[1..] == s;
    assert s[DigitCount(s)] == t[0];
  }

  lemma ReadPrintedText(text: string, guard: bool, t: string)
    ensures ReadValue("\"" + PrintChars(text, guard) + "\"" + t) == Some((Str(text), t))
  {
    var s := "\"" + PrintChars(text, guard) + "\"" + t;
    assert s[1..] == PrintChars(text, guard) + "\"" + t;
    ReadPrintedString(text, guard, t);
  }

  lemma ReadPrintedInt(n: int, t: string)
    requires Fits64(n) && Delimited(t)
    ensures ReadValue(PrintNum(n) + t) == Some((Num(n), t))
  {
    ReadPrintedNum(n, t);
    NumStart(n);
    assert (PrintNum(n) + t)[0] == PrintNum(n)[0];
  }

  lemma ReadPrintedValue(v: Value, guard: bool, t: string)
    requires v.Num? ==> Fits64(v.n)
    requires Delimited(t)
    ensures ReadValue(PrintValue(v, guard) + t) == Some((v, t))
    ensures Skip(PrintValue(v, guard) + t) == PrintValue(v, guard) + t
  {
    match v
    case Str(text) =>
      ReadPrintedText(text, guard, t);
      NoSkip("\"" + PrintChars(text, guard) + "\"" + t);
    case Num(n) =>
      ReadPrintedInt(n, t);
      NumStart(n);
      assert (PrintNum(n) + t)[0] == PrintNum(n)[0];
      NoSkip(PrintNum(n) + t);
  }

  lemma NoSkip(s: string)
    requires s != [] && s[0] !in " \t\n\r"
    ensures Skip(s) == s
  {
  }

  lemma NumStart(n: int)
    ensures PrintNum(n) != [] && (PrintNum(n)[0] == '-' || IsDigit(PrintNum(n)[0]))
  {
    if n >= 0 {
      assert Dec(n)[0] in Dec(n);
    }
  }

  lemma ReadPrintedKey(key: string, guard: bool, t: string)
    ensures ReadKey("\"" + PrintChars(key, guard) + "\":" + t) == Some((key, t))
  {
    hide PrintChars, ReadString;
    var s := "\"" + PrintChars(key, guard) + "\":" + t;
    assert s[1..] == PrintChars(key, guard) + "\"" + (":" + t);
    ReadPrintedString(key, guard, ":" + t);
    assert (":" + t)[1..] == t;
  }

  lemma ReadPrintedField(f: Field, guard: bool, t: string)
    requires f.value.Num? ==> Fits64(f.value.n)
    requires t != [] && (t[0] == ',' || t[0] == '}')
    ensures ReadField(PrintField(f, guard) + t) == Some((f, t))
  {
    hide ReadKey, ReadValue, PrintChars, PrintValue;
    var value := PrintValue(f.value, guard) + t;
    assert PrintField(f, guard) + t == "\"" + PrintChars(f.key, guard) + "\":" + value;
    NoSkip(t);
    ReadPrintedKey(f.key, guard, value);
    ReadPrintedValue(f.value, guard, t);
  }

  predicate Printable(obj: seq<Field>) {
    forall i :: 0 <= i < |obj| && obj[i].value.Num? ==> Fits64(obj[i].value.n)
  }

  lemma LastField(s: string, f: Field, t: string)
    requires ReadField(s) == Some((f, "}" + t))
    ensures ReadFields(s) == Some(([f], t))
  {
    assert ("}" + t)[1..] == t;
  }

  lemma NextField(s: string, f: Field, rest: string, more: seq<Field>, t: string)
    requires ReadField(s) == Some((f, "," + rest)) && ReadFields(rest) == Some((more, t))
    ensures ReadFields(s) == Some(([f] + more, t))
  {
    assert ("," + rest)[1..] == rest;
  }

  lemma FieldsShape(obj: seq<Field>, guard: bool, t: string)
    requires obj != []
    ensures PrintFields(obj, guard) + "}" + t ==
            PrintField(obj[0], guard) +
            if |obj| == 1 then "}" + t else "," + (PrintFields(obj[1..], guard) + "}" + t)
  {
  }

  lemma {:induction false} ReadPrintedFields(obj: seq<Field>, guard: bool, t: string)
    requires obj != [] && Printable(obj)
    ensures ReadFields(PrintFields(obj, guard) + "}" + t) == Some((obj, t))
  {
    FieldsShape(obj, guard, t);
    assert obj == [obj[0]] + obj[1..];
    if |obj| == 1 {
      assert obj == [obj[0]];
      ReadLast(obj[0], guard, t);
    } else {
      ReadPrintedFields(obj[1..], guard, t);
      ReadNext(obj[0], guard, PrintFields(obj[1..], guard) + "}" + t, obj[1..], t);
    }
  }

  lemma ReadLast(f: Field, guard: bool, t: string)
    requires f.value.Num? ==> Fits64(f.value.n)
    ensures ReadFields(PrintField(f, guard) + ("}" + t)) == Some(([f], t))
  {
    ReadPrintedField(f, guard, "}" + t);
    LastField(PrintField(f, guard) + ("}" + t), f, t);
  }

  lemma ReadNext(f: Field, guard: bool, rest: string, more: seq<Field>, t: string)
    requires f.value.Num? ==> Fits64(f.value.n)
    requires ReadFields(rest) == Some((more, t))
    ensures ReadFields(PrintField(f, guard) + ("," + rest)) == Some(([f] + more, t))
  {
    ReadPrintedField(f, guard, "," + rest);
    NextField(PrintField(f, guard) + ("," + rest), f, rest, more, t);
  }

  lemma DecodeFields(body: string, obj: seq<Field>)
    requires body != [] && body[0] == '"' && ReadFields(body) == Some((obj, []))
    ensures Decode("{" + body) == Some(obj)
  {
    hide ReadFields;
    NoSkip(body);
    NoSkip("{" + body);
    assert ("{" + body)[1..] == body;
    assert Skip([]) == [];
  }

  lemma FieldsStart(obj: seq<Field>, guard: bool)
    requires obj != []
    ensures PrintFields(obj, guard) != [] && PrintFields(obj, guard)[0] == '"'
  {
  }

  /** Reading undoes printing, guarded or not, for every object. */
  lemma DecodePrinted(obj: seq<Field>, guard: bool)
    requires obj != [] && Printable(obj)
    ensures Decode(Print(obj, guard)) == Some(obj)
  {
    ReadPrintedFields(obj, guard, []);
    FieldsStart(obj, guard);
    var body := PrintFields(obj, guard) + "}";
    assert body + [] == body && Print(obj, guard) == "{" + body;
    DecodeFields(body, obj);
  }

  // ---- Reading with white space between the tokens

  predicate AllBlank(w: string) {
    forall i :: 0 <= i < |w| ==> IsBlank(w[i])
  }

  lemma {:induction false} SkipBlank(w: string, t: string)
    requires AllBlank(w) && (t == "" || !IsBlank(t[0]))
    ensures Skip(w + t) == t
  {
    if w == [] {
      assert w + t == t;
    } else {
      assert (w + t)[1..] == w[1..] + t;
      SkipBlank(w[1..], t);
    }
  }

  /** The white space of one field: before its key, before and after its colon, and after its value. */
  datatype Gaps = Gaps(key: string, colon: string, value: string, end: string) {
    predicate Valid() { AllBlank(key) && AllBlank(colon) && AllBlank(value) && AllBlank(end) }
  }

  function Quoted(s: string, guard: bool, rest: string): string {
    "\"" + (PrintChars(s, guard) + "\"" + rest)
  }

  function SpacedField(f: Field, guard: bool, g: Gaps): string {
    g.key + Quoted(f.key, guard, g.colon + (":" + (g.value + (PrintValue(f.value, guard) + g.end))))
  }

  lemma ReadSpacedKey(f: Field, guard: bool, g: Gaps, rest: string)
    requires g.Valid()
    ensures ReadKey(g.key + Quoted(f.key, guard, g.colon + (":" + rest))) == Some((f.key, rest))
  {
    hide Skip, PrintChars, ReadString;
    var tail := g.colon + (":" + rest);
    var quoted := Quoted(f.key, guard, tail);
    SkipBlank(g.key, quoted);
    assert quoted[1..] == PrintChars(f.key, guard) + "\"" + tail;
    ReadPrintedString(f.key, guard, tail);
    SkipBlank(g.colon, ":" + rest);
    assert (":" + rest)[1..] == rest;
  }

  lemma ValueStart(v: Value, guard: bool, t: string)
    ensures var s := PrintValue(v, guard) + t; s != "" && !IsBlank(s[0])
  {
    if v.Num? {
      NumStart(v.n);
    }
  }

  lemma DelimitedAfter(w: string, t: string)
    requires AllBlank(w) && t != [] && (t[0] == ',' || t[0] == '}')
    ensures Delimited(w + t)
  {
    assert w != [] ==> (w + t)[0] == w[0];
  }

  lemma SpacedShape(f: Field, guard: bool, g: Gaps, t: string)
    ensures SpacedField(f, guard, g) + t ==
            g.key + Quoted(f.key, guard, g.colon + (":" + (g.value + (PrintValue(f.value, guard) + (g.end + t)))))
  {
    var v, e := PrintValue(f.value, guard), g.end;
    assert (v + e) + t == v + (e + t);
    assert (g.value + (v + e)) + t == g.value + (v + (e + t));
    assert (":" + (g.value + (v + e))) + t == ":" + (g.value + (v + (e + t)));
    assert (g.colon + (":" + (g.value + (v + e)))) + t == g.colon + (":" + (g.value + (v + (e + t))));
  }

  lemma ReadSpacedField(f: Field, guard: bool, g: Gaps, t: string)
    requires (f.value.Num? ==> Fits64(f.value.n)) && g.Valid() && t != [] && (t[0] == ',' || t[0] == '}')
    ensures ReadField(SpacedField(f, guard, g) + t) == Some((f, t))
  {
    hide Skip, PrintChars, PrintValue, ReadValue, ReadKey, SpacedField;
    var value := PrintValue(f.value, guard) + (g.end + t);
    SpacedShape(f, guard, g, t);
    ReadSpacedKey(f, guard, g, g.value + value);
    ValueStart(f.value, guard, g.end + t);
    SkipBlank(g.value, value);
    DelimitedAfter(g.end, t);
    ReadPrintedValue(f.value, guard, g.end + t);
    SkipBlank(g.end, t);
  }

  function SpacedFields(obj: seq<Field>, guard: bool, gaps: seq<Gaps>): string
    requires |gaps| == |obj|
  {
    if obj == [] then []
    else if |obj| == 1 then SpacedField(obj[0], guard, gaps[0])
    else SpacedField(obj[0], guard, gaps[0]) + ("," + SpacedFields(obj[1..], guard, gaps[1..]))
  }

  lemma {:induction false} ReadSpacedFields(obj: seq<Field>, guard: bool, gaps: seq<Gaps>, t: string)
    requires obj != [] && Printable(obj) && |gaps| == |obj| && forall i :: 0 <= i < |gaps| ==> gaps[i].Valid()
    ensures ReadFields(SpacedFields(obj, guard, gaps) + ("}" + t)) == Some((obj, t))
    decreases |obj|
  {
    hide ReadField, SpacedField, Gaps.Valid;
    if |obj| == 1 {
      assert obj == [obj[0]];
      ReadSpacedField(obj[0], guard, gaps[0], "}" + t);
      LastField(SpacedFields(obj, guard, gaps) + ("}" + t), obj[0], t);
    } else {
      var first, rest := SpacedField(obj[0], guard, gaps[0]), SpacedFields(obj[1..], guard, gaps[1..]);
      ReadSpacedFields(obj[1..], guard, gaps[1..], t);
      ReadSpacedField(obj[0], guard, gaps[0], "," + (rest + ("}" + t)));
      assert SpacedFields(obj, guard, gaps) + ("}" + t) == first + ("," + (rest + ("}" + t)));
      NextField(SpacedFields(obj, guard, gaps) + ("}" + t), obj[0], rest + ("}" + t), obj[1..], t);
      assert [obj[0]] + obj[1..] == obj;
    }
  }

  lemma {:induction false} SkipInto(w: string, t: string)
    requires AllBlank(w)
    ensures Skip(w + t) == Skip(t)
  {
    if w == [] {
      assert w + t == t;
    } else {
      assert (w + t)[1..] == w[1..] + t;
      SkipInto(w[1..], t);
    }
  }

  /** White space around the braces and between any two tokens is skipped. */
  lemma DecodeSpaced(obj: seq<Field>, guard: bool, gaps: seq<Gaps>, before: string, after: string)
    requires obj != [] && Printable(obj) && |gaps| == |obj| && forall i :: 0 <= i < |gaps| ==> gaps[i].Valid()
    requires AllBlank(before) && AllBlank(after)
    ensures Decode(before + ("{" + (SpacedFields(obj, guard, gaps) + ("}" + after)))) == Some(obj)
  {
    hide Skip, ReadFields, SpacedFields, Gaps.Valid;
    var body := SpacedFields(obj, guard, gaps) + ("}" + after);
    SkipBlank(before, "{" + body);
    assert ("{" + body)[1..] == body;
    BodyStart(obj, guard, gaps, "}" + after);
    SpacedSkipped(obj, guard, gaps, after);
    SkipBlank(after, []);
    assert after + [] == after;
  }

  lemma BodyStart(obj: seq<Field>, guard: bool, gaps: seq<Gaps>, t: string)
    requires obj != [] && |gaps| == |obj| && gaps[0].Valid()
    ensures Skip(SpacedFields(obj, guard, gaps) + t) != [] && Skip(SpacedFields(obj, guard, gaps) + t)[0] == '"'
  {
    hide PrintChars, PrintValue, Skip, SpacedField;
    var g, f := gaps[0], obj[0];
    var first := SpacedField(f, guard, g);
    var tail := (if |obj| == 1 then "" else "," + SpacedFields(obj[1..], guard, gaps[1..])) + t;
    assert SpacedFields(obj, guard, gaps) + t == first + tail;
    SpacedShape(f, guard, g, tail);
    QuotedStart(f.key, guard, g.colon + (":" + (g.value + (PrintValue(f.value, guard) + (g.end + tail)))), g.key);
  }

  lemma QuotedStart(s: string, guard: bool, rest: string, w: string)
    requires AllBlank(w)
    ensures var t := Skip(w + Quoted(s, guard, rest)); t != "" && t[0] == '"'
  {
    hide PrintChars, Skip;
    SkipBlank(w, Quoted(s, guard, rest));
  }

  /** Reading fields starts by skipping, so it may as well have been done before. */
  lemma SpacedSkipped(obj: seq<Field>, guard: bool, gaps: seq<Gaps>, after: string)
    requires obj != [] && Printable(obj) && |gaps| == |obj| && forall i :: 0 <= i < |gaps| ==> gaps[i].Valid()
    ensures ReadFields(Skip(SpacedFields(obj, guard, gaps) + ("}" + after))) == Some((obj, after))
  {
    hide Skip, SpacedFields, Gaps.Valid, ReadString;
    var s := SpacedFields(obj, guard, gaps) + ("}" + after);
    ReadSpacedFields(obj, guard, gaps, after);
    SkipTwice(s);
  }

  lemma {:induction false} SkipTwice(s: string)
    ensures Skip(Skip(s)) == Skip(s)
  {
    if s != [] && s[0] in " \t\n\r" {
      SkipTwice(s[1..]);
    }
  }
}

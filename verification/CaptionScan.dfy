/** Finding a caption's object again, from crates/bot/src/caption.rs. */
module CaptionScan {
  import opened Prelude
  import opened Text
  import opened Json
  import opened Music
  import opened Caption
  import Html

  // ---- Undoing HTML

  function Replace(s: string, pat: string, w: string): string
    requires pat != []
  {
    if s == [] then []
    else if pat <= s then w + Replace(s[|pat|..], pat, w)
    else [s[0]] + Replace(s[1..], pat, w)
  }

  function Normalize(text: string): string {
    var a := Replace(Replace(text, "<br/>", "\n"), "<br>", "\n");
    var b := Replace(Replace(a, "&quot;", "\""), "&#39;", "'");
    Replace(Replace(Replace(b, "&lt;", "<"), "&gt;", ">"), "&amp;", "&")
  }

  lemma {:induction false} ReplaceAbsent(s: string, pat: string, w: string)
    requires pat != [] && pat[0] !in s
    ensures Replace(s, pat, w) == s
  {
    if s != [] {
      ReplaceAbsent(s[1..], pat, w);
    }
  }

  lemma ReplaceHit(pat: string, t: string, w: string)
    requires pat != []
    ensures Replace(pat + t, pat, w) == w + Replace(t, pat, w)
  {
    assert (pat + t)[|pat|..] == t;
  }

  lemma {:induction false} ReplaceMiss(p: string, t: string, pat: string, w: string)
    requires pat != [] && forall i :: 0 <= i < |p| ==> !(pat <= p[i..] + t)
    ensures Replace(p + t, pat, w) == p + Replace(t, pat, w)
  {
    if p == [] {
      assert p + t == t;
    } else {
      assert (p + t)[1..] == p[1..] + t;
      forall i | 0 <= i < |p[1..]| ensures !(pat <= p[1..][i..] + t) {
        assert p[1..][i..] == p[i + 1..];
      }
      assert p[0..] == p;
      ReplaceMiss(p[1..], t, pat, w);
    }
  }

  lemma ReplaceOther(c: char, t: string, pat: string, w: string)
    requires pat != [] && pat[0] != c
    ensures Replace([c] + t, pat, w) == [c] + Replace(t, pat, w)
  {
    assert ([c] + t)[1..] == t;
  }

  const MARKED: set<char> := {'&', '<', '>', '"', '\''}

  /** The text with only these characters escaped. */
  function EscapeOnly(s: string, which: set<char>): string {
    if s == [] then [] else (if s[0] in which then Html.EscapeChar(s[0]) else [s[0]]) + EscapeOnly(s[1..], which)
  }

  lemma {:induction false} EscapeOnlyAll(s: string)
    ensures EscapeOnly(s, MARKED) == Html.Escape(s) && EscapeOnly(s, {}) == s
  {
    if s != [] {
      EscapeOnlyAll(s[1..]);
    }
  }

  /** Entities of different characters differ in their second letter, and hold one ampersand each. */
  lemma EntityMiss(x: char, c: char, t: string)
    requires x in MARKED && c in MARKED && x != c
    ensures var p, pat := Html.EscapeChar(x), Html.EscapeChar(c);
            Replace(p + t, pat, [c]) == p + Replace(t, pat, [c])
  {
    hide Replace;
    var p, pat := Html.EscapeChar(x), Html.EscapeChar(c);
    forall i | 0 <= i < |p| ensures !(pat <= p[i..] + t) {
      assert (p[i..] + t)[0] == p[i];
      assert i == 0 ==> (p[i..] + t)[1] == p[1] != pat[1];
      assert i > 0 ==> p[i] != '&' == pat[0];
    }
    ReplaceMiss(p, t, pat, [c]);
  }

  /** Replacing the entity of one escaped character brings that character back and touches no other. */
  lemma {:induction false} UndoOne(s: string, c: char, which: set<char>)
    requires c in which && which <= MARKED && '&' in which && (c == '&' ==> which == {'&'})
    ensures Replace(EscapeOnly(s, which), Html.EscapeChar(c), [c]) == EscapeOnly(s, which - {c})
  {
    hide Replace;
    if s == [] {
      NothingToReplace(Html.EscapeChar(c), [c]);
    } else {
      var x, rest := s[0], EscapeOnly(s[1..], which);
      UndoOne(s[1..], c, which);
      if x == c {
        ReplaceHit(Html.EscapeChar(c), rest, [c]);
      } else if x in which {
        EntityMiss(x, c, rest);
      } else {
        ReplaceOther(x, rest, Html.EscapeChar(c), [c]);
      }
    }
  }

  lemma NothingToReplace(pat: string, w: string)
    requires pat != []
    ensures Replace([], pat, w) == []
  {
  }

  lemma {:induction false} EscapeNoAngle(s: string)
    ensures '<' !in Html.Escape(s)
  {
    if s != [] {
      EscapeNoAngle(s[1..]);
    }
  }

  /** Normalizing undoes escaping, for every text, and leaves a text without markup alone. */
  lemma NormalizeRecovers(s: string)
    ensures Normalize(Html.Escape(s)) == s
    ensures NoMarkup(s) ==> Normalize(s) == s
  {
    hide Replace, Html.Escape;
    var e := Html.Escape(s);
    EscapeNoAngle(s);
    ReplaceAbsent(e, "<br/>", "\n");
    ReplaceAbsent(e, "<br>", "\n");
    UndoAll(s);
    if NoMarkup(s) {
      ReplaceAbsent(s, "<br/>", "\n");
      ReplaceAbsent(s, "<br>", "\n");
      ReplaceAbsent(s, "&quot;", "\"");
      ReplaceAbsent(s, "&#39;", "'");
      ReplaceAbsent(s, "&lt;", "<");
      ReplaceAbsent(s, "&gt;", ">");
      ReplaceAbsent(s, "&amp;", "&");
    }
  }

  lemma UndoAll(s: string)
    ensures var b := Replace(Replace(Html.Escape(s), "&quot;", "\""), "&#39;", "'");
            Replace(Replace(Replace(b, "&lt;", "<"), "&gt;", ">"), "&amp;", "&") == s
  {
    hide Replace, EscapeOnly, Html.Escape;
    EscapeOnlyAll(s);
    UndoOne(s, '"', MARKED);
    assert MARKED - {'"'} == {'&', '<', '>', '\''};
    UndoOne(s, '\'', {'&', '<', '>', '\''});
    assert {'&', '<', '>', '\''} - {'\''} == {'&', '<', '>'};
    UndoOne(s, '<', {'&', '<', '>'});
    assert {'&', '<', '>'} - {'<'} == {'&', '>'};
    UndoOne(s, '>', {'&', '>'});
    assert {'&', '>'} - {'>'} == {'&'};
    UndoOne(s, '&', {'&'});
    assert {'&'} - {'&'} == {};
  }

  lemma NewLineThrough(t: string)
    ensures forall pat, w :: pat != [] && pat[0] != '\n' ==> Replace("\n" + t, pat, w) == "\n" + Replace(t, pat, w)
  {
    forall pat, w | pat != [] && pat[0] != '\n' ensures Replace("\n" + t, pat, w) == "\n" + Replace(t, pat, w) {
      ReplaceOther('\n', t, pat, w);
    }
  }

  /** Both forms of a line break become a new line. */
  lemma NormalizeBreaks(t: string)
    ensures Normalize("<br>" + t) == "\n" + Normalize(t) && Normalize("<br/>" + t) == "\n" + Normalize(t)
  {
    hide Replace;
    var p := "<br>";
    forall i | 0 <= i < |p| ensures !("<br/>" <= p[i..] + t) {
      assert (p[i..] + t)[0] == p[i];
      assert i == 0 ==> (p[i..] + t)[3] == '>';
    }
    ReplaceMiss(p, t, "<br/>", "\n");
    var a := Replace(t, "<br/>", "\n");
    ReplaceHit("<br>", a, "\n");
    ReplaceHit("<br/>", t, "\n");
    NewLineThrough(a);
    var b := Replace(a, "<br>", "\n");
    NewLineThrough(b);
    var c := Replace(b, "&quot;", "\"");
    NewLineThrough(c);
    var d := Replace(c, "&#39;", "'");
    NewLineThrough(d);
    var e := Replace(d, "&lt;", "<");
    NewLineThrough(e);
    NewLineThrough(Replace(e, "&gt;", ">"));
  }

  // ---- The brace and string scanner

  function Plus(r: Option<nat>, k: nat): Option<nat> {
    if r.None? then None else Some(r.value + k)
  }

  /** Where the brace closing the first open one is. */
  function ScanEnd(s: string, depth: int, inStr: bool, escape: bool): Option<nat> {
    if s == [] then None
    else if escape then Plus(ScanEnd(s[1..], depth, inStr, false), 1)
    else if s[0] == '\\' && inStr then Plus(ScanEnd(s[1..], depth, inStr, true), 1)
    else if s[0] == '"' then Plus(ScanEnd(s[1..], depth, !inStr, false), 1)
    else if !inStr && s[0] == '{' then Plus(ScanEnd(s[1..], depth + 1, inStr, false), 1)
    else if !inStr && s[0] == '}' then
      if depth == 1 then Some(0) else Plus(ScanEnd(s[1..], depth - 1, inStr, false), 1)
    else Plus(ScanEnd(s[1..], depth, inStr, false), 1)
  }

  /** The scan ends at a closing brace. */
  lemma {:induction false} ScanEndBound(s: string, depth: int, inStr: bool, escape: bool)
    ensures var r := ScanEnd(s, depth, inStr, escape); r.Some? ==> r.value < |s| && s[r.value] == '}'
  {
    if s != [] {
      if escape {
        ScanEndBound(s[1..], depth, inStr, false);
      } else if s[0] == '\\' && inStr {
        ScanEndBound(s[1..], depth, inStr, true);
      } else if s[0] == '"' {
        ScanEndBound(s[1..], depth, !inStr, false);
      } else if inStr {
        ScanEndBound(s[1..], depth, inStr, false);
      } else if s[0] == '{' {
        ScanEndBound(s[1..], depth + 1, inStr, false);
      } else if s[0] == '}' {
        ScanEndBound(s[1..], depth - 1, inStr, false);
      } else {
        ScanEndBound(s[1..], depth, inStr, false);
      }
    }
  }

  /** The inner loop of `extract_balanced_json`. */
  method FindEnd(candidate: string) returns (end: Option<nat>)
    ensures end == ScanEnd(candidate, 0, false, false)
  {
    var depth, inStr, escape := 0, false, false;
    var i: nat := 0;
    assert candidate[0..] == candidate;
    while i < |candidate|
      invariant i <= |candidate|
      invariant Plus(ScanEnd(candidate[i..], depth, inStr, escape), i) == ScanEnd(candidate, 0, false, false)
    {
      var ch := candidate[i];
      assert candidate[i..][1..] == candidate[i + 1..];
      if escape {
        escape := false;
      } else if ch == '\\' && inStr {
        escape := true;
      } else if ch == '"' {
        inStr := !inStr;
      } else if !inStr {
        if ch == '{' {
          depth := depth + 1;
        } else if ch == '}' {
          depth := depth - 1;
          if depth == 0 {
            return Some(i);
          }
        }
      }
      i := i + 1;
    }
    return None;
  }

  predicate HasAt(s: string, t: string, i: nat) {
    i + |t| <= |s| && s[i..i + |t|] == t
  }

  predicate Contains(s: string, t: string) {
    exists i :: 0 <= i <= |s| && HasAt(s, t, i)
  }

  predicate HoldsKey(json: string, key: string) {
    var obj := Decode(json);
    obj.Some? && Get(obj.value, key).Some?
  }

  /** What a candidate starting at a brace yields. */
  function Candidate(s: string, key: string): Option<string> {
    if !Contains(s, "\"" + key + "\"") then None
    else
      var end := ScanEnd(s, 0, false, false);
      if end.Some? && end.value < |s| && HoldsKey(s[..end.value + 1], key) then Some(s[..end.value + 1]) else None
  }

  function ExtractFrom(s: string, key: string): Option<string> {
    if s == [] then None
    else if s[0] == '{' && Candidate(s, key).Some? then Candidate(s, key)
    else ExtractFrom(s[1..], key)
  }

  /** One round of the outer loop. */
  method TryCandidate(candidate: string, key: string) returns (json: Option<string>)
    ensures json == Candidate(candidate, key)
  {
    hide HoldsKey, ScanEnd, Contains;
    if !Contains(candidate, "\"" + key + "\"") {
      return None;
    }
    var end := FindEnd(candidate);
    ScanEndBound(candidate, 0, false, false);
    if end.Some? && HoldsKey(candidate[..end.value + 1], key) {
      return Some(candidate[..end.value + 1]);
    }
    return None;
  }

  /** `extract_balanced_json`. */
  method ExtractBalancedJson(text: string, key: string) returns (json: Option<string>)
    ensures json == ExtractFrom(Normalize(text), key)
  {
    var normalized := Normalize(text);
    var start: nat := 0;
    assert normalized[0..] == normalized;
    while start < |normalized|
      invariant start <= |normalized|
      invariant ExtractFrom(normalized[start..], key) == ExtractFrom(normalized, key)
    {
      assert normalized[start..][1..] == normalized[start + 1..];
      if normalized[start] == '{' {
        json := TryCandidate(normalized[start..], key);
        if json.Some? {
          return;
        }
      }
      start := start + 1;
    }
    return None;
  }

  // ---- Scanning what was printed

  lemma {:induction false} ScanPlain(p: string, t: string, depth: int, inStr: bool)
    requires forall i :: 0 <= i < |p| ==> p[i] != '"' && p[i] != '\\' && (!inStr ==> p[i] != '{' && p[i] != '}')
    ensures ScanEnd(p + t, depth, inStr, false) == Plus(ScanEnd(t, depth, inStr, false), |p|)
  {
    if p == [] {
      assert p + t == t;
    } else {
      assert (p + t)[1..] == p[1..] + t;
      ScanPlain(p[1..], t, depth, inStr);
    }
  }

  lemma ScanPrintedChar(c: char, guard: bool, t: string, depth: int)
    ensures ScanEnd(PrintChar(c, guard) + t, depth, true, false) ==
            Plus(ScanEnd(t, depth, true, false), |PrintChar(c, guard)|)
  {
    var s := PrintChar(c, guard) + t;
    assert s[0] == PrintChar(c, guard)[0];
    if |PrintChar(c, guard)| == 1 {
      assert s[1..] == t;
    } else {
      var tail := PrintChar(c, guard)[2..];
      assert s[1..][1..] == tail + t;
      HexPlain(c as int % 16);
      assert c as int / 16 < 16 ==> tail == [] || tail == ['0', '0', HexDigit(c as int / 16), HexDigit(c as int % 16)];
      if c as int / 16 < 16 {
        HexPlain(c as int / 16);
      }
      ScanPlain(tail, t, depth, true);
    }
  }

  lemma HexPlain(d: nat)
    requires d < 16
    ensures HexDigit(d) != '"' && HexDigit(d) != '\\'
  {
  }

  lemma {:induction false} ScanPrintedChars(s: string, guard: bool, t: string, depth: int)
    ensures ScanEnd(PrintChars(s, guard) + t, depth, true, false) ==
            Plus(ScanEnd(t, depth, true, false), |PrintChars(s, guard)|)
  {
    if s == [] {
      assert PrintChars(s, guard) + t == t;
    } else {
      var rest := PrintChars(s[1..], guard);
      assert PrintChars(s, guard) + t == PrintChar(s[0], guard) + (rest + t);
      ScanPrintedChar(s[0], guard, rest + t, depth);
      ScanPrintedChars(s[1..], guard, t, depth);
    }
  }

  /** Outside strings, the scanner passes over `p` to whatever follows, at the same depth. */
  ghost predicate Passes(p: string, depth: int) {
    forall t :: ScanEnd(p + t, depth, false, false) == Plus(ScanEnd(t, depth, false, false), |p|)
  }

  lemma PassesBoth(p: string, q: string, depth: int)
    requires Passes(p, depth) && Passes(q, depth)
    ensures Passes(p + q, depth)
  {
    hide Passes, ScanEnd;
    forall t ensures ScanEnd(p + q + t, depth, false, false) == Plus(ScanEnd(t, depth, false, false), |p + q|) {
      BothShape(p, q, t);
      PassOver(p, q + t, depth);
      PassOver(q, t, depth);
    }
    PassesAll(p + q, depth);
  }

  lemma PassesAll(p: string, depth: int)
    requires forall t :: ScanEnd(p + t, depth, false, false) == Plus(ScanEnd(t, depth, false, false), |p|)
    ensures Passes(p, depth)
  {
    hide ScanEnd;
  }

  lemma BothShape(p: string, q: string, t: string)
    ensures p + q + t == p + (q + t)
  {
  }

  lemma PassOver(p: string, t: string, depth: int)
    requires Passes(p, depth)
    ensures ScanEnd(p + t, depth, false, false) == Plus(ScanEnd(t, depth, false, false), |p|)
  {
  }

  lemma PassesPlain(p: string, depth: int)
    requires forall i :: 0 <= i < |p| ==> p[i] != '"' && p[i] != '\\' && p[i] != '{' && p[i] != '}'
    ensures Passes(p, depth)
  {
    forall t ensures ScanEnd(p + t, depth, false, false) == Plus(ScanEnd(t, depth, false, false), |p|) {
      ScanPlain(p, t, depth, false);
    }
  }

  lemma PassesQuoted(s: string, guard: bool, depth: int)
    ensures Passes("\"" + PrintChars(s, guard) + "\"", depth)
  {
    var p, chars := "\"" + PrintChars(s, guard) + "\"", PrintChars(s, guard);
    forall t ensures ScanEnd(p + t, depth, false, false) == Plus(ScanEnd(t, depth, false, false), |p|) {
      assert (p + t)[1..] == chars + ("\"" + t);
      ScanPrintedChars(s, guard, "\"" + t, depth);
      assert ("\"" + t)[1..] == t;
    }
  }

  lemma PassesValue(v: Value, guard: bool, depth: int)
    ensures Passes(PrintValue(v, guard), depth)
  {
    match v
    case Str(text) => PassesQuoted(text, guard, depth);
    case Num(n) =>
      NumScans(n);
      PassesPlain(PrintNum(n), depth);
  }

  lemma NumScans(n: int)
    ensures var p := PrintNum(n);
            forall i :: 0 <= i < |p| ==> p[i] != '"' && p[i] != '\\' && p[i] != '{' && p[i] != '}'
  {
    var p, d := PrintNum(n), Dec(if n < 0 then -n else n);
    forall i | 0 <= i < |p| ensures p[i] == '-' || IsDigit(p[i]) {
      assert n >= 0 ==> p[i] in d;
      assert n < 0 && i > 0 ==> p[i] in d;
    }
  }

  lemma PassesField(f: Field, guard: bool, depth: int)
    ensures Passes(PrintField(f, guard), depth)
  {
    var key := "\"" + PrintChars(f.key, guard) + "\"";
    FieldShape(f, guard);
    PassesQuoted(f.key, guard, depth);
    PassesPlain(":", depth);
    PassesValue(f.value, guard, depth);
    PassesBoth(key, ":", depth);
    PassesBoth(key + ":", PrintValue(f.value, guard), depth);
  }

  lemma {:induction false} PassesFields(obj: seq<Field>, guard: bool, depth: int)
    ensures Passes(PrintFields(obj, guard), depth)
  {
    if obj == [] {
      PassesPlain([], depth);
    } else {
      PassesField(obj[0], guard, depth);
      if |obj| > 1 {
        var p := PrintField(obj[0], guard);
        PassesPlain(",", depth);
        PassesFields(obj[1..], guard, depth);
        PassesBoth(p, ",", depth);
        PassesBoth(p + ",", PrintFields(obj[1..], guard), depth);
      }
    }
  }

  lemma ScanBraces(fields: string, t: string)
    requires Passes(fields, 1)
    ensures ScanEnd("{" + fields + "}" + t, 0, false, false) == Some(|fields| + 1)
  {
    var whole := "{" + fields + "}" + t;
    assert whole[1..] == fields + ("}" + t);
    PassOver(fields, "}" + t, 1);
  }

  /** The scanner ends a printed object exactly at its own closing brace, whatever its strings hold. */
  lemma ScanPrinted(obj: seq<Field>, guard: bool, t: string)
    ensures ScanEnd(Print(obj, guard) + t, 0, false, false) == Some(|Print(obj, guard)| - 1)
  {
    PassesFields(obj, guard, 1);
    ScanBraces(PrintFields(obj, guard), t);
  }

  // ---- Finding it

  lemma HasPlain(p: string, w: string, q: string)
    ensures Contains(p + w + q, w)
  {
    assert HasAt(p + w + q, w, |p|);
  }

  /** A key that prints as itself. */
  ghost predicate PlainKey(key: string) {
    PrintChars(key, true) == key
  }

  lemma FirstKey(f: Field) returns (q: string)
    requires PlainKey(f.key)
    ensures PrintField(f, true) == ("\"" + f.key + "\"") + q
  {
    FieldShape(f, true);
    q := ":" + PrintValue(f.value, true);
  }

  lemma {:induction false} PrintsKey(obj: seq<Field>, i: nat) returns (p: string, q: string)
    requires i < |obj| && PlainKey(obj[i].key)
    ensures PrintFields(obj, true) == p + ("\"" + obj[i].key + "\"") + q
  {
    hide PrintField, PrintFields, PlainKey;
    var w := "\"" + obj[i].key + "\"";
    PrintFieldsShape(obj);
    if i == 0 {
      q := FirstKey(obj[0]);
      p := [];
      if |obj| > 1 {
        Suffixed(w, q, "," + PrintFields(obj[1..], true));
        q := q + ("," + PrintFields(obj[1..], true));
      }
      assert p + w == w;
    } else {
      var p1;
      p1, q := PrintsKey(obj[1..], i - 1);
      p := PrintField(obj[0], true) + "," + p1;
      Prefixed(PrintField(obj[0], true) + ",", p1, w, q);
    }
  }

  lemma PrintFieldsShape(obj: seq<Field>)
    requires obj != []
    ensures PrintFields(obj, true) ==
            if |obj| == 1 then PrintField(obj[0], true)
            else PrintField(obj[0], true) + "," + PrintFields(obj[1..], true)
    ensures |obj| > 1 ==>
            PrintFields(obj, true) == PrintField(obj[0], true) + ("," + PrintFields(obj[1..], true))
  {
    hide PrintField;
  }

  lemma Suffixed(w: string, q: string, r: string)
    ensures (w + q) + r == w + (q + r)
  {
  }

  lemma Prefixed(a: string, p: string, w: string, q: string)
    ensures a + (p + w + q) == (a + p) + w + q
  {
  }

  lemma GetAt(obj: seq<Field>, key: string, i: nat)
    requires i < |obj| && obj[i].key == key
    ensures Get(obj, key).Some?
  {
    if i < |obj| - 1 && obj[|obj| - 1].key != key {
      GetAt(obj[..|obj| - 1], key, i);
    }
  }

  lemma KeyInside(obj: seq<Field>, i: nat, t: string)
    requires i < |obj| && PlainKey(obj[i].key)
    ensures Contains(Print(obj, true) + t, "\"" + obj[i].key + "\"")
  {
    hide PrintFields, Contains, PlainKey;
    var p, q := PrintsKey(obj, i);
    var w := "\"" + obj[i].key + "\"";
    assert Print(obj, true) + t == ("{" + p) + w + (q + "}" + t);
    HasPlain("{" + p, w, q + "}" + t);
  }

  lemma CandidateIs(c: string, t: string, key: string, obj: seq<Field>)
    requires c != "" && Contains(c + t, "\"" + key + "\"") && ScanEnd(c + t, 0, false, false) == Some(|c| - 1)
    requires Decode(c) == Some(obj) && Get(obj, key).Some?
    ensures Candidate(c + t, key) == Some(c)
  {
    assert (c + t)[..|c|] == c;
  }

  /** A printed object with the key, followed by anything, is the candidate it starts. */
  lemma CandidateOf(obj: seq<Field>, i: nat, t: string)
    requires i < |obj| && PlainKey(obj[i].key) && Printable(obj)
    ensures Candidate(Print(obj, true) + t, obj[i].key) == Some(Print(obj, true))
  {
    KeyInside(obj, i, t);
    ScanPrinted(obj, true, t);
    DecodePrinted(obj, true);
    GetAt(obj, obj[i].key, i);
    CandidateIs(Print(obj, true), t, obj[i].key, obj);
  }

  lemma {:induction false} ExtractAfter(p: string, s: string, key: string)
    requires '{' !in p
    ensures ExtractFrom(p + s, key) == ExtractFrom(s, key)
  {
    if p == [] {
      assert p + s == s;
    } else {
      assert (p + s)[1..] == p[1..] + s;
      ExtractAfter(p[1..], s, key);
    }
  }

  lemma FoundIn(before: string, c: string, after: string, key: string)
    requires '{' !in before && c != "" && c[0] == '{' && Candidate(c + after, key) == Some(c)
    ensures ExtractFrom(before + c + after, key) == Some(c)
  {
    assert before + c + after == before + (c + after);
    ExtractAfter(before, c + after, key);
  }

  lemma PrintedBrace(obj: seq<Field>)
    ensures Print(obj, true) != "" && Print(obj, true)[0] == '{'
  {
  }

  /**
   A caption is found again inside any surrounding text that opens no brace before it: as sent
   when that text has no markup, and always after the whole text has been HTML-escaped.
   */
  lemma CaptionIsFound(before: string, obj: seq<Field>, i: nat, key: string, after: string)
    requires i < |obj| && obj[i].key == key && PlainKey(key) && Printable(obj)
    requires '{' !in before
    ensures var text := before + Print(obj, true) + after;
            && ExtractFrom(Normalize(Html.Escape(text)), key) == Some(Print(obj, true))
            && (NoMarkup(before) && NoMarkup(after) ==> ExtractFrom(Normalize(text), key) == Some(Print(obj, true)))
  {
    hide Normalize, ExtractFrom, Print, Printable, PlainKey;
    CandidateOf(obj, i, after);
    PrintedBrace(obj);
    FoundIn(before, Print(obj, true), after, key);
    CaptionLength(obj);
    NormalizeRecovers(before + Print(obj, true) + after);
  }

  /**
   The object found lies in the text, between braces, is readable and has the key, and the key is
   written out in quotes from there on.
   */
  lemma {:induction false} ExtractSound(s: string, key: string, json: string) returns (at: nat)
    requires ExtractFrom(s, key) == Some(json)
    ensures at <= |s| && json <= s[at..] && json != "" && json[0] == '{' && json[|json| - 1] == '}'
    ensures exists obj :: Decode(json) == Some(obj) && Get(obj, key).Some?
    ensures Contains(s[at..], "\"" + key + "\"")
  {
    hide Decode, ScanEnd, Get, Contains;
    if s[0] == '{' && Candidate(s, key).Some? {
      ScanEndBound(s, 0, false, false);
      at := 0;
      assert s[0..] == s;
      assert Decode(json) == Some(Decode(json).value);
    } else {
      at := ExtractSound(s[1..], key, json);
      assert s[1..][at..] == s[at + 1..];
      at := at + 1;
    }
  }

  /** The first brace that starts such an object is the one taken. */
  lemma {:induction false} ExtractFirst(s: string, key: string, at: nat)
    requires at < |s| && s[at] == '{' && Candidate(s[at..], key).Some?
    requires forall i :: 0 <= i < at && s[i] == '{' ==> Candidate(s[i..], key).None?
    ensures ExtractFrom(s, key) == Candidate(s[at..], key)
  {
    hide Candidate;
    if at == 0 {
      assert s[0..] == s;
    } else {
      assert s[0..] == s;
      forall i | 0 <= i < at - 1 && s[1..][i] == '{' ensures Candidate(s[1..][i..], key).None? {
        assert s[1..][i..] == s[i + 1..];
      }
      assert s[1..][at - 1..] == s[at..];
      ExtractFirst(s[1..], key, at - 1);
    }
  }

  predicate Lower(key: string) {
    forall i :: 0 <= i < |key| ==> 'a' <= key[i] <= 'z' || key[i] == '_'
  }

  lemma {:induction false} PlainKeyOf(key: string)
    requires Lower(key)
    ensures PlainKey(key)
  {
    if key != [] {
      PlainKeyOf(key[1..]);
      assert PrintChar(key[0], true) == [key[0]];
    }
  }

  /** A caption as it may be handed back: as sent, or HTML-escaped. */
  function Shown(text: string, escaped: bool): string {
    if escaped then Html.Escape(text) else text
  }

  lemma FoundEitherWay(before: string, json: string, obj: seq<Field>, i: nat, key: string, after: string, escaped: bool)
    requires i < |obj| && obj[i].key == key && Lower(key) && Printable(obj) && json == Print(obj, true)
    requires '{' !in before && (escaped || (NoMarkup(before) && NoMarkup(after)))
    ensures ExtractFrom(Normalize(Shown(before + json + after, escaped)), key) == Some(json)
  {
    PlainKeyOf(key);
    CaptionIsFound(before, obj, i, key, after);
  }

  // ---- Track captions

  datatype TrackMeta = TrackMeta(trackId: string, codec: Codec)

  function Canonical(codec: Option<string>): Codec {
    if codec.Some? && ParseCodec(codec.value).Some? then ParseCodec(codec.value).value else Alac
  }

  /** No codec, or a text that names none, stands for ALAC. */
  lemma CanonicalWritten(text: string)
    ensures Canonical(None) == Alac
    ensures ParseCodec(text).None? ==> Canonical(Some(text)) == Alac
    ensures Canonical(Some("aac")) == Aac && Canonical(Some("ec-3")) == Ec3 && Canonical(Some("alac")) == Alac
  {
    CodecRoundTrip(Alac);
    CodecRoundTrip(Aac);
    CodecRoundTrip(Ec3);
  }

  function TrackPayload(trackId: string, codec: Option<string>): seq<Field> {
    [Field("codec", Str(AsStr(Canonical(codec)))), Field("track_id", Str(trackId))]
  }

  lemma TrackPayloadFits(trackId: string, codec: Option<string>)
    ensures SkeletonFits(TrackPayload(trackId, codec)) && Printable(TrackPayload(trackId, codec))
  {
    var obj := TrackPayload(trackId, codec);
    assert KeyBudget(obj) == 6 * 5 + 25 + KeyBudget(obj[1..]);
    assert KeyBudget(obj[1..]) == 6 * 8 + 25 + KeyBudget(obj[2..]) by { assert obj[1..][1..] == obj[2..]; }
    assert KeyBudget(obj[2..]) == 0;
    BudgetFits(obj);
  }

  /** `format_dump_caption`. */
  function FormatDumpCaption(trackId: string, codec: Option<string>): string {
    TrackPayloadFits(trackId, codec);
    Print(Settle(TrackPayload(trackId, codec)), true)
  }

  /** The parsers refuse an empty id. */
  function OrNone<T>(id: string, meta: T): Option<T> {
    if id == "" then None else Some(meta)
  }

  function TextOf(obj: seq<Field>, key: string): Option<string> {
    var v := Get(obj, key);
    if v.Some? && v.value.Str? then Some(v.value.text) else None
  }

  /** `parse_dump_caption`. */
  function ParseDumpCaption(text: string): Option<TrackMeta> {
    var json := ExtractFrom(Normalize(text), "track_id");
    if json.None? || Decode(json.value).None? then None
    else
      var obj := Decode(json.value).value;
      var id := TextOf(obj, "track_id");
      if id.None? || id.value == "" then None else Some(TrackMeta(id.value, Canonical(TextOf(obj, "codec"))))
  }

  lemma GetTrack(trackId: string, codec: string)
    ensures var obj := [Field("codec", Str(codec)), Field("track_id", Str(trackId))];
            Get(obj, "track_id") == Some(Str(trackId)) && Get(obj, "codec") == Some(Str(codec))
  {
    var obj := [Field("codec", Str(codec)), Field("track_id", Str(trackId))];
    assert obj[..1] == [Field("codec", Str(codec))];
    assert "codec" != "track_id";
  }

  lemma ParseDumpOf(text: string, json: string, obj: seq<Field>, trackId: string, codec: Codec)
    requires ExtractFrom(Normalize(text), "track_id") == Some(json) && Decode(json) == Some(obj)
    requires obj == [Field("codec", Str(AsStr(codec))), Field("track_id", Str(trackId))]
    ensures ParseDumpCaption(text) == OrNone(trackId, TrackMeta(trackId, codec))
  {
    GetTrack(trackId, AsStr(codec));
    CodecRoundTrip(codec);
  }

  /**
   For every track id whose caption needs no clamping, parsing the caption, or its HTML-escaped
   form, alone or amid other text, gives back the id and the canonical codec, or nothing when
   the id is empty.
   */
  lemma TrackCaptionRoundTrip(before: string, trackId: string, codec: Option<string>, after: string, escaped: bool)
    requires Length(TrackPayload(trackId, codec)) <= 1024
    requires '{' !in before && (escaped || (NoMarkup(before) && NoMarkup(after)))
    ensures ParseDumpCaption(Shown(before + FormatDumpCaption(trackId, codec) + after, escaped))
            == OrNone(trackId, TrackMeta(trackId, Canonical(codec)))
  {
    TrackUncut(trackId, codec);
    TrackShown(before, FormatDumpCaption(trackId, codec), trackId, codec, after, escaped);
  }

  lemma TrackShown(before: string, json: string, trackId: string, codec: Option<string>, after: string, escaped: bool)
    requires json == Print(TrackPayload(trackId, codec), true)
    requires '{' !in before && (escaped || (NoMarkup(before) && NoMarkup(after)))
    ensures ParseDumpCaption(Shown(before + json + after, escaped)) ==
            OrNone(trackId, TrackMeta(trackId, Canonical(codec)))
  {
    TrackFound(before, json, trackId, codec, after, escaped);
    TrackParsed(Shown(before + json + after, escaped), json, trackId, codec);
  }

  lemma TrackPrintable(trackId: string, codec: Option<string>)
    ensures Printable(TrackPayload(trackId, codec))
  {
    TrackPayloadFits(trackId, codec);
  }

  lemma TrackFound(before: string, json: string, trackId: string, codec: Option<string>, after: string, escaped: bool)
    requires json == Print(TrackPayload(trackId, codec), true)
    requires '{' !in before && (escaped || (NoMarkup(before) && NoMarkup(after)))
    ensures ExtractFrom(Normalize(Shown(before + json + after, escaped)), "track_id") == Some(json)
  {
    hide Print, Normalize, Shown, ExtractFrom, Printable, AsStr, Canonical;
    TrackPrintable(trackId, codec);
    FoundEitherWay(before, json, TrackPayload(trackId, codec), 1, "track_id", after, escaped);
  }

  lemma TrackUncut(trackId: string, codec: Option<string>)
    requires Length(TrackPayload(trackId, codec)) <= MAX_CAPTION
    ensures FormatDumpCaption(trackId, codec) == Print(TrackPayload(trackId, codec), true)
    ensures Printable(TrackPayload(trackId, codec))
  {
    TrackPayloadFits(trackId, codec);
    SettleSound(TrackPayload(trackId, codec));
  }

  lemma TrackParsed(text: string, json: string, trackId: string, codec: Option<string>)
    requires json == Print(TrackPayload(trackId, codec), true)
    requires ExtractFrom(Normalize(text), "track_id") == Some(json)
    ensures ParseDumpCaption(text) == OrNone(trackId, TrackMeta(trackId, Canonical(codec)))
  {
    var obj := TrackPayload(trackId, codec);
    TrackPayloadFits(trackId, codec);
    DecodePrinted(obj, true);
    ParseDumpOf(text, Print(obj, true), obj, trackId, Canonical(codec));
  }

  /** A text field as it is written. */
  function Pair(key: string, text: string): string {
    "\"" + key + "\":\"" + PrintChars(text, true) + "\""
  }

  lemma PairPrinted(key: string, text: string)
    requires Lower(key)
    ensures PrintField(Field(key, Str(text)), true) == Pair(key, text)
  {
    hide PrintChars;
    PlainKeyOf(key);
    FieldShape(Field(key, Str(text)), true);
  }

  /** The text of a caption that needs no clamping. */
  lemma TrackCaptionWritten(trackId: string, codec: Option<string>)
    ensures var text := "{" + Pair("codec", AsStr(Canonical(codec))) + "," + Pair("track_id", trackId) + "}";
            Utf16Len(text) <= 1024 ==> FormatDumpCaption(trackId, codec) == text
  {
    hide Pair, Print, AsStr, Canonical, PrintField, FormatDumpCaption;
    var a, b := Field("codec", Str(AsStr(Canonical(codec)))), Field("track_id", Str(trackId));
    PairPrinted("codec", AsStr(Canonical(codec)));
    PairPrinted("track_id", trackId);
    TwoPrinted(a, b);
    if Length([a, b]) <= MAX_CAPTION {
      TrackUncut(trackId, codec);
    }
  }

  lemma TwoPrinted(a: Field, b: Field)
    ensures Print([a, b], true) == "{" + PrintField(a, true) + "," + PrintField(b, true) + "}"
  {
    hide PrintField;
    PrintFieldsShape([a, b]);
    PrintFieldsShape([b]);
    assert [a, b][1..] == [b];
  }

  // ---- Archive captions

  datatype ZipMeta = ZipMeta(albumId: string, codec: Codec, part: int, totalParts: int, hash: string)

  predicate IsI32(n: int) {
    I32_MIN <= n <= I32_MAX
  }

  function ZipPayload(albumId: string, codec: Option<string>, part: int, total: int, hash: string): seq<Field> {
    [Field("album_id", Str(albumId)),
     Field("codec", Str(if codec.Some? then codec.value else "alac")),
     Field("hash", Str(hash)),
     Field("part", Num(part)),
     Field("total_parts", Num(total)),
     Field("type", Str("album_zip"))]
  }

  lemma ZipPayloadFits(albumId: string, codec: Option<string>, part: int, total: int, hash: string)
    requires IsI32(part) && IsI32(total)
    ensures SkeletonFits(ZipPayload(albumId, codec, part, total, hash))
            && Printable(ZipPayload(albumId, codec, part, total, hash))
  {
    var obj := ZipPayload(albumId, codec, part, total, hash);
    assert KeyBudget(obj) == 6 * 36 + 6 * 25 by {
      assert KeyBudget(obj) == 6 * 8 + 25 + KeyBudget(obj[1..]);
      assert KeyBudget(obj[1..]) == 6 * 5 + 25 + KeyBudget(obj[2..]) by { assert obj[1..][1..] == obj[2..]; }
      assert KeyBudget(obj[2..]) == 6 * 4 + 25 + KeyBudget(obj[3..]) by { assert obj[2..][1..] == obj[3..]; }
      assert KeyBudget(obj[3..]) == 6 * 4 + 25 + KeyBudget(obj[4..]) by { assert obj[3..][1..] == obj[4..]; }
      assert KeyBudget(obj[4..]) == 6 * 11 + 25 + KeyBudget(obj[5..]) by { assert obj[4..][1..] == obj[5..]; }
      assert KeyBudget(obj[5..]) == 6 * 4 + 25 + KeyBudget(obj[6..]) by { assert obj[5..][1..] == obj[6..]; }
    }
    BudgetFits(obj);
  }

  /** `format_zip_dump_caption`. */
  function FormatZipCaption(albumId: string, codec: Option<string>, part: int, total: int, hash: string,
        isComplete: bool): string
    requires IsI32(part) && IsI32(total)
  {
    if !isComplete then ""
    else
      ZipPayloadFits(albumId, codec, part, total, hash);
      Print(Settle(ZipPayload(albumId, codec, part, total, hash)), true)
  }

  /** `as_i64` or one, at least one, cut to 32 bits. */
  function NumberField(obj: seq<Field>, key: string): int {
    var v := Get(obj, key);
    var n := if v.Some? && v.value.Num? && v.value.n < 0x8000_0000_0000_0000 then v.value.n else 1;
    WrapI32(if n < 1 then 1 else n)
  }

  function WrapI32(n: int): int {
    var m := n % (U32_MAX + 1);
    if m > I32_MAX then m - (U32_MAX + 1) else m
  }

  /** `parse_zip_dump_caption`. */
  function ParseZipCaption(text: string): Option<ZipMeta> {
    var json := ExtractFrom(Normalize(text), "album_id");
    if json.None? || Decode(json.value).None? then None
    else
      var obj := Decode(json.value).value;
      var id, hash := TextOf(obj, "album_id"), TextOf(obj, "hash");
      if id.None? || id.value == "" then None
      else
        Some(ZipMeta(id.value, Canonical(TextOf(obj, "codec")), NumberField(obj, "part"),
          NumberField(obj, "total_parts"),
                     if hash.Some? then hash.value else ""))
  }

  lemma GetDistinct(obj: seq<Field>, i: nat)
    requires i < |obj| && forall j :: i < j < |obj| ==> obj[j].key != obj[i].key
    ensures Get(obj, obj[i].key) == Some(obj[i].value)
  {
    if i < |obj| - 1 {
      GetDistinct(obj[..|obj| - 1], i);
    }
  }

  function AtLeastOne(n: int): int {
    if n < 1 then 1 else n
  }

  /** A number of 32 bits is read back raised to at least one. */
  lemma NumberRead(obj: seq<Field>, key: string, n: int)
    requires Get(obj, key) == Some(Num(n)) && IsI32(n)
    ensures NumberField(obj, key) == AtLeastOne(n)
  {
    hide Get;
  }

  lemma ZipFields(obj: seq<Field>, albumId: string, codec: string, part: int, total: int, hash: string)
    requires obj == ZipPayload(albumId, Some(codec), part, total, hash)
    ensures Get(obj, "album_id") == Some(Str(albumId)) && Get(obj, "codec") == Some(Str(codec))
    ensures Get(obj, "hash") == Some(Str(hash)) && Get(obj, "part") == Some(Num(part))
    ensures Get(obj, "total_parts") == Some(Num(total))
  {
    hide Get;
    assert |"album_id"| == 8 && |"codec"| == 5 && |"total_parts"| == 11;
    assert "hash"[0] == 'h' && "part"[0] == 'p' && "type"[0] == 't';
    GetDistinct(obj, 0);
    GetDistinct(obj, 1);
    GetDistinct(obj, 2);
    GetDistinct(obj, 3);
    GetDistinct(obj, 4);
  }

  lemma ZipMetaOf(obj: seq<Field>, albumId: string, codec: string, part: int, total: int, hash: string)
    requires obj == ZipPayload(albumId, Some(codec), part, total, hash) && IsI32(part) && IsI32(total)
    ensures TextOf(obj, "album_id") == Some(albumId) && TextOf(obj, "codec") == Some(codec)
            && TextOf(obj, "hash") == Some(hash)
    ensures NumberField(obj, "part") == AtLeastOne(part) && NumberField(obj, "total_parts") == AtLeastOne(total)
  {
    hide Get, ZipPayload, NumberField, AtLeastOne;
    ZipFields(obj, albumId, codec, part, total, hash);
    NumberRead(obj, "part", part);
    NumberRead(obj, "total_parts", total);
  }

  lemma ParseZipOf(text: string, json: string, obj: seq<Field>, albumId: string, codec: string, part: int,
        total: int, hash: string)
    requires ExtractFrom(Normalize(text), "album_id") == Some(json) && Decode(json) == Some(obj)
    requires obj == ZipPayload(albumId, Some(codec), part, total, hash) && IsI32(part) && IsI32(total)
    ensures ParseZipCaption(text) ==
            OrNone(albumId, ZipMeta(albumId, Canonical(Some(codec)), AtLeastOne(part), AtLeastOne(total), hash))
  {
    ZipMetaOf(obj, albumId, codec, part, total, hash);
  }

  lemma CanonicalDefault(codec: Option<string>)
    ensures Canonical(Some(if codec.Some? then codec.value else "alac")) == Canonical(codec)
  {
    CodecRoundTrip(Alac);
  }

  /**
   The archive pair undoes itself too: the numbers come back raised to at least one, the codec
   as whatever its text parses to. Nothing is written for an incomplete archive.
   */
  lemma ZipCaptionRoundTrip(before: string, albumId: string, codec: Option<string>, part: int, total: int,
        hash: string, after: string,
                            escaped: bool)
    requires IsI32(part) && IsI32(total)
    requires Length(ZipPayload(albumId, codec, part, total, hash)) <= 1024
    requires '{' !in before && (escaped || (NoMarkup(before) && NoMarkup(after)))
    ensures ParseZipCaption(Shown(before + FormatZipCaption(albumId, codec, part, total, hash, true) + after, escaped))
            == OrNone(albumId, ZipMeta(albumId, Canonical(codec), AtLeastOne(part), AtLeastOne(total), hash))
  {
    ZipUncut(albumId, codec, part, total, hash);
    ZipShown(before, FormatZipCaption(albumId, codec, part, total, hash, true), albumId, codec, part, total, hash,
      after, escaped);
  }

  lemma ZipShown(before: string, json: string, albumId: string, codec: Option<string>, part: int, total: int,
        hash: string,
                 after: string, escaped: bool)
    requires IsI32(part) && IsI32(total) && json == Print(ZipPayload(albumId, codec, part, total, hash), true)
    requires '{' !in before && (escaped || (NoMarkup(before) && NoMarkup(after)))
    ensures ParseZipCaption(Shown(before + json + after, escaped))
            == OrNone(albumId, ZipMeta(albumId, Canonical(codec), AtLeastOne(part), AtLeastOne(total), hash))
  {
    ZipFound(before, json, albumId, codec, part, total, hash, after, escaped);
    ZipParsed(Shown(before + json + after, escaped), json, albumId, codec, part, total, hash);
  }

  lemma ZipFound(before: string, json: string, albumId: string, codec: Option<string>, part: int, total: int,
        hash: string,
                 after: string, escaped: bool)
    requires IsI32(part) && IsI32(total) && json == Print(ZipPayload(albumId, codec, part, total, hash), true)
    requires '{' !in before && (escaped || (NoMarkup(before) && NoMarkup(after)))
    ensures ExtractFrom(Normalize(Shown(before + json + after, escaped)), "album_id") == Some(json)
  {
    hide Print, Normalize, Shown, ExtractFrom, Printable, ZipPayload;
    var obj := ZipPayload(albumId, codec, part, total, hash);
    ZipKey(obj, albumId, codec, part, total, hash);
    FoundEitherWay(before, json, obj, 0, "album_id", after, escaped);
  }

  lemma ZipKey(obj: seq<Field>, albumId: string, codec: Option<string>, part: int, total: int, hash: string)
    requires obj == ZipPayload(albumId, codec, part, total, hash) && IsI32(part) && IsI32(total)
    ensures |obj| == 6 && obj[0].key == "album_id" && Printable(obj)
  {
  }

  lemma ZipUncut(albumId: string, codec: Option<string>, part: int, total: int, hash: string)
    requires IsI32(part) && IsI32(total) && Length(ZipPayload(albumId, codec, part, total, hash)) <= MAX_CAPTION
    ensures FormatZipCaption(albumId, codec, part, total, hash, true) ==
            Print(ZipPayload(albumId, codec, part, total, hash), true)
    ensures Printable(ZipPayload(albumId, codec, part, total, hash))
  {
    ZipPayloadFits(albumId, codec, part, total, hash);
    SettleSound(ZipPayload(albumId, codec, part, total, hash));
  }

  lemma ZipParsed(text: string, json: string, albumId: string, codec: Option<string>, part: int, total: int,
        hash: string)
    requires IsI32(part) && IsI32(total)
    requires json == Print(ZipPayload(albumId, codec, part, total, hash), true)
    requires ExtractFrom(Normalize(text), "album_id") == Some(json)
    ensures ParseZipCaption(text) ==
            OrNone(albumId, ZipMeta(albumId, Canonical(codec), AtLeastOne(part), AtLeastOne(total), hash))
  {
    var obj := ZipPayload(albumId, codec, part, total, hash);
    ZipPayloadFits(albumId, codec, part, total, hash);
    DecodePrinted(obj, true);
    CanonicalDefault(codec);
    ParseZipOf(text, Print(obj, true), obj, albumId, if codec.Some? then codec.value else "alac", part, total, hash);
  }

  /** A number field as it is written. */
  function NumberPair(key: string, n: int): string {
    "\"" + key + "\":" + (if n < 0 then "-" + Dec(-n) else Dec(n))
  }

  lemma NumberPairPrinted(key: string, n: int)
    requires Lower(key)
    ensures PrintField(Field(key, Num(n)), true) == NumberPair(key, n)
  {
    hide PrintChars;
    PlainKeyOf(key);
    FieldShape(Field(key, Num(n)), true);
  }

  function Fields6(a: string, b: string, c: string, d: string, e: string, f: string): string {
    "{" + (a + ("," + (b + ("," + (c + ("," + (d + ("," + (e + ("," + f)))))))))) + "}"
  }

  lemma SixPrinted(obj: seq<Field>)
    requires |obj| == 6
    ensures Print(obj, true) == Fields6(PrintField(obj[0], true), PrintField(obj[1], true), PrintField(obj[2], true),
                                        PrintField(obj[3], true), PrintField(obj[4], true), PrintField(obj[5], true))
  {
    hide PrintField, PrintFields;
    PrintFieldsShape(obj);
    PrintFieldsShape(obj[1..]);
    PrintFieldsShape(obj[2..]);
    PrintFieldsShape(obj[3..]);
    PrintFieldsShape(obj[4..]);
    PrintFieldsShape(obj[5..]);
    assert obj[1..][1..] == obj[2..] && obj[2..][1..] == obj[3..] && obj[3..][1..] == obj[4..];
    assert obj[4..][1..] == obj[5..];
  }

  /** The text of an archive caption that needs no clamping; nothing is written before every part is there. */
  lemma ZipCaptionWritten(albumId: string, codec: Option<string>, part: int, total: int, hash: string)
    requires IsI32(part) && IsI32(total)
    ensures FormatZipCaption(albumId, codec, part, total, hash, false) == ""
    ensures var text := Fields6(Pair("album_id", albumId), Pair("codec", if codec.Some? then codec.value else "alac"),
                                Pair("hash", hash), NumberPair("part", part), NumberPair("total_parts", total),
                                Pair("type", "album_zip"));
            Utf16Len(text) <= 1024 ==> FormatZipCaption(albumId, codec, part, total, hash, true) == text
  {
    hide Print, PrintField, Pair, NumberPair, Fields6;
    var obj := ZipPayload(albumId, codec, part, total, hash);
    SixPrinted(obj);
    PairPrinted("album_id", albumId);
    PairPrinted("codec", if codec.Some? then codec.value else "alac");
    PairPrinted("hash", hash);
    NumberPairPrinted("part", part);
    NumberPairPrinted("total_parts", total);
    PairPrinted("type", "album_zip");
    if Length(obj) <= MAX_CAPTION {
      ZipUncut(albumId, codec, part, total, hash);
    }
  }

  /** What a number field is read as: one when it is missing, no number, or beyond 63 bits. */
  lemma NumberFieldExactly(obj: seq<Field>, key: string)
    ensures var v, r := Get(obj, key), NumberField(obj, key);
            && (v.None? || v.value.Str? ==> r == 1)
            && (v.Some? && v.value.Num? && (v.value.n < 1 || v.value.n >= 0x8000_0000_0000_0000) ==> r == 1)
            && (v.Some? && v.value.Num? && 1 <= v.value.n <= 2147483647 ==> r == v.value.n)
            && (v.Some? && v.value.Num? && 1 <= v.value.n < 0x8000_0000_0000_0000 ==>
                  -2147483648 <= r <= 2147483647 && (v.value.n - r) % 0x1_0000_0000 == 0)
  {
    hide Get;
    var v := Get(obj, key);
    if v.Some? && v.value.Num? && 1 <= v.value.n < 0x8000_0000_0000_0000 {
      WrapExactly(v.value.n);
    }
  }

  lemma WrapExactly(n: nat)
    ensures var r := WrapI32(n);
            -2147483648 <= r <= 2147483647 && (n - r) % 0x1_0000_0000 == 0 && (n <= 2147483647 ==> r == n)
  {
    var m := n % 0x1_0000_0000;
    assert n - m == 0x1_0000_0000 * (n / 0x1_0000_0000);
  }

  // ---- Clamped captions

  /** Every track caption fits, and is still an object with the same keys. */
  lemma TrackCaptionFits(trackId: string, codec: Option<string>) returns (obj: seq<Field>)
    ensures Utf16Len(FormatDumpCaption(trackId, codec)) <= 1024
    ensures Decode(FormatDumpCaption(trackId, codec)) == Some(obj) && ObjectCut(TrackPayload(trackId, codec), obj)
  {
    TrackPayloadFits(trackId, codec);
    SettleSound(TrackPayload(trackId, codec));
    obj := Settle(TrackPayload(trackId, codec));
  }

  /** Every archive caption fits, and is still an object with the same keys and numbers. */
  lemma ZipCaptionFits(albumId: string, codec: Option<string>, part: int, total: int,
        hash: string) returns (obj: seq<Field>)
    requires IsI32(part) && IsI32(total)
    ensures Utf16Len(FormatZipCaption(albumId, codec, part, total, hash, true)) <= 1024
    ensures Decode(FormatZipCaption(albumId, codec, part, total, hash, true)) == Some(obj)
    ensures ObjectCut(ZipPayload(albumId, codec, part, total, hash), obj)
  {
    ZipPayloadFits(albumId, codec, part, total, hash);
    SettleSound(ZipPayload(albumId, codec, part, total, hash));
    obj := Settle(ZipPayload(albumId, codec, part, total, hash));
  }
}

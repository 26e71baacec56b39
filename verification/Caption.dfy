/** The channel captions of crates/bot/src/caption.rs: printing within the limit. */
module Caption {
  import opened Prelude
  import opened Text
  import opened Json
  import Html

  const MAX_CAPTION: nat := 1024

  // ---- The HTML guard

  function Subst(s: string, c: char, w: string): string {
    if s == [] then [] else (if s[0] == c then w else [s[0]]) + Subst(s[1..], c, w)
  }

  function Guard(s: string): string {
    Subst(Subst(Subst(s, '&', "\\u0026"), '<', "\\u003c"), '>', "\\u003e")
  }

  lemma {:induction false} SubstAppend(a: string, b: string, c: char, w: string)
    ensures Subst(a + b, c, w) == Subst(a, c, w) + Subst(b, c, w)
  {
    if a == [] {
      assert a + b == b;
    } else {
      assert (a + b)[1..] == a[1..] + b;
      SubstAppend(a[1..], b, c, w);
    }
  }

  lemma {:induction false} SubstAbsent(s: string, c: char, w: string)
    requires c !in s
    ensures Subst(s, c, w) == s
  {
    if s != [] {
      SubstAbsent(s[1..], c, w);
    }
  }

  lemma SubstOne(c: char, w: string)
    ensures Subst([c], c, w) == w
  {
    assert [c][1..] == [];
    assert Subst([], c, w) == [];
  }

  lemma GuardAppend(a: string, b: string)
    ensures Guard(a + b) == Guard(a) + Guard(b)
  {
    var a1, b1 := Subst(a, '&', "\\u0026"), Subst(b, '&', "\\u0026");
    SubstAppend(a, b, '&', "\\u0026");
    SubstAppend(a1, b1, '<', "\\u003c");
    SubstAppend(Subst(a1, '<', "\\u003c"), Subst(b1, '<', "\\u003c"), '>', "\\u003e");
  }

  lemma GuardPlain(s: string)
    requires '&' !in s && '<' !in s && '>' !in s
    ensures Guard(s) == s
  {
    SubstAbsent(s, '&', "\\u0026");
    SubstAbsent(s, '<', "\\u003c");
    SubstAbsent(s, '>', "\\u003e");
  }

  lemma PrintCharPlain(c: char)
    ensures var s := PrintChar(c, true); '&' !in s && '<' !in s && '>' !in s
    ensures !NeedsGuard(c) ==> PrintChar(c, false) == PrintChar(c, true)
  {
  }

  lemma GuardPrintedChar(c: char)
    ensures Guard(PrintChar(c, false)) == PrintChar(c, true)
  {
    PrintCharPlain(c);
    if c == '&' {
      SubstOne('&', "\\u0026");
      assert PrintChar(c, true) == "\\u0026";
      GuardPlainAfter("\\u0026");
    } else if c == '<' {
      SubstAbsent("<", '&', "\\u0026");
      SubstOne('<', "\\u003c");
      assert PrintChar(c, true) == "\\u003c";
      SubstAbsent("\\u003c", '>', "\\u003e");
    } else if c == '>' {
      SubstAbsent(">", '&', "\\u0026");
      SubstAbsent(">", '<', "\\u003c");
      SubstOne('>', "\\u003e");
      assert PrintChar(c, true) == "\\u003e";
    } else {
      GuardPlain(PrintChar(c, true));
    }
  }

  lemma GuardPlainAfter(s: string)
    requires '<' !in s && '>' !in s
    ensures Subst(Subst(s, '<', "\\u003c"), '>', "\\u003e") == s
  {
    SubstAbsent(s, '<', "\\u003c");
    SubstAbsent(s, '>', "\\u003e");
  }

  lemma {:induction false} GuardPrintedChars(s: string)
    ensures Guard(PrintChars(s, false)) == PrintChars(s, true)
  {
    if s == [] {
      GuardPlain([]);
    } else {
      GuardPrintedChar(s[0]);
      GuardPrintedChars(s[1..]);
      GuardAppend(PrintChar(s[0], false), PrintChars(s[1..], false));
    }
  }

  lemma NumPlain(n: int)
    ensures var s := PrintNum(n); '&' !in s && '<' !in s && '>' !in s && '"' !in s && '{' !in s && '}' !in s
    ensures Utf16Len(PrintNum(n)) == |PrintNum(n)|
  {
    var d := Dec(if n < 0 then -n else n);
    forall i | 0 <= i < |PrintNum(n)| ensures PrintNum(n)[i] == '-' || IsDigit(PrintNum(n)[i]) {
      assert n >= 0 ==> PrintNum(n)[i] in d;
      assert n < 0 && i > 0 ==> PrintNum(n)[i] in d;
    }
    AsciiLength(PrintNum(n));
  }

  lemma GuardQuoted(s: string)
    ensures Guard("\"" + PrintChars(s, false) + "\"") == "\"" + PrintChars(s, true) + "\""
  {
    GuardPlain("\"");
    GuardPrintedChars(s);
    GuardAppend("\"", PrintChars(s, false));
    GuardAppend("\"" + PrintChars(s, false), "\"");
  }

  lemma GuardPrintedValue(v: Value)
    ensures Guard(PrintValue(v, false)) == PrintValue(v, true)
  {
    match v
    case Str(text) => GuardQuoted(text);
    case Num(n) =>
      NumPlain(n);
      GuardPlain(PrintNum(n));
  }

  lemma GuardPair(key: string, value: string)
    ensures Guard(key + ":" + value) == Guard(key) + ":" + Guard(value)
  {
    GuardPlain(":");
    GuardAppend(key, ":");
    GuardAppend(key + ":", value);
  }

  lemma FieldShape(f: Field, guard: bool)
    ensures PrintField(f, guard) == ("\"" + PrintChars(f.key, guard) + "\"") + ":" + PrintValue(f.value, guard)
  {
  }

  lemma GuardPrintedField(f: Field)
    ensures Guard(PrintField(f, false)) == PrintField(f, true)
  {
    FieldShape(f, false);
    FieldShape(f, true);
    GuardQuoted(f.key);
    GuardPrintedValue(f.value);
    GuardPair("\"" + PrintChars(f.key, false) + "\"", PrintValue(f.value, false));
  }

  lemma {:induction false} GuardPrintedFields(obj: seq<Field>)
    ensures Guard(PrintFields(obj, false)) == PrintFields(obj, true)
  {
    if obj == [] {
      GuardPlain([]);
    } else {
      GuardPrintedField(obj[0]);
      if |obj| > 1 {
        var p := PrintField(obj[0], false);
        GuardPrintedFields(obj[1..]);
        GuardPlain(",");
        GuardAppend(p, ",");
        GuardAppend(p + ",", PrintFields(obj[1..], false));
      }
    }
  }

  /** Guarding a printed object changes only the characters inside its strings. */
  lemma GuardPrinted(obj: seq<Field>)
    ensures Guard(Print(obj, false)) == Print(obj, true)
  {
    GuardPrintedFields(obj);
    GuardPlain("{");
    GuardPlain("}");
    GuardAppend("{", PrintFields(obj, false));
    GuardAppend("{" + PrintFields(obj, false), "}");
  }

  // ---- A guarded caption needs no HTML escape

  predicate NoMarkup(s: string) {
    '&' !in s && '<' !in s && '>' !in s
  }

  lemma {:induction false} CharsNoMarkup(s: string)
    ensures NoMarkup(PrintChars(s, true))
  {
    if s != [] {
      PrintCharPlain(s[0]);
      CharsNoMarkup(s[1..]);
    }
  }

  lemma FieldNoMarkup(f: Field)
    ensures NoMarkup(PrintField(f, true))
  {
    CharsNoMarkup(f.key);
    match f.value
    case Str(text) => CharsNoMarkup(text);
    case Num(n) => NumPlain(n);
  }

  lemma {:induction false} FieldsNoMarkup(obj: seq<Field>)
    ensures NoMarkup(PrintFields(obj, true))
  {
    if obj != [] {
      FieldNoMarkup(obj[0]);
      if |obj| > 1 {
        FieldsNoMarkup(obj[1..]);
      }
    }
  }

  /** The estimate made while clamping is the true length. */
  lemma CaptionLength(obj: seq<Field>)
    ensures NoMarkup(Print(obj, true))
    ensures Html.HtmlLen(Print(obj, true)) == Utf16Len(Print(obj, true))
  {
    FieldsNoMarkup(obj);
    Html.PlainLength(Print(obj, true));
  }

  // ---- Clamping one string

  /** The longest prefix of at most `max` UTF-16 units. */
  function TakeUnits(s: string, max: nat): string {
    if s == [] || Utf16Width(s[0]) > max then [] else [s[0]] + TakeUnits(s[1..], max - Utf16Width(s[0]))
  }

  lemma {:induction false} TakeUnitsFits(s: string, max: nat)
    ensures Utf16Len(TakeUnits(s, max)) <= max && TakeUnits(s, max) <= s
  {
    if s != [] && Utf16Width(s[0]) <= max {
      TakeUnitsFits(s[1..], max - Utf16Width(s[0]));
    }
  }

  /** No longer prefix fits: what is taken falls short by at most one unit, when the next character needs two. */
  lemma {:induction false} TakeUnitsMaximal(s: string, max: nat)
    ensures forall t :: t <= s && Utf16Len(t) <= max ==> |t| <= |TakeUnits(s, max)|
    ensures Utf16Len(s) > max ==> Utf16Len(TakeUnits(s, max)) >= max - 1
  {
    if s != [] && Utf16Width(s[0]) <= max {
      TakeUnitsMaximal(s[1..], max - Utf16Width(s[0]));
    }
    forall t | t <= s && Utf16Len(t) <= max ensures |t| <= |TakeUnits(s, max)| {
      LongerTakes(s, t, max);
    }
  }

  lemma {:induction false} LongerTakes(s: string, t: string, max: nat)
    requires t <= s && Utf16Len(t) <= max
    ensures |t| <= |TakeUnits(s, max)|
  {
    if t != [] {
      LongerTakes(s[1..], t[1..], max - Utf16Width(s[0]));
    }
  }

  const ELLIPSIS: string := "\U{2026}"

  function ClampStr(s: string, max: nat): string {
    if Utf16Len(s) <= max then s
    else TakeUnits(s, if max == 0 then 0 else max - 1) + ELLIPSIS
  }

  lemma TakeOne(s: string, i: nat, max: nat)
    requires i < |s| && Utf16Width(s[i]) <= max
    ensures TakeUnits(s[i..], max) == [s[i]] + TakeUnits(s[i + 1..], max - Utf16Width(s[i]))
  {
    assert s[i..][1..] == s[i + 1..];
  }

  /** The loop that finds where to cut. */
  method CutAt(s: string, room: nat) returns (r: string)
    ensures r == TakeUnits(s, room)
  {
    hide TakeUnits;
    var curr: nat, i: nat := 0, 0;
    r := [];
    assert s[0..] == s;
    while i < |s| && curr + Utf16Width(s[i]) <= room
      invariant i <= |s| && curr <= room
      invariant TakeUnits(s, room) == r + TakeUnits(s[i..], room - curr)
    {
      TakeOne(s, i, room - curr);
      curr := curr + Utf16Width(s[i]);
      r := r + [s[i]];
      i := i + 1;
    }
    TakeNone(s, i, room - curr);
  }

  lemma TakeNone(s: string, i: nat, room: nat)
    requires i <= |s| && (i < |s| ==> Utf16Width(s[i]) > room)
    ensures TakeUnits(s[i..], room) == []
  {
  }

  /** The longest prefix that leaves room for an ellipsis; with no room at all, the ellipsis alone. */
  ghost predicate IsClamp(s: string, max: nat, r: string) {
    var room := if max == 0 then 0 else max - 1;
    && r != [] && r[|r| - 1] as int == 0x2026 && r[..|r| - 1] <= s && Utf16Len(r[..|r| - 1]) <= room
    && forall t :: t <= s && Utf16Len(t) <= room ==> |t| < |r|
  }

  lemma ClampExactly(s: string, max: nat)
    ensures Utf16Len(s) <= max ==> ClampStr(s, max) == s
    ensures Utf16Len(s) > max ==> IsClamp(s, max, ClampStr(s, max))
  {
    if Utf16Len(s) > max {
      var room := if max == 0 then 0 else max - 1;
      var cut := TakeUnits(s, room);
      TakeUnitsFits(s, room);
      TakeUnitsMaximal(s, room);
      assert ClampStr(s, max)[..|cut|] == cut;
    }
  }

  /** `clamp_str_utf16`. */
  method ClampStrUtf16(s: string, max: nat) returns (r: string)
    ensures r == ClampStr(s, max)
    ensures if Utf16Len(s) <= max then r == s else IsClamp(s, max, r)
  {
    ClampExactly(s, max);
    if Utf16Len(s) <= max {
      return s;
    }
    var cut := CutAt(s, if max == 0 then 0 else max - 1);
    return cut + ELLIPSIS;
  }

  lemma ClampShrinks(s: string, max: nat)
    requires 0 < max
    ensures Utf16Len(ClampStr(s, max)) <= max
  {
    if Utf16Len(s) > max {
      TakeUnitsFits(s, max - 1);
      Utf16LenAppend(TakeUnits(s, max - 1), ELLIPSIS);
      assert Utf16Len(ELLIPSIS) == 1 + Utf16Len([]);
    }
  }

  // ---- Clamping an object

  /** The units of all the string fields. */
  function Units(obj: seq<Field>): nat {
    if obj == [] then 0 else Units(obj[..|obj| - 1]) + FieldUnits(obj[|obj| - 1])
  }

  function FieldUnits(f: Field): nat {
    if f.value.Str? then Utf16Len(f.value.text) else 0
  }

  /** The last of the longest string fields. */
  function Longest(obj: seq<Field>): (r: Option<nat>)
    ensures r.Some? ==> r.value < |obj| && obj[r.value].value.Str?
    ensures r.Some? ==> forall i :: 0 <= i < |obj| ==> FieldUnits(obj[i]) <= FieldUnits(obj[r.value])
    ensures r.Some? ==> forall i :: r.value < i < |obj| && obj[i].value.Str? ==>
            FieldUnits(obj[i]) < FieldUnits(obj[r.value])
    ensures r.None? ==> forall i :: 0 <= i < |obj| ==> obj[i].value.Num?
  {
    if obj == [] then None
    else
      var n := |obj| - 1;
      var best := Longest(obj[..n]);
      if obj[n].value.Str? && (best.None? || FieldUnits(obj[best.value]) <= FieldUnits(obj[n])) then Some(n) else best
  }

  lemma {:induction false} UnitsOfOne(obj: seq<Field>, i: nat, f: Field)
    requires i < |obj|
    ensures Units(obj[i := f]) == Units(obj) - FieldUnits(obj[i]) + FieldUnits(f)
  {
    var n := |obj| - 1;
    if i < n {
      assert obj[i := f][..n] == obj[..n][i := f];
      UnitsOfOne(obj[..n], i, f);
    } else {
      assert obj[i := f][..n] == obj[..n];
    }
  }

  function Length(obj: seq<Field>): nat {
    Utf16Len(Print(obj, true))
  }

  /** The object with its strings emptied. */
  function Skeleton(obj: seq<Field>): (r: seq<Field>)
    ensures |r| == |obj|
    ensures forall i :: 0 <= i < |obj| ==> r[i] == if obj[i].value.Str? then Field(obj[i].key, Str("")) else obj[i]
  {
    if obj == [] then []
    else
      Skeleton(obj[..|obj| - 1]) +
        [if obj[|obj| - 1].value.Str? then Field(obj[|obj| - 1].key, Str("")) else obj[|obj| - 1]]
  }

  predicate SkeletonFits(obj: seq<Field>) {
    Length(Skeleton(obj)) <= MAX_CAPTION
  }

  lemma {:induction false} NoUnits(obj: seq<Field>)
    requires forall i :: 0 <= i < |obj| ==> FieldUnits(obj[i]) == 0
    ensures Skeleton(obj) == obj
  {
    forall i | 0 <= i < |obj| ensures Skeleton(obj)[i] == obj[i] {
      if obj[i].value.Str? {
        assert obj[i].value.text == "";
      }
    }
  }

  /** The longest string cut by what is too much, at least by one unit. */
  function Shortened(text: string, excess: nat): string {
    var cut := if excess == 0 then 1 else excess;
    if Utf16Len(text) <= cut then "" else ClampStr(text, Utf16Len(text) - cut)
  }

  lemma ShortenedShrinks(text: string, excess: nat)
    requires Utf16Len(text) > 0
    ensures Utf16Len(Shortened(text, excess)) < Utf16Len(text)
  {
    var cut := if excess == 0 then 1 else excess;
    if Utf16Len(text) > cut {
      ClampShrinks(text, Utf16Len(text) - cut);
    }
  }

  /** One round of the loop on an object that is still too long. */
  function Round(obj: seq<Field>): (r: seq<Field>)
    requires Longest(obj).Some? && Length(obj) > MAX_CAPTION
    ensures |r| == |obj|
  {
    var i := Longest(obj).value;
    obj[i := Field(obj[i].key, Str(Shortened(obj[i].value.text, Length(obj) - MAX_CAPTION)))]
  }

  /**
   A round touches only the last of the longest strings and takes off it what is too much for
   1024 units: one unit at least, at most one more than that, or all of a string no longer than it.
   */
  lemma RoundExactly(obj: seq<Field>, i: nat)
    requires Longest(obj) == Some(i) && Utf16Len(Print(obj, true)) > 1024
    ensures var excess, before := Utf16Len(Print(obj, true)) - 1024, Utf16Len(obj[i].value.text);
            var r := Round(obj);
            && |r| == |obj| && (forall j :: 0 <= j < |obj| && j != i ==> r[j] == obj[j])
            && r[i].key == obj[i].key && r[i].value.Str?
            && (before <= excess ==> r[i].value.text == "")
            && (before > excess ==> IsClamp(obj[i].value.text, before - excess, r[i].value.text)
                                    && excess <= before - Utf16Len(r[i].value.text) <= excess + 1)
  {
    hide Print, Utf16Len, IsClamp, Shortened;
    ShortenedExactly(obj[i].value.text, Utf16Len(Print(obj, true)) - 1024);
  }

  lemma ShortenedExactly(text: string, excess: nat)
    requires excess > 0
    ensures var before, r := Utf16Len(text), Shortened(text, excess);
            && (before <= excess ==> r == "")
            && (before > excess ==> IsClamp(text, before - excess, r) && excess <= before - Utf16Len(r) <= excess + 1)
  {
    hide TakeUnits, IsClamp;
    if Utf16Len(text) > excess {
      var max: nat := Utf16Len(text) - excess;
      ClampExactly(text, max);
      ClampShrinks(text, max);
      TakeUnitsMaximal(text, max - 1);
      Utf16LenAppend(TakeUnits(text, max - 1), ELLIPSIS);
      assert Utf16Len(ELLIPSIS) == 1 + Utf16Len([]);
    }
  }

  /** The loop runs rounds until the caption fits, and no longer. */
  lemma SettleStep(obj: seq<Field>)
    requires SkeletonFits(obj)
    ensures Utf16Len(Print(obj, true)) <= 1024 ==> Settle(obj) == obj
    ensures Utf16Len(Print(obj, true)) > 1024 ==>
              Longest(obj).Some? && SkeletonFits(Round(obj)) && Settle(obj) == Settle(Round(obj))
  {
    if Length(obj) > MAX_CAPTION {
      RoundProgress(obj);
    }
  }

  lemma SomethingToCut(obj: seq<Field>)
    requires SkeletonFits(obj) && Length(obj) > MAX_CAPTION
    ensures Longest(obj).Some? && FieldUnits(obj[Longest(obj).value]) > 0
  {
    if forall i :: 0 <= i < |obj| ==> FieldUnits(obj[i]) == 0 {
      NoUnits(obj);
      assert false;
    }
  }

  lemma SameSkeleton(obj: seq<Field>, i: nat, text: string)
    requires i < |obj| && obj[i].value.Str?
    ensures Skeleton(obj[i := Field(obj[i].key, Str(text))]) == Skeleton(obj)
  {
  }

  /** There is a string to cut, and cutting it makes the strings shorter. */
  lemma RoundProgress(obj: seq<Field>)
    requires SkeletonFits(obj) && Length(obj) > MAX_CAPTION
    ensures Longest(obj).Some? && Units(Round(obj)) < Units(obj) && SkeletonFits(Round(obj))
  {
    SomethingToCut(obj);
    var i := Longest(obj).value;
    var text := Shortened(obj[i].value.text, Length(obj) - MAX_CAPTION);
    ShortenedShrinks(obj[i].value.text, Length(obj) - MAX_CAPTION);
    UnitsOfOne(obj, i, Field(obj[i].key, Str(text)));
    SameSkeleton(obj, i, text);
  }

  /** What the loop ends with. */
  function Settle(obj: seq<Field>): seq<Field>
    requires SkeletonFits(obj)
    decreases Units(obj)
  {
    if Length(obj) <= MAX_CAPTION then obj
    else
      RoundProgress(obj);
      Settle(Round(obj))
  }

  /** Print, guard and measure. */
  method Printed(obj: seq<Field>) returns (caption: string, length: nat)
    ensures caption == Print(obj, true) && length == Length(obj)
  {
    GuardPrinted(obj);
    CaptionLength(obj);
    caption := Guard(Print(obj, false));
    length := Html.EstimateHtmlUtf16Len(caption);
  }

  /** Shorten the longest string. */
  method CutLongest(obj: seq<Field>, length: nat) returns (r: seq<Field>)
    requires length == Length(obj) > MAX_CAPTION && Longest(obj).Some?
    ensures r == Round(obj)
  {
    hide Print, Utf16Len, IsClamp, TakeUnits;
    var i := Longest(obj).value;
    var cut := length - MAX_CAPTION;
    var units := Utf16Len(obj[i].value.text);
    var shortened := "";
    if units > cut {
      shortened := ClampStrUtf16(obj[i].value.text, units - cut);
    }
    return obj[i := Field(obj[i].key, Str(shortened))];
  }

  /** `serialize_caption_payload`: it ends because the strings get shorter each round. */
  method SerializeCaptionPayload(payload: seq<Field>) returns (caption: string)
    requires SkeletonFits(payload)
    ensures caption == Print(Settle(payload), true)
  {
    var obj := payload;
    var length: nat;
    caption, length := Printed(obj);
    while length > MAX_CAPTION
      invariant SkeletonFits(obj) && Settle(obj) == Settle(payload)
      invariant caption == Print(obj, true) && length == Length(obj)
      decreases Units(obj)
    {
      RoundProgress(obj);
      obj := CutLongest(obj, length);
      caption, length := Printed(obj);
    }
  }

  /** What may have happened to a string: nothing, emptied, or cut with an ellipsis. */
  predicate Cut(before: string, after: string) {
    || after == before
    || after == ""
    || exists k :: 0 <= k < |before| && after == before[..k] + ELLIPSIS
  }

  predicate FieldCut(before: Field, after: Field) {
    && before.key == after.key
    && (before.value.Num? ==> after == before)
    && (before.value.Str? ==> after.value.Str? && Cut(before.value.text, after.value.text))
  }

  ghost predicate ObjectCut(before: seq<Field>, after: seq<Field>) {
    |before| == |after| && forall i :: 0 <= i < |before| ==> FieldCut(before[i], after[i])
  }

  /** A prefix of fewer units than the whole stops short of it. */
  lemma ShorterTake(s: string, max: nat)
    requires Utf16Len(s) > max
    ensures |TakeUnits(s, max)| < |s| && TakeUnits(s, max) == s[..|TakeUnits(s, max)|]
  {
    TakeUnitsFits(s, max);
    assert TakeUnits(s, max) != s;
  }

  lemma CutAgain(a: string, b: string, excess: nat)
    requires Cut(a, b) && Utf16Len(b) > 0
    ensures Cut(a, Shortened(b, excess))
  {
    var cut := if excess == 0 then 1 else excess;
    if Utf16Len(b) > cut {
      var room: nat := Utf16Len(b) - cut - 1;
      var t := TakeUnits(b, room);
      ShorterTake(b, room);
      assert Shortened(b, excess) == t + ELLIPSIS;
      if b == a {
        assert t == a[..|t|];
      } else {
        var k :| 0 <= k < |a| && b == a[..k] + ELLIPSIS;
        assert |t| <= k && t == a[..k][..|t|] == a[..|t|];
      }
    }
  }

  lemma RoundCuts(orig: seq<Field>, obj: seq<Field>)
    requires ObjectCut(orig, obj) && Longest(obj).Some? && FieldUnits(obj[Longest(obj).value]) > 0
    requires Length(obj) > MAX_CAPTION
    ensures ObjectCut(orig, Round(obj))
  {
    var i := Longest(obj).value;
    assert FieldCut(orig[i], obj[i]);
    CutAgain(orig[i].value.text, obj[i].value.text, Length(obj) - MAX_CAPTION);
    forall j | 0 <= j < |obj| ensures FieldCut(orig[j], Round(obj)[j]) {
      assert FieldCut(orig[j], obj[j]);
    }
  }

  lemma {:induction false} SettleCuts(orig: seq<Field>, obj: seq<Field>)
    requires SkeletonFits(obj) && ObjectCut(orig, obj)
    ensures Length(Settle(obj)) <= MAX_CAPTION && ObjectCut(orig, Settle(obj))
    decreases Units(obj)
  {
    if Length(obj) > MAX_CAPTION {
      RoundProgress(obj);
      SomethingToCut(obj);
      RoundCuts(orig, obj);
      SettleCuts(orig, Round(obj));
    }
  }

  /**
   Whatever is cut, the caption fits and reads back as an object with the same keys and numbers,
   each string whole, emptied, or a prefix with an ellipsis; what fits is not touched.
   */
  lemma SettleSound(obj: seq<Field>)
    requires obj != [] && Printable(obj) && SkeletonFits(obj)
    ensures Utf16Len(Print(Settle(obj), true)) <= 1024
    ensures ObjectCut(obj, Settle(obj)) && Decode(Print(Settle(obj), true)) == Some(Settle(obj))
    ensures Utf16Len(Print(obj, true)) <= 1024 ==> Settle(obj) == obj
  {
    forall i | 0 <= i < |obj| ensures FieldCut(obj[i], obj[i]) {
    }
    SettleCuts(obj, obj);
    var r := Settle(obj);
    forall i | 0 <= i < |r| && r[i].value.Num? ensures Fits64(r[i].value.n) {
      assert FieldCut(obj[i], r[i]);
    }
    DecodePrinted(r, true);
  }

  // ---- The two payloads have a skeleton that fits

  lemma {:induction false} CharsBound(s: string)
    ensures Utf16Len(PrintChars(s, true)) <= 6 * |s|
  {
    if s != [] {
      CharsBound(s[1..]);
      CharBound(s[0]);
      Utf16LenAppend(PrintChar(s[0], true), PrintChars(s[1..], true));
    }
  }

  lemma CharBound(c: char)
    ensures Utf16Len(PrintChar(c, true)) <= 6
  {
    var s := PrintChar(c, true);
    if |s| > 1 {
      AsciiLength(s);
    } else {
      assert s[1..] == [];
    }
  }

  lemma NumBound(n: int)
    requires Fits64(n)
    ensures Utf16Len(PrintNum(n)) <= 21
  {
    NumPlain(n);
    U64Digits(if n < 0 then -n else n);
  }

  lemma QuoteBound(s: string, max: nat)
    requires Utf16Len(s) <= max
    ensures Utf16Len("\"" + s + "\"") <= max + 2
  {
    AsciiLength("\"");
    Utf16LenAppend("\"", s);
    Utf16LenAppend("\"" + s, "\"");
  }

  lemma FieldBound(f: Field)
    requires f.value.Num? ==> Fits64(f.value.n)
    requires f.value.Str? ==> f.value.text == ""
    ensures Utf16Len(PrintField(f, true)) <= 6 * |f.key| + 24
  {
    CharsBound(f.key);
    QuoteBound(PrintChars(f.key, true), 6 * |f.key|);
    var key := "\"" + PrintChars(f.key, true) + "\"";
    var value := PrintValue(f.value, true);
    assert Utf16Len(value) <= 21 by {
      match f.value
      case Str(text) => AsciiLength(value);
      case Num(n) => NumBound(n);
    }
    FieldShape(f, true);
    AsciiLength(":");
    Utf16LenAppend(key, ":");
    Utf16LenAppend(key + ":", value);
  }

  function KeyBudget(obj: seq<Field>): nat {
    if obj == [] then 0 else 6 * |obj[0].key| + 25 + KeyBudget(obj[1..])
  }

  lemma {:induction false} FieldsBound(obj: seq<Field>)
    requires Printable(obj) && forall i :: 0 <= i < |obj| && obj[i].value.Str? ==> obj[i].value.text == ""
    ensures Utf16Len(PrintFields(obj, true)) <= KeyBudget(obj)
  {
    if obj != [] {
      FieldBound(obj[0]);
      FieldsBound(obj[1..]);
      if |obj| > 1 {
        var p := PrintField(obj[0], true);
        AsciiLength(",");
        Utf16LenAppend(p, ",");
        Utf16LenAppend(p + ",", PrintFields(obj[1..], true));
      }
    }
  }

  lemma {:induction false} SkeletonBudget(obj: seq<Field>)
    ensures KeyBudget(Skeleton(obj)) == KeyBudget(obj)
  {
    if obj != [] {
      SkeletonTail(obj);
      SkeletonBudget(obj[1..]);
    }
  }

  lemma SkeletonTail(obj: seq<Field>)
    requires obj != []
    ensures Skeleton(obj)[1..] == Skeleton(obj[1..])
  {
  }

  lemma BudgetFits(obj: seq<Field>)
    requires Printable(obj) && KeyBudget(obj) <= 1000
    ensures SkeletonFits(obj)
  {
    var s := Skeleton(obj);
    SkeletonBudget(obj);
    FieldsBound(s);
    AsciiLength("{");
    AsciiLength("}");
    Utf16LenAppend("{", PrintFields(s, true));
    Utf16LenAppend("{" + PrintFields(s, true), "}");
  }
}

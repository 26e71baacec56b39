/** The byte-bounded file names of crates/engine/src/filename.rs. */
module Filename {
  import opened Prelude
  import opened Text

  const MAX_FILENAME_BYTES: nat := 255
  const MAX_ARCHIVE_FILENAME_BYTES: nat := 245
  const MAX_ZIP_ENTRY_FILENAME_BYTES: nat := 240

  predicate IsForbidden(c: char) {
    c in "<>:\"/\\|?*\0" || IsControl(c)
  }

  function Sanitize(s: string): (r: string)
    ensures |r| == |s|
    ensures forall i :: 0 <= i < |s| ==> r[i] == if IsForbidden(s[i]) then '_' else s[i]
  {
    if s == [] then [] else [if IsForbidden(s[0]) then '_' else s[0]] + Sanitize(s[1..])
  }

  // ---- Cutting at a character boundary

  predicate IsCharBoundary(s: string, n: nat) {
    n == 0 || (s != [] && Utf8Width(s[0]) <= n && IsCharBoundary(s[1..], n - Utf8Width(s[0])))
  }

  /** The characters before byte `n`. */
  function UpToByte(s: string, n: nat): string
    requires IsCharBoundary(s, n)
  {
    if n == 0 then [] else [s[0]] + UpToByte(s[1..], n - Utf8Width(s[0]))
  }

  /** The longest prefix of at most `max` bytes. */
  function BoundPrefix(s: string, max: nat): (r: string)
    ensures Utf8Len(r) <= max && r <= s
  {
    if s == [] || Utf8Width(s[0]) > max then []
    else [s[0]] + BoundPrefix(s[1..], max - Utf8Width(s[0]))
  }

  /** No longer prefix fits. */
  lemma {:induction false} BoundPrefixMaximal(s: string, max: nat, k: nat)
    requires k <= |s| && Utf8Len(s[..k]) <= max
    ensures s[..k] <= BoundPrefix(s, max)
  {
    if k > 0 {
      assert s[..k][1..] == s[1..][..k - 1];
      BoundPrefixMaximal(s[1..], max - Utf8Width(s[0]), k - 1);
    }
  }

  lemma {:induction false} BoundariesUpTo(s: string, max: nat, n: nat)
    requires IsCharBoundary(s, n)
    ensures n <= max ==> n <= Utf8Len(BoundPrefix(s, max))
    ensures n == Utf8Len(BoundPrefix(s, max)) ==> UpToByte(s, n) == BoundPrefix(s, max)
  {
    if n > 0 && Utf8Width(s[0]) <= max {
      BoundariesUpTo(s[1..], max - Utf8Width(s[0]), n - Utf8Width(s[0]));
    }
  }

  lemma {:induction false} BoundPrefixIsBoundary(s: string, max: nat)
    ensures IsCharBoundary(s, Utf8Len(BoundPrefix(s, max)))
  {
    if s != [] && Utf8Width(s[0]) <= max {
      BoundPrefixIsBoundary(s[1..], max - Utf8Width(s[0]));
    }
  }

  lemma {:induction false} BoundPrefixWhole(s: string, max: nat)
    requires Utf8Len(s) <= max
    ensures BoundPrefix(s, max) == s
  {
    if s != [] {
      BoundPrefixWhole(s[1..], max - Utf8Width(s[0]));
    }
  }

  /** `bound_utf8_prefix`: step back from the limit to a character boundary. */
  method BoundUtf8Prefix(s: string, max: nat) returns (r: string)
    ensures r == BoundPrefix(s, max)
  {
    if Utf8Len(s) <= max {
      BoundPrefixWhole(s, max);
      return s;
    }
    BoundPrefixIsBoundary(s, max);
    var end := max;
    while end > 0 && !IsCharBoundary(s, end)
      invariant Utf8Len(BoundPrefix(s, max)) <= end <= max
    {
      end := end - 1;
    }
    BoundariesUpTo(s, max, end);
    return UpToByte(s, end);
  }

  // ---- Building names

  function SanitizeAndBound(max: nat, name: string, suffix: Option<string>): string {
    var trimmed := Trim(Sanitize(name));
    var candidate := if trimmed == [] || trimmed == "." || trimmed == ".." then "track" else trimmed;
    var bounded :=
      if suffix.Some? && EndsWith(candidate, suffix.value) && Utf8Len(suffix.value) < max then
        BoundPrefix(candidate[..|candidate| - |suffix.value|], max - Utf8Len(suffix.value)) + suffix.value
      else BoundPrefix(candidate, max);
    if bounded == [] || bounded == "." || bounded == ".." then "track" else bounded
  }

  /** A suffix that sanitizing and trimming leave alone. */
  ghost predicate CleanSuffix(suffix: string) {
    && |suffix| >= 3 && !IsWhitespace(suffix[|suffix| - 1])
    && forall i :: 0 <= i < |suffix| ==> !IsForbidden(suffix[i])
  }

  lemma SanitizeAppend(a: string, b: string)
    ensures Sanitize(a + b) == Sanitize(a) + Sanitize(b)
  {
  }

  lemma SanitizeClean(s: string)
    requires forall i :: 0 <= i < |s| ==> !IsForbidden(s[i])
    ensures Sanitize(s) == s
  {
  }

  /**
   However long the head is, the bounded name keeps the whole suffix, and it never exceeds
   the limit. The head must hold a visible character, or trimming could reach the suffix.
   */
  lemma SuffixSurvives(max: nat, head: string, suffix: string) returns (front: string)
    requires CleanSuffix(suffix) && Utf8Len(suffix) < max
    requires exists i :: 0 <= i < |head| && !IsWhitespace(Sanitize(head)[i])
    ensures SanitizeAndBound(max, head + suffix, Some(suffix)) == front + suffix
    ensures Utf8Len(front + suffix) <= max
    ensures front == BoundPrefix(TrimStart(Sanitize(head)), max - Utf8Len(suffix))
  {
    hide Trim, TrimStart, Sanitize, SanitizeAndBound, BoundPrefix, Utf8Len, IsWhitespace, IsForbidden;
    var body := Sanitize(head);
    SanitizeAppend(head, suffix);
    SanitizeClean(suffix);
    TrimToSuffix(body, suffix);
    front := BoundPrefix(TrimStart(body), max - Utf8Len(suffix));
    BoundBeforeSuffix(max, head + suffix, TrimStart(body), suffix);
    Utf8LenAppend(front, suffix);
  }

  lemma TrimToSuffix(body: string, suffix: string)
    requires |suffix| >= 3 && !IsWhitespace(suffix[|suffix| - 1])
    requires exists i :: 0 <= i < |body| && !IsWhitespace(body[i])
    ensures Trim(body + suffix) == TrimStart(body) + suffix
  {
    hide Trim, TrimStart, TrimEnd, IsWhitespace;
    TrimIsBoth(body + suffix);
    TrimStartAppend(body, suffix);
    KeepsEnd(TrimStart(body), suffix);
  }

  lemma TrimIsBoth(s: string)
    ensures Trim(s) == TrimEnd(TrimStart(s))
  {
  }

  lemma KeepsEnd(a: string, b: string)
    requires b != [] && !IsWhitespace(b[|b| - 1])
    ensures TrimEnd(a + b) == a + b
  {
    LastIsVisible(a, b);
    TrimEndStops(a + b);
  }

  lemma LastIsVisible(a: string, b: string)
    requires b != [] && !IsWhitespace(b[|b| - 1])
    ensures a + b != [] && !IsWhitespace((a + b)[|a + b| - 1])
  {
  }

  lemma TrimEndStops(s: string)
    requires s != [] && !IsWhitespace(s[|s| - 1])
    ensures TrimEnd(s) == s
  {
  }

  /** A candidate ending in the suffix is cut before it. */
  lemma BoundBeforeSuffix(max: nat, name: string, stem: string, suffix: string)
    requires Trim(Sanitize(name)) == stem + suffix && |suffix| >= 3 && Utf8Len(suffix) < max
    ensures SanitizeAndBound(max, name, Some(suffix)) == BoundPrefix(stem, max - Utf8Len(suffix)) + suffix
  {
    hide Trim, Sanitize, BoundPrefix, Utf8Len;
    var candidate := stem + suffix;
    assert candidate[..|candidate| - |suffix|] == stem;
    assert candidate[|candidate| - |suffix|..] == suffix;
  }

  // ---- Collision ids

  function LastDot(s: string): (r: Option<nat>)
    ensures r.Some? ==> r.value < |s| && s[r.value] == '.'
  {
    if s == [] then None
    else if s[|s| - 1] == '.' then Some(|s| - 1)
    else LastDot(s[..|s| - 1])
  }

  /** The stem, and the extension from the last dot on, unless that dot is the first character. */
  function StemAndExt(s: string): (string, string) {
    var dot := LastDot(s);
    if dot.Some? && dot.value > 0 then (s[..dot.value], s[dot.value..]) else (s, "")
  }

  function WithCollisionId(max: nat, name: string, collisionId: string): string {
    var (stem, ext) := StemAndExt(name);
    var suffix := "_" + Sanitize(collisionId) + ext;
    if Utf8Len(suffix) >= max then SanitizeAndBound(max, stem + suffix, Some(ext))
    else BoundPrefix(stem, max - Utf8Len(suffix)) + suffix
  }

  lemma DigitIsClean(c: char)
    requires IsDigit(c)
    ensures !IsForbidden(c) && c != '_' && c != '[' && c != ']' && c != '('
  {
  }

  lemma DigitsAreClean(s: string)
    requires forall c :: c in s ==> IsDigit(c)
    ensures Sanitize(s) == s
    ensures forall c :: c in s ==> c != '_' && c != '[' && c != ']' && c != '('
    ensures forall i :: 0 <= i < |s| ==> !IsForbidden(s[i])
  {
    forall i | 0 <= i < |s| ensures !IsForbidden(s[i]) {
      assert s[i] in s;
      DigitIsClean(s[i]);
    }
    forall c | c in s ensures c != '_' && c != '[' && c != ']' && c != '(' {
      DigitIsClean(c);
    }
  }

  lemma CollisionSuffix(id: nat, ext: string)
    ensures Utf8Len("_" + Dec(id) + ext) == 1 + |Dec(id)| + Utf8Len(ext)
  {
    DigitsAreAscii(Dec(id));
    Utf8LenAppend("_" + Dec(id), ext);
    Utf8LenAppend("_", Dec(id));
    assert Utf8Len("_") == 1 + Utf8Len([]);
  }

  /** A name with a counter is a bounded stem, the counter and the extension. */
  lemma CollisionForm(max: nat, name: string, id: nat) returns (front: string)
    requires |Dec(id)| + 1 + Utf8Len(StemAndExt(name).1) < max
    ensures WithCollisionId(max, name, Dec(id)) == front + ['_'] + Dec(id) + StemAndExt(name).1
    ensures Utf8Len(WithCollisionId(max, name, Dec(id))) <= max
  {
    var (stem, ext) := StemAndExt(name);
    CollisionSuffix(id, ext);
    DigitsAreClean(Dec(id));
    var suffix := "_" + Dec(id) + ext;
    front := BoundPrefix(stem, max - Utf8Len(suffix));
    Utf8LenAppend(front, suffix);
    Regroup(front, Dec(id), ext);
  }

  lemma Regroup(front: string, digits: string, ext: string)
    ensures front + ("_" + digits + ext) == front + ['_'] + digits + ext
  {
  }

  /** Different counters give different names, whatever the name they extend. */
  lemma CollisionIdsDiffer(max: nat, name: string, a: nat, b: nat)
    requires a != b
    requires |Dec(a)| + 1 + Utf8Len(StemAndExt(name).1) < max
    requires |Dec(b)| + 1 + Utf8Len(StemAndExt(name).1) < max
    ensures WithCollisionId(max, name, Dec(a)) != WithCollisionId(max, name, Dec(b))
  {
    var p := CollisionForm(max, name, a);
    var q := CollisionForm(max, name, b);
    SameCounter(p, a, q, b, StemAndExt(name).1);
  }

  lemma SameCounter(p: string, a: nat, q: string, b: nat, ext: string)
    ensures p + ['_'] + Dec(a) + ext == q + ['_'] + Dec(b) + ext ==> a == b
  {
    if p + ['_'] + Dec(a) + ext == q + ['_'] + Dec(b) + ext {
      SameTail(p + ['_'] + Dec(a), q + ['_'] + Dec(b), ext);
      DigitsAreClean(Dec(a));
      DigitsAreClean(Dec(b));
      AfterLast(p, Dec(a), q, Dec(b), '_');
      DecInjective(a, b);
    }
  }

  // ---- Partial archives

  const PARTIAL_SUFFIX: string := " [Partial]"
  const ZIP_EXT: string := ".zip"

  /** `into_partial`: the mark goes before a `.zip` extension. */
  function IntoPartial(name: string): string {
    if EndsWith(name, ZIP_EXT) then name[..|name| - 4] + PARTIAL_SUFFIX + ZIP_EXT
    else name + PARTIAL_SUFFIX
  }

  /** The mark as it stands in the name. */
  lemma PartialWritten(stem: string)
    ensures IntoPartial(stem + ".zip") == stem + " [Partial].zip"
    ensures !EndsWith(stem, ".zip") ==> IntoPartial(stem) == stem + " [Partial]"
  {
    assert (stem + ".zip")[|stem|..] == ".zip" && (stem + ".zip")[..|stem|] == stem;
    assert " [Partial]" + ".zip" == " [Partial].zip";
  }

  /** An archive name stays a legal file name when marked partial, and the mark can be undone. */
  lemma PartialNames(a: string, b: string)
    requires Utf8Len(a) <= 245
    ensures Utf8Len(IntoPartial(a)) <= 255
    ensures IntoPartial(a) == IntoPartial(b) ==> a == b
  {
    hide IntoPartial, EndsWith, Utf8Len;
    PartialLength(a);
    PartialForm(a);
    PartialForm(b);
    if IntoPartial(a) == IntoPartial(b) {
      PartialEnd(a);
      PartialEnd(b);
      if EndsWith(a, ZIP_EXT) {
        SameZips(a, b);
      } else {
        SameTail(a, b, PARTIAL_SUFFIX);
      }
    }
  }

  /** The last character tells which of the two forms was used. */
  lemma PartialEnd(a: string)
    ensures var s := IntoPartial(a);
            s != [] && s[|s| - 1] == if EndsWith(a, ZIP_EXT) then 'p' else ']'
  {
    hide EndsWith;
  }

  lemma SameZips(a: string, b: string)
    requires EndsWith(a, ZIP_EXT) && EndsWith(b, ZIP_EXT) && IntoPartial(a) == IntoPartial(b)
    ensures a == b
  {
    var x, y := a[..|a| - 4], b[..|b| - 4];
    assert a == x + ZIP_EXT && b == y + ZIP_EXT;
    SameTail(x + PARTIAL_SUFFIX, y + PARTIAL_SUFFIX, ZIP_EXT);
    SameTail(x, y, PARTIAL_SUFFIX);
  }

  lemma PartialForm(a: string)
    ensures !EndsWith(a, ZIP_EXT) ==> IntoPartial(a) == a + PARTIAL_SUFFIX
  {
  }

  lemma PartialLength(a: string)
    ensures Utf8Len(IntoPartial(a)) == Utf8Len(a) + 10
  {
    hide Utf8Len;
    assert Utf8Len(PARTIAL_SUFFIX) == 10 by {
      AsciiLength(PARTIAL_SUFFIX);
    }
    if EndsWith(a, ZIP_EXT) {
      assert a == a[..|a| - 4] + ZIP_EXT;
      Utf8LenAppend(a[..|a| - 4], ZIP_EXT);
      Utf8LenAppend(a[..|a| - 4] + PARTIAL_SUFFIX, ZIP_EXT);
      Utf8LenAppend(a[..|a| - 4], PARTIAL_SUFFIX);
    } else {
      Utf8LenAppend(a, PARTIAL_SUFFIX);
    }
  }

  // ---- Track names

  function CodecLabel(codec: string): (string, string) {
    if codec == "ec-3" then ("Atmos", "m4a")
    else if codec == "aac" || codec == "mp4a.40.2" || codec == "mp4a.40.5" then ("AAC", "m4a")
    else if codec == "flac" then ("FLAC", "flac")
    else if codec == "mp3" then ("MP3", "mp3")
    else ("ALAC", "m4a")
  }

  function TrackSuffix(isExplicit: bool, codec: string): string {
    TaggedSuffix(isExplicit, CodecLabel(codec).0, CodecLabel(codec).1)
  }

  function TaggedSuffix(isExplicit: bool, tag: string, ext: string): string {
    (if isExplicit then " [E]" else "") + " [" + tag + "]." + ext
  }

  predicate IsAlnum(c: char) { 'a' <= c <= 'z' || 'A' <= c <= 'Z' || IsDigit(c) }

  predicate Alnum(s: string) {
    forall i :: 0 <= i < |s| ==> IsAlnum(s[i])
  }

  predicate CleanChar(c: char) {
    IsAlnum(c) || c in " []().-"
  }

  lemma CleanCharFacts(c: char)
    requires CleanChar(c)
    ensures !IsForbidden(c) && c as int < 0x80 && (c != ' ' ==> !IsWhitespace(c))
  {
  }

  lemma AlnumChar(c: char)
    requires IsAlnum(c)
    ensures c != '.' && c != ' ' && c != '[' && c != ']' && c != '(' && c != '_'
  {
  }

  /** A suffix of clean characters that does not end in a space is kept by sanitizing and trimming. */
  lemma CleanCharsClean(s: string)
    requires |s| >= 3 && s[|s| - 1] != ' '
    requires forall i :: 0 <= i < |s| ==> CleanChar(s[i])
    ensures CleanSuffix(s) && Utf8Len(s) == |s|
  {
    forall i | 0 <= i < |s| ensures !IsForbidden(s[i]) && s[i] as int < 0x80 {
      CleanCharFacts(s[i]);
    }
    CleanCharFacts(s[|s| - 1]);
    AsciiLength(s);
  }

  lemma CodecLabelAlnum(codec: string)
    ensures var (tag, ext) := CodecLabel(codec);
            Alnum(tag) && Alnum(ext) && 1 <= |tag| <= 5 && 3 <= |ext| <= 4
  {
  }

  function TrackHead(number: Option<int>, title: string, artist: string): string {
    PadTwo(if number.Some? && number.value != 0 then number.value else 1) + ". " + title + " - " + artist
  }

  function TrackFilename(number: Option<int>, title: string, artist: string, isExplicit: bool, codec: string): string {
    var suffix := TrackSuffix(isExplicit, codec);
    SanitizeAndBound(MAX_FILENAME_BYTES, TrackHead(number, title, artist) + suffix, Some(suffix))
  }

  lemma {:induction false} LastDotOf(front: string, ext: string)
    requires '.' !in ext
    ensures LastDot(front + "." + ext) == Some(|front|)
    decreases |ext|
  {
    var s := front + "." + ext;
    if ext != [] {
      assert s[|s| - 1] == ext[|ext| - 1] && ext[|ext| - 1] in ext;
      assert s[..|s| - 1] == front + "." + ext[..|ext| - 1];
      LastDotOf(front, ext[..|ext| - 1]);
    }
  }

  lemma TaggedSuffixClean(isExplicit: bool, tag: string, ext: string)
    requires Alnum(tag) && Alnum(ext) && 1 <= |tag| <= 5 && 3 <= |ext| <= 4
    ensures CleanSuffix(TaggedSuffix(isExplicit, tag, ext)) && Utf8Len(TaggedSuffix(isExplicit, tag, ext)) <= 40
  {
    var s := TaggedSuffix(isExplicit, tag, ext);
    assert s[|s| - 1] == ext[|ext| - 1];
    AlnumChar(ext[|ext| - 1]);
    CleanCharsClean(s);
  }

  lemma VisibleDash(a: string, b: string)
    ensures exists i :: 0 <= i < |a + " - " + b| && !IsWhitespace(Sanitize(a + " - " + b)[i])
  {
    var s := a + " - " + b;
    assert s[|a| + 1] == '-' && Sanitize(s)[|a| + 1] == '-';
  }

  /** Every track name is within the limit and keeps its codec tag and extension. */
  lemma TrackNames(number: Option<int>, title: string, artist: string, isExplicit: bool, codec: string)
    ensures var name := TrackFilename(number, title, artist, isExplicit, codec);
            && Utf8Len(name) <= MAX_FILENAME_BYTES
            && EndsWith(name, TrackSuffix(isExplicit, codec))
            && StemAndExt(name).1 == "." + CodecLabel(codec).1
  {
    var (tag, ext) := CodecLabel(codec);
    CodecLabelAlnum(codec);
    TaggedNames(TrackHead(number, title, artist), isExplicit, tag, ext,
                PadTwo(if number.Some? && number.value != 0 then number.value else 1) + ". " + title, artist);
  }

  lemma TaggedNames(head: string, isExplicit: bool, tag: string, ext: string, a: string, b: string)
    requires head == a + " - " + b
    requires Alnum(tag) && Alnum(ext) && 1 <= |tag| <= 5 && 3 <= |ext| <= 4
    ensures var suffix := TaggedSuffix(isExplicit, tag, ext);
            var name := SanitizeAndBound(MAX_FILENAME_BYTES, head + suffix, Some(suffix));
            && Utf8Len(name) <= MAX_FILENAME_BYTES && EndsWith(name, suffix) && StemAndExt(name).1 == "." + ext
  {
    var suffix := TaggedSuffix(isExplicit, tag, ext);
    TaggedSuffixClean(isExplicit, tag, ext);
    VisibleDash(a, b);
    var front := SuffixSurvives(MAX_FILENAME_BYTES, head, suffix);
    TaggedExt(front, isExplicit, tag, ext);
  }

  lemma TaggedShape(front: string, mark: string, tag: string, ext: string)
    ensures front + (mark + " [" + tag + "]." + ext) == (front + mark + " [" + tag + "]") + "." + ext
  {
  }

  lemma TaggedExt(front: string, isExplicit: bool, tag: string, ext: string)
    requires Alnum(ext)
    ensures var name := front + TaggedSuffix(isExplicit, tag, ext);
            EndsWith(name, TaggedSuffix(isExplicit, tag, ext)) && StemAndExt(name).1 == "." + ext
  {
    var mark := if isExplicit then " [E]" else "";
    var stem := front + mark + " [" + tag + "]";
    TaggedShape(front, mark, tag, ext);
    forall c | c in ext ensures c != '.' {
      AlnumChar(c);
    }
    LastDotOf(stem, ext);
  }
}

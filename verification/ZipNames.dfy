/** The entry and archive names of crates/engine/src/zip.rs. */
module ZipNames {
  import opened Prelude
  import opened Text
  import opened Filename

  // ---- Entries

  function EntryExt(codec: string): string {
    if codec == "flac" then "flac" else if codec == "mp3" then "mp3" else "m4a"
  }

  function EntrySuffix(trackId: string, ext: string): string {
    " [" + trackId + "]." + ext
  }

  function EntryHead(number: Option<int>, title: string, artist: string): string {
    (if number.Some? then PadTwo(number.value) + " - " + title else title) + " - " + artist
  }

  function EntryName(number: Option<int>, title: string, artist: string, trackId: string, codec: string): string {
    var suffix := EntrySuffix(trackId, EntryExt(codec));
    SanitizeAndBound(MAX_ZIP_ENTRY_FILENAME_BYTES, EntryHead(number, title, artist) + suffix, Some(suffix))
  }

  predicate NumericId(id: string) {
    id != [] && forall i :: 0 <= i < |id| ==> IsDigit(id[i])
  }

  /** A numeric track id whose suffix leaves room in the name. */
  predicate EntryId(id: string, codec: string) {
    NumericId(id) && Utf8Len(EntrySuffix(id, EntryExt(codec))) < MAX_ZIP_ENTRY_FILENAME_BYTES
  }

  /** A path component that climbs to the parent directory. */
  predicate HasParent(s: string) {
    exists i :: 0 <= i < |s| - 1 && IsParentAt(s, i)
  }

  predicate IsParentAt(s: string, i: nat)
    requires i + 1 < |s|
  {
    && s[i] == '.' && s[i + 1] == '.'
    && (i == 0 || s[i - 1] == '/')
    && (i + 2 == |s| || s[i + 2] == '/')
  }

  /** `validate_entry_name`. */
  predicate ValidEntryName(name: string) {
    && name != [] && Utf8Len(name) <= MAX_ZIP_ENTRY_FILENAME_BYTES
    && (forall i :: 0 <= i < |name| ==> !(name[i] as int < 0x20 || name[i] as int == 0x7F))
    && name[0] != '/'
    && !HasParent(name)
  }

  const MANIFEST: string := "manifest.json"

  // ---- What the check refuses, by path components

  /** The parts of a path between its slashes. */
  function Components(path: string): (parts: seq<string>)
    ensures parts != []
  {
    if path == [] then [""]
    else
      var rest := Components(path[1..]);
      if path[0] == '/' then [""] + rest else [[path[0]] + rest[0]] + rest[1..]
  }

  /** The first component is `w` when the path starts with it and then ends or has a slash. */
  lemma {:induction false} FirstComponent(path: string, w: string)
    requires '/' !in w
    ensures Components(path)[0] == w <==> |w| <= |path| && path[..|w|] == w && (|path| == |w| || path[|w|] == '/')
  {
    if path != [] && path[0] != '/' {
      var first := Components(path[1..])[0];
      if w == [] {
        assert Components(path)[0][0] == path[0];
      } else {
        assert forall c :: c in w[1..] ==> c in w;
        FirstComponent(path[1..], w[1..]);
        assert Components(path)[0] == [path[0]] + first;
        HeadAndTail(path[0], first, w);
        PrefixByTail(path, w);
      }
    }
  }

  lemma HeadAndTail(c: char, s: string, w: string)
    requires w != []
    ensures [c] + s == w <==> c == w[0] && s == w[1..]
  {
    assert ([c] + s)[1..] == s && w == [w[0]] + w[1..];
  }

  lemma PrefixByTail(path: string, w: string)
    requires path != [] && w != []
    ensures w <= path <==> path[0] == w[0] && w[1..] <= path[1..]
    ensures w <= path <==> |w| <= |path| && path[..|w|] == w
    ensures w[1..] <= path[1..] <==> |w| <= |path| && path[1..][..|w| - 1] == w[1..]
  {
    if path[0] == w[0] && w[1..] <= path[1..] {
      forall i | 0 <= i < |w| ensures path[i] == w[i] {
        assert i > 0 ==> path[1..][i - 1] == w[1..][i - 1];
      }
    }
  }

  lemma {:induction false} LaterComponents(path: string)
    ensures ".." in Components(path)[1..] <==> exists i :: 1 <= i < |path| - 1 && IsParentAt(path, i)
  {
    if path != [] {
      var rest := path[1..];
      LaterComponents(rest);
      FirstComponent(rest, "..");
      var parts := Components(rest);
      assert parts == [parts[0]] + parts[1..];
      assert forall i :: 1 <= i < |path| - 1 ==>
          (IsParentAt(path, i) <==> if i == 1 then path[0] == '/' && IsParentAt(rest, 0) else IsParentAt(rest, i - 1));
      if path[0] == '/' {
        assert Components(path)[1..] == parts;
        if ".." in parts[1..] {
          var i :| 1 <= i < |rest| - 1 && IsParentAt(rest, i);
          assert IsParentAt(path, i + 1);
        }
        if parts[0] == ".." {
          assert IsParentAt(path, 1);
        }
        if i :| 1 <= i < |path| - 1 && IsParentAt(path, i) {
          assert i > 1 ==> IsParentAt(rest, i - 1);
        }
      } else {
        assert Components(path)[1..] == parts[1..];
        if ".." in parts[1..] {
          var i :| 1 <= i < |rest| - 1 && IsParentAt(rest, i);
          assert IsParentAt(path, i + 1);
        }
        if i :| 1 <= i < |path| - 1 && IsParentAt(path, i) {
          assert i > 1 && IsParentAt(rest, i - 1);
        }
      }
    }
  }

  lemma ParentByComponents(path: string)
    ensures HasParent(path) <==> ".." in Components(path)
  {
    FirstComponent(path, "..");
    LaterComponents(path);
    var parts := Components(path);
    assert parts == [parts[0]] + parts[1..];
    if |path| >= 2 {
      assert IsParentAt(path, 0) <==> path[..2] == ".." && (|path| == 2 || path[2] == '/');
    }
  }

  /** The name is not empty, has at most 240 bytes, no control character, no leading slash and no `..` component. */
  ghost predicate SafeEntry(name: string) {
    && 1 <= |name| && Utf8Len(name) <= 240
    && (forall c :: c in name ==> 0x20 <= c as int != 0x7F)
    && !("/" <= name) && ".." !in Components(name)
  }

  /** The check passes exactly the safe names. */
  lemma ValidIsSafe(name: string)
    ensures ValidEntryName(name) <==> SafeEntry(name)
  {
    hide Utf8Len, HasParent, Components;
    ParentByComponents(name);
    assert name != [] ==> (name[0] == '/' <==> "/" <= name);
    if ValidEntryName(name) {
      forall c | c in name ensures 0x20 <= c as int != 0x7F {
        var i :| 0 <= i < |name| && name[i] == c;
      }
    } else if SafeEntry(name) {
      forall i | 0 <= i < |name| ensures 0x20 <= name[i] as int != 0x7F {
        assert name[i] in name;
      }
    }
  }

  lemma EntryExtAlnum(codec: string)
    ensures Alnum(EntryExt(codec)) && 3 <= |EntryExt(codec)| <= 4
  {
  }

  lemma EntrySuffixClean(id: string, ext: string)
    requires NumericId(id) && Alnum(ext) && 3 <= |ext| <= 4
    ensures CleanSuffix(EntrySuffix(id, ext))
  {
    var s := EntrySuffix(id, ext);
    assert s[|s| - 1] == ext[|ext| - 1];
    AlnumChar(ext[|ext| - 1]);
    CleanCharsClean(s);
  }

  /** What follows the last bracket names the id. */
  lemma SameId(p: string, a: string, extA: string, q: string, b: string, extB: string)
    requires NumericId(a) && NumericId(b) && Alnum(extA) && Alnum(extB)
    ensures p + EntrySuffix(a, extA) == q + EntrySuffix(b, extB) ==> a == b
  {
    if p + EntrySuffix(a, extA) == q + EntrySuffix(b, extB) {
      var x, y := a + "]." + extA, b + "]." + extB;
      NoBracket(a, extA);
      NoBracket(b, extB);
      assert p + EntrySuffix(a, extA) == p + " " + ['['] + x;
      assert q + EntrySuffix(b, extB) == q + " " + ['['] + y;
      AfterLast(p + " ", x, q + " ", y, '[');
      assert x == a + [']'] + ("." + extA) && y == b + [']'] + ("." + extB);
      SameUpTo(a, "." + extA, b, "." + extB, ']');
    }
  }

  lemma NoBracket(id: string, ext: string)
    requires NumericId(id) && Alnum(ext)
    ensures '[' !in id + "]." + ext && ']' !in id
  {
    forall c | c in id ensures c != '[' && c != ']' {
      DigitIsClean(c);
    }
    forall c | c in ext ensures c != '[' {
      AlnumChar(c);
    }
  }

  /** What comes before the first separator is determined. */
  lemma SameUpTo(a: string, x: string, b: string, y: string, sep: char)
    requires a + [sep] + x == b + [sep] + y && sep !in a && sep !in b
    ensures a == b
  {
    var s := a + [sep] + x;
    assert s[|a|] == sep && s[|b|] == sep;
    assert a == s[..|a|] && b == s[..|b|];
  }

  lemma EntryForm(number: Option<int>, title: string, artist: string, id: string, codec: string) returns (front: string)
    requires EntryId(id, codec)
    ensures EntryName(number, title, artist, id, codec) == front + EntrySuffix(id, EntryExt(codec))
    ensures Utf8Len(EntryName(number, title, artist, id, codec)) <= 240
    ensures forall i :: 0 <= i < |front| ==> !IsForbidden(front[i])
  {
    EntryExtAlnum(codec);
    var head := if number.Some? then PadTwo(number.value) + " - " + title else title;
    front := HeadedForm(head, artist, id, EntryExt(codec));
  }

  lemma HeadedForm(a: string, b: string, id: string, ext: string) returns (front: string)
    requires NumericId(id) && Alnum(ext) && 3 <= |ext| <= 4
    requires Utf8Len(EntrySuffix(id, ext)) < MAX_ZIP_ENTRY_FILENAME_BYTES
    ensures var suffix := EntrySuffix(id, ext);
            SanitizeAndBound(MAX_ZIP_ENTRY_FILENAME_BYTES, a + " - " + b + suffix, Some(suffix)) == front + suffix
    ensures Utf8Len(front + EntrySuffix(id, ext)) <= MAX_ZIP_ENTRY_FILENAME_BYTES
    ensures forall i :: 0 <= i < |front| ==> !IsForbidden(front[i])
  {
    EntrySuffixClean(id, ext);
    VisibleDash(a, b);
    front := CleanFront(MAX_ZIP_ENTRY_FILENAME_BYTES, a + " - " + b, EntrySuffix(id, ext));
  }

  /** The kept part of the head holds no forbidden character. */
  lemma CleanFront(max: nat, head: string, suffix: string) returns (front: string)
    requires CleanSuffix(suffix) && Utf8Len(suffix) < max
    requires exists i :: 0 <= i < |head| && !IsWhitespace(Sanitize(head)[i])
    ensures SanitizeAndBound(max, head + suffix, Some(suffix)) == front + suffix
    ensures Utf8Len(front + suffix) <= max
    ensures forall i :: 0 <= i < |front| ==> !IsForbidden(front[i])
  {
    hide CleanSuffix, SanitizeAndBound, Sanitize, BoundPrefix, TrimStart, Utf8Len, IsWhitespace, IsForbidden;
    front := SuffixSurvives(max, head, suffix);
    PrefixIsClean(head, max - Utf8Len(suffix));
  }

  lemma PrefixIsClean(head: string, max: nat)
    ensures var front := BoundPrefix(TrimStart(Sanitize(head)), max);
            forall i :: 0 <= i < |front| ==> !IsForbidden(front[i])
  {
    SanitizedIsClean(head);
    TrimStartIsSuffix(Sanitize(head));
  }

  lemma SanitizedIsClean(s: string)
    ensures forall i :: 0 <= i < |s| ==> !IsForbidden(Sanitize(s)[i])
  {
    assert !IsForbidden('_');
  }

  lemma {:induction false} TrimStartIsSuffix(s: string)
    ensures EndsWith(s, TrimStart(s))
  {
    if s != [] && IsWhitespace(s[0]) {
      TrimStartIsSuffix(s[1..]);
    }
  }

  /** Entries of different numeric ids have different names, whatever the titles were cut to. */
  lemma EntryNamesDiffer(n: Option<int>, title: string, artist: string, id: string, codec: string,
                         m: Option<int>, title2: string, artist2: string, id2: string, codec2: string)
    requires EntryId(id, codec) && EntryId(id2, codec2) && id != id2
    ensures EntryName(n, title, artist, id, codec) != EntryName(m, title2, artist2, id2, codec2)
  {
    var p := EntryForm(n, title, artist, id, codec);
    var q := EntryForm(m, title2, artist2, id2, codec2);
    EntryExtAlnum(codec);
    EntryExtAlnum(codec2);
    SameId(p, id, EntryExt(codec), q, id2, EntryExt(codec2));
  }

  lemma CleanNameIsValid(front: string, suffix: string)
    requires CleanSuffix(suffix) && Utf8Len(front + suffix) <= MAX_ZIP_ENTRY_FILENAME_BYTES
    requires forall i :: 0 <= i < |front| ==> !IsForbidden(front[i])
    ensures ValidEntryName(front + suffix)
  {
    var s := front + suffix;
    forall i | 0 <= i < |s| ensures !IsForbidden(s[i]) {
      assert s[i] == if i < |front| then front[i] else suffix[i - |front|];
    }
    assert IsForbidden('/');
    forall i | 0 <= i < |s| ensures s[i] != '/' && !(s[i] as int < 0x20 || s[i] as int == 0x7F) {
      assert !IsForbidden(s[i]);
    }
  }

  /** A built entry name passes the planner's own checks. */
  lemma EntryNameIsValid(number: Option<int>, title: string, artist: string, id: string, codec: string)
    requires EntryId(id, codec)
    ensures ValidEntryName(EntryName(number, title, artist, id, codec))
    ensures EntryName(number, title, artist, id, codec) != MANIFEST
  {
    hide EntryName, EntrySuffix, EntryExt, ValidEntryName, CleanSuffix;
    var front := EntryForm(number, title, artist, id, codec);
    var suffix := EntrySuffix(id, EntryExt(codec));
    EntryExtAlnum(codec);
    EntrySuffixClean(id, EntryExt(codec));
    CleanNameIsValid(front, suffix);
    SuffixBracket(id, EntryExt(codec));
    NotManifest(front, suffix);
  }

  lemma SuffixBracket(id: string, ext: string)
    ensures '[' in EntrySuffix(id, ext)
  {
    assert EntrySuffix(id, ext)[1] == '[';
  }

  lemma NotManifest(front: string, suffix: string)
    requires '[' in suffix
    ensures front + suffix != MANIFEST
  {
    assert '[' in front + suffix;
    assert '[' !in MANIFEST;
  }

  // ---- Parts

  function ArchiveLabel(codec: string): string {
    if codec == "ec-3" then "Atmos"
    else if codec == "aac" || codec == "mp4a.40.2" || codec == "mp4a.40.5" then "AAC"
    else if codec == "flac" then "FLAC"
    else "ALAC"
  }

  /** A release date's year, when its first four characters are digits. */
  function YearPart(date: string): string {
    if |date| >= 4 && (forall i :: 0 <= i < 4 ==> IsDigit(date[i])) then " (" + date[..4] + ")" else ""
  }

  function PartMark(part: nat, total: nat): string {
    "Part " + Dec(part) + " of " + (Dec(total) + ").zip")
  }

  function PartSuffix(tag: string, part: nat, total: nat): string {
    if total == 1 then " [" + tag + "].zip" else " [" + tag + "] (" + PartMark(part, total)
  }

  function PartName(artist: string, album: string, date: string, codec: string, part: nat, total: nat): string {
    var suffix := PartSuffix(ArchiveLabel(codec), part, total);
    SanitizeAndBound(MAX_ARCHIVE_FILENAME_BYTES, artist + " - " + album + YearPart(date) + suffix, Some(suffix))
  }

  lemma ArchiveLabelAlnum(codec: string)
    ensures Alnum(ArchiveLabel(codec)) && 1 <= |ArchiveLabel(codec)| <= 5
  {
  }

  lemma DigitsAreCleanChars(s: string)
    requires forall c :: c in s ==> IsDigit(c)
    ensures forall i :: 0 <= i < |s| ==> CleanChar(s[i])
  {
    forall i | 0 <= i < |s| ensures CleanChar(s[i]) {
      assert s[i] in s;
    }
  }

  lemma PartSuffixClean(tag: string, part: nat, total: nat)
    requires Alnum(tag) && |tag| <= 5 && 1 <= part <= total <= U64_MAX
    ensures CleanSuffix(PartSuffix(tag, part, total)) && Utf8Len(PartSuffix(tag, part, total)) <= 70
  {
    U64Digits(part);
    U64Digits(total);
    DigitsAreCleanChars(Dec(part));
    DigitsAreCleanChars(Dec(total));
    var s := PartSuffix(tag, part, total);
    assert s[|s| - 1] == 'p';
    CleanCharsClean(s);
  }

  lemma PartForm(artist: string, album: string, date: string, codec: string, part: nat,
        total: nat) returns (front: string)
    requires 1 <= part <= total <= U64_MAX
    ensures PartName(artist, album, date, codec, part, total) == front + PartSuffix(ArchiveLabel(codec), part, total)
    ensures Utf8Len(PartName(artist, album, date, codec, part, total)) <= MAX_ARCHIVE_FILENAME_BYTES
  {
    hide PartSuffix, ArchiveLabel, YearPart, Utf8Len, SanitizeAndBound, Sanitize, CleanSuffix, BoundPrefix, TrimStart;
    ArchiveLabelAlnum(codec);
    PartSuffixClean(ArchiveLabel(codec), part, total);
    var tail := album + YearPart(date);
    VisibleDash(artist, tail);
    assert artist + " - " + tail == artist + " - " + album + YearPart(date);
    var suffix := PartSuffix(ArchiveLabel(codec), part, total);
    front := SuffixSurvives(MAX_ARCHIVE_FILENAME_BYTES, artist + " - " + tail, suffix);
  }

  lemma SamePart(p: string, q: string, tag: string, i: nat, j: nat, total: nat)
    requires total != 1
    ensures p + PartSuffix(tag, i, total) == q + PartSuffix(tag, j, total) ==> i == j
  {
    if p + PartSuffix(tag, i, total) == q + PartSuffix(tag, j, total) {
      NoParen(i, total);
      NoParen(j, total);
      SameMark(p, PartMark(i, total), q, PartMark(j, total), tag);
      SameNumber(Dec(i), Dec(j), " of ", Dec(total) + ").zip");
      DecInjective(i, j);
    }
  }

  lemma SameMark(p: string, x: string, q: string, y: string, tag: string)
    requires p + (" [" + tag + "] (" + x) == q + (" [" + tag + "] (" + y)
    requires '(' !in x && '(' !in y
    ensures x == y
  {
    var h := " [" + tag + "] ";
    assert p + (" [" + tag + "] (" + x) == (p + h) + ['('] + x;
    assert q + (" [" + tag + "] (" + y) == (q + h) + ['('] + y;
    AfterLast(p + h, x, q + h, y, '(');
  }

  lemma SameNumber(a: string, b: string, middle: string, end: string)
    ensures "Part " + a + middle + end == "Part " + b + middle + end ==> a == b
  {
    if "Part " + a + middle + end == "Part " + b + middle + end {
      SameTail("Part " + a + middle, "Part " + b + middle, end);
      SameTail("Part " + a, "Part " + b, middle);
      SameHead("Part ", a, b);
    }
  }

  lemma NoParen(part: nat, total: nat)
    ensures '(' !in PartMark(part, total)
  {
    DigitsAreClean(Dec(part));
    DigitsAreClean(Dec(total));
    assert '(' !in "Part " && '(' !in " of " && '(' !in ").zip";
  }

  /** Two parts of one archive have different names, and both fit. */
  lemma PartNamesDiffer(artist: string, album: string, date: string, codec: string, i: nat, j: nat, total: nat)
    requires 1 <= i < j <= total <= U64_MAX
    ensures PartName(artist, album, date, codec, i, total) != PartName(artist, album, date, codec, j, total)
    ensures Utf8Len(PartName(artist, album, date, codec, i, total)) <= 245
    ensures Utf8Len(PartName(artist, album, date, codec, j, total)) <= 245
  {
    var p := PartForm(artist, album, date, codec, i, total);
    var q := PartForm(artist, album, date, codec, j, total);
    SamePart(p, q, ArchiveLabel(codec), i, j, total);
  }
}

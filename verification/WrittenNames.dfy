/**
 What the names of crates/engine/src/filename.rs and zip.rs read: a text that is a legal name
 already is kept as it is, every other one still becomes a legal name, and the names of tracks,
 archive entries and archive parts are written out in full.
 */
module WrittenNames {
  import opened Prelude
  import opened Text
  import opened Filename
  import opened ZipNames

  // ---- Legal names

  /** Characters no file name may hold: nine marks, and the control characters of both blocks. */
  predicate Refused(c: char) {
    var n := c as int;
    || c == '<' || c == '>' || c == ':' || c == '"' || c == '/' || c == '\\' || c == '|' || c == '?' || c == '*'
    || n <= 0x1F || 0x7F <= n <= 0x9F
  }

  lemma ForbiddenIsRefused(c: char)
    ensures IsForbidden(c) <==> Refused(c)
  {
    assert c in "<>:\"/\\|?*\0" <==>
        c == '<' || c == '>' || c == ':' || c == '"' || c == '/' || c == '\\' || c == '|' || c == '?' || c == '*'
        || c == '\0';
  }

  predicate Plain(s: string) {
    forall i :: 0 <= i < |s| ==> !Refused(s[i])
  }

  /** What `try_new` asks, but for spaces around the name. */
  predicate Legal(s: string, max: nat) {
    Plain(s) && s != "" && s != "." && s != ".." && Utf8Len(s) <= max
  }

  lemma SanitizedIsPlain(s: string)
    ensures Plain(Sanitize(s))
  {
    ForbiddenIsRefused('_');
    forall i | 0 <= i < |s| ensures !Refused(Sanitize(s)[i]) {
      ForbiddenIsRefused(s[i]);
    }
  }

  lemma PlainKept(s: string)
    requires Plain(s)
    ensures Sanitize(s) == s
  {
    forall i | 0 <= i < |s| ensures !IsForbidden(s[i]) {
      ForbiddenIsRefused(s[i]);
    }
  }

  lemma {:induction false} TrimStartPlain(s: string)
    requires Plain(s)
    ensures Plain(TrimStart(s))
  {
    if s != [] && IsWhitespace(s[0]) {
      assert Plain(s[1..]);
      TrimStartPlain(s[1..]);
    }
  }

  lemma {:induction false} TrimEndPlain(s: string)
    requires Plain(s)
    ensures Plain(TrimEnd(s))
  {
    if s != [] && IsWhitespace(s[|s| - 1]) {
      assert Plain(s[..|s| - 1]);
      TrimEndPlain(s[..|s| - 1]);
    }
  }

  lemma TrackIsLegal(max: nat)
    requires max >= 5
    ensures Legal("track", max)
  {
    AsciiLength("track");
  }

  lemma PlainBoth(a: string, b: string)
    ensures Plain(a + b) <==> Plain(a) && Plain(b)
  {
    hide Refused;
    if Plain(a + b) {
      forall i | 0 <= i < |a| ensures !Refused(a[i]) {
        assert (a + b)[i] == a[i];
      }
      forall i | 0 <= i < |b| ensures !Refused(b[i]) {
        assert (a + b)[|a| + i] == b[i];
      }
    }
  }

  lemma CutIsPlain(stem: string, suffix: string, room: nat)
    requires Plain(stem + suffix)
    ensures Plain(BoundPrefix(stem, room) + suffix)
    ensures Utf8Len(BoundPrefix(stem, room) + suffix) <= room + Utf8Len(suffix)
  {
    hide Plain, Utf8Len;
    var cut := BoundPrefix(stem, room);
    assert stem == cut + stem[|cut|..];
    PlainBoth(cut, stem[|cut|..]);
    PlainBoth(stem, suffix);
    PlainBoth(cut, suffix);
    Utf8LenAppend(cut, suffix);
  }

  /** Every text becomes a legal name within the limit, whatever the suffix. */
  lemma AlwaysLegal(max: nat, name: string, suffix: Option<string>)
    requires max >= 5
    ensures Legal(SanitizeAndBound(max, name, suffix), max)
  {
    hide Trim, Sanitize, BoundPrefix, Utf8Len, Plain;
    TrackIsLegal(max);
    SanitizedIsPlain(name);
    TrimIsPlain(Sanitize(name));
    var trimmed := Trim(Sanitize(name));
    var candidate := if trimmed == [] || trimmed == "." || trimmed == ".." then "track" else trimmed;
    if suffix.Some? && EndsWith(candidate, suffix.value) && Utf8Len(suffix.value) < max {
      var stem := candidate[..|candidate| - |suffix.value|];
      assert candidate == stem + suffix.value;
      CutIsPlain(stem, suffix.value, max - Utf8Len(suffix.value));
    } else {
      CutAloneIsPlain(candidate, max);
    }
  }

  lemma CutAloneIsPlain(s: string, max: nat)
    requires Plain(s)
    ensures Plain(BoundPrefix(s, max)) && Utf8Len(BoundPrefix(s, max)) <= max
  {
    var cut := BoundPrefix(s, max);
    assert s == cut + s[|cut|..];
    PlainBoth(cut, s[|cut|..]);
  }

  lemma TrimIsPlain(s: string)
    requires Plain(s)
    ensures Plain(Trim(s))
  {
    TrimStartPlain(s);
    TrimEndPlain(TrimStart(s));
  }

  lemma TrimmedKept(s: string)
    requires s != [] && !IsWhitespace(s[0]) && !IsWhitespace(s[|s| - 1])
    ensures Trim(s) == s
  {
  }

  /** A legal name that does not start or end in space is kept as it is. */
  lemma LegalIsKept(max: nat, s: string, suffix: Option<string>)
    requires Legal(s, max) && !IsWhitespace(s[0]) && !IsWhitespace(s[|s| - 1])
    ensures SanitizeAndBound(max, s, suffix) == s
  {
    hide Trim, Sanitize, Plain, IsWhitespace, Utf8Len, BoundPrefix;
    PlainKept(s);
    TrimmedKept(s);
    BoundPrefixWhole(s, max);
    if suffix.Some? && EndsWith(s, suffix.value) && Utf8Len(suffix.value) < max {
      var stem := s[..|s| - |suffix.value|];
      assert s == stem + suffix.value;
      Utf8LenAppend(stem, suffix.value);
      BoundPrefixWhole(stem, max - Utf8Len(suffix.value));
    }
  }

  /** What is blank, or one or two dots, once forbidden characters are replaced, is called a track. */
  lemma FallbackWritten(max: nat, name: string)
    requires max >= 5 && Trim(Sanitize(name)) in {"", ".", ".."}
    ensures SanitizeAndBound(max, name, None) == "track"
  {
    hide Trim, Sanitize, BoundPrefix, Utf8Len;
    AsciiLength("track");
    BoundPrefixWhole("track", max);
  }

  // ---- Extensions

  /** The extension is what follows the last dot, with it, when something precedes that dot. */
  lemma {:induction false} LastDotIsLast(s: string)
    ensures LastDot(s).None? <==> '.' !in s
    ensures LastDot(s).Some? ==> '.' !in s[LastDot(s).value + 1..]
  {
    if s != [] && s[|s| - 1] != '.' {
      LastDotIsLast(s[..|s| - 1]);
      assert s == s[..|s| - 1] + [s[|s| - 1]];
      if LastDot(s).Some? {
        var k := LastDot(s).value;
        assert s[k + 1..] == s[..|s| - 1][k + 1..] + [s[|s| - 1]];
      }
    }
  }

  lemma ExtensionOf(s: string)
    ensures var (stem, ext) := StemAndExt(s);
            && stem + ext == s
            && (ext == "" ==> '.' !in s[if s == [] then 0 else 1..])
            && (ext != "" ==> stem != "" && ext[0] == '.' && '.' !in ext[1..])
  {
    LastDotIsLast(s);
    var dot := LastDot(s);
    if dot.Some? {
      assert s == s[..dot.value] + s[dot.value..];
      assert s[dot.value..][1..] == s[dot.value + 1..];
    } else if s != [] {
      assert forall c :: c in s[1..] ==> c in s;
    }
  }

  /** A name with a colliding id keeps as much of its stem as fits before the id and the extension. */
  lemma CollisionWritten(max: nat, stem: string, id: string, ext: string)
    requires '.' !in ext && stem != "" && Plain(id)
    requires Utf8Len("_" + id + "." + ext) < max
    ensures WithCollisionId(max, stem + "." + ext, id)
            == BoundPrefix(stem, max - Utf8Len("_" + id + "." + ext)) + "_" + id + "." + ext
  {
    hide Utf8Len, BoundPrefix, LastDot, SanitizeAndBound, Sanitize;
    LastDotOf(stem, ext);
    PlainKept(id);
    var name, suffix := stem + "." + ext, "_" + id + "." + ext;
    assert name[..|stem|] == stem && name[|stem|..] == "." + ext;
    assert "_" + id + ("." + ext) == suffix;
    var cut := BoundPrefix(stem, max - Utf8Len(suffix));
    assert cut + suffix == cut + "_" + id + "." + ext;
  }

  // ---- Track files

  lemma DigitFacts(c: char)
    requires IsDigit(c)
    ensures !Refused(c) && !IsWhitespace(c) && c as int < 0x80
  {
  }

  lemma PadTwoPlain(n: int)
    ensures PadTwo(n) != "" && Plain(PadTwo(n)) && !IsWhitespace(PadTwo(n)[0])
    ensures 0 <= n < 10 ==> PadTwo(n) == ['0', DigitChar(n)]
    ensures 10 <= n < 100 ==> PadTwo(n) == [DigitChar(n / 10), DigitChar(n % 10)]
  {
    if 10 <= n < 100 {
      assert Dec(n) == Dec(n / 10) + [DigitChar(n % 10)] && Dec(n / 10) == [DigitChar(n / 10)];
    }
    var digits := Dec(if n < 0 then -n else n);
    forall i | 0 <= i < |digits| ensures !Refused(digits[i]) && !IsWhitespace(digits[i]) {
      assert digits[i] in digits;
      DigitFacts(digits[i]);
    }
    DigitFacts('0');
  }

  /** The label and extension of each codec. */
  lemma LabelsWritten(codec: string)
    ensures CodecLabel("ec-3") == ("Atmos", "m4a") && CodecLabel("flac") == ("FLAC", "flac")
    ensures CodecLabel("mp3") == ("MP3", "mp3")
    ensures codec in ["aac", "mp4a.40.2", "mp4a.40.5"] ==> CodecLabel(codec) == ("AAC", "m4a")
    ensures codec !in ["ec-3", "aac", "mp4a.40.2", "mp4a.40.5", "flac", "mp3"] ==> CodecLabel(codec) == ("ALAC", "m4a")
    ensures ArchiveLabel("ec-3") == "Atmos" && ArchiveLabel("flac") == "FLAC"
    ensures codec in ["aac", "mp4a.40.2", "mp4a.40.5"] ==> ArchiveLabel(codec) == "AAC"
    ensures codec !in ["ec-3", "aac", "mp4a.40.2", "mp4a.40.5", "flac"] ==> ArchiveLabel(codec) == "ALAC"
    ensures EntryExt("flac") == "flac" && EntryExt("mp3") == "mp3"
    ensures codec !in ["flac", "mp3"] ==> EntryExt(codec) == "m4a"
  {
  }

  /** A plain head with a visible start and a clean suffix that fit are kept as they are. */
  lemma WholeKept(max: nat, head: string, suffix: string)
    requires Plain(head) && head != "" && !IsWhitespace(head[0]) && CleanSuffix(suffix)
    requires Utf8Len(head + suffix) <= max
    ensures SanitizeAndBound(max, head + suffix, Some(suffix)) == head + suffix
  {
    hide SanitizeAndBound, Utf8Len, IsWhitespace, Refused, IsForbidden;
    CleanIsPlain(suffix);
    PlainBoth(head, suffix);
    var s := head + suffix;
    assert s[0] == head[0] && s[|s| - 1] == suffix[|suffix| - 1];
    LegalIsKept(max, s, Some(suffix));
  }

  lemma CleanIsPlain(suffix: string)
    requires CleanSuffix(suffix)
    ensures Plain(suffix)
  {
    forall i | 0 <= i < |suffix| ensures !Refused(suffix[i]) {
      ForbiddenIsRefused(suffix[i]);
    }
  }

  lemma PlainFive(a: string, b: string, c: string, d: string, e: string)
    requires Plain(a) && Plain(b) && Plain(c) && Plain(d) && Plain(e)
    ensures Plain(a + b + c + d + e)
  {
    hide Plain;
    PlainBoth(a, b);
    PlainBoth(a + b, c);
    PlainBoth(a + b + c, d);
    PlainBoth(a + b + c + d, e);
  }

  /** The name of a track in full, when its title and artist are legal as they stand and it fits in 255 bytes. */
  lemma TrackNameWritten(number: Option<int>, n: int, title: string, artist: string, isExplicit: bool, codec: string,
        tag: string, ext: string, name: string)
    requires n == (if number == None || number == Some(0) then 1 else number.value)
    requires Plain(title) && Plain(artist) && CodecLabel(codec) == (tag, ext)
    requires name == PadTwo(n) + ". " + title + " - " + artist
            + ((if isExplicit then " [E]" else "") + " [" + tag + "]." + ext)
    requires Utf8Len(name) <= 255
    ensures TrackFilename(number, title, artist, isExplicit, codec) == name
  {
    hide PadTwo, Utf8Len, IsWhitespace, SanitizeAndBound, CleanSuffix, Plain, CodecLabel;
    CodecLabelAlnum(codec);
    TaggedSuffixClean(isExplicit, tag, ext);
    PadTwoPlain(n);
    MarksPlain();
    var head := PadTwo(n) + ". " + title + " - " + artist;
    PlainFive(PadTwo(n), ". ", title, " - ", artist);
    assert head[0] == PadTwo(n)[0];
    WholeKept(255, head, TaggedSuffix(isExplicit, tag, ext));
  }

  lemma MarksPlain()
    ensures Plain(". ") && Plain(" - ") && Plain("")
  {
  }

  // ---- Archive entries and parts

  /** The name of an archive entry in full, likewise, within 240 bytes. */
  lemma EntryNameWritten(number: Option<int>, title: string, artist: string, id: string, codec: string, head: string)
    requires EntryId(id, codec) && Plain(title) && Plain(artist)
    requires number.Some? || (title != "" && !IsWhitespace(title[0]))
    requires head == (if number.Some? then PadTwo(number.value) + " - " + title else title) + " - " + artist
    requires Utf8Len(head + (" [" + id + "]." + EntryExt(codec))) <= 240
    ensures EntryName(number, title, artist, id, codec) == head + (" [" + id + "]." + EntryExt(codec))
  {
    hide PadTwo, Utf8Len, IsWhitespace, SanitizeAndBound, CleanSuffix, Plain, EntryExt;
    EntryExtAlnum(codec);
    EntrySuffixClean(id, EntryExt(codec));
    MarksPlain();
    if number.Some? {
      PadTwoPlain(number.value);
      PlainFive(PadTwo(number.value), " - ", title, " - ", artist);
      assert head[0] == PadTwo(number.value)[0];
    } else {
      PlainBoth(title, " - ");
      PlainBoth(title + " - ", artist);
      assert head[0] == title[0];
    }
    WholeKept(240, head, " [" + id + "]." + EntryExt(codec));
  }

  /** The year of a release date that starts with four digits, in brackets; nothing otherwise. */
  lemma YearWritten(y: string, rest: string)
    ensures |y| == 4 && (forall i :: 0 <= i < 4 ==> '0' <= y[i] <= '9') ==> YearPart(y + rest) == " (" + y + ")"
    ensures |y| < 4 ==> YearPart(y) == ""
    ensures |y| == 4 && (exists i :: 0 <= i < 4 && !('0' <= y[i] <= '9')) ==> YearPart(y + rest) == ""
  {
    if |y| == 4 {
      assert (y + rest)[..4] == y;
      assert forall i :: 0 <= i < 4 ==> (y + rest)[i] == y[i];
    }
  }

  /** The name of an archive part in full, likewise, within 245 bytes. */
  lemma PartNameWritten(artist: string, album: string, date: string, codec: string, part: nat, total: nat, head: string,
        mark: string)
    requires Plain(artist) && Plain(album) && artist != "" && !IsWhitespace(artist[0])
    requires 1 <= part <= total <= U64_MAX
    requires head == artist + " - " + album + YearPart(date)
    requires mark == (if total == 1 then ".zip" else " (Part " + Dec(part) + " of " + Dec(total) + ").zip")
    requires Utf8Len(head + (" [" + ArchiveLabel(codec) + "]" + mark)) <= 245
    ensures PartName(artist, album, date, codec, part, total) == head + (" [" + ArchiveLabel(codec) + "]" + mark)
  {
    hide Utf8Len, IsWhitespace, SanitizeAndBound, CleanSuffix, Plain, ArchiveLabel, YearPart, Dec;
    ArchiveLabelAlnum(codec);
    PartSuffixClean(ArchiveLabel(codec), part, total);
    SuffixRegrouped(ArchiveLabel(codec), part, total);
    MarksPlain();
    YearPlain(date);
    PlainBoth(artist, " - ");
    PlainBoth(artist + " - ", album);
    PlainBoth(artist + " - " + album, YearPart(date));
    assert head[0] == artist[0];
    WholeKept(245, head, PartSuffix(ArchiveLabel(codec), part, total));
  }

  lemma SuffixRegrouped(tag: string, part: nat, total: nat)
    ensures PartSuffix(tag, part, total) == " [" + tag + "]"
            + if total == 1 then ".zip" else " (Part " + Dec(part) + " of " + Dec(total) + ").zip"
  {
    hide Dec;
    if total != 1 {
      var p, n := Dec(part), Dec(total);
      assert "] (" == "]" + " (" && " (Part " == " (" + "Part " && "].zip" == "]" + ".zip";
      Regrouped("Part " + p, " of ", n + ").zip");
      Regrouped("Part " + p + " of ", n, ").zip");
      Regrouped(" [" + tag, "]", " (");
      Regrouped(" [" + tag + "]", " (", "Part " + p + " of " + n + ").zip");
      FiveRegrouped(" (", "Part ", p, " of ", n, ").zip");
    } else {
      assert "].zip" == "]" + ".zip";
      Regrouped(" [" + tag, "]", ".zip");
    }
  }

  lemma Regrouped(a: string, b: string, c: string)
    ensures a + (b + c) == a + b + c
  {
  }

  lemma FiveRegrouped(a: string, b: string, c: string, d: string, e: string, f: string)
    ensures a + (b + c + d + e + f) == (a + b) + c + d + e + f
  {
    Regrouped(a, b, c);
    Regrouped(a, b + c, d);
    Regrouped(a, b + c + d, e);
    Regrouped(a, b + c + d + e, f);
  }

  lemma YearPlain(date: string)
    ensures Plain(YearPart(date))
  {
    if |date| >= 4 && forall i :: 0 <= i < 4 ==> IsDigit(date[i]) {
      forall i | 0 <= i < |YearPart(date)| ensures !Refused(YearPart(date)[i]) {
        if 2 <= i < 6 {
          DigitFacts(date[i - 2]);
        }
      }
    }
  }
}

/** The codecs of crates/music/src/lib.rs. */
module Music {
  import opened Prelude
  import opened Text

  datatype Codec = Alac | Aac | Ec3

  function AsStr(codec: Codec): string {
    match codec
    case Alac => "alac"
    case Aac => "aac"
    case Ec3 => "ec-3"
  }

  function LowerChar(c: char): char {
    if 'A' <= c <= 'Z' then ((c as int) + 32) as char else c
  }

  function AsciiLower(s: string): (r: string)
    ensures |r| == |s| && forall i :: 0 <= i < |s| ==> r[i] == LowerChar(s[i])
  {
    if s == [] then [] else [LowerChar(s[0])] + AsciiLower(s[1..])
  }

  /** `Codec::from_str`. */
  function ParseCodec(value: string): Option<Codec> {
    var s := AsciiLower(Trim(value));
    if s == "alac" then Some(Alac)
    else if s in {"ec-3", "ec3", "atmos", "dolby", "dolby atmos", "eac3"} then Some(Ec3)
    else if s in {"aac", "mp4a.40.2", "mp4a.40.5", "heaac"} then Some(Aac)
    else None
  }

  /** The texts that name a codec, once trimmed and in lower case. */
  lemma CodecNames(value: string)
    ensures var s := AsciiLower(Trim(value));
            && (ParseCodec(value) == Some(Alac) <==> s == "alac")
            && (ParseCodec(value) == Some(Aac) <==> s in {"aac", "heaac", "mp4a.40.2", "mp4a.40.5"})
            && (ParseCodec(value) == Some(Ec3) <==> s in {"ec-3", "ec3", "eac3", "atmos", "dolby", "dolby atmos"})
    ensures AsStr(Alac) == "alac" && AsStr(Aac) == "aac" && AsStr(Ec3) == "ec-3"
  {
    assert "alac" != "aac" && "alac"[1] == 'l' && "heaac"[0] == 'h' && "mp4a.40.2"[0] == 'm' && "mp4a.40.5"[0] == 'm';
    assert "ec-3"[0] == 'e' && "ec3"[0] == 'e' && "eac3"[0] == 'e' && "atmos"[1] == 't' && "aac"[1] == 'a';
    assert "dolby"[0] == 'd' && "dolby atmos"[0] == 'd';
  }

  /** Only the ASCII capitals are lowered, each to the small letter at its place in the alphabet. */
  lemma LoweredWritten(c: char)
    ensures 'A' <= c <= 'Z' ==>
              'a' <= LowerChar(c) <= 'z' && LowerChar(c) as int - 'a' as int == c as int - 'A' as int
    ensures c < 'A' || c > 'Z' ==> LowerChar(c) == c
  {
  }

  /** The printed form of a codec is read back as that codec. */
  lemma CodecRoundTrip(codec: Codec)
    ensures ParseCodec(AsStr(codec)) == Some(codec)
  {
    var s := AsStr(codec);
    assert TrimStart(s) == s && TrimEnd(s) == s;
    assert AsciiLower(s) == s;
  }
}

/** Claiming a free file name, from crates/engine/src/ripper.rs. */
module Ripper {
  import opened Prelude
  import opened Text
  import opened Filename

  /** What `unique_temp_suffix` hands out: 64-bit counters, no two equal. */
  ghost predicate Counters(ids: seq<nat>) {
    && (forall i :: 0 <= i < |ids| ==> ids[i] <= U64_MAX)
    && (forall i, j :: 0 <= i < j < |ids| ==> ids[i] != ids[j])
  }

  ghost function Candidate(base: string, ids: seq<nat>, k: nat): string
    requires k <= |ids|
  {
    if k == 0 then base else WithCollisionId(MAX_FILENAME_BYTES, base, Dec(ids[k - 1]))
  }

  lemma CandidatesDiffer(base: string, ids: seq<nat>, i: nat, j: nat)
    requires Counters(ids) && 0 < i < j <= |ids| && Utf8Len(StemAndExt(base).1) <= 200
    ensures Candidate(base, ids, i) != Candidate(base, ids, j)
  {
    U64Digits(ids[i - 1]);
    U64Digits(ids[j - 1]);
    CollisionIdsDiffer(MAX_FILENAME_BYTES, base, ids[i - 1], ids[j - 1]);
  }

  /** The counted candidates refused so far are that many different existing names. */
  lemma {:induction false} RefusedNames(existing: set<string>, base: string, ids: seq<nat>, n: nat)
    returns (refused: set<string>)
    requires Counters(ids) && n <= |ids| && Utf8Len(StemAndExt(base).1) <= 200
    requires forall k :: 0 < k <= n ==> Candidate(base, ids, k) in existing
    ensures refused <= existing && |refused| == n
    ensures forall x :: x in refused ==> exists k :: 0 < k <= n && x == Candidate(base, ids, k)
  {
    if n == 0 {
      refused := {};
    } else {
      var fewer := RefusedNames(existing, base, ids, n - 1);
      forall k | 0 < k < n ensures Candidate(base, ids, k) != Candidate(base, ids, n) {
        CandidatesDiffer(base, ids, k, n);
      }
      refused := fewer + {Candidate(base, ids, n)};
    }
  }

  lemma TriesBounded(existing: set<string>, base: string, ids: seq<nat>, n: nat)
    requires Counters(ids) && n <= |ids| && Utf8Len(StemAndExt(base).1) <= 200
    requires forall k :: 0 < k <= n ==> Candidate(base, ids, k) in existing
    ensures n <= |existing|
  {
    var refused := RefusedNames(existing, base, ids, n);
    SubsetSize(refused, existing);
  }

  lemma CandidateFits(base: string, ids: seq<nat>, k: nat)
    requires Counters(ids) && k <= |ids|
    requires Utf8Len(base) <= 255 && Utf8Len(StemAndExt(base).1) <= 200
    ensures Utf8Len(Candidate(base, ids, k)) <= 255
  {
    if k > 0 {
      U64Digits(ids[k - 1]);
      var front := CollisionForm(MAX_FILENAME_BYTES, base, ids[k - 1]);
    }
  }

  /**
   The loop that opens with `create_new`: it takes the first candidate no file has. Because
   different counters give different names, it ends after at most one try for each existing
   file and one more for the plain name.
   */
  method ClaimName(existing: set<string>, base: string, ids: seq<nat>) returns (name: string, tries: nat)
    requires Counters(ids) && |ids| > |existing|
    requires Utf8Len(base) <= 255 && Utf8Len(StemAndExt(base).1) <= 200
    ensures tries <= |existing| + 1 && tries <= |ids| && name == Candidate(base, ids, tries)
    ensures name !in existing && Utf8Len(name) <= 255
    ensures forall k :: 0 <= k < tries ==> Candidate(base, ids, k) in existing
  {
    name, tries := base, 0;
    while name in existing
      invariant tries <= |ids| && name == Candidate(base, ids, tries)
      invariant forall k :: 0 <= k < tries ==> Candidate(base, ids, k) in existing
      decreases |ids| - tries
    {
      TriesBounded(existing, base, ids, tries);
      name := WithCollisionId(MAX_FILENAME_BYTES, base, Dec(ids[tries]));
      tries := tries + 1;
    }
    if tries > 0 {
      TriesBounded(existing, base, ids, tries - 1);
    }
    CandidateFits(base, ids, tries);
  }

  lemma {:induction false} SubsetSize<T>(a: set<T>, b: set<T>)
    requires a <= b
    ensures |a| <= |b|
  {
    if a != {} {
      var x :| x in a;
      SubsetSize(a - {x}, b - {x});
    }
  }

  /** Track names meet what `ClaimName` asks of the name it starts from. */
  lemma TrackNamesAreClaimable(number: Option<int>, title: string, artist: string, isExplicit: bool, codec: string)
    ensures var base := TrackFilename(number, title, artist, isExplicit, codec);
            Utf8Len(base) <= MAX_FILENAME_BYTES && Utf8Len(StemAndExt(base).1) <= 200
  {
    TrackNames(number, title, artist, isExplicit, codec);
    CodecLabelAlnum(codec);
    AlnumLength(CodecLabel(codec).1);
  }

  lemma AlnumLength(ext: string)
    requires Alnum(ext)
    ensures Utf8Len("." + ext) == 1 + |ext|
  {
    AsciiLength("." + ext);
  }
}

/**
 The repetition count test on the random number source (section 4.4.1 of NIST SP 800-90B): counts of
 leading and trailing bits per word, measured against runs in the bit stream.
 */
module HealthTest {

  /** A 32-bit word as its bits, least significant first. */
  type Word = w: seq<bool> | |w| == 32
    witness [false, false, false, false, false, false, false, false, false, false, false, false, false, false, false, false,
             false, false, false, false, false, false, false, false, false, false, false, false, false, false, false, false]

  const RCT_CUTOFF_BITS: nat := 41
  const RCT_CUTOFF_WORDS: nat := (RCT_CUTOFF_BITS + 31) / 32

  /** The n bits of s from i on are all b. */
  ghost predicate RunAt(s: seq<bool>, i: nat, n: nat, b: bool)
  {
    i + n <= |s| && forall k | i <= k < i + n :: s[k] == b
  }

  /** The stream contains a run of at least c equal bits. */
  ghost predicate HasRun(s: seq<bool>, c: nat)
  {
    exists i: nat, b :: RunAt(s, i, c, b)
  }

  /** How many bits at the start equal b: ctz for b = false, ctz of the complement for b = true. */
  function Lead(s: seq<bool>, b: bool): (n: nat)
    ensures n <= |s| && RunAt(s, 0, n, b) && (n < |s| ==> s[n] != b)
  {
    if s == [] || s[0] != b then 0 else 1 + Lead(s[1..], b)
  }

  /** How many bits at the end equal b: clz for b = false, clz of the complement for b = true. */
  function Trail(s: seq<bool>, b: bool): (n: nat)
    ensures n <= |s| && RunAt(s, |s| - n, n, b) && (n < |s| ==> s[|s| - n - 1] != b)
  {
    if s == [] || s[|s| - 1] != b then 0 else 1 + Trail(s[..|s| - 1], b)
  }

  /** Concatenation of the words, least significant bit first. */
  ghost function Stream(words: seq<Word>): (s: seq<bool>)
    ensures |s| == 32 * |words|
  {
    if words == [] then [] else Stream(words[..|words| - 1]) + words[|words| - 1]
  }

  /** `last_clz` and `last_clo` after a word: the mask keeps the old count only for a uniform word. */
  function NextTrail(last: nat, w: Word, b: bool): (n: nat)
  {
    Trail(w, b) + if Lead(w, b) == 32 then last else 0
  }

  lemma TrailAppend(s: seq<bool>, w: Word, b: bool)
    ensures Trail(s + w, b) == NextTrail(Trail(s, b), w, b)
  {
    var n := NextTrail(Trail(s, b), w, b);
    var t := s + w;
    UniformTrail(w, b);
    assert RunAt(t, |t| - n, n, b) by {
      forall k | |t| - n <= k < |t| ensures t[k] == b {
        if k < |s| {
          assert s[k] == b;
        } else {
          assert w[k - |s|] == b;
        }
      }
    }
    TrailUnique(t, n, b);
  }

  /** A word is uniform from either end. */
  lemma UniformTrail(w: Word, b: bool)
    ensures Lead(w, b) == 32 <==> Trail(w, b) == 32
  {
  }

  lemma TrailUnique(s: seq<bool>, n: nat, b: bool)
    requires n <= |s| && RunAt(s, |s| - n, n, b) && (n < |s| ==> s[|s| - n - 1] != b)
    ensures Trail(s, b) == n
  {
    var m := Trail(s, b);
    assert m < n ==> |s| - n <= |s| - m - 1 < |s|;
    assert m > n ==> |s| - m <= |s| - n - 1 < |s|;
  }

  /** The test of one word: the run that reaches into it from the stream before. */
  predicate Trips(lastClz: nat, lastClo: nat, w: Word, cutoff: nat)
  {
    Lead(w, false) + lastClz >= cutoff || Lead(w, true) + lastClo >= cutoff
  }

  /**
   For a cutoff of at least 32 bits, a word creates a run of that length exactly when the run that
   reaches into it from before is long enough: runs inside the word are too short.
   */
  lemma WordCreatesRun(s: seq<bool>, w: Word, cutoff: nat)
    requires cutoff >= 32
    ensures HasRun(s + w, cutoff) <==> HasRun(s, cutoff) || Trips(Trail(s, false), Trail(s, true), w, cutoff)
  {
    var t := s + w;
    if HasRun(s, cutoff) {
      var i: nat, b :| RunAt(s, i, cutoff, b);
      assert RunAt(t, i, cutoff, b);
    }
    if Trips(Trail(s, false), Trail(s, true), w, cutoff) {
      var b := !(Lead(w, false) + Trail(s, false) >= cutoff);
      var i := |s| - Trail(s, b);
      assert RunAt(t, i, cutoff, b) by {
        forall k | i <= k < i + cutoff ensures t[k] == b {
          if k < |s| {
            assert s[k] == b;
          } else {
            assert w[k - |s|] == b;
          }
        }
      }
    }
    if HasRun(t, cutoff) {
      var i: nat, b :| RunAt(t, i, cutoff, b);
      RunReaches(s, w, cutoff, i, b);
    }
  }

  lemma RunReaches(s: seq<bool>, w: Word, cutoff: nat, i: nat, b: bool)
    requires cutoff >= 32 && RunAt(s + w, i, cutoff, b)
    ensures HasRun(s, cutoff) || Lead(w, b) + Trail(s, b) >= cutoff
  {
    var t := s + w;
    if i + cutoff <= |s| {
      assert RunAt(s, i, cutoff, b) by {
        forall k | i <= k < i + cutoff ensures s[k] == b { assert t[k] == b; }
      }
    } else {
      var head := i + cutoff - |s|;
      assert forall k | 0 <= k < |w| :: t[|s| + k] == w[k];
      assert Lead(w, b) >= head;
      var n := Trail(s, b);
      assert n < |s| ==> t[|s| - n - 1] == s[|s| - n - 1] != b;
    }
  }

  /** `repetition_count_test_n`: true stands for EC_SUCCESS. */
  method RepetitionCountTestN(words: seq<Word>, cutoff: nat) returns (ok: bool)
    requires cutoff >= 32
    ensures ok <==> |words| >= RCT_CUTOFF_WORDS && !HasRun(Stream(words), cutoff)
  {
    var lastClz, lastClo := 0, 0;
    if |words| < RCT_CUTOFF_WORDS { return false; }
    assert words[..0] == [] && !HasRun([], cutoff);
    for i := 0 to |words|
      invariant lastClz == Trail(Stream(words[..i]), false) && lastClo == Trail(Stream(words[..i]), true)
      invariant !HasRun(Stream(words[..i]), cutoff)
    {
      hide HasRun, Lead, Trail;
      var w := words[i];
      assert words[..i + 1][..i] == words[..i];
      ghost var s := Stream(words[..i]);
      assert Stream(words[..i + 1]) == s + w;
      WordCreatesRun(s, w, cutoff);
      if Trips(lastClz, lastClo, w, cutoff) {
        RunPersists(words, i + 1, cutoff);
        return false;
      }
      TrailAppend(s, w, false);
      TrailAppend(s, w, true);
      lastClz := NextTrail(lastClz, w, false);
      lastClo := NextTrail(lastClo, w, true);
    }
    assert words[..|words|] == words;
    return true;
  }

  lemma {:induction false} StreamPrefix(words: seq<Word>, n: nat)
    requires n <= |words|
    ensures Stream(words[..n]) <= Stream(words)
  {
    if n < |words| {
      assert words[..|words| - 1][..n] == words[..n];
      StreamPrefix(words[..|words| - 1], n);
    } else {
      assert words[..n] == words;
    }
  }

  /** Once a run is in the stream it stays there. */
  lemma RunPersists(words: seq<Word>, n: nat, cutoff: nat)
    requires n <= |words| && HasRun(Stream(words[..n]), cutoff)
    ensures HasRun(Stream(words), cutoff)
  {
    StreamPrefix(words, n);
    PrefixRun(Stream(words[..n]), Stream(words), cutoff);
  }

  lemma PrefixRun(s: seq<bool>, t: seq<bool>, cutoff: nat)
    requires s <= t && HasRun(s, cutoff)
    ensures HasRun(t, cutoff)
  {
    var i: nat, b :| RunAt(s, i, cutoff, b);
    assert RunAt(t, i, cutoff, b);
  }

  lemma StreamAppend(words: seq<Word>, w: Word)
    ensures Stream(words + [w]) == Stream(words) + w
  {
    assert (words + [w])[..|words|] == words;
  }

  /** The streaming test, over all words since power-on. */
  class StreamingTest {
    const cutoff: nat
    var lastClz: nat
    var lastClo: nat
    var count: nat
    var fatal: bool
    ghost var words: seq<Word>

    /** The error flag is up exactly when the stream so far contains a forbidden run. */
    ghost predicate Valid()
      reads this
    {
      && cutoff >= 32
      && lastClz == Trail(Stream(words), false) && lastClo == Trail(Stream(words), true)
      && (fatal <==> HasRun(Stream(words), cutoff))
      && count == if |words| < RCT_CUTOFF_WORDS then |words| else RCT_CUTOFF_WORDS
    }

    constructor (cutoff: nat)
      requires cutoff >= 32
      ensures Valid() && words == [] && this.cutoff == cutoff
    {
      this.cutoff := cutoff;
      lastClz, lastClo, count, fatal, words := 0, 0, 0, false, [];
    }

    /** `repetition_count_test`. */
    method Test(w: Word)
      requires Valid()
      modifies this
      ensures Valid() && words == old(words) + [w]
    {
      hide HasRun, Lead, Trail, Stream, Trips, NextTrail;
      ghost var s := Stream(words);
      StreamAppend(words, w);
      WordCreatesRun(s, w, cutoff);
      TrailAppend(s, w, false);
      TrailAppend(s, w, true);
      if Trips(lastClz, lastClo, w, cutoff) {
        fatal := true;
      }
      lastClz := NextTrail(lastClz, w, false);
      lastClo := NextTrail(lastClo, w, true);
      if count < RCT_CUTOFF_WORDS {
        count := count + 1;
      }
      words := words + [w];
    }

    /** `rct_is_initialized`. */
    method IsInitialized() returns (r: bool)
      requires Valid()
      ensures r <==> |words| >= RCT_CUTOFF_WORDS
    {
      r := count >= RCT_CUTOFF_WORDS;
    }
  }

  // ----- why the cutoff has to be at least 32

  /** The decision of the word test on two words, as the loop takes it. */
  predicate PassesTwo(v: Word, w: Word, cutoff: nat)
  {
    && !Trips(0, 0, v, cutoff)
    && !Trips(NextTrail(0, v, false), NextTrail(0, v, true), w, cutoff)
  }

  /** Below 32 the test misses runs that end with the last word. */
  lemma MissesShortCutoff(v: Word, w: Word, cutoff: nat)
    requires 2 <= cutoff <= 31
    requires v[0] && !v[1] && !v[31] && v[30]
    requires w[0] && forall k | 1 <= k < 32 :: !w[k]
    ensures PassesTwo(v, w, cutoff) && HasRun(Stream([v, w]), cutoff)
  {
    assert Lead(v, true) == 1 && Lead(v, false) == 0;
    assert Trail(v, false) == 1 && Trail(v, true) == 0 by {
      TrailUnique(v, 1, false);
      TrailUnique(v, 0, true);
    }
    assert Lead(w, true) == 1 && Lead(w, false) == 0;
    assert Stream([v, w]) == Stream([v]) + w by { assert [v, w][..1] == [v]; }
    var s := Stream([v, w]);
    assert |Stream([v])| == 32;
    assert RunAt(s, 33, cutoff, false) by {
      forall k | 33 <= k < 33 + cutoff ensures s[k] == false { assert s[k] == w[k - 32]; }
    }
  }

  /** Cutoffs of at least 32 bits, on two words: exactly the runs are found. */
  lemma TwoWords(v: Word, w: Word, cutoff: nat)
    requires cutoff >= 32
    ensures PassesTwo(v, w, cutoff) <==> !HasRun(Stream([v, w]), cutoff)
  {
    assert Stream([v]) == v && Stream([v, w]) == v + w by {
      assert [v][..0] == [] && [v, w][..1] == [v];
      assert Stream([v]) == Stream([]) + v;
    }
    assert !HasRun([], cutoff);
    assert [] + v == v && Trail([], false) == 0 && Trail([], true) == 0;
    hide HasRun, Lead, Trail;
    WordCreatesRun([], v, cutoff);
    WordCreatesRun(v, w, cutoff);
    TrailAppend([], v, false);
    TrailAppend([], v, true);
  }

  /** Cutoffs of one bit or none: every word is a forbidden run, and the test never passes. */
  lemma TinyCutoff(v: Word, w: Word, cutoff: nat)
    requires cutoff <= 1
    ensures !PassesTwo(v, w, cutoff) && HasRun(Stream([v, w]), cutoff)
  {
    assert Lead(v, v[0]) >= 1;
    var s := Stream([v, w]);
    assert RunAt(s, 0, cutoff, s[0]);
  }

  /** The test is exact for a cutoff if and only if that is not between 2 and 31. */
  lemma ExactIff(cutoff: nat)
    ensures (forall v: Word, w: Word :: PassesTwo(v, w, cutoff) <==> !HasRun(Stream([v, w]), cutoff))
       <==> cutoff <= 1 || cutoff >= 32
  {
    if 2 <= cutoff <= 31 {
      var v: Word := seq(32, i => i == 0 || i == 30);
      var w: Word := seq(32, i => i == 0);
      MissesShortCutoff(v, w, cutoff);
    } else {
      forall v: Word, w: Word
        ensures PassesTwo(v, w, cutoff) <==> !HasRun(Stream([v, w]), cutoff)
      {
        if cutoff <= 1 {
          TinyCutoff(v, w, cutoff);
        } else {
          TwoWords(v, w, cutoff);
        }
      }
    }
  }
}

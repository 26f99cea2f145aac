/**
 The flash encoding of the non-volatile counter: eight strikes per word, counted by the last word
 that is not blank.
 */
module CounterPage {

  const BLANK: bv32 := 0xFFFFFFFF
  const WORDS_PER_PAGE: nat := 512
  const COUNTS_PER_WORD: nat := 8
  const COUNTS_PER_PAGE: nat := 4096

  /** The word after k strikes: `WRITE_PATTERNS`, preceded by the blank word. */
  function Struck(k: nat): (w: bv32)
    requires k <= 8
  {
    match k
    case 0 => BLANK
    case 1 => 0x3CFFFFFF
    case 2 => 0x00FFFFFF
    case 3 => 0x003CFFFF
    case 4 => 0x0000FFFF
    case 5 => 0x00003CFF
    case 6 => 0x000000FF
    case 7 => 0x0000003C
    case _ => 0x00000000
  }

  /** The strikes that a word stands for, tolerant of partially written states. */
  function Decode(w: bv32): (k: nat)
    ensures k <= 8 && (k == 0 <==> w == BLANK)
  {
    if w == 0xFFFFFFFF then 0
    else if w & 0x3CFFFFFF == 0x3CFFFFFF then 1
    else if w & 0xC3FFFFFF == 0x00FFFFFF then 2
    else if w & 0xFF3CFFFF == 0x003CFFFF then 3
    else if w & 0xFFC3FFFF == 0x0000FFFF then 4
    else if w & 0xFFFF3CFF == 0x00003CFF then 5
    else if w & 0xFFFFC3FF == 0x000000FF then 6
    else if w & 0xFFFFFF3C == 0x0000003C then 7
    else 8
  }

  /** A completed write: flash programming can only clear bits. */
  function Programmed(w: bv32, pattern: bv32): (v: bv32) { w & pattern }

  /** v has all the zeros of w and at most those of target besides: an interrupted write. */
  predicate Torn(w: bv32, target: bv32, v: bv32)
  {
    v & w == v && v & target == w & target
  }

  lemma DecodeStruck(k: nat)
    requires k <= 8
    ensures Decode(Struck(k)) == k
  {
    match k
    case 0 => case 1 => case 2 => case 3 => case 4 => case 5 => case 6 => case 7 => case _ =>
  }

  /** The next strike only clears bits, whatever the current word looks like, so it leaves its pattern. */
  lemma StrikeClears(w: bv32)
    requires Decode(w) < 8
    ensures Programmed(w, Struck(Decode(w) + 1)) == Struck(Decode(w) + 1)
  {
  }

  /** An interrupted strike never loses a count. */
  lemma TornNeverLoses(w: bv32, v: bv32)
    requires Decode(w) < 8 && Torn(w, Struck(Decode(w) + 1), v)
    ensures Decode(v) >= Decode(w)
  {
  }

  /** An interrupted strike on a cleanly struck word is either not counted or counted once. */
  lemma TornIsAtomic(k: nat, v: bv32)
    requires k < 8 && Torn(Struck(k), Struck(k + 1), v)
    ensures Decode(v) == k || Decode(v) == k + 1
  {
  }

  /** The words on which every interrupted strike counts at most once: clean ones, and those with seven strikes. */
  predicate Atomic(w: bv32)
  {
    w == Struck(Decode(w)) || Decode(w) == 7
  }

  lemma JumpFrom1(w: bv32) returns (v: bv32)
    requires Decode(w) == 1 && w != Struck(1)
    ensures Torn(w, Struck(2), v) && Decode(v) == 8
  {
    v := w & 0xC3FFFFFF;
  }

  lemma JumpFrom2(w: bv32) returns (v: bv32)
    requires Decode(w) == 2 && w != Struck(2)
    ensures Torn(w, Struck(3), v) && Decode(v) == 8
  {
    v := w & 0xFF3CFFFF;
  }

  lemma JumpFrom3(w: bv32) returns (v: bv32)
    requires Decode(w) == 3 && w != Struck(3)
    ensures Torn(w, Struck(4), v) && Decode(v) == 8
  {
    v := w & 0xFFC3FFFF;
  }

  lemma JumpFrom4(w: bv32) returns (v: bv32)
    requires Decode(w) == 4 && w != Struck(4)
    ensures Torn(w, Struck(5), v) && Decode(v) == 8
  {
    v := w & 0xFFFF3CFF;
  }

  lemma JumpFrom5(w: bv32) returns (v: bv32)
    requires Decode(w) == 5 && w != Struck(5)
    ensures Torn(w, Struck(6), v) && Decode(v) == 8
  {
    v := w & 0xFFFFC3FF;
  }

  lemma JumpFrom6(w: bv32) returns (v: bv32)
    requires Decode(w) == 6 && w != Struck(6)
    ensures Torn(w, Struck(7), v) && Decode(v) == 8
  {
    v := w & 0xFFFFFF3C;
  }

  lemma BlankIsStruck()
    ensures Struck(0) == BLANK
  {
  }

  /** On any other word some interruption of the next strike jumps to eight. */
  lemma Jumps(w: bv32) returns (v: bv32)
    ensures Decode(w) < 8 && !Atomic(w) ==> Torn(w, Struck(Decode(w) + 1), v) && Decode(v) == 8 > Decode(w) + 1
  {
    hide Decode, Struck, Torn;
    BlankIsStruck();
    var k := Decode(w);
    if k == 8 || Atomic(w) {
      v := w;
    } else if k == 1 {
      v := JumpFrom1(w);
    } else if k == 2 {
      v := JumpFrom2(w);
    } else if k == 3 {
      v := JumpFrom3(w);
    } else if k == 4 {
      v := JumpFrom4(w);
    } else if k == 5 {
      v := JumpFrom5(w);
    } else {
      v := JumpFrom6(w);
    }
  }

  /** Atomicity, exactly: no interruption of the next strike counts twice if and only if the word is atomic. */
  lemma AtomicIff(w: bv32)
    requires Decode(w) < 8
    ensures (forall v | Torn(w, Struck(Decode(w) + 1), v) :: Decode(v) <= Decode(w) + 1) <==> Atomic(w)
  {
    if Atomic(w) {
      forall v | Torn(w, Struck(Decode(w) + 1), v)
        ensures Decode(v) <= Decode(w) + 1
      {
        AtomicStep(w, v);
      }
    } else {
      var v := Jumps(w);
      hide Decode, Torn, Struck;
    }
  }

  lemma AtomicStep(w: bv32, v: bv32)
    requires Decode(w) < 8 && Atomic(w) && Torn(w, Struck(Decode(w) + 1), v)
    ensures Decode(v) <= Decode(w) + 1
  {
    hide Decode, Torn, Struck;
    if Decode(w) != 7 {
      TornIsAtomic(Decode(w), v);
    }
  }

  /** Two interruptions of the same word can count several strikes at once. */
  lemma TornTwiceJumps()
    ensures Torn(Struck(2), Struck(3), 0x007CFFFF) && Decode(0x007CFFFF) == 3
    ensures Torn(0x007CFFFF, Struck(4), 0x0040FFFF) && Decode(0x0040FFFF) == 8
  {
  }

  // ----- pages

  ghost predicate IsPage(p: seq<bv32>) { |p| == WORDS_PER_PAGE }

  ghost predicate Empty(p: seq<bv32>)
  {
    forall i | 0 <= i < |p| :: p[i] == BLANK
  }

  /** The count in the first n words: the last non-blank word decides. */
  ghost function CountIn(p: seq<bv32>, n: nat): (c: nat)
    requires n <= |p|
    ensures c <= 8 * n
  {
    if n == 0 then 0
    else if p[n - 1] != BLANK then 8 * (n - 1) + Decode(p[n - 1])
    else CountIn(p, n - 1)
  }

  ghost function Count(p: seq<bv32>): (c: nat)
    requires IsPage(p)
    ensures c <= COUNTS_PER_PAGE
  {
    CountIn(p, WORDS_PER_PAGE)
  }

  /** The word that the count designates holds the remaining strikes, and all later words are blank. */
  lemma {:induction false} CurrentWord(p: seq<bv32>, n: nat)
    requires n <= |p| && CountIn(p, n) < 8 * n
    ensures var i := CountIn(p, n) / 8; i < n && Decode(p[i]) == CountIn(p, n) % 8 && forall j | i < j < n :: p[j] == BLANK
  {
    hide Decode;
    if p[n - 1] == BLANK {
      if CountIn(p, n - 1) < 8 * (n - 1) {
        CurrentWord(p, n - 1);
      }
    }
  }

  /** If word i is not blank and all later words are, it decides the count. */
  lemma {:induction false} LastWord(p: seq<bv32>, i: nat, n: nat)
    requires i < n <= |p| && p[i] != BLANK && forall j | i < j < n :: p[j] == BLANK
    ensures CountIn(p, n) == 8 * i + Decode(p[i])
  {
    if i < n - 1 {
      LastWord(p, i, n - 1);
    }
  }

  lemma {:induction false} CountZero(p: seq<bv32>, n: nat)
    requires n <= |p|
    ensures CountIn(p, n) == 0 <==> forall i | 0 <= i < n :: p[i] == BLANK
  {
    if n > 0 {
      CountZero(p, n - 1);
    }
  }

  /** The page after striking the current word so that it reads v. */
  ghost function Strike(p: seq<bv32>, v: bv32): (q: seq<bv32>)
    requires IsPage(p) && Count(p) < COUNTS_PER_PAGE
    ensures IsPage(q)
  {
    p[Count(p) / 8 := v]
  }

  ghost function NextPattern(p: seq<bv32>): bv32
    requires IsPage(p) && Count(p) < COUNTS_PER_PAGE
  {
    Struck(Count(p) % 8 + 1)
  }

  /** A completed strike counts exactly once, on every page content. */
  lemma StrikeCounts(p: seq<bv32>)
    requires IsPage(p) && Count(p) < COUNTS_PER_PAGE
    ensures Count(Strike(p, NextPattern(p))) == Count(p) + 1
  {
    var i, k := Count(p) / 8, Count(p) % 8;
    CurrentWord(p, WORDS_PER_PAGE);
    DecodeStruck(k + 1);
    hide Decode, Struck;
    LastWord(Strike(p, NextPattern(p)), i, WORDS_PER_PAGE);
  }

  /** An interrupted strike never lowers the count, on every page content. */
  lemma TornStrike(p: seq<bv32>, v: bv32)
    requires IsPage(p) && Count(p) < COUNTS_PER_PAGE && Torn(p[Count(p) / 8], NextPattern(p), v)
    ensures Count(Strike(p, v)) >= Count(p)
    ensures Atomic(p[Count(p) / 8]) ==> Count(Strike(p, v)) <= Count(p) + 1
  {
    hide Decode, Struck, Torn;
    var i, k := Count(p) / 8, Count(p) % 8;
    CurrentWord(p, WORDS_PER_PAGE);
    hide CountIn;
    TornWord(p[i], k, v);
    if v == p[i] {
      assert Strike(p, v) == p;
    } else {
      LastWord(Strike(p, v), i, WORDS_PER_PAGE);
    }
  }

  lemma TornWord(w: bv32, k: nat, v: bv32)
    requires k < 8 && Decode(w) == k && Torn(w, Struck(k + 1), v)
    ensures k <= Decode(v) && (v == BLANK ==> w == BLANK)
    ensures Atomic(w) ==> Decode(v) <= k + 1
  {
    TornNeverLoses(w, v);
    if Atomic(w) {
      AtomicStep(w, v);
    }
    hide Decode, Struck, Torn;
  }

  /** Atomicity of the next increment of a page: every interruption counts at most once exactly on atomic words. */
  lemma AtomicStrikeIff(p: seq<bv32>)
    requires IsPage(p) && Count(p) < COUNTS_PER_PAGE
    ensures (forall v | Torn(p[Count(p) / 8], NextPattern(p), v) :: Count(Strike(p, v)) <= Count(p) + 1)
       <==> Atomic(p[Count(p) / 8])
  {
    hide Decode, Struck, Torn, Atomic;
    var i := Count(p) / 8;
    CurrentWord(p, WORDS_PER_PAGE);
    if Atomic(p[i]) {
      forall v | Torn(p[i], NextPattern(p), v)
        ensures Count(Strike(p, v)) <= Count(p) + 1
      {
        TornStrike(p, v);
      }
    } else {
      var v := Jumps(p[i]);
      LastWord(Strike(p, v), i, WORDS_PER_PAGE);
      assert Count(Strike(p, v)) == 8 * i + 8 > Count(p) + 1;
    }
  }

  /** `read_page_count`: scan from the end for the last word that is not blank. */
  method ReadPageCount(p: seq<bv32>) returns (c: nat)
    requires IsPage(p)
    ensures c == Count(p)
  {
    hide Decode;
    var i := WORDS_PER_PAGE;
    while i > 0
      invariant 0 <= i <= WORDS_PER_PAGE && CountIn(p, WORDS_PER_PAGE) == CountIn(p, i)
    {
      i := i - 1;
      if p[i] != BLANK {
        return 8 * i + Decode(p[i]);
      }
    }
    return 0;
  }

  /** `page_empty`. */
  method PageEmpty(p: seq<bv32>) returns (empty: bool)
    requires IsPage(p)
    ensures empty <==> Count(p) == 0
    ensures empty <==> Empty(p)
  {
    CountZero(p, WORDS_PER_PAGE);
    hide CountIn;
    var i := 0;
    while i < WORDS_PER_PAGE
      invariant i <= WORDS_PER_PAGE && forall j | 0 <= j < i :: p[j] == BLANK
    {
      if p[i] != BLANK {
        return false;
      }
      i := i + 1;
    }
    return true;
  }

  /** `counter_value`: an odd high count stands for a rollover that is already committed. */
  function CounterValue(high: nat, low: nat): (v: nat)
  {
    if high % 2 == 1 then (COUNTS_PER_PAGE + 1) * ((high + 1) / 2) else (COUNTS_PER_PAGE + 1) * (high / 2) + low
  }

  /** Striking the high page never lowers the value. */
  lemma HighMonotone(high: nat, high': nat, low: nat)
    requires high <= high' && low <= COUNTS_PER_PAGE
    ensures CounterValue(high, low) <= CounterValue(high', low)
  {
  }
}

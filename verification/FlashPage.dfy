/**
 The fake flash page of the counter tests: a page of 512 words kept as at most five runs, which must
 behave like a plain array.
 */
module FlashPage {

  const NUM_RUNS: nat := 5
  const WORDS_PER_PAGE: nat := 512

  type Value = x: int | 0 <= x < 0x1_0000_0000

  // ----- runs

  /** How many maximal runs of equal values a sequence has. */
  ghost function Runs(s: seq<Value>): (n: nat)
  {
    var l := |s|;
    if l == 0 then 0
    else if l == 1 then 1
    else Runs(s[..l - 1]) + if s[l - 1] == s[l - 2] then 0 else 1
  }

  lemma RunsAppend(s: seq<Value>, v: Value)
    ensures Runs(s + [v]) == Runs(s) + if s != [] && s[|s| - 1] == v then 0 else 1
  {
    assert (s + [v])[..|s|] == s;
  }

  lemma {:induction false} RunsPrefix(s: seq<Value>, n: nat)
    requires n <= |s|
    ensures Runs(s[..n]) <= Runs(s)
  {
    if n == |s| {
      assert s[..n] == s;
    } else {
      var t := s[..|s| - 1];
      assert t[..n] == s[..n];
      RunsPrefix(t, n);
      assert s == t + [s[|s| - 1]];
      RunsAppend(t, s[|s| - 1]);
    }
  }

  function Repeat(v: Value, n: nat): (s: seq<Value>)
    ensures |s| == n
  {
    seq(n, _ => v)
  }

  /** The words that the first n runs stand for. */
  ghost function Expand(lens: seq<nat>, values: seq<Value>, n: nat): (s: seq<Value>)
    requires n <= |lens| && n <= |values|
  {
    if n == 0 then [] else Expand(lens, values, n - 1) + Repeat(values[n - 1], lens[n - 1])
  }

  ghost function Total(lens: seq<nat>, n: nat): (t: nat)
    requires n <= |lens|
  {
    if n == 0 then 0 else Total(lens, n - 1) + lens[n - 1]
  }

  lemma {:induction false} ExpandLength(lens: seq<nat>, values: seq<Value>, n: nat)
    requires n <= |lens| && n <= |values|
    ensures |Expand(lens, values, n)| == Total(lens, n)
  {
    if n > 0 {
      ExpandLength(lens, values, n - 1);
    }
  }

  /** Word i lies in the run whose limits enclose it. */
  lemma {:induction false} ExpandAt(lens: seq<nat>, values: seq<Value>, n: nat, j: nat, i: nat)
    requires j < n <= |lens| && n <= |values| && Total(lens, j) <= i < Total(lens, j + 1)
    ensures i < |Expand(lens, values, n)| && Expand(lens, values, n)[i] == values[j]
  {
    ExpandLength(lens, values, n);
    ExpandLength(lens, values, n - 1);
    if j < n - 1 {
      ExpandAt(lens, values, n - 1, j, i);
    }
  }

  /** Later runs do not matter for the words before them. */
  lemma {:induction false} ExpandSame(lens: seq<nat>, values: seq<Value>, lens': seq<nat>, values': seq<Value>, n: nat)
    requires n <= |lens| && n <= |values| && n <= |lens'| && n <= |values'|
    requires forall j | 0 <= j < n :: lens[j] == lens'[j] && values[j] == values'[j]
    ensures Expand(lens, values, n) == Expand(lens', values', n)
  {
    if n > 0 {
      ExpandSame(lens, values, lens', values', n - 1);
    }
  }

  /** Runs `cur + 1` and later are empty. */
  lemma {:induction false} ExpandEmptyTail(lens: seq<nat>, values: seq<Value>, cur: nat, n: nat)
    requires cur <= n <= |lens| && n <= |values| && forall j | cur <= j < n :: lens[j] == 0
    ensures Expand(lens, values, n) == Expand(lens, values, cur)
  {
    if cur < n {
      ExpandEmptyTail(lens, values, cur, n - 1);
    }
  }

  // ----- the builder

  /** The builder's arrays stand for the words appended so far. */
  ghost predicate Built(lens: seq<nat>, values: seq<Value>, cur: nat, words: seq<Value>)
  {
    && |lens| == NUM_RUNS && |values| == NUM_RUNS && cur < NUM_RUNS
    && (forall j | cur < j < NUM_RUNS :: lens[j] == 0)
    && Expand(lens, values, cur + 1) == words
    && if words == [] then cur == 0 && lens[0] == 0
       else
         && (forall j | 0 <= j <= cur :: lens[j] > 0)
         && (forall j | 0 <= j < cur :: values[j] != values[j + 1])
         && Runs(words) == cur + 1
         && words[|words| - 1] == values[cur]
  }

  class RleBuilder {
    var curRun: nat
    var lens: seq<nat>
    var values: seq<Value>
    ghost var words: seq<Value>

    ghost predicate Valid()
      reads this
    {
      Built(lens, values, curRun, words)
    }

    constructor ()
      ensures Valid() && words == []
    {
      curRun, lens, values, words := 0, [0, 0, 0, 0, 0], [0, 0, 0, 0, 0], [];
      assert Expand([0, 0, 0, 0, 0], [0, 0, 0, 0, 0], 1) == Expand([0, 0, 0, 0, 0], [0, 0, 0, 0, 0], 0) + Repeat(0, 0);
    }

    /** `append`; false stands for the panic of indexing past the last run. */
    method Append(value: Value) returns (ok: bool)
      requires Valid()
      modifies this
      ensures ok <==> Runs(old(words) + [value]) <= NUM_RUNS
      ensures ok ==> Valid() && words == old(words) + [value]
    {
      RunsAppend(words, value);
      if value == values[curRun] {
        Lengthen(lens, values, curRun, words);
        lens := lens[curRun := lens[curRun] + 1];
      } else if lens[0] == 0 {
        FirstRun(lens, values, value);
        assert words + [value] == [value];
        lens, values := lens[0 := 1], values[0 := value];
      } else {
        if curRun + 1 >= NUM_RUNS {
          return false;
        }
        NextRun(lens, values, curRun + 1, words, value);
        curRun := curRun + 1;
        lens, values := lens[curRun := 1], values[curRun := value];
      }
      words := words + [value];
      return true;
    }
  }

  lemma Lengthen(lens: seq<nat>, values: seq<Value>, cur: nat, words: seq<Value>)
    requires Built(lens, values, cur, words)
    ensures Built(lens[cur := lens[cur] + 1], values, cur, words + [values[cur]])
  {
    LengthenExpand(lens, values, cur);
    hide Expand, Runs;
    RunsAppend(words, values[cur]);
  }

  lemma LengthenExpand(lens: seq<nat>, values: seq<Value>, cur: nat)
    requires cur < |lens| && cur < |values|
    ensures Expand(lens[cur := lens[cur] + 1], values, cur + 1) == Expand(lens, values, cur + 1) + [values[cur]]
  {
    var lens' := lens[cur := lens[cur] + 1];
    ExpandSame(lens, values, lens', values, cur);
    RepeatOneMore(values[cur], lens[cur]);
    hide Repeat;
    assert Expand(lens', values, cur + 1) == Expand(lens', values, cur) + Repeat(values[cur], lens[cur] + 1);
    assert Expand(lens, values, cur + 1) == Expand(lens, values, cur) + Repeat(values[cur], lens[cur]);
  }

  lemma RepeatOneMore(v: Value, n: nat)
    ensures Repeat(v, n + 1) == Repeat(v, n) + [v]
  {
  }

  lemma FirstRun(lens: seq<nat>, values: seq<Value>, v: Value)
    requires Built(lens, values, 0, [])
    ensures Built(lens[0 := 1], values[0 := v], 0, [v])
  {
    StartExpand(lens, values, 0, v);
    assert Expand(lens, values, 0) == [];
    RunsAppend([], v);
    assert [] + [v] == [v];
    hide Expand, Runs;
  }

  lemma NextRun(lens: seq<nat>, values: seq<Value>, at: nat, words: seq<Value>, v: Value)
    requires 0 < at < NUM_RUNS && Built(lens, values, at - 1, words) && words != [] && v != values[at - 1]
    ensures Built(lens[at := 1], values[at := v], at, words + [v])
  {
    StartExpand(lens, values, at, v);
    hide Expand, Runs;
    RunsAppend(words, v);
  }

  lemma StartExpand(lens: seq<nat>, values: seq<Value>, at: nat, v: Value)
    requires at < |lens| && at < |values|
    ensures Expand(lens[at := 1], values[at := v], at + 1) == Expand(lens, values, at) + [v]
  {
    var lens', values' := lens[at := 1], values[at := v];
    ExpandSame(lens, values, lens', values', at);
    assert Repeat(v, 1) == [v];
    hide Repeat;
    assert Expand(lens', values', at + 1) == Expand(lens', values', at) + Repeat(v, 1);
  }

  // ----- the page

  class FakePage {
    var lens: seq<nat>
    var values: seq<Value>
    ghost var words: seq<Value>

    /** Run lengths add up to 512, used runs come first, and neighbours differ. */
    ghost predicate Valid()
      reads this
    {
      && |words| == WORDS_PER_PAGE && |lens| == NUM_RUNS && |values| == NUM_RUNS
      && Expand(lens, values, NUM_RUNS) == words && Total(lens, NUM_RUNS) == WORDS_PER_PAGE
      && exists cur :: 0 <= cur < NUM_RUNS && Built(lens, values, cur, words)
    }

    constructor ()
      ensures Valid() && words == Repeat(0xFFFFFFFF, WORDS_PER_PAGE)
    {
      lens, values := [WORDS_PER_PAGE, 0, 0, 0, 0], Repeat(0xFFFFFFFF, NUM_RUNS);
      words := Repeat(0xFFFFFFFF, WORDS_PER_PAGE);
      new;
      ErasedPage();
      assert values == Repeat(0xFFFFFFFF, NUM_RUNS);
      assert Built(lens, values, 0, words);
    }

    method Erase()
      modifies this
      ensures Valid() && words == Repeat(0xFFFFFFFF, WORDS_PER_PAGE)
    {
      lens, values := [WORDS_PER_PAGE, 0, 0, 0, 0], Repeat(0xFFFFFFFF, NUM_RUNS);
      words := Repeat(0xFFFFFFFF, WORDS_PER_PAGE);
      ErasedPage();
      assert Built(lens, values, 0, words);
    }

    /** `read`: the first run that ends behind the offset. */
    method Read(offset: nat) returns (v: Value)
      requires Valid()
      ensures v == if offset < WORDS_PER_PAGE then words[offset] else 0
    {
      var start := 0;
      for i := 0 to NUM_RUNS
        invariant start == Total(lens, i) && start <= offset
      {
        var end := start + lens[i];
        if end > offset {
          TotalMonotone(lens, i + 1, NUM_RUNS);
          ExpandAt(lens, values, NUM_RUNS, i, offset);
          return values[i];
        }
        start := end;
      }
      return 0;
    }

    /** `write`: rebuild the page word by word; words beyond the end of the page are dropped. */
    method Write(offset: nat, data: seq<Value>) returns (ok: bool)
      requires Valid()
      modifies this
      ensures ok <==> Runs(Overwritten(old(words), offset, data)) <= NUM_RUNS
      ensures ok ==> Valid() && words == Overwritten(old(words), offset, data)
      ensures !ok ==> Valid() && words == old(words)
    {
      hide Built, Runs, Expand, Total;
      ghost var target := Overwritten(words, offset, data);
      var fits, builder := Rebuild(offset, data, target);
      if !fits { return false; }
      PageFrom(builder.lens, builder.values, builder.curRun, target);
      assert builder.curRun < NUM_RUNS && |builder.lens| == NUM_RUNS && |builder.values| == NUM_RUNS by {
        BuiltShape(builder.lens, builder.values, builder.curRun, target);
      }
      lens, values, words := builder.lens, builder.values, target;
      return true;
    }

    /** The main loop of `write`: append all words to a fresh builder. */
    method Rebuild(offset: nat, data: seq<Value>, ghost target: seq<Value>) returns (ok: bool, builder: RleBuilder)
      requires Valid() && target == Overwritten(words, offset, data)
      ensures ok <==> Runs(target) <= NUM_RUNS
      ensures fresh(builder) && (ok ==> builder.Valid() && builder.words == target)
    {
      assert Total(lens, 0) == 0 && Runs([]) == 0;
      hide Built, Runs, Expand, Total;
      var curRun: nat, start: nat := 0, 0;
      builder := new RleBuilder();
      assert target[..0] == [];
      for i := 0 to WORDS_PER_PAGE
        invariant fresh(builder) && builder.Valid() && builder.words == target[..i] && Runs(target[..i]) <= NUM_RUNS
        invariant curRun < NUM_RUNS && start == Total(lens, curRun) && start <= i
      {
        assert target[..i + 1] == target[..i] + [target[i]];
        var v;
        v, curRun, start := NextWord(i, offset, data, curRun, start);
        var fits := builder.Append(v);
        RunsPrefix(target, i + 1);
        if !fits { return false, builder; }
      }
      assert target[..WORDS_PER_PAGE] == target;
      return true, builder;
    }

    /** The next word of the page: new data where the write reaches, else the run it lies in now. */
    method NextWord(i: nat, offset: nat, data: seq<Value>, run: nat, begin: nat) returns (v: Value, curRun: nat, start: nat)
      requires Valid() && i < WORDS_PER_PAGE && run < NUM_RUNS && begin == Total(lens, run) && begin <= i
      ensures v == if offset <= i < offset + |data| then data[i - offset] else words[i]
      ensures curRun < NUM_RUNS && start == Total(lens, curRun) <= i
    {
      curRun, start := run, begin;
      if offset <= i < offset + |data| {
        v := data[i - offset];
      } else {
        curRun, start := FindRun(i, curRun, start);
        v := values[curRun];
      }
    }

    /** The inner loop of `write`: advance to the run that contains word i. */
    method FindRun(i: nat, run: nat, begin: nat) returns (curRun: nat, start: nat)
      requires Valid() && i < WORDS_PER_PAGE && run < NUM_RUNS && begin == Total(lens, run) && begin <= i
      ensures curRun < NUM_RUNS && start == Total(lens, curRun) <= i && values[curRun] == words[i]
    {
      curRun, start := run, begin;
      while start + lens[curRun] <= i
        invariant curRun < NUM_RUNS && start == Total(lens, curRun) <= i
        decreases NUM_RUNS - curRun
      {
        start := start + lens[curRun];
        curRun := curRun + 1;
      }
      ExpandAt(lens, values, NUM_RUNS, curRun, i);
    }
  }

  /** The plain array after a write; writing stops at the end of the page. */
  ghost function Overwritten(s: seq<Value>, offset: nat, data: seq<Value>): (r: seq<Value>)
    ensures |r| == |s|
    ensures forall i | 0 <= i < |s| :: r[i] == if offset <= i < offset + |data| then data[i - offset] else s[i]
  {
    seq(|s|, i requires 0 <= i < |s| => if offset <= i < offset + |data| then data[i - offset] else s[i])
  }

  lemma {:induction false} TotalMonotone(lens: seq<nat>, j: nat, n: nat)
    requires j <= n <= |lens|
    ensures Total(lens, j) <= Total(lens, n)
  {
    if j < n {
      TotalMonotone(lens, j, n - 1);
    }
  }

  lemma BuiltShape(lens: seq<nat>, values: seq<Value>, cur: nat, words: seq<Value>)
    requires Built(lens, values, cur, words)
    ensures cur < NUM_RUNS && |lens| == NUM_RUNS && |values| == NUM_RUNS
  {
  }

  lemma PageFrom(lens: seq<nat>, values: seq<Value>, cur: nat, words: seq<Value>)
    requires Built(lens, values, cur, words) && |words| == WORDS_PER_PAGE
    ensures Expand(lens, values, NUM_RUNS) == words && Total(lens, NUM_RUNS) == WORDS_PER_PAGE
  {
    ExpandEmptyTail(lens, values, cur + 1, NUM_RUNS);
    ExpandLength(lens, values, NUM_RUNS);
  }

  lemma {:induction false} RunsRepeat(v: Value, n: nat)
    requires n > 0
    ensures Runs(Repeat(v, n)) == 1
  {
    if n > 1 {
      RunsRepeat(v, n - 1);
      assert Repeat(v, n) == Repeat(v, n - 1) + [v];
      RunsAppend(Repeat(v, n - 1), v);
    }
  }

  lemma ErasedPage()
    ensures var lens, values := [WORDS_PER_PAGE, 0, 0, 0, 0], Repeat(0xFFFFFFFF, NUM_RUNS);
            var words := Repeat(0xFFFFFFFF, WORDS_PER_PAGE);
            && Built(lens, values, 0, words)
            && Expand(lens, values, NUM_RUNS) == words && Total(lens, NUM_RUNS) == WORDS_PER_PAGE
  {
    var lens, values := [WORDS_PER_PAGE, 0, 0, 0, 0], Repeat(0xFFFFFFFF, NUM_RUNS);
    var words := Repeat(0xFFFFFFFF, WORDS_PER_PAGE);
    RunsRepeat(0xFFFFFFFF, WORDS_PER_PAGE);
    assert Expand(lens, values, 0) == [];
    assert Expand(lens, values, 1) == Expand(lens, values, 0) + Repeat(values[0], lens[0]) == words;
    PageFrom(lens, values, 0, words);
  }
}

/**
 The `FlashCounter` capsule: a counter over two flash pages whose increments survive failures of
 flash operations and loss of power at any moment.
 */
module NvCounter {
  import opened CounterPage

  datatype Task = Idle | Initialize | Increment

  /** Which of the counter's two flash pages. */
  datatype Page = High | Low

  /** The operation that the flash is executing. */
  datatype Op = NoOp | Write(page: Page, word: nat, pattern: bv32) | Erase(page: Page)

  datatype Code = SUCCESS | SuccessWithValue(value: nat) | EBUSY | ESIZE | EINVAL | FAIL

  datatype Callback = NoCallback | InitializeDone(code: Code) | IncrementDone(code: Code)

  const HIGH_PAGE: nat := 254
  const LOW_PAGE: nat := 255
  /** The flash has two banks of 64 Ki words. */
  const FLASH_WORDS: nat := 0x20000

  /** The largest counter value: 4097 * 2048 + 4096. */
  const MAX_VALUE: nat := 8394752

  /** An erased page. */
  function BlankPage(): (p: seq<bv32>)
    ensures IsPage(p) && Count(p) == 0
  {
    var p := seq(WORDS_PER_PAGE, _ => BLANK);
    CountZero(p, WORDS_PER_PAGE);
    p
  }

  /** The write that counts once on page p. */
  ghost predicate IsStrike(word: nat, pattern: bv32, p: seq<bv32>)
    requires IsPage(p)
  {
    Count(p) < COUNTS_PER_PAGE && word == Count(p) / 8 && pattern == NextPattern(p)
  }

  /** An interrupted strike counts at most once: so it does on every word that completed strikes leave. */
  ghost predicate Clean(p: seq<bv32>)
    requires IsPage(p)
  {
    Count(p) < COUNTS_PER_PAGE ==> Atomic(p[Count(p) / 8])
  }

  /** On every page content, a completed strike counts once. */
  lemma CompletedStrike(p: seq<bv32>, word: nat, pattern: bv32)
    requires IsPage(p) && IsStrike(word, pattern, p)
    ensures Count(p[word := Programmed(p[word], pattern)]) == Count(p) + 1
  {
    hide Decode, Struck, Programmed;
    CurrentWord(p, WORDS_PER_PAGE);
    StrikeClears(p[word]);
    StrikeCounts(p);
  }

  /** The high and low counts that go with a write: Incr1, Rollover3 or Rollover1. */
  ghost predicate WriteStep(page: Page, high: nat, low: nat)
  {
    if page == Low then high % 2 == 0
    else if high % 2 == 1 then low == 0
    else low == COUNTS_PER_PAGE
  }

  lemma CountedValue(page: Page, high: nat, low: nat, count: nat)
    requires WriteStep(page, high, low) && low <= COUNTS_PER_PAGE
    requires count >= if page == High then high else low
    ensures var high', low' := if page == High then count else high, if page == Low then count else low;
            && CounterValue(high', low') >= CounterValue(high, low)
            && (count == (if page == High then high else low) + 1 ==>
                CounterValue(high', low') == CounterValue(high, low) + if page == High && high % 2 == 1 then 0 else 1)
  {
  }

  ghost function ValueOf(high: seq<bv32>, low: seq<bv32>): nat
    requires IsPage(high) && IsPage(low)
  {
    CounterValue(Count(high), Count(low))
  }

  /** The value when the page struck by a step has become q. */
  lemma LandedValue(high: seq<bv32>, low: seq<bv32>, page: Page, q: seq<bv32>)
    requires IsPage(high) && IsPage(low) && IsPage(q) && WriteStep(page, Count(high), Count(low))
    requires Count(q) >= Count(if page == High then high else low)
    ensures var value' := if page == High then ValueOf(q, low) else ValueOf(high, q);
            && value' >= ValueOf(high, low)
            && (Count(q) == Count(if page == High then high else low) ==> value' == ValueOf(high, low))
            && (Count(q) == Count(if page == High then high else low) + 1 ==>
                value' == ValueOf(high, low) + if page == High && Count(high) % 2 == 1 then 0 else 1)
  {
    hide CounterValue, Count;
    CountedValue(page, Count(high), Count(low), Count(q));
  }

  /** What the capsule and the flash hold between two calls. */
  datatype View = View(high: seq<bv32>, low: seq<bv32>, op: Op, task: Task)

  ghost predicate IsView(v: View)
  {
    IsPage(v.high) && IsPage(v.low)
  }

  ghost function Val(v: View): nat
    requires IsView(v)
  {
    ValueOf(v.high, v.low)
  }

  /** The step that fits the counts: Rollover3, Rollover2, Incr1 or Rollover1. */
  ghost predicate Begins(op: Op, high: nat, low: nat)
  {
    if high % 2 == 1 && low > 0 then op == Erase(Low)
    else op.Write? && op.page == if high % 2 == 0 && low < COUNTS_PER_PAGE then Low else High
  }

  /** `read_and_increment` from v to v': what is returned, and what begins. */
  ghost predicate ReadReturned(v: View, ok: bool, code: Code, v': View)
    requires IsView(v) && IsView(v')
  {
    && v'.high == v.high && v'.low == v.low
    && (code.SuccessWithValue? <==> v.task == Idle && (ok || v.op != NoOp) && Val(v) < MAX_VALUE)
    && (code.SuccessWithValue? ==> v'.task == Increment && code.value == Val(v) && v'.op != NoOp
                                   && if v.op != NoOp then v'.op == v.op else Begins(v'.op, Count(v.high), Count(v.low)))
    && (!code.SuccessWithValue? ==> v' == v)
    && (v.task != Idle ==> code == EBUSY)
    && (v.task == Idle ==> (code == ESIZE <==> Val(v) == MAX_VALUE))
  }

  /** The flash reports the end of an erase: what happens to the value, and which callback comes. */
  ghost predicate EraseReported(v: View, success: bool, ok: bool, cb: Callback, v': View)
    requires IsView(v) && IsView(v')
  {
    && v.op.Erase?
    && (v.task != Initialize ==>
          && Val(v') == Val(v)
          && (if success && ok then v'.op.Write? && v'.op.page == High else v'.op == NoOp))
    && (v.task == Idle ==> v'.task == Idle && cb == NoCallback)
    && (v.task == Increment ==>
          if success && ok then cb == NoCallback && v'.task == Increment else cb == IncrementDone(FAIL) && v'.task == Idle)
    && (v.task == Initialize ==>
          if success && v.op.page == Low && Count(v.high) > 0 && ok then
            cb == NoCallback && v'.task == Initialize && v'.op == Erase(High)
          else
            && v'.task == Idle && v'.op == NoOp
            && cb == InitializeDone(if success && (v.op.page == High || Count(v.high) == 0) then SUCCESS else FAIL))
    && (cb == InitializeDone(SUCCESS) ==> Val(v') == 0 && Count(v'.high) == 0 && Count(v'.low) == 0)
  }

  /**
   The flash reports the end of a write with its own code. The value never goes back; a reported success
   has counted exactly once.
   */
  ghost predicate WriteReported(v: View, code: Code, ok: bool, cb: Callback, v': View)
    requires IsView(v) && IsView(v')
  {
    && v.op.Write?
    && (v.task == Idle ==> v'.task == Idle && v'.op == NoOp && cb == NoCallback)
    && (v.task == Initialize ==> v'.task == Idle && v'.op == NoOp && cb == InitializeDone(EINVAL))
    && (v.task != Initialize ==>
          && Val(v') >= Val(v)
          && (code == SUCCESS ==> Val(v') == Val(v) + if cb == IncrementDone(SUCCESS) then 1 else 0)
          && (Clean(if v.op.page == High then v.high else v.low) ==> Val(v') <= Val(v) + 1))
    && (v.task == Increment ==>
          if code != SUCCESS then v'.task == Idle && v'.op == NoOp && cb == IncrementDone(code)
          else if v.op.page == Low then v'.task == Idle && v'.op == NoOp && cb == IncrementDone(SUCCESS)
          else if Count(v.high) % 2 == 0 then
            && v'.task == Idle && cb == IncrementDone(SUCCESS)
            && v'.op == if ok && v.low[WORDS_PER_PAGE - 1] == 0 then Erase(Low) else NoOp
          else if ok then v'.task == Increment && cb == NoCallback && v'.op.Write? && v'.op.page == Low
          else v'.task == Idle && v'.op == NoOp && cb == IncrementDone(FAIL))
  }

  /** Power is lost: the value is kept, or the ongoing strike has counted. */
  ghost predicate PowerLost(v: View, v': View)
    requires IsView(v) && IsView(v')
  {
    && v'.task == Idle && v'.op == NoOp
    && (v.task != Initialize ==>
          && Val(v') >= Val(v)
          && ((v.op.Write? ==> Clean(if v.op.page == High then v.high else v.low)) ==> Val(v') <= Val(v) + 1))
  }

  /**
   The capsule together with the flash it drives. The pages change when the flash reports
   completion or when power is lost; until then `op` is what the flash is executing.
   */
  class FlashCounter {
    var high: seq<bv32>
    var low: seq<bv32>
    var op: Op
    var task: Task
    var buffer: bool   // write_buffer is filled: the buffer is not lent to the flash

    ghost predicate Pages()
      reads this
    {
      IsPage(high) && IsPage(low)
    }

    ghost function Value(): nat
      requires Pages()
      reads this
    {
      ValueOf(high, low)
    }

    ghost function Look(): View
      reads this
    {
      View(high, low, op, task)
    }

    ghost function Target(page: Page): seq<bv32>
      reads this
    {
      if page == High then high else low
    }

    /** Which task, high count and low count go with each step of the capsule. */
    ghost predicate Valid()
      reads this
      ensures Valid() ==> Pages()
    {
      && Pages()
      && buffer == !op.Write?
      && match op
         case NoOp => task == Idle
         case Write(page, word, pattern) =>
           && IsStrike(word, pattern, Target(page))
           && WriteStep(page, Count(high), Count(low))                                        // Incr1, Rollover1, Rollover3
           && (page == Low || Count(high) % 2 == 0 ==> task == Increment)
         case Erase(Low) => task == Initialize || Count(high) % 2 == 1                        // Init1, Rollover2
         case Erase(High) => task == Initialize && Count(low) == 0                            // Init2
    }

    constructor (high: seq<bv32>, low: seq<bv32>)
      requires IsPage(high) && IsPage(low)
      ensures Valid() && task == Idle && op == NoOp && this.high == high && this.low == low
    {
      this.high, this.low := high, low;
      op, task, buffer := NoOp, Idle, true;
    }

    // ----- the flash

    /** `Flash::erase`; `ok` tells whether the flash accepts the operation. */
    method FlashErase(page: nat, ok: bool) returns (code: Code)
      requires page == HIGH_PAGE || page == LOW_PAGE || page * WORDS_PER_PAGE >= FLASH_WORDS
      modifies this`op
      ensures old(op) != NoOp ==> code == EBUSY
      ensures old(op) == NoOp && page > LOW_PAGE ==> code == EINVAL
      ensures old(op) == NoOp && page <= LOW_PAGE ==> code == if ok then SUCCESS else FAIL
      ensures op == if code != SUCCESS then old(op) else if page == HIGH_PAGE then Erase(High) else Erase(Low)
    {
      if op != NoOp { return EBUSY; }
      if page * WORDS_PER_PAGE >= FLASH_WORDS { return EINVAL; }
      if !ok { return FAIL; }
      op := Erase(if page == HIGH_PAGE then High else Low);
      return SUCCESS;
    }

    /** `start_increment`: begins the write that strikes the page once more. */
    method StartIncrement(page: Page, current: nat, ok: bool) returns (code: Code)
      requires Pages() && current == Count(Target(page))
      modifies this`op, this`buffer
      ensures current >= COUNTS_PER_PAGE ==> code == ESIZE
      ensures current < COUNTS_PER_PAGE && old(op) != NoOp ==> code == EBUSY
      ensures current < COUNTS_PER_PAGE && old(op) == NoOp ==> code == if ok then SUCCESS else FAIL
      ensures code == SUCCESS ==> op.Write? && op.page == page && IsStrike(op.word, op.pattern, Target(page)) && !buffer
      ensures code != SUCCESS ==> op == old(op) && buffer == old(buffer)
    {
      if current >= COUNTS_PER_PAGE { return ESIZE; }
      var word, pattern := current / COUNTS_PER_WORD, Struck(current % COUNTS_PER_WORD + 1);
      if op != NoOp { return EBUSY; }
      if !ok { return FAIL; }
      op, buffer := Write(page, word, pattern), false;
      return SUCCESS;
    }

    /** The flash finishes or abandons a write: the word now reads v, and the buffer comes back. */
    method LandWrite(v: bv32)
      requires Valid() && op.Write?
      requires v == Programmed(Target(op.page)[op.word], op.pattern) || Torn(Target(op.page)[op.word], op.pattern, v)
      modifies this`high, this`low, this`op, this`buffer
      ensures op == NoOp && buffer && Pages()
      ensures old(op).page == High ==> low == old(low)
      ensures old(op).page == Low ==> high == old(high)
      ensures v == old(Programmed(Target(op.page)[op.word], op.pattern)) ==>
                && Count(Target(old(op).page)) == old(Count(Target(op.page))) + 1
                && Value() == old(Value()) + if old(op).page == High && old(Count(high)) % 2 == 1 then 0 else 1
      ensures Value() >= old(Value())
      ensures old(Clean(Target(op.page))) ==> Value() <= old(Value()) + 1
    {
      hide Count, Struck, Torn, Programmed, CounterValue;
      ghost var p := Target(op.page);
      ghost var q := p[op.word := v];
      if v == Programmed(p[op.word], op.pattern) {
        CompletedStrike(p, op.word, op.pattern);
      } else {
        TornStrike(p, v);
      }
      LandedValue(high, low, op.page, q);
      if op.page == High {
        high := high[op.word := v];
      } else {
        low := low[op.word := v];
      }
      op, buffer := NoOp, true;
    }

    /** The flash finishes or abandons an erase: the page now reads p. */
    method LandErase(p: seq<bv32>)
      requires Pages() && op.Erase? && IsPage(p)
      modifies this`high, this`low, this`op
      ensures op == NoOp && Pages()
      ensures high == if old(op).page == High then p else old(high)
      ensures low == if old(op).page == Low then p else old(low)
    {
      if op.page == High {
        high := p;
      } else {
        low := p;
      }
      op := NoOp;
    }

    // ----- NvCounter

    method InitializeCounter(ok: bool) returns (code: Code)
      requires Valid()
      modifies this`op, this`task
      ensures Valid()
      ensures code == SUCCESS ==> old(task) == Idle && task == Initialize && op == if old(op) == NoOp then Erase(Low) else old(op)
      ensures code != SUCCESS ==> task == old(task) && op == old(op)
      ensures old(task) != Idle ==> code == EBUSY
      ensures old(task) == Idle ==> (code == SUCCESS <==> ok || old(op) != NoOp)
    {
      if task != Idle { return EBUSY; }
      code := FlashErase(LOW_PAGE, ok);
      if code == SUCCESS || code == EBUSY {
        task := Initialize;
        return SUCCESS;
      }
    }

    /** Reads the value and begins an increment; the value does not change until the flash is done. */
    method ReadAndIncrement(ok: bool) returns (code: Code)
      requires Valid()
      modifies this`op, this`task, this`buffer
      ensures Valid() && ReadReturned(old(Look()), ok, code, Look())
    {
      if task != Idle { return EBUSY; }
      hide CountIn, Struck;
      var highCount := ReadPageCount(high);
      var lowCount := ReadPageCount(low);
      code := BeginStep(highCount, lowCount, ok);
      if code != SUCCESS { return; }
      task := Increment;
      code := SuccessWithValue(CounterValue(highCount, lowCount));
    }

    /** The step that the counts call for, unless the flash is busy with it. */
    method BeginStep(highCount: nat, lowCount: nat, ok: bool) returns (code: Code)
      requires Valid() && task == Idle && highCount == Count(high) && lowCount == Count(low)
      modifies this`op, this`buffer
      ensures Pages() && buffer == !op.Write?
      ensures code == SUCCESS <==> (ok || old(op) != NoOp) && Value() < MAX_VALUE
      ensures code == SUCCESS ==> if old(op) != NoOp then op == old(op) else Begins(op, highCount, lowCount)
      ensures code == SUCCESS && op.Write? ==>
                IsStrike(op.word, op.pattern, Target(op.page)) && WriteStep(op.page, Count(high), Count(low))
      ensures code == SUCCESS && op.Erase? ==> op == Erase(Low) && Count(high) % 2 == 1
      ensures code != SUCCESS ==> op == old(op) && code != EBUSY && !code.SuccessWithValue?
      ensures code == ESIZE <==> Value() == MAX_VALUE
    {
      hide CountIn, Struck;
      code := SUCCESS;
      if highCount % 2 == 1 && lowCount == 0 {
        if buffer {
          code := StartIncrement(High, highCount, ok);
        }
      } else if highCount % 2 == 1 {
        code := FlashErase(LOW_PAGE, ok);
      } else {
        code := StartIncrement(Low, lowCount, ok);
        if code == ESIZE {
          code := StartIncrement(High, highCount, ok);
        }
      }
      if code == EBUSY {
        code := SUCCESS;
      }
    }

    // ----- flash client

    /** The flash reports the end of an erase; a failed erase leaves arbitrary contents. */
    method EraseDone(success: bool, torn: seq<bv32>, ok: bool) returns (cb: Callback)
      requires Valid() && op.Erase? && IsPage(torn)
      modifies this
      ensures Valid() && EraseReported(old(Look()), success, ok, cb, Look())
    {
      hide CountIn, Struck;
      LandErase(if success then BlankPage() else torn);
      if !success {
        cb := if task == Initialize then InitializeDone(FAIL) else if task == Increment then IncrementDone(FAIL) else NoCallback;
        task := Idle;
        return;
      }
      if task == Initialize {
        var empty := PageEmpty(high);
        if empty {
          task := Idle;
          return InitializeDone(SUCCESS);
        }
        var code := FlashErase(HIGH_PAGE, ok);
        if code != SUCCESS {
          task := Idle;
          return InitializeDone(code);
        }
        return NoCallback;
      }
      var highCount := ReadPageCount(high);
      var code := StartIncrement(High, highCount, ok);
      cb := NoCallback;
      if code != SUCCESS {
        if task == Increment {
          cb := IncrementDone(FAIL);
        }
        task := Idle;
      }
    }

    /** The flash reports the end of a write; a failed write leaves an arbitrary torn word. */
    method WriteDone(flash: Code, torn: bv32, ok: bool) returns (cb: Callback)
      requires Valid() && op.Write? && Torn(Target(op.page)[op.word], op.pattern, torn)
      modifies this
      ensures Valid() && WriteReported(old(Look()), flash, ok, cb, Look())
    {
      hide Count, Struck, Torn, Programmed, CounterValue, ValueOf, Clean, NextPattern;
      var before := (if op.page == High then high else low)[op.word];
      LandWrite(if flash == SUCCESS then Programmed(before, op.pattern) else torn);
      if flash != SUCCESS && task == Increment {
        task := Idle;
        return IncrementDone(flash);
      }
      if task == Idle { return NoCallback; }
      if task == Initialize {
        // The page number is passed as a word offset, which the flash rejects.
        var code := FlashErase(LOW_PAGE * WORDS_PER_PAGE, ok);
        task := Idle;
        return InitializeDone(code);
      }
      cb := AfterWrite(ok);
    }

    /** The rest of `write_done` for an increment: Incr1 after Rollover3, or Rollover2 after Rollover1, or nothing. */
    method AfterWrite(ok: bool) returns (cb: Callback)
      requires Pages() && op == NoOp && buffer && task == Increment && (Count(low) == 0 ==> Count(high) % 2 == 0)
      modifies this`op, this`task, this`buffer
      ensures Valid()
      ensures Count(low) == 0 ==>
                if ok then task == Increment && cb == NoCallback && op.Write? && op.page == Low
                else task == Idle && op == NoOp && cb == IncrementDone(FAIL)
      ensures Count(low) > 0 ==>
                && task == Idle && cb == IncrementDone(SUCCESS)
                && op == if Count(high) % 2 == 1 && ok && low[WORDS_PER_PAGE - 1] == 0 then Erase(Low) else NoOp
    {
      hide Count, Struck, NextPattern;
      var empty := PageEmpty(low);
      if empty {
        var lowCount := ReadPageCount(low);
        var code := StartIncrement(Low, lowCount, ok);
        if code != SUCCESS {
          task := Idle;
          return IncrementDone(code);
        }
        return NoCallback;
      }
      task := Idle;
      var highCount := ReadPageCount(high);
      if low[WORDS_PER_PAGE - 1] == 0 && highCount % 2 == 1 {
        var _ := FlashErase(LOW_PAGE, ok);
      }
      return IncrementDone(SUCCESS);
    }

    /** Power is lost: whatever the flash was doing is torn, and the capsule starts afresh. */
    method PowerLoss(tornWord: bv32, tornPage: seq<bv32>)
      requires Valid() && IsPage(tornPage)
      requires op.Write? ==> Torn(Target(op.page)[op.word], op.pattern, tornWord)
      modifies this
      ensures Valid() && PowerLost(old(Look()), Look())
    {
      hide CountIn, Struck, Torn;
      match op {
        case NoOp =>
        case Write(page, word, pattern) =>
          LandWrite(tornWord);
        case Erase(page) =>
          LandErase(tornPage);
      }
      task, buffer := Idle, true;
    }
  }

  // ----- runs

  /** What can happen to the counter, with the choices of the flash: acceptance, codes and torn contents. */
  datatype Event =
    | CallIncrement(ok: bool)
    | FlashReports(code: Code, word: bv32, page: seq<bv32>, ok: bool)
    | PowerFails(word: bv32, page: seq<bv32>)

  /** What comes out of the counter at an event. */
  datatype Reply = Returned(code: Code) | Called(cb: Callback) | Silent

  /** What an event may do to the counter and what comes out of it: the contracts of the operations. */
  ghost predicate Explains(v: View, e: Event, r: Reply, v': View)
  {
    && IsView(v) && IsView(v')
    && match e
       case CallIncrement(ok) => r.Returned? && ReadReturned(v, ok, r.code, v')
       case FlashReports(code, _, _, ok) =>
         if v.op == NoOp then r == Silent && v' == v
         else r.Called? && if v.op.Write? then WriteReported(v, code, ok, r.cb, v') else EraseReported(v, code == SUCCESS, ok, r.cb, v')
       case PowerFails(_, _) => r == Silent && PowerLost(v, v')
  }

  /** A run: the views between the events, and a reply to each of them. */
  ghost predicate IsRun(views: seq<View>, events: seq<Event>, replies: seq<Reply>)
  {
    && |views| == |events| + 1 && |replies| == |events|
    && forall i | 0 <= i < |events| :: Explains(views[i], events[i], replies[i], views[i + 1])
  }

  /** An acknowledged increment: the value that was read, and the value when success was reported. */
  datatype Ack = Ack(read: nat, now: nat)

  /** The value that the last accepted call returned. */
  ghost function LastRead(replies: seq<Reply>): nat
  {
    if replies == [] then 0
    else
      var last := replies[|replies| - 1];
      if last.Returned? && last.code.SuccessWithValue? then last.code.value else LastRead(replies[..|replies| - 1])
  }

  ghost predicate AllViews(views: seq<View>)
  {
    forall i | 0 <= i < |views| :: IsView(views[i])
  }

  lemma AllPrefix(views: seq<View>, n: nat)
    requires |views| == n + 2
    ensures AllViews(views) <==> AllViews(views[..n + 1]) && IsView(views[n + 1])
  {
    hide IsView;
    if AllViews(views[..n + 1]) && IsView(views[n + 1]) {
      forall i | 0 <= i < n + 1
        ensures IsView(views[i])
      {
        assert views[..n + 1][i] == views[i];
      }
    }
  }

  /** The acknowledged increments among the replies, with the value that the pages then hold. */
  ghost function Acks(views: seq<View>, replies: seq<Reply>): seq<Ack>
    requires |views| == |replies| + 1 && AllViews(views)
    decreases |replies|
  {
    if replies == [] then []
    else
      var n := |replies| - 1;
      AllPrefix(views, n);
      var before := Acks(views[..n + 1], replies[..n]);
      if replies[n] == Called(IncrementDone(SUCCESS)) then before + [Ack(LastRead(replies[..n]), Val(views[n + 1]))] else before
  }

  /** Acknowledgements count up from `start`, each reporting exactly one more than it read. */
  ghost predicate Increasing(acks: seq<Ack>, start: nat, end: nat)
  {
    && start <= end
    && (forall i | 0 <= i < |acks| :: start <= acks[i].read && acks[i].now == acks[i].read + 1 <= end)
    && (forall i, j | 0 <= i < j < |acks| :: acks[i].now < acks[j].now)
    && (forall i, j | 0 <= i < j < |acks| :: acks[i].now <= acks[j].read)
  }

  lemma IncreasingGrows(acks: seq<Ack>, start: nat, end: nat, end': nat)
    requires Increasing(acks, start, end) && end <= end'
    ensures Increasing(acks, start, end')
  {
  }

  lemma IncreasingAppend(acks: seq<Ack>, start: nat, end: nat)
    requires Increasing(acks, start, end)
    ensures Increasing(acks + [Ack(end, end + 1)], start, end + 1)
  {
  }

  predicate Undisturbed(e: Event)
  {
    !e.PowerFails? && (e.FlashReports? ==> e.code == SUCCESS)
  }

  /** One event on the value and the task. */
  lemma {:induction false} ExplainsValue(v: View, e: Event, r: Reply, v': View)
    requires Explains(v, e, r, v') && v.task != Initialize
    ensures v'.task != Initialize && Val(v') >= Val(v)
    ensures r == Called(IncrementDone(SUCCESS)) ==> v.task == Increment && Val(v') == Val(v) + 1
    ensures Undisturbed(e) && r != Called(IncrementDone(SUCCESS)) ==> Val(v') == Val(v)
    ensures v'.task == Increment ==> Val(v') == Val(v)
    ensures v'.task == Increment && v.task != Increment ==> r == Returned(SuccessWithValue(Val(v)))
    ensures r.Returned? && r.code.SuccessWithValue? ==> v'.task == Increment && r.code.value == Val(v)
  {
    hide ValueOf, Count, Clean;
  }

  /**
   Anti-rollback: over every run between two initializations, through any failures, torn writes and
   erases and losses of power, the value never decreases and every acknowledged increment has read a
   value at least as large as the one acknowledged before it. Without power losses and flash failures
   the value counts exactly the acknowledged increments.
   */
  lemma {:induction false} RunCounts(views: seq<View>, events: seq<Event>, replies: seq<Reply>)
    requires IsRun(views, events, replies) && IsView(views[0]) && views[0].task == Idle
    ensures AllViews(views) && Counted(views, replies, views[|events|])
    ensures (forall e | e in events :: Undisturbed(e)) ==> Val(views[|events|]) == Val(views[0]) + |Acks(views, replies)|
  {
    hide Explains, ValueOf, Undisturbed, IsView;
    if events != [] {
      var n := |events| - 1;
      RunPrefix(views, events, replies);
      hide IsRun, Acks, LastRead, AllViews, Counted;
      RunCounts(views[..n + 1], events[..n], replies[..n]);
      ExplainsViews(views[n], events[n], replies[n], views[n + 1]);
      AllPrefix(views, n);
      RunStep(views, events[n], replies);
      assert (forall e | e in events :: Undisturbed(e)) ==> (forall e | e in events[..n] :: Undisturbed(e)) && Undisturbed(events[n]);
    }
  }

  /** What holds after a run that ends in v: the acknowledgements so far, and the value of a pending increment. */
  ghost predicate Counted(views: seq<View>, replies: seq<Reply>, v: View)
    requires |views| == |replies| + 1 && AllViews(views) && IsView(v)
  {
    && v.task != Initialize
    && (v.task == Increment ==> LastRead(replies) == Val(v))
    && Increasing(Acks(views, replies), Val(views[0]), Val(v))
  }

  lemma RunPrefix(views: seq<View>, events: seq<Event>, replies: seq<Reply>)
    requires IsRun(views, events, replies) && events != []
    ensures var n := |events| - 1;
            && IsRun(views[..n + 1], events[..n], replies[..n]) && Explains(views[n], events[n], replies[n], views[n + 1])
            && views[..n + 1][0] == views[0] && views[..n + 1][n] == views[n]
  {
    hide Explains;
  }

  lemma ExplainsViews(v: View, e: Event, r: Reply, v': View)
    requires Explains(v, e, r, v')
    ensures IsView(v) && IsView(v')
  {
  }

  lemma {:induction false} RunStep(views: seq<View>, e: Event, replies: seq<Reply>)
    requires |views| == |replies| + 1 && replies != [] && AllViews(views)
    requires var n := |replies| - 1;
             && AllViews(views[..n + 1]) && Explains(views[n], e, replies[n], views[n + 1])
             && Counted(views[..n + 1], replies[..n], views[n])
    ensures var n := |replies| - 1;
            && Counted(views, replies, views[n + 1])
            && (Undisturbed(e) ==> Val(views[n + 1]) + |Acks(views[..n + 1], replies[..n])| == Val(views[n]) + |Acks(views, replies)|)
  {
    hide ValueOf, Explains, Increasing, Undisturbed, IsView;
    var n := |replies| - 1;
    var v, r, v', acks := views[n], replies[n], views[n + 1], Acks(views[..n + 1], replies[..n]);
    ExplainsViews(v, e, r, v');
    ExplainsValue(v, e, r, v');
    IncreasingGrows(acks, Val(views[0]), Val(v), Val(v'));
    if r == Called(IncrementDone(SUCCESS)) {
      IncreasingAppend(acks, Val(views[0]), Val(v));
    }
  }

  lemma UntouchedIsTorn(w: bv32, target: bv32)
    ensures Torn(w, target, w)
  {
  }

  /** What the flash leaves in a word: the event's choice if it is a torn write, else the old word. */
  method Choose(c: FlashCounter, word: bv32) returns (v: bv32)
    requires c.Valid()
    ensures c.op.Write? ==> Torn(c.Target(c.op.page)[c.op.word], c.op.pattern, v)
  {
    v := word;
    if c.op.Write? {
      var w := (if c.op.page == High then c.high else c.low)[c.op.word];
      UntouchedIsTorn(w, c.op.pattern);
      v := if Torn(w, c.op.pattern, word) then word else w;
    }
  }

  /** One event on the running counter. */
  method Happen(c: FlashCounter, e: Event) returns (r: Reply)
    requires c.Valid()
    modifies c
    ensures c.Valid() && Explains(old(c.Look()), e, r, c.Look())
  {
    hide ValueOf, Count, Struck, Torn, NextPattern, ReadReturned, EraseReported, WriteReported, PowerLost;
    match e {
      case CallIncrement(ok) =>
        var code := c.ReadAndIncrement(ok);
        r := Returned(code);
      case FlashReports(code, word, page, ok) =>
        if c.op == NoOp { return Silent; }
        var cb;
        if c.op.Write? {
          var v := Choose(c, word);
          cb := c.WriteDone(code, v, ok);
        } else {
          cb := c.EraseDone(code == SUCCESS, if |page| == WORDS_PER_PAGE then page else BlankPage(), ok);
        }
        r := Called(cb);
      case PowerFails(word, page) =>
        var v := Choose(c, word);
        c.PowerLoss(v, if |page| == WORDS_PER_PAGE then page else BlankPage());
        r := Silent;
    }
  }

  /** Every run of the counter, with the reply to each event, is one that `RunCounts` speaks of. */
  method Run(c: FlashCounter, events: seq<Event>) returns (replies: seq<Reply>, ghost views: seq<View>)
    requires c.Valid() && c.task == Idle
    modifies c
    ensures c.Valid() && IsRun(views, events, replies) && views[0] == old(c.Look()) && views[|events|] == c.Look()
    ensures AllViews(views)
    ensures Increasing(Acks(views, replies), old(c.Value()), c.Value())
    ensures (forall e | e in events :: Undisturbed(e)) ==> c.Value() == old(c.Value()) + |Acks(views, replies)|
  {
    hide FlashCounter.Valid, ValueOf, Explains, Increasing;
    replies, views := [], [c.Look()];
    for i := 0 to |events|
      invariant c.Valid() && |views| == i + 1 && |replies| == i
      invariant views[0] == old(c.Look()) && views[i] == c.Look()
      invariant forall j | 0 <= j < i :: Explains(views[j], events[j], replies[j], views[j + 1])
    {
      var r := Happen(c, events[i]);
      replies, views := replies + [r], views + [c.Look()];
    }
    RunCounts(views, events, replies);
  }

  /** The flash has done what it was asked for, and accepts what it is asked for next. */
  predicate Works(e: Event)
  {
    e.FlashReports? && e.code == SUCCESS && e.ok
  }

  /** The increment is acknowledged at the i-th event, and has counted once by then. */
  ghost predicate AcknowledgedAt(views: seq<View>, replies: seq<Reply>, i: nat)
    requires i + 1 < |views| && i < |replies| && AllViews(views)
  {
    replies[i] == Called(IncrementDone(SUCCESS)) && Val(views[i + 1]) == Val(views[0]) + 1
  }

  /**
   As long as the flash works, every increment of an idle counter below its maximum is accepted, and at the
   latest the third completion acknowledges it, from whatever a loss of power or a rollover has left.
   */
  lemma {:induction false} Acknowledged(views: seq<View>, events: seq<Event>, replies: seq<Reply>)
    requires IsRun(views, events, replies) && |events| == 4 && events[0] == CallIncrement(true)
    requires Works(events[1]) && Works(events[2]) && Works(events[3])
    requires IsView(views[0]) && views[0].task == Idle && Val(views[0]) < MAX_VALUE
    ensures AllViews(views) && replies[0] == Returned(SuccessWithValue(Val(views[0])))
    ensures AcknowledgedAt(views, replies, 1) || AcknowledgedAt(views, replies, 2) || AcknowledgedAt(views, replies, 3)
  {
    hide ValueOf, Count, Clean;
    assert forall i | 0 <= i < 4 :: Explains(views[i], events[i], replies[i], views[i + 1]);
    assert AllViews(views);
    ExplainsValue(views[0], events[0], replies[0], views[1]);
    WorkingStep(views[1], events[1], replies[1], views[2]);
    hide Explains, IsRun, AllViews;
    if replies[1] != Called(IncrementDone(SUCCESS)) {
      WorkingStep(views[2], events[2], replies[2], views[3]);
      if replies[2] != Called(IncrementDone(SUCCESS)) {
        WorkingStep(views[3], events[3], replies[3], views[4]);
      }
    }
  }

  /** How many completions an increment may still need. */
  function Steps(op: Op): (n: nat)
  {
    match op
    case Erase(_) => 3
    case Write(page, _, _) => if page == High then 2 else 1
    case NoOp => 0
  }

  lemma WorkingStep(v: View, e: Event, r: Reply, v': View)
    requires Explains(v, e, r, v') && Works(e) && v.task == Increment && v.op != NoOp
    ensures r == Called(IncrementDone(SUCCESS)) ==> Val(v') == Val(v) + 1
    ensures r != Called(IncrementDone(SUCCESS)) ==>
              v'.task == Increment && v'.op != NoOp && Val(v') == Val(v) && Steps(v'.op) < Steps(v.op)
  {
    hide ValueOf, Count, Clean;
    ExplainsValue(v, e, r, v');
  }

  // ----- initialization

  /** What the flash does about an initialization: acceptance of each erase, its outcome and what a failure leaves. */
  datatype Erasure = Erasure(ok: bool, success: bool, torn: seq<bv32>)

  /**
   An initialization from the call to its callback, under every behaviour of the flash. It is accepted if
   and only if the flash accepts the first erase or is busy; an accepted one succeeds if and only if no
   write is under way and each erase that it needs is accepted and succeeds.
   */
  method Initialization(c: FlashCounter, low: Erasure, high: Erasure, flash: Code, word: bv32) returns (accepted: bool, cb: Callback)
    requires c.Valid() && c.task == Idle
    modifies c
    ensures c.Valid() && c.task == Idle
    ensures accepted <==> low.ok || old(c.op) != NoOp
    ensures !accepted ==> cb == NoCallback && c.Look() == old(c.Look())
    ensures accepted ==>
              cb == InitializeDone(if old(c.op).Write? then EINVAL
                                   else if low.success && (old(Count(c.high)) == 0 || (high.ok && high.success)) then SUCCESS
                                   else FAIL)
    ensures cb == InitializeDone(SUCCESS) ==> c.Value() == 0 && c.op == NoOp
  {
    hide ValueOf, Count, Struck, Torn, NextPattern;
    var code := c.InitializeCounter(low.ok);
    accepted, cb := code == SUCCESS, NoCallback;
    if !accepted { return; }
    if c.op.Write? {
      var v := Choose(c, word);
      cb := c.WriteDone(flash, v, low.ok);
      return;
    }
    cb := c.EraseDone(low.success, if |low.torn| == WORDS_PER_PAGE then low.torn else BlankPage(), high.ok);
    if c.task == Initialize {
      cb := c.EraseDone(high.success, if |high.torn| == WORDS_PER_PAGE then high.torn else BlankPage(), true);
    }
  }

  /** A page on which every strike has been made. */
  function FullPage(): (p: seq<bv32>)
    ensures IsPage(p) && Count(p) == COUNTS_PER_PAGE && p[WORDS_PER_PAGE - 1] == 0
  {
    var p := seq(WORDS_PER_PAGE, _ => 0 as bv32);
    LastWord(p, WORDS_PER_PAGE - 1, WORDS_PER_PAGE);
    DecodeStruck(8);
    p
  }

  /**
   The failing state is reached in every run that begins so: on a full low page an increment rolls over in
   the background on a flash without errors, and after its second step the capsule is idle while the write of
   the last step is under way.
   */
  lemma RolloverUnderWay(views: seq<View>, events: seq<Event>, replies: seq<Reply>)
    requires IsRun(views, events, replies) && views[0] == View(BlankPage(), FullPage(), NoOp, Idle)
    requires |events| == 3 && events[0] == CallIncrement(true)
    requires forall i | 1 <= i < 3 :: events[i].FlashReports? && events[i].code == SUCCESS && events[i].ok
    ensures views[3].task == Idle && views[3].op.Write?
    ensures replies[1] == Called(IncrementDone(SUCCESS))
  {
    hide Struck, Torn, NextPattern, Decode, CountIn, BlankPage, FullPage;
    assert Explains(views[0], events[0], replies[0], views[1]);
    assert views[1].task == Increment && views[1].op.Write? && views[1].op.page == High;
    assert Explains(views[1], events[1], replies[1], views[2]);
    assert views[2].task == Idle && views[2].op == Erase(Low);
    assert Explains(views[2], events[2], replies[2], views[3]);
  }
}

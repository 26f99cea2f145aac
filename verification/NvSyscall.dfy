/**
 The system call driver of the non-volatile counter: increment requests of several apps, queued
 behind one counter operation, on top of the flash counter.
 */
module NvSyscall {
  import opened NvCounter
  import CounterPage

  /** A callback that an app is owed: code 0 (failed), 1 (read) or 2 (incremented), and the value. */
  datatype Due = Due(app: nat, code: nat, value: nat, delivered: bool)

  datatype ReturnCode = RcSuccess | RcFail | RcBusy | RcNoMem

  ghost function DueTo(due: seq<Due>, app: nat): nat
  {
    if due == [] then 0 else DueTo(due[..|due| - 1], app) + if due[|due| - 1].app == app then 1 else 0
  }

  lemma DueToAppend(due: seq<Due>, d: Due, app: nat)
    ensures DueTo(due + [d], app) == DueTo(due, app) + if d.app == app then 1 else 0
  {
    assert (due + [d])[..|due|] == due;
  }

  /** The success callbacks from index `since` on carry strictly increasing values up to `bound`. */
  ghost predicate Ordered(due: seq<Due>, since: nat, bound: nat)
  {
    && (forall j | since <= j < |due| && due[j].code == 2 :: due[j].value <= bound)
    && (forall i, j | since <= i < j < |due| && due[i].code == 2 && due[j].code == 2 :: due[i].value < due[j].value)
  }

  /** What the driver holds between two calls, and what it depends on in the counter. */
  datatype Driver = Driver(opOngoing: bool, currentApp: nat, initFailed: bool, wants: seq<bool>, subscribed: seq<bool>,
                           accepted: seq<nat>, due: seq<Due>, since: nat, task: Task, quiet: bool, counter: nat)

  /** The answer to the increment command of an app, and what the driver then owes. */
  ghost predicate CommandAnswered(d: Driver, app: nat, enters: bool, reenters: bool, ok: bool, rc: ReturnCode, d': Driver)
    requires app < |d.wants| && app < |d.accepted|
  {
    && d'.due == d.due && d'.since == d.since && d'.initFailed == d.initFailed && d'.subscribed == d.subscribed
    && d'.counter == d.counter
    && (rc == RcNoMem <==> !d.initFailed && (!enters || (!d.wants[app] && d.opOngoing && !reenters)))
    && (rc == RcBusy <==> !d.initFailed && enters && d.wants[app])
    && (rc == RcSuccess <==>
          !d.initFailed && enters && !d.wants[app]
          && if d.opOngoing then reenters else d.task == Idle && (ok || !d.quiet) && d.counter < MAX_VALUE)
    && d'.accepted == (if rc == RcSuccess then d.accepted[app := d.accepted[app] + 1] else d.accepted)
    && (rc == RcSuccess && !d.opOngoing ==> d'.opOngoing && d'.currentApp == app && d'.wants == d.wants)
    && (rc == RcSuccess && d.opOngoing ==> d'.wants == d.wants[app := true] && d'.opOngoing && d'.currentApp == d.currentApp)
    && (rc != RcSuccess ==> d'.wants == d.wants && d'.opOngoing == d.opOngoing && d'.currentApp == d.currentApp)
  }

  class NvCounterSyscall {
    const counter: FlashCounter
    const apps: nat
    var opOngoing: bool
    var currentApp: nat
    var initFailed: bool
    var value: nat
    var wants: seq<bool>
    var subscribed: seq<bool>
    ghost var accepted: seq<nat>   // increment commands that returned SUCCESS, per app
    ghost var due: seq<Due>        // callbacks that have become due, oldest first
    ghost var since: nat           // where the callbacks after the last initialization begin

    ghost predicate Shape()
      reads this, counter
    {
      && |wants| == |subscribed| == |accepted| == apps
      && counter.Valid()
      && (initFailed ==> forall i | 0 <= i < apps :: !wants[i])
      && (opOngoing <==> counter.task == Increment)
      && (opOngoing ==> currentApp < apps && value == counter.Value())
    }

    ghost function Look(): Driver
      reads this, counter
      requires counter.Pages()
    {
      Driver(opOngoing, currentApp, initFailed, wants, subscribed, accepted, due, since,
             counter.task, counter.op == NoOp, counter.Value())
    }

    /** What app i is still owed, or has been given. */
    ghost function Owed(i: nat): nat
      requires i < |wants|
      reads this
    {
      DueTo(due, i) + (if wants[i] then 1 else 0) + (if opOngoing && currentApp == i then 1 else 0)
    }

    lemma OwesAccepted(i: nat)
      requires Valid() && i < apps
      ensures accepted[i] == Owed(i)
    {
      hide FlashCounter.Valid, Ordered;
    }

    /** Every accepted request of every app is queued, ongoing or answered; `extra` is owed one more. */
    ghost predicate Conserved(extra: int)
      requires |wants| == |accepted| == apps
      reads this
    {
      forall i: nat | i < apps :: accepted[i] == Owed(i) + if i == extra then 1 else 0
    }

    /** No request waits while nothing is ongoing. */
    ghost predicate NoneStranded()
      requires |wants| == apps
      reads this
    {
      opOngoing || forall i | 0 <= i < apps :: !wants[i]
    }

    ghost predicate Valid()
      reads this, counter
    {
      && Shape() && Conserved(-1) && NoneStranded()
      && Ordered(due, since, counter.Value())
      && (counter.task == Initialize ==> NoSuccesses(due, since))
    }

    constructor (counter: FlashCounter, apps: nat)
      requires counter.Valid() && counter.task == Idle
      ensures Valid() && this.counter == counter && this.apps == apps && due == []
    {
      this.counter, this.apps := counter, apps;
      opOngoing, currentApp, initFailed, value := false, 0, false, 0;
      wants, subscribed := seq(apps, _ => false), seq(apps, _ => false);
      accepted, due, since := seq(apps, _ => 0), [], 0;
    }

    /** A callback becomes due; it is delivered when the app has subscribed. */
    method Schedule(app: nat, code: nat, v: nat)
      requires app < |subscribed|
      modifies this`due
      ensures due == old(due) + [Due(app, code, v, subscribed[app])]
    {
      due := due + [Due(app, code, v, subscribed[app])];
    }

    /** `handle_failed_init`: every queued request is answered with code 0, and nobody else is. */
    method HandleFailedInit()
      requires Shape() && Conserved(-1) && NoneStranded() && Ordered(due, since, counter.Value())
      requires counter.task == Initialize ==> NoSuccesses(due, since)
      modifies this`initFailed, this`wants, this`due
      ensures Valid() && initFailed && FailedFrom(old(due), due) && forall i | 0 <= i < apps :: !wants[i]
      ensures Failed(old(wants), due, |old(due)|) && Noted(due, |old(due)|, subscribed)
    {
      hide FlashCounter.Valid, ValueOf, CounterPage.Count, Ordered, Fails, FailedFrom, Noted, NoSuccesses;
      ghost var v := counter.Value();
      ghost var queued := wants;
      initFailed := true;
      assert Conserved(-1);
      hide Conserved;
      NothingYet(due, subscribed);
      for i := 0 to apps
        invariant initFailed && |wants| == |subscribed| == |accepted| == apps
        invariant forall j | 0 <= j < apps :: wants[j] == (j >= i && queued[j])
        invariant Conserved(-1) && Ordered(due, since, v) && FailedFrom(old(due), due) && Noted(due, |old(due)|, subscribed)
        invariant counter.task == Initialize ==> NoSuccesses(due, since)
        invariant forall j: nat | j < apps :: Fails(due, |old(due)|, j) <==> j < i && queued[j]
      {
        if wants[i] {
          FailQueued(i, old(due), v);
        }
      }
    }

    /** One queued request is answered with code 0. */
    method FailQueued(i: nat, ghost start: seq<Due>, ghost v: nat)
      requires |wants| == |subscribed| == |accepted| == apps && i < apps && wants[i]
      requires Conserved(-1) && Ordered(due, since, v) && FailedFrom(start, due) && Noted(due, |start|, subscribed)
      modifies this`wants, this`due
      ensures wants == old(wants)[i := false]
      ensures Conserved(-1) && Ordered(due, since, v) && FailedFrom(start, due) && Noted(due, |start|, subscribed)
      ensures NoSuccesses(old(due), since) ==> NoSuccesses(due, since)
      ensures forall k: nat | k < apps :: Fails(due, |start|, k) <==> Fails(old(due), |start|, k) || k == i
    {
      ghost var before := due;
      wants := wants[i := false];
      Schedule(i, 0, 0);
      OrderedAppend(before, due[|before|], since, v);
      forall k: nat | k < apps ensures accepted[k] == Owed(k) {
        DueToAppend(before, due[|before|], k);
      }
      forall k: nat | k < apps ensures Fails(due, |start|, k) <==> Fails(before, |start|, k) || k == i {
        FailsAppend(before, due[|before|], |start|, k);
      }
      hide Fails, Ordered, Conserved;
      NotedAppend(before, due[|before|], |start|, subscribed);
    }

    /**
     `do_next_op`: one pass over the apps that starts the first queued request the counter accepts,
     and delivers the callback owed to `app` on the way, possibly after the value field has already
     been overwritten by the next read.
     */
    method DoNextOp(app: int, code: nat, oks: seq<bool>)
      requires Shape() && !opOngoing && |oks| == apps && -1 <= app < apps && Conserved(app)
      requires Ordered(due, since, counter.Value()) && counter.task == Idle
      requires app >= 0 && code == 2 ==>
                 && value == counter.Value()
                 && OrderedBelow(due, since, value)
      requires code <= 2 && (app >= 0 ==> 1 <= code && value <= counter.Value())
      modifies this`opOngoing, this`currentApp, this`value, this`wants, this`due, counter`op, counter`task, counter`buffer
      ensures Valid() && initFailed == old(initFailed)
      ensures old(due) <= due && (app >= 0 ==> Answered(due, |old(due)|, app, code, old(value), counter.Value()))
      ensures OnlyTo(due, |old(due)|, app, code, old(value), counter.Value()) && counter.Value() == old(counter.Value())
      ensures Pass(old(wants), oks, old(counter.op) == NoOp, counter.Value(), apps, wants, opOngoing, currentApp, due, |old(due)|)
      ensures Noted(due, |old(due)|, subscribed)
    {
      hide FlashCounter.Valid, ValueOf, CounterPage.Count, Ordered, Conserved, OrderedBelow, Answered;
      NothingYet(due, subscribed);
      assert OnlyTo(due, |due|, app, code, value, counter.Value());
      ghost var quiet := counter.op == NoOp;
      assert Pass(wants, oks, quiet, counter.Value(), 0, wants, false, currentApp, due, |due|);
      hide OnlyTo, Pass, Noted;
      ghost var v := counter.Value();
      ghost var queued := wants;
      for i := 0 to apps
        invariant Shape() && initFailed == old(initFailed) && counter.Value() == v
        invariant counter.task == Idle || counter.task == Increment
        invariant !opOngoing ==> (counter.op == NoOp) == quiet
        invariant Pass(queued, oks, quiet, v, i, wants, opOngoing, currentApp, due, |old(due)|)
        invariant Conserved(if app >= i then app else -1)
        invariant app >= i && code == 2 ==> value == v && OrderedBelow(due, since, v)
        invariant Ordered(due, since, v)
        invariant app >= 0 ==> old(value) <= value <= v
        invariant OnlyTo(due, |old(due)|, app, code, old(value), v) && Noted(due, |old(due)|, subscribed)
        invariant old(due) <= due && (0 <= app < i ==> Answered(due, |old(due)|, app, code, old(value), v))
      {
        TryQueued(i, oks, if app >= i then app else -1, |old(due)|, app, code, old(value), v, queued, quiet);
        if i == app {
          Answer(i, code, |old(due)|, old(value), v, oks, queued, quiet);
        }
      }
      NobodyLeft(queued, oks, quiet, v, wants, opOngoing, currentApp, due, |old(due)|);
    }

    /** The first half of the pass for one app: start its queued request unless one is ongoing. */
    method TryQueued(i: nat, oks: seq<bool>, ghost extra: int, ghost from: nat, ghost app: int, ghost code: nat, ghost read: nat,
                     ghost v: nat, ghost queued: seq<bool>, ghost quiet: bool)
      requires Shape() && i < apps == |oks| == |queued| && Conserved(extra) && v == counter.Value()
      requires from <= |due| && (!opOngoing ==> (counter.op == NoOp) == quiet)
      requires Pass(queued, oks, quiet, v, i, wants, opOngoing, currentApp, due, from)
      requires counter.task == Idle || counter.task == Increment
      requires Ordered(due, since, v) && OnlyTo(due, from, app, code, read, v) && Noted(due, from, subscribed)
      modifies this`opOngoing, this`currentApp, this`value, this`wants, this`due, counter`op, counter`task, counter`buffer
      ensures Shape() && Conserved(extra) && v == counter.Value()
      ensures counter.task == Idle || counter.task == Increment
      ensures Ordered(due, since, v) && OnlyTo(due, from, app, code, read, v) && old(due) <= due
      ensures OrderedBelow(old(due), since, v) ==> OrderedBelow(due, since, v)
      ensures app >= 0 && Answered(old(due), from, app, code, read, v) ==> Answered(due, from, app, code, read, v)
      ensures !opOngoing ==> (counter.op == NoOp) == quiet
      ensures Pass(queued, oks, quiet, v, i + 1, wants, opOngoing, currentApp, due, from)
      ensures (value == old(value) || value == v) && Noted(due, from, subscribed)
    {
      hide FlashCounter.Valid, ValueOf, CounterPage.Count, Ordered, Conserved, OrderedBelow, Answered, OnlyTo, Pass, Noted;
      ghost var before := due;
      PassWants(queued, oks, quiet, v, i, wants, opOngoing, currentApp, due, from);
      if opOngoing || !wants[i] {
        PassSkips(queued, oks, quiet, v, i, wants, opOngoing, currentApp, due, from);
      } else {
        StartQueued(i, oks[i], extra);
        if opOngoing {
          PassStarts(queued, oks, quiet, v, i, old(wants), old(currentApp), due, from);
        } else {
          PassRefuses(queued, oks, quiet, v, i, old(wants), currentApp, before, due[|before|], from);
          OrderedAppend(before, due[|before|], since, v);
          BelowAppend(before, due[|before|], since, v);
          OnlyAppend(before, due[|before|], from, app, code, read, v);
          NotedAppend(before, due[|before|], from, subscribed);
        }
        if app >= 0 && Answered(before, from, app, code, read, v) {
          AnsweredGrows(before, due, from, app, code, read, v);
        }
      }
    }

    /** The callback of the finished request becomes due, with whatever the value field now holds. */
    method Answer(app: nat, code: nat, ghost from: nat, ghost read: nat, ghost v: nat,
                  ghost oks: seq<bool>, ghost queued: seq<bool>, ghost quiet: bool)
      requires Shape() && app < apps == |oks| == |queued| && Conserved(app) && Ordered(due, since, v) && from <= |due|
      requires code == 2 ==> value == v && OrderedBelow(due, since, v)
      requires 1 <= code <= 2 && read <= value <= v
      requires OnlyTo(due, from, app, code, read, v) && Noted(due, from, subscribed)
      requires Pass(queued, oks, quiet, v, app + 1, wants, opOngoing, currentApp, due, from)
      modifies this`due
      ensures Shape() && Conserved(-1) && Ordered(due, since, v)
      ensures due == old(due) + [Due(app, code, value, subscribed[app])] && Answered(due, from, app, code, read, v)
      ensures OnlyTo(due, from, app, code, read, v) && Noted(due, from, subscribed)
      ensures Pass(queued, oks, quiet, v, app + 1, wants, opOngoing, currentApp, due, from)
    {
      hide FlashCounter.Valid, ValueOf, CounterPage.Count, Ordered, OrderedBelow, OnlyTo, Noted, Pass, Answered;
      ghost var before := due;
      Schedule(app, code, value);
      OrderedAppend(before, due[|before|], since, v);
      forall k: nat | k < apps ensures accepted[k] == Owed(k) {
        DueToAppend(before, due[|before|], k);
      }
      AnsweredNow(before, due[|before|], from, code, read, v);
      OnlyAppend(before, due[|before|], from, app, code, read, v);
      NotedAppend(before, due[|before|], from, subscribed);
      PassAnswer(queued, oks, quiet, v, app + 1, wants, opOngoing, currentApp, before, due[|before|], from);
    }

    // ----- commands

    /** `initialize`: a refused initialization fails all queued requests. */
    method InitializeCounter(ok: bool)
      requires Valid()
      modifies this`initFailed, this`wants, this`due, this`since, counter`op, counter`task
      ensures Valid()
      ensures old(counter.task) == Idle && (ok || old(counter.op) != NoOp) ==>
                counter.task == Initialize && since == |due| && due == old(due) && wants == old(wants) && initFailed == old(initFailed)
      ensures !(old(counter.task) == Idle && (ok || old(counter.op) != NoOp)) ==>
                && initFailed && since == old(since) && FailedFrom(old(due), due) && |old(wants)| == apps
                && Failed(old(wants), due, |old(due)|) && Noted(due, |old(due)|, subscribed)
                && wants == seq(apps, _ => false) && opOngoing == old(opOngoing) && currentApp == old(currentApp)
    {
      var code := counter.InitializeCounter(ok);
      if code != SUCCESS {
        HandleFailedInit();
        assert wants == seq(apps, _ => false);
      } else {
        since := |due|;
      }
    }

    /** Command 1: accepted when the app has no queued request and the counter can start or is busy. */
    method ReadAndIncrement(app: nat, enters: bool, reenters: bool, ok: bool) returns (rc: ReturnCode)
      requires Valid() && app < apps
      modifies this`opOngoing, this`currentApp, this`value, this`wants, this`accepted, counter`op, counter`task, counter`buffer
      ensures Valid() && counter.Value() == old(counter.Value())
      ensures CommandAnswered(old(Look()), app, enters, reenters, ok, rc, Look())
    {
      hide FlashCounter.Valid, ValueOf, CounterPage.Count, Ordered, NoSuccesses, Begins;
      if initFailed { return RcFail; }
      if !enters { return RcNoMem; }
      if wants[app] { return RcBusy; }
      if !opOngoing {
        var code := counter.ReadAndIncrement(ok);
        if !code.SuccessWithValue? { return RcFail; }
        value := code.value;
        opOngoing, currentApp := true, app;
      } else {
        if !reenters { return RcNoMem; }
        wants := wants[app := true];
      }
      accepted := accepted[app := accepted[app] + 1];
      return RcSuccess;
    }

    /** Subscribe 0. */
    method Subscribe(app: nat, present: bool)
      requires Valid() && app < apps
      modifies this`subscribed
      ensures Valid() && subscribed == old(subscribed)[app := present]
    {
      subscribed := subscribed[app := present];
    }

    // ----- counter client

    /** `initialize_done`, called when the counter has gone idle again. */
    method InitializeDone(success: bool, oks: seq<bool>)
      requires Shape() && Conserved(-1) && NoneStranded() && Ordered(due, since, counter.Value())
      requires !opOngoing && counter.task == Idle && |oks| == apps
      modifies this`opOngoing, this`currentApp, this`value, this`wants, this`due, this`initFailed,
               counter`op, counter`task, counter`buffer
      ensures Valid() && counter.Value() == old(counter.Value()) && initFailed == !success
      ensures due == old(due) && wants == old(wants) && !opOngoing && subscribed == old(subscribed)
    {
      hide FlashCounter.Valid, ValueOf, CounterPage.Count, Ordered, NoSuccesses, Fails, Noted;
      if success {
        initFailed := false;
        value := 0;
        assert Conserved(-1);
        hide Conserved;
        DoNextOp(-1, 0, oks);
        OnlyFailures(old(due), due, 0, 0, counter.Value());
        hide Pass;
        NobodyQueued(old(wants), oks, old(counter.op) == NoOp, counter.Value(), wants, opOngoing, currentApp, due, |old(due)|);
        NobodyTold(old(wants), old(due), due, subscribed);
      } else {
        HandleFailedInit();
        NobodyTold(old(wants), old(due), due, subscribed);
        assert wants == old(wants);
      }
    }

    /** `increment_done`, called when the counter has finished the ongoing request. */
    method IncrementDone(success: bool, oks: seq<bool>)
      requires |wants| == |subscribed| == |accepted| == apps && counter.Valid() && counter.task == Idle && |oks| == apps
      requires initFailed ==> forall i | 0 <= i < apps :: !wants[i]
      requires opOngoing && currentApp < apps && Conserved(-1) && Ordered(due, since, value) && value <= counter.Value()
      requires success ==> counter.Value() == value + 1
      modifies this`opOngoing, this`currentApp, this`value, this`wants, this`due, counter`op, counter`task, counter`buffer
      ensures Valid() && old(due) <= due && counter.Value() == old(counter.Value())
      ensures Finished(old(due), due, old(currentApp), if success then 2 else 1, old(value), counter.Value())
      ensures Pass(old(wants), oks, old(counter.op) == NoOp, counter.Value(), apps, wants, opOngoing, currentApp, due, |old(due)|)
      ensures Noted(due, |old(due)|, subscribed) && subscribed == old(subscribed)
    {
      hide FlashCounter.Valid, ValueOf, CounterPage.Count, NoSuccesses, Answered, OnlyTo, Pass, Noted;
      var app := currentApp;
      opOngoing := false;
      assert Conserved(app);
      if success {
        value := value + 1;
        DoNextOp(app, 2, oks);
        SuccessRead(due, |old(due)|, app, old(value) + 1, old(value), counter.Value());
      } else {
        DoNextOp(app, 1, oks);
      }
    }

    /** A queued request leaves the queue: it becomes the ongoing one, or fails with code 0. */
    method StartQueued(i: nat, ok: bool, ghost extra: int)
      requires Shape() && i < apps && wants[i] && !opOngoing && counter.task == Idle && Conserved(extra)
      modifies this`opOngoing, this`currentApp, this`value, this`wants, this`due, counter`op, counter`task, counter`buffer
      ensures Shape() && Conserved(extra) && wants == old(wants)[i := false]
      ensures opOngoing <==> Accepts(ok, old(counter.op) == NoOp, old(counter.Value()))
      ensures counter.Value() == old(counter.Value())
      ensures opOngoing ==> currentApp == i && value == counter.Value() && due == old(due)
      ensures !opOngoing ==> currentApp == old(currentApp) && counter.op == old(counter.op) && counter.task == Idle && value == old(value) && due == old(due) + [Due(i, 0, 0, subscribed[i])]
    {
      hide ValueOf, CounterPage.Count;
      ghost var before := due;
      wants := wants[i := false];
      var code := counter.ReadAndIncrement(ok);
      if code.SuccessWithValue? {
        value, opOngoing, currentApp := code.value, true, i;
      } else {
        Schedule(i, 0, 0);
        forall k: nat | k < apps ensures accepted[k] == Owed(k) + if k == extra then 1 else 0 {
          DueToAppend(before, due[|before|], k);
        }
      }
    }
  }

  /** Callbacks have become due, all of them failures without a value. */
  ghost predicate FailedFrom(before: seq<Due>, due: seq<Due>)
  {
    before <= due && forall j | |before| <= j < |due| :: due[j].code == 0 && due[j].value == 0
  }

  /** When the idle counter accepts a request. */
  predicate Accepts(ok: bool, quiet: bool, v: nat)
  {
    (ok || !quiet) && v < MAX_VALUE
  }

  /** The app is told that its queued request has failed. */
  ghost predicate Fails(due: seq<Due>, from: nat, app: nat)
  {
    exists e :: from <= e < |due| && due[e].app == app && IsFailure(due[e])
  }

  lemma FailsAppend(due: seq<Due>, d: Due, from: nat, app: nat)
    requires from <= |due|
    ensures Fails(due + [d], from, app) <==> Fails(due, from, app) || (d.app == app && IsFailure(d))
  {
    if Fails(due, from, app) {
      var e :| from <= e < |due| && due[e].app == app && IsFailure(due[e]);
      assert (due + [d])[e] == due[e];
    }
    if d.app == app && IsFailure(d) {
      assert (due + [d])[|due|] == d;
    }
  }

  /** Exactly the queued apps are told of a failure. */
  ghost predicate Failed(queued: seq<bool>, due: seq<Due>, from: nat)
  {
    forall j: nat | j < |queued| :: Fails(due, from, j) <==> queued[j]
  }

  /** Every callback goes to an existing app, and is delivered exactly when the app has subscribed. */
  ghost predicate Noted(due: seq<Due>, from: nat, subscribed: seq<bool>)
  {
    forall j | from <= j < |due| :: due[j].app < |subscribed| && due[j].delivered == subscribed[due[j].app]
  }

  lemma NotedAppend(due: seq<Due>, d: Due, from: nat, subscribed: seq<bool>)
    requires Noted(due, from, subscribed) && d.app < |subscribed| && d.delivered == subscribed[d.app]
    ensures Noted(due + [d], from, subscribed)
  {
  }

  lemma NothingYet(due: seq<Due>, subscribed: seq<bool>)
    ensures Noted(due, |due|, subscribed) && FailedFrom(due, due) && forall j: nat :: !Fails(due, |due|, j)
  {
  }

  /** Where nobody was queued, nobody is told anything. */
  lemma NobodyTold(queued: seq<bool>, before: seq<Due>, due: seq<Due>, subscribed: seq<bool>)
    requires FailedFrom(before, due) && Noted(due, |before|, subscribed) && |queued| == |subscribed|
    requires forall j: nat | j < |queued| :: !queued[j] && !Fails(due, |before|, j)
    ensures due == before
  {
    if |due| > |before| {
      assert IsFailure(due[|before|]);
      assert Fails(due, |before|, due[|before|].app);
    }
  }

  lemma NobodyQueued(queued: seq<bool>, oks: seq<bool>, quiet: bool, v: nat, wants: seq<bool>,
                     ongoing: bool, current: nat, due: seq<Due>, from: nat)
    requires |queued| == |oks| && Pass(queued, oks, quiet, v, |oks|, wants, ongoing, current, due, from)
    requires forall j | 0 <= j < |queued| :: !queued[j]
    ensures !ongoing && wants == queued && forall j: nat | j < |queued| :: !Fails(due, from, j)
  {
    hide Fails, Accepts;
  }

  /**
   A pass over the first n apps, with the requests queued before it: the first queued request that the counter
   accepts is the ongoing one; exactly the apps queued before it, whose requests the counter refused, are told
   of a failure; the others wait on.
   */
  ghost predicate Pass(queued: seq<bool>, oks: seq<bool>, quiet: bool, v: nat, n: nat, wants: seq<bool>,
                       ongoing: bool, current: nat, due: seq<Due>, from: nat)
    requires |queued| == |oks| && n <= |oks|
  {
    && |wants| == |queued|
    && (ongoing ==> current < n && queued[current] && Accepts(oks[current], quiet, v))
    && (forall j | 0 <= j < n && queued[j] && (ongoing ==> j < current) :: !Accepts(oks[j], quiet, v))
    && (forall j | 0 <= j < |queued| :: wants[j] <==> queued[j] && (j >= n || (ongoing && j > current)))
    && (forall j: nat | j < |queued| :: Fails(due, from, j) <==> j < n && queued[j] && (ongoing ==> j < current))
  }

  lemma PassWants(queued: seq<bool>, oks: seq<bool>, quiet: bool, v: nat, i: nat, wants: seq<bool>,
                  ongoing: bool, current: nat, due: seq<Due>, from: nat)
    requires |queued| == |oks| && i < |oks| && Pass(queued, oks, quiet, v, i, wants, ongoing, current, due, from)
    ensures |wants| == |queued| && wants[i] == queued[i]
  {
  }

  lemma PassSkips(queued: seq<bool>, oks: seq<bool>, quiet: bool, v: nat, i: nat, wants: seq<bool>,
                  ongoing: bool, current: nat, due: seq<Due>, from: nat)
    requires |queued| == |oks| && i < |oks| && Pass(queued, oks, quiet, v, i, wants, ongoing, current, due, from)
    requires ongoing || !queued[i]
    ensures Pass(queued, oks, quiet, v, i + 1, wants, ongoing, current, due, from)
  {
    hide Fails, Accepts;
  }

  lemma PassStarts(queued: seq<bool>, oks: seq<bool>, quiet: bool, v: nat, i: nat, wants: seq<bool>,
                   current: nat, due: seq<Due>, from: nat)
    requires |queued| == |oks| && i < |oks| && Pass(queued, oks, quiet, v, i, wants, false, current, due, from)
    requires queued[i] && Accepts(oks[i], quiet, v)
    ensures Pass(queued, oks, quiet, v, i + 1, wants[i := false], true, i, due, from)
  {
    hide Fails, Accepts;
  }

  lemma PassRefuses(queued: seq<bool>, oks: seq<bool>, quiet: bool, v: nat, i: nat, wants: seq<bool>,
                    current: nat, due: seq<Due>, d: Due, from: nat)
    requires |queued| == |oks| && i < |oks| && from <= |due| && Pass(queued, oks, quiet, v, i, wants, false, current, due, from)
    requires queued[i] && !Accepts(oks[i], quiet, v) && d.app == i && IsFailure(d)
    ensures Pass(queued, oks, quiet, v, i + 1, wants[i := false], false, current, due + [d], from)
  {
    forall j: nat | j < |queued|
      ensures Fails(due + [d], from, j) <==> Fails(due, from, j) || j == i
    {
      FailsAppend(due, d, from, j);
    }
    hide Fails, Accepts;
  }

  /** The answer to the finished request is no failure of a queued one. */
  lemma PassAnswer(queued: seq<bool>, oks: seq<bool>, quiet: bool, v: nat, n: nat, wants: seq<bool>,
                   ongoing: bool, current: nat, due: seq<Due>, d: Due, from: nat)
    requires |queued| == |oks| && n <= |oks| && from <= |due| && Pass(queued, oks, quiet, v, n, wants, ongoing, current, due, from)
    requires !IsFailure(d)
    ensures Pass(queued, oks, quiet, v, n, wants, ongoing, current, due + [d], from)
  {
    forall j: nat | j < |queued|
      ensures Fails(due + [d], from, j) <==> Fails(due, from, j)
    {
      FailsAppend(due, d, from, j);
    }
    hide Fails, Accepts;
  }

  lemma NobodyLeft(queued: seq<bool>, oks: seq<bool>, quiet: bool, v: nat, wants: seq<bool>,
                   ongoing: bool, current: nat, due: seq<Due>, from: nat)
    requires |queued| == |oks| && Pass(queued, oks, quiet, v, |oks|, wants, ongoing, current, due, from)
    ensures ongoing || forall j | 0 <= j < |wants| :: !wants[j]
  {
  }

  /** All callbacks from index `from` on are failures without a value, or answer the app with the code. */
  ghost predicate OnlyTo(due: seq<Due>, from: nat, app: int, code: nat, read: nat, v: nat)
  {
    forall j | from <= j < |due| :: IsFailure(due[j]) || Answers(due[j], app, code, read, v)
  }

  predicate IsFailure(d: Due)
  {
    d.code == 0 && d.value == 0
  }

  predicate Answers(d: Due, app: int, code: nat, read: nat, v: nat)
  {
    d.app == app && d.code == code && Reported(d.value, code, read, v)
  }

  lemma OnlyAppend(due: seq<Due>, d: Due, from: nat, app: int, code: nat, read: nat, v: nat)
    requires OnlyTo(due, from, app, code, read, v) && (IsFailure(d) || Answers(d, app, code, read, v))
    ensures OnlyTo(due + [d], from, app, code, read, v)
  {
  }

  /** What a success reports does not depend on what was read. */
  lemma SuccessRead(due: seq<Due>, from: nat, app: nat, read: nat, read': nat, v: nat)
    requires Answered(due, from, app, 2, read, v) && OnlyTo(due, from, app, 2, read, v)
    ensures Answered(due, from, app, 2, read', v) && OnlyTo(due, from, app, 2, read', v)
  {
    var j :| from <= j < |due| && due[j].app == app && due[j].code == 2 && Reported(due[j].value, 2, read, v);
    assert Reported(due[j].value, 2, read', v);
  }

  lemma OnlyFailures(before: seq<Due>, due: seq<Due>, code: nat, read: nat, v: nat)
    requires before <= due && OnlyTo(due, |before|, -1, code, read, v)
    ensures FailedFrom(before, due)
  {
  }

  ghost predicate NoSuccesses(due: seq<Due>, since: nat)
  {
    forall j | since <= j < |due| :: due[j].code != 2
  }

  lemma OrderedMonotone(due: seq<Due>, since: nat, v: nat, v': nat)
    requires Ordered(due, since, v) && (v <= v' || NoSuccesses(due, since))
    ensures Ordered(due, since, v')
  {
  }

  /** All success callbacks from `since` on are below v: the next one may carry v. */
  ghost predicate OrderedBelow(due: seq<Due>, since: nat, v: nat)
  {
    forall j | since <= j < |due| && due[j].code == 2 :: due[j].value < v
  }

  /**
   From index `from` on, the app has been given its callback. A success reports the value v; a failure
   reports the value read, or a later one if the next request has been read in the meantime.
   */
  ghost predicate Answered(due: seq<Due>, from: nat, app: nat, code: nat, read: nat, v: nat)
  {
    exists j :: from <= j < |due| && due[j].app == app && due[j].code == code && Reported(due[j].value, code, read, v)
  }

  predicate Reported(value: nat, code: nat, read: nat, v: nat)
  {
    if code == 2 then value == v else read <= value <= v
  }

  /**
   The ongoing request of the app, which had read a value, has ended with the code: it has its callback, and
   whatever else has become due are failures. A success reports the value read plus one, which is the counter's.
   */
  ghost predicate Finished(before: seq<Due>, due: seq<Due>, app: nat, code: nat, read: nat, v: nat)
  {
    && before <= due && 1 <= code <= 2
    && Answered(due, |before|, app, code, read, v) && OnlyTo(due, |before|, app, code, read, v)
    && (code == 2 ==> v == read + 1)
  }

  lemma AnsweredGrows(due: seq<Due>, due': seq<Due>, from: nat, app: nat, code: nat, read: nat, v: nat)
    requires Answered(due, from, app, code, read, v) && due <= due'
    ensures Answered(due', from, app, code, read, v)
  {
    var j :| from <= j < |due| && due[j].app == app && due[j].code == code && Reported(due[j].value, code, read, v);
    assert due'[j] == due[j];
  }

  lemma BelowAppend(due: seq<Due>, d: Due, since: nat, v: nat)
    requires d.code != 2
    ensures OrderedBelow(due, since, v) ==> OrderedBelow(due + [d], since, v)
  {
  }

  lemma AnsweredNow(due: seq<Due>, d: Due, from: nat, code: nat, read: nat, v: nat)
    requires from <= |due| && d.code == code && Reported(d.value, code, read, v)
    ensures Answered(due + [d], from, d.app, code, read, v)
  {
    assert (due + [d])[|due|] == d;
  }

  lemma OrderedAppend(due: seq<Due>, d: Due, since: nat, v: nat)
    requires Ordered(due, since, v) && (d.code == 2 ==> d.value == v && OrderedBelow(due, since, v))
    ensures Ordered(due + [d], since, v)
  {
  }

  // ----- the whole stack

  /** One answer of the flash for each app: a missing one is a refusal. */
  function Padded(oks: seq<bool>, n: nat): (r: seq<bool>)
    ensures |r| == n && forall i | 0 <= i < n :: r[i] == (i < |oks| && oks[i])
  {
    seq(n, i requires 0 <= i < n => i < |oks| && oks[i])
  }

  /**
   What a completion of the flash does to the driver. The ongoing request goes on, or it ends: with code 2
   exactly when the flash has succeeded and the counter has counted. Its end lets the queue move on.
   */
  ghost predicate Reports(d: Driver, flash: Code, oks: seq<bool>, d': Driver)
  {
    && d'.accepted == d.accepted && d'.since == d.since && d'.subscribed == d.subscribed
    && (d.task != Initialize ==> d.counter <= d'.counter)
    && if d.opOngoing then
         || (d'.due == d.due && d'.counter == d.counter && d'.opOngoing && d'.currentApp == d.currentApp && d'.wants == d.wants)
         || (&& Finished(d.due, d'.due, d.currentApp, if Counted(d, flash, d') then 2 else 1, d.counter, d'.counter)
             && MovesOn(d, oks, d'))
       else d'.due == d.due && d'.wants == d.wants && !d'.opOngoing
  }

  /** A write has succeeded and has raised the counter. */
  predicate Counted(d: Driver, flash: Code, d': Driver)
  {
    flash == SUCCESS && d'.counter == d.counter + 1
  }

  /** The queue after the end of a request: the counter is offered the requests in the order of the apps. */
  ghost predicate MovesOn(d: Driver, oks: seq<bool>, d': Driver)
  {
    var n := |d.wants|;
    && Noted(d'.due, |d.due|, d.subscribed)
    && exists quiet :: Pass(d.wants, Padded(oks, n), quiet, d'.counter, n, d'.wants, d'.opOngoing, d'.currentApp, d'.due, |d.due|)
  }

  /** The flash reports completion; the counter advances and calls its client, the driver. */
  method FlashReports(s: NvCounterSyscall, code: Code, word: bv32, page: seq<bv32>, ok: bool, oks: seq<bool>)
    requires s.Valid() && s.counter.op != NoOp
    modifies s, s.counter
    ensures s.Valid() && old(s.due) <= s.due && s.accepted == old(s.accepted) && s.since == old(s.since)
    ensures Reports(old(s.Look()), code, oks, s.Look())
  {
    hide ValueOf, CounterPage.Count, Ordered, NoSuccesses, Finished, Clean, CounterPage.Torn, CounterPage.NextPattern, Pass, Noted;
    hide NvCounterSyscall.Conserved;
    var c := s.counter;
    ghost var v := c.Value();
    var cb;
    if c.op.Write? {
      var w := Choose(c, word);
      cb := c.WriteDone(code, w, ok);
    } else {
      cb := c.EraseDone(code == SUCCESS, if |page| == CounterPage.WORDS_PER_PAGE then page else BlankPage(), ok);
    }
    OrderedMonotone(s.due, s.since, v, c.Value());
    match cb {
      case NoCallback =>
      case InitializeDone(code) =>
        s.InitializeDone(code == SUCCESS, Padded(oks, s.apps));
      case IncrementDone(code) =>
        s.IncrementDone(code == SUCCESS, Padded(oks, s.apps));
    }
  }

  datatype SystemEvent =
    | AppIncrements(app: nat, enters: bool, reenters: bool, ok: bool)
    | AppSubscribes(app: nat, present: bool)
    | KernelInitializes(ok: bool)
    | FlashFinishes(code: Code, word: bv32, page: seq<bv32>, ok: bool, oks: seq<bool>)

  /** What an app gets back at once: the return code of its command. */
  datatype Answer = Code(rc: ReturnCode) | NoAnswer

  /** What an event may do to the driver, and what the caller gets back. */
  ghost predicate Explains(d: Driver, e: SystemEvent, a: Answer, d': Driver)
  {
    && |d.wants| == |d.accepted| == |d.subscribed|
    && match e
       case AppIncrements(app, enters, reenters, ok) =>
         if app < |d.wants| then a.Code? && CommandAnswered(d, app, enters, reenters, ok, a.rc, d') else a == NoAnswer && d' == d
       case AppSubscribes(app, present) =>
         a == NoAnswer && d' == if app < |d.wants| then d.(subscribed := d.subscribed[app := present]) else d
       case KernelInitializes(ok) =>
         && a == NoAnswer && d'.accepted == d.accepted
         && if d.task == Idle && (ok || !d.quiet) then d'.since == |d.due| && d'.due == d.due && d'.wants == d.wants && d'.initFailed == d.initFailed
            else
              && d'.since == d.since && d'.initFailed && FailedFrom(d.due, d'.due) && Failed(d.wants, d'.due, |d.due|)
              && Noted(d'.due, |d.due|, d.subscribed) && d'.wants == seq(|d.wants|, _ => false)
              && d'.opOngoing == d.opOngoing && d'.currentApp == d.currentApp
       case FlashFinishes(flash, _, _, _, oks) =>
         a == NoAnswer && if d.quiet then d' == d else Reports(d, flash, oks, d')
  }

  /** The apps whose increment commands were answered with SUCCESS, as often as they were. */
  ghost function Granted(events: seq<SystemEvent>, answers: seq<Answer>): multiset<nat>
    requires |events| == |answers|
  {
    if events == [] then multiset{}
    else
      var n := |events| - 1;
      Granted(events[..n], answers[..n])
      + if events[n].AppIncrements? && answers[n] == Code(RcSuccess) then multiset{events[n].app} else multiset{}
  }

  /** One event on the running stack. */
  method Happen(s: NvCounterSyscall, e: SystemEvent) returns (a: Answer)
    requires s.Valid()
    modifies s, s.counter
    ensures s.Valid() && Explains(old(s.Look()), e, a, s.Look()) && old(s.due) <= s.due
  {
    hide FlashCounter.Valid, ValueOf, CounterPage.Count, Ordered, NoSuccesses, Reports;
    a := NoAnswer;
    match e {
      case AppIncrements(app, enters, reenters, ok) =>
        if app < s.apps {
          var rc := s.ReadAndIncrement(app, enters, reenters, ok);
          a := Code(rc);
        }
      case AppSubscribes(app, present) =>
        if app < s.apps {
          s.Subscribe(app, present);
        }
      case KernelInitializes(ok) =>
        s.InitializeCounter(ok);
      case FlashFinishes(code, word, page, ok, oks) =>
        if s.counter.op != NoOp {
          FlashReports(s, code, word, page, ok, oks);
        }
    }
  }

  /** A run: the driver between the events, and an answer to each of them. */
  ghost predicate IsRun(views: seq<Driver>, events: seq<SystemEvent>, answers: seq<Answer>)
  {
    && |views| == |events| + 1 && |answers| == |events|
    && forall i | 0 <= i < |events| :: Explains(views[i], events[i], answers[i], views[i + 1])
  }

  /**
   Over every interleaving of app commands, initializations and flash completions: each app's
   accepted requests, those answered with SUCCESS in this run among them, are exactly those answered by
   a callback, queued or ongoing; no request is stranded; and the values in the success callbacks since
   the last initialization strictly increase, from the start of the run on if none was requested in it. Every
   success callback answers the request that was ongoing, with the value that this request had read plus one;
   no request fails in the queue as long as flash and counter accept requests.
   */
  method RunSystem(s: NvCounterSyscall, events: seq<SystemEvent>) returns (answers: seq<Answer>, ghost views: seq<Driver>)
    requires s.Valid()
    modifies s, s.counter
    ensures s.Valid() && old(s.due) <= s.due
    ensures IsRun(views, events, answers) && views[0] == old(s.Look()) && views[|events|] == s.Look()
    ensures forall app: nat | app < s.apps ::
              old(s.accepted[app]) + Granted(events, answers)[app]
              == DueTo(s.due, app) + (if s.wants[app] then 1 else 0) + (if s.opOngoing && s.currentApp == app then 1 else 0)
    ensures Ordered(s.due, s.since, s.counter.Value())
    ensures forall j | |old(s.due)| <= j < |s.due| && s.due[j].code == 2 :: Earned(views, events, s.due[j])
    ensures (forall e | e in events :: !e.KernelInitializes?) ==> s.since == old(s.since)
    ensures (forall i | 0 <= i < |events| :: Willing(views[i], events[i], views[i + 1])) ==>
              forall j | |old(s.due)| <= j < |s.due| :: s.due[j].code != 0
  {
    hide FlashCounter.Valid, ValueOf, CounterPage.Count, Ordered, NoSuccesses, Explains, NvCounterSyscall.Conserved, Willing;
    answers, views := [], [s.Look()];
    for i := 0 to |events|
      invariant s.Valid() && old(s.due) <= s.due && |answers| == i && |views| == i + 1
      invariant views[0] == old(s.Look()) && views[i] == s.Look()
      invariant forall j | 0 <= j < i :: Explains(views[j], events[j], answers[j], views[j + 1])
    {
      var a := Happen(s, events[i]);
      answers, views := answers + [a], views + [s.Look()];
    }
    SinceKept(views, events, answers);
    RunEarns(views, events, answers);
    if forall i | 0 <= i < |events| :: Willing(views[i], events[i], views[i + 1]) {
      RunServes(views, events, answers);
    }
    forall app: nat | app < s.apps
      ensures s.accepted[app] == old(s.accepted[app]) + Granted(events, answers)[app] && s.accepted[app] == s.Owed(app)
    {
      RunGrants(views, events, answers, app);
      s.OwesAccepted(app);
    }
  }

  lemma RunPrefix(views: seq<Driver>, events: seq<SystemEvent>, answers: seq<Answer>)
    requires IsRun(views, events, answers) && events != []
    ensures var n := |events| - 1;
            && IsRun(views[..n + 1], events[..n], answers[..n]) && Explains(views[n], events[n], answers[n], views[n + 1])
            && views[..n + 1][0] == views[0] && views[..n + 1][n] == views[n]
  {
    hide Explains;
  }

  /**
   A success callback became due at a completion of the flash, while a request of its app was ongoing, and
   reports one more than the value that the counter held, and that the request had read, until then.
   */
  ghost predicate Earned(views: seq<Driver>, events: seq<SystemEvent>, d: Due)
    requires |views| == |events| + 1
  {
    exists i :: 0 <= i < |events| && EarnedAt(views[i], events[i], d, views[i + 1])
  }

  ghost predicate EarnedAt(v: Driver, e: SystemEvent, d: Due, v': Driver)
  {
    e.FlashFinishes? && v.opOngoing && v.currentApp == d.app && d.value == v.counter + 1 == v'.counter && d in v'.due
  }

  lemma {:induction false} RunEarns(views: seq<Driver>, events: seq<SystemEvent>, answers: seq<Answer>)
    requires IsRun(views, events, answers)
    ensures views[0].due <= views[|events|].due
    ensures forall j | |views[0].due| <= j < |views[|events|].due| && views[|events|].due[j].code == 2 ::
              Earned(views, events, views[|events|].due[j])
  {
    hide Explains, EarnedAt;
    if events != [] {
      var n := |events| - 1;
      RunPrefix(views, events, answers);
      hide IsRun;
      RunEarns(views[..n + 1], events[..n], answers[..n]);
      StepEarns(views[n], events[n], answers[n], views[n + 1]);
      var due := views[n + 1].due;
      forall j | |views[0].due| <= j < |due| && due[j].code == 2
        ensures Earned(views, events, due[j])
      {
        if j < |views[n].due| {
          assert due[j] == views[n].due[j];
          EarnedLonger(views, events, due[j]);
        } else {
          assert EarnedAt(views[n], events[n], due[j], views[n + 1]);
        }
      }
    }
  }

  lemma EarnedLonger(views: seq<Driver>, events: seq<SystemEvent>, d: Due)
    requires |views| == |events| + 1 && events != [] && Earned(views[..|events|], events[..|events| - 1], d)
    ensures Earned(views, events, d)
  {
    hide EarnedAt;
    var n := |events| - 1;
    var i :| 0 <= i < n && EarnedAt(views[..n + 1][i], events[..n][i], d, views[..n + 1][i + 1]);
    assert EarnedAt(views[i], events[i], d, views[i + 1]);
  }

  lemma StepEarns(d: Driver, e: SystemEvent, a: Answer, d': Driver)
    requires Explains(d, e, a, d')
    ensures d.due <= d'.due
    ensures forall j | |d.due| <= j < |d'.due| && d'.due[j].code == 2 :: EarnedAt(d, e, d'.due[j], d')
  {
  }

  /** The flash refuses no app, and the counter is neither initialized nor at its maximum afterwards. */
  ghost predicate Willing(d: Driver, e: SystemEvent, d': Driver)
  {
    && !e.KernelInitializes? && d'.counter < MAX_VALUE
    && (e.FlashFinishes? ==> forall i | 0 <= i < |d.wants| :: Padded(e.oks, |d.wants|)[i])
  }

  /** When the end of a request lets the queue move on, the first queued app, and it alone, leaves the queue. */
  lemma QueueMoves(d: Driver, oks: seq<bool>, d': Driver)
    requires MovesOn(d, oks, d') && d'.counter < MAX_VALUE && forall i | 0 <= i < |d.wants| :: Padded(oks, |d.wants|)[i]
    ensures d'.opOngoing <==> true in d.wants
    ensures d'.opOngoing ==>
              && d'.currentApp < |d.wants| && d.wants[d'.currentApp] && d'.wants == d.wants[d'.currentApp := false]
              && forall i | 0 <= i < d'.currentApp :: !d.wants[i]
    ensures forall app: nat | app < |d.wants| :: !Fails(d'.due, |d.due|, app)
  {
    hide Fails, Noted;
  }

  /** An app that waits is not refused: as long as flash and counter accept requests, no failure becomes due. */
  lemma {:induction false} RunServes(views: seq<Driver>, events: seq<SystemEvent>, answers: seq<Answer>)
    requires IsRun(views, events, answers)
    requires forall i | 0 <= i < |events| :: Willing(views[i], events[i], views[i + 1])
    ensures views[0].due <= views[|events|].due
    ensures forall j | |views[0].due| <= j < |views[|events|].due| :: views[|events|].due[j].code != 0
  {
    hide Explains, Willing;
    if events != [] {
      var n := |events| - 1;
      RunPrefix(views, events, answers);
      hide IsRun;
      RunServes(views[..n + 1], events[..n], answers[..n]);
      StepServes(views[n], events[n], answers[n], views[n + 1]);
    }
  }

  lemma StepServes(d: Driver, e: SystemEvent, a: Answer, d': Driver)
    requires Explains(d, e, a, d') && Willing(d, e, d')
    ensures d.due <= d'.due && forall j | |d.due| <= j < |d'.due| :: d'.due[j].code != 0
  {
    if d'.due != d.due {
      assert d'.due != d.due ==> MovesOn(d, e.oks, d') by { hide MovesOn, Finished; }
      QueueMoves(d, e.oks, d');
      FailuresAreTold(d'.due, |d.due|);
      hide MovesOn, Answered, Fails;
    }
  }

  lemma FailuresAreTold(due: seq<Due>, from: nat)
    ensures forall j | from <= j < |due| && IsFailure(due[j]) :: Fails(due, from, due[j].app)
  {
    forall j | from <= j < |due| && IsFailure(due[j])
      ensures Fails(due, from, due[j].app)
    {
      var e := j;
      assert from <= e < |due| && due[e].app == due[j].app && IsFailure(due[e]);
    }
  }

  /** What has been accepted from an app in a run is what its commands were granted. */
  lemma {:induction false} RunGrants(views: seq<Driver>, events: seq<SystemEvent>, answers: seq<Answer>, app: nat)
    requires IsRun(views, events, answers) && app < |views[0].accepted|
    ensures app < |views[|events|].accepted|
    ensures views[|events|].accepted[app] == views[0].accepted[app] + Granted(events, answers)[app]
  {
    if events != [] {
      hide Explains;
      var n := |events| - 1;
      RunPrefix(views, events, answers);
      hide IsRun;
      RunGrants(views[..n + 1], events[..n], answers[..n], app);
      assert views[..n + 1][0] == views[0] && views[..n + 1][n] == views[n];
      StepGrants(views[n], events[n], answers[n], views[n + 1], app);
    }
  }

  lemma StepGrants(d: Driver, e: SystemEvent, a: Answer, d': Driver, app: nat)
    requires Explains(d, e, a, d') && app < |d.accepted|
    ensures app < |d'.accepted|
    ensures d'.accepted[app] == d.accepted[app] + if e.AppIncrements? && a == Code(RcSuccess) && e.app == app then 1 else 0
  {
  }

  lemma {:induction false} SinceKept(views: seq<Driver>, events: seq<SystemEvent>, answers: seq<Answer>)
    requires IsRun(views, events, answers)
    ensures (forall e | e in events :: !e.KernelInitializes?) ==> views[|events|].since == views[0].since
  {
    if events != [] && forall e | e in events :: !e.KernelInitializes? {
      hide Explains;
      var n := |events| - 1;
      assert events[n] in events;
      RunPrefix(views, events, answers);
      StepKeepsSince(views[n], events[n], answers[n], views[n + 1]);
      SinceKept(views[..n + 1], events[..n], answers[..n]);
      assert views[..n + 1][0] == views[0] && views[..n + 1][n] == views[n];
    }
  }

  lemma StepKeepsSince(d: Driver, e: SystemEvent, a: Answer, d': Driver)
    requires Explains(d, e, a, d') && !e.KernelInitializes?
    ensures d'.since == d.since
  {
  }
}

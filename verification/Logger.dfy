/** The logger's queue (logger.go): print calls, the goroutine that writes, and Wait, as steps of a machine
    that interleave freely. */
module Logger {
  /** Capacity of the channel. */
  const CAPACITY := 10000

  /** A message of a logger, from one print call. */
  datatype Msg = Msg(log: int, text: int)

  /** A print call in progress: past the check of waitStarted, past Add, or about to give the message up
      because the channel is full. */
  datatype Call = Checked(m: Msg) | Added(m: Msg) | Dropping(m: Msg)

  /** The writing goroutine: between messages, with a message taken, with the log file open, or finished with
      the message except for Done. */
  datatype Consumer = Idle | Took(m: Msg) | Opened(m: Msg) | Finishing(m: Msg, wrote: bool)

  /** The caller of Wait that set waitStarted, before and after the counter has been seen at 0; mark is how
      much had been sent when it set waitStarted. */
  datatype Waiter = Waiting(log: int, mark: nat) | Released(log: int, mark: nat)

  datatype Handled = Handled(m: Msg, wrote: bool)

  /** sent and handled are histories: what went into the channel, and what the goroutine is done with. */
  datatype State = State(
    waitStarted: set<int>,
    pending: map<int, int>,
    queue: seq<Msg>,
    calls: map<int, Call>,
    consumer: Consumer,
    open: set<int>,
    output: seq<Msg>,
    waiters: map<int, Waiter>,
    sent: seq<Msg>,
    handled: seq<Handled>)

  /** One step. c names a print call and w a caller of Wait. */
  datatype Event =
    | Check(c: int, m: Msg)      // print: waitStarted is not set
    | Add(c: int)                // print: logTasks.Add(1)
    | Send(c: int)               // print: the channel takes the message
    | Full(c: int)               // print: the channel is full
    | DropDone(c: int)           // print: logTasks.Done() for a dropped message
    | Take                       // goroutine: receives a message
    | Open(ok: bool)             // goroutine: opens the log file, unless it is open
    | Write                      // goroutine: writes the line
    | Finish                     // goroutine: logTasks.Done()
    | WaitStart(w: int, log: int)  // Wait: sets waitStarted, under the lock
    | WaitRelease(w: int)        // Wait: logTasks.Wait() sees the counter at 0
    | WaitEnd(w: int)            // Wait: clears waitStarted, under the lock

  function Pending(s: State, l: int): int {
    if l in s.pending then s.pending[l] else 0
  }

  predicate Enabled(s: State, e: Event) {
    match e
    case Check(c, m) => c !in s.calls && m.log !in s.waitStarted
    case Add(c) => c in s.calls && s.calls[c].Checked?
    case Send(c) => c in s.calls && s.calls[c].Added? && |s.queue| < CAPACITY
    case Full(c) => c in s.calls && s.calls[c].Added? && |s.queue| == CAPACITY
    case DropDone(c) => c in s.calls && s.calls[c].Dropping?
    case Take => s.consumer.Idle? && s.queue != []
    case Open(ok) => s.consumer.Took? && (s.consumer.m.log in s.open ==> ok)
    case Write => s.consumer.Opened?
    case Finish => s.consumer.Finishing?
    case WaitStart(w, l) => w !in s.waiters && l !in s.waitStarted
    case WaitRelease(w) => w in s.waiters && s.waiters[w].Waiting? && Pending(s, s.waiters[w].log) == 0
    case WaitEnd(w) => w in s.waiters && s.waiters[w].Released?
  }

  function Plus(s: State, l: int, k: int): map<int, int> {
    s.pending[l := Pending(s, l) + k]
  }

  function Apply(s: State, e: Event): State
    requires Enabled(s, e)
  {
    match e
    case Check(c, m) => s.(calls := s.calls[c := Checked(m)])
    case Add(c) =>
      var m := s.calls[c].m;
      s.(calls := s.calls[c := Added(m)], pending := Plus(s, m.log, 1))
    case Send(c) =>
      var m := s.calls[c].m;
      s.(calls := s.calls - {c}, queue := s.queue + [m], sent := s.sent + [m])
    case Full(c) => s.(calls := s.calls[c := Dropping(s.calls[c].m)])
    case DropDone(c) => s.(calls := s.calls - {c}, pending := Plus(s, s.calls[c].m.log, -1))
    case Take => s.(consumer := Took(s.queue[0]), queue := s.queue[1..])
    case Open(ok) =>
      var m := s.consumer.m;
      if ok then s.(consumer := Opened(m), open := s.open + {m.log}) else s.(consumer := Finishing(m, false))
    case Write => s.(consumer := Finishing(s.consumer.m, true), output := s.output + [s.consumer.m])
    case Finish =>
      var m := s.consumer.m;
      s.(consumer := Idle, handled := s.handled + [Handled(m, s.consumer.wrote)], pending := Plus(s, m.log, -1))
    case WaitStart(w, l) => s.(waitStarted := s.waitStarted + {l}, waiters := s.waiters[w := Waiting(l, |s.sent|)])
    case WaitRelease(w) => s.(waiters := s.waiters[w := Released(s.waiters[w].log, s.waiters[w].mark)])
    case WaitEnd(w) => s.(waitStarted := s.waitStarted - {s.waiters[w].log}, waiters := s.waiters - {w})
  }

  const INITIAL := State({}, map[], [], map[], Idle, {}, [], map[], [], [])

  // ---------- What every run keeps ----------

  function Count(q: seq<Msg>, l: int): nat {
    if q == [] then 0 else (if q[0].log == l then 1 else 0) + Count(q[1..], l)
  }

  lemma {:induction false} CountAppend(q: seq<Msg>, m: Msg, l: int)
    ensures Count(q + [m], l) == Count(q, l) + if m.log == l then 1 else 0
  {
    if q != [] {
      CountAppend(q[1..], m, l);
      assert (q + [m])[1..] == q[1..] + [m];
    }
  }

  /** The message the goroutine has and has not yet reported as done. */
  function InHand(c: Consumer): seq<Msg> {
    if c.Idle? then [] else [c.m]
  }

  /** The print calls that have added to the counter and not yet handed the message over or given it up. */
  function Holding(calls: map<int, Call>, l: int): set<int> {
    set c | c in calls && !calls[c].Checked? && calls[c].m.log == l
  }

  /** The counter of every logger is what is queued, in hand, or between Add and send or drop. */
  ghost predicate CounterExact(s: State) {
    forall l :: Pending(s, l) == Count(s.queue, l) + Count(InHand(s.consumer), l) + |Holding(s.calls, l)|
  }

  function Messages(h: seq<Handled>): seq<Msg> {
    seq(|h|, i requires 0 <= i < |h| => h[i].m)
  }

  /** Nothing is lost or reordered between the channel and the goroutine. */
  ghost predicate InOrder(s: State) {
    s.sent == Messages(s.handled) + InHand(s.consumer) + s.queue && |s.queue| <= CAPACITY
  }

  function Written(h: seq<Handled>): seq<Msg> {
    if h == [] then []
    else Written(h[..|h| - 1]) + if h[|h| - 1].wrote then [h[|h| - 1].m] else []
  }

  /** The messages whose fate is decided: the handled ones, and the one that only waits for Done. */
  function Decided(s: State): seq<Handled> {
    s.handled + if s.consumer.Finishing? then [Handled(s.consumer.m, s.consumer.wrote)] else []
  }

  ghost predicate WrittenOpen(h: seq<Handled>, open: set<int>) {
    forall i :: 0 <= i < |h| && h[i].wrote ==> h[i].m.log in open
  }

  /** The output is what was written, in the order in which it was taken. Once a log file is open, every
      further message of its logger is written. */
  ghost predicate OutputExact(s: State) {
    && s.output == Written(Decided(s)) && WrittenOnwards(Decided(s)) && WrittenOpen(Decided(s), s.open)
    && (s.consumer.Opened? ==> s.consumer.m.log in s.open)
  }

  /** waitStarted of a logger is set exactly while one caller is in its wait. */
  ghost predicate OneWaiter(s: State) {
    && (forall w :: w in s.waiters ==> s.waiters[w].log in s.waitStarted)
    && (forall w, v :: w in s.waiters && v in s.waiters && s.waiters[w].log == s.waiters[v].log ==> w == v)
    && (forall l :: l in s.waitStarted ==> WaitedFor(s, l))
  }

  ghost predicate WaitedFor(s: State, l: int) {
    exists w :: w in s.waiters && s.waiters[w].log == l
  }

  /** What had been sent for logger l when `mark` messages had been sent is handled. */
  ghost predicate HandledUpTo(s: State, l: int, mark: nat) {
    forall i :: 0 <= i < mark && i < |s.sent| && s.sent[i].log == l ==> i < |s.handled|
  }

  ghost predicate WaitersRight(s: State) {
    forall w :: w in s.waiters ==>
      && s.waiters[w].mark <= |s.sent|
      && (s.waiters[w].Released? ==> HandledUpTo(s, s.waiters[w].log, s.waiters[w].mark))
  }

  ghost predicate Inv(s: State) {
    CounterExact(s) && InOrder(s) && OutputExact(s) && OneWaiter(s) && WaitersRight(s)
  }

  // ---------- Every step keeps it ----------

  lemma {:induction false} CounterKept(s: State, e: Event)
    requires CounterExact(s) && Enabled(s, e)
    ensures CounterExact(Apply(s, e))
  {
    var s' := Apply(s, e);
    forall l ensures Pending(s', l) == Count(s'.queue, l) + Count(InHand(s'.consumer), l) + |Holding(s'.calls, l)| {
      HoldingKept(s, e, l);
      MessagesKept(s, e, l);
      hide Holding, Count, InHand;
      assert Pending(s, l) == Count(s.queue, l) + Count(InHand(s.consumer), l) + |Holding(s.calls, l)|;
    }
  }

  /** Whether a print call counts for l. */
  function Holds(call: Call, l: int): nat {
    if !call.Checked? && call.m.log == l then 1 else 0
  }

  lemma {:induction false} HoldingUpdate(calls: map<int, Call>, c: int, call: Call, l: int)
    ensures |Holding(calls[c := call], l)| == |Holding(calls - {c}, l)| + Holds(call, l)
    ensures c in calls ==> |Holding(calls, l)| == |Holding(calls - {c}, l)| + Holds(calls[c], l)
    ensures c !in calls ==> calls - {c} == calls
  {
    hide Holding, Holds;
    var rest := calls - {c};
    HoldingMore(rest, c, call, l);
    assert calls[c := call] == rest[c := call];
    if c in calls {
      HoldingMore(rest, c, calls[c], l);
      assert calls == rest[c := calls[c]];
    }
  }

  lemma {:induction false} HoldingMore(calls: map<int, Call>, c: int, call: Call, l: int)
    requires c !in calls
    ensures |Holding(calls[c := call], l)| == |Holding(calls, l)| + Holds(call, l)
  {
    assert Holding(calls[c := call], l) == if Holds(call, l) == 1 then Holding(calls, l) + {c} else Holding(calls, l);
  }

  /** 1 for the logger of m, 0 for any other. */
  function Of(m: Msg, l: int): nat {
    if m.log == l then 1 else 0
  }

  /** How one step changes the number of print calls that hold the counter of l. */
  lemma {:induction false} HoldingKept(s: State, e: Event, l: int)
    requires Enabled(s, e)
    ensures var (before, after) := (|Holding(s.calls, l)|, |Holding(Apply(s, e).calls, l)|);
      match e
      case Add(c) => after == before + Of(s.calls[c].m, l)
      case Send(c) => before == after + Of(s.calls[c].m, l)
      case DropDone(c) => before == after + Of(s.calls[c].m, l)
      case _ => after == before
  {
    hide Holding;
    match e {
      case Check(c, m) => HoldingUpdate(s.calls, c, Checked(m), l);
      case Add(c) => HoldingUpdate(s.calls, c, Added(s.calls[c].m), l);
      case Full(c) => HoldingUpdate(s.calls, c, Dropping(s.calls[c].m), l);
      case Send(c) => HoldingUpdate(s.calls, c, s.calls[c], l);
      case DropDone(c) => HoldingUpdate(s.calls, c, s.calls[c], l);
      case _ =>
    }
  }

  /** How one step changes the number of messages of l in the channel and in hand. */
  lemma {:induction false} MessagesKept(s: State, e: Event, l: int)
    requires Enabled(s, e)
    ensures var s' := Apply(s, e);
      var (before, after) := (Count(s.queue, l) + Count(InHand(s.consumer), l), Count(s'.queue, l) + Count(InHand(s'.consumer), l));
      match e
      case Send(c) => after == before + Of(s.calls[c].m, l)
      case Finish => before == after + Of(s.consumer.m, l)
      case _ => after == before
  {
    match e {
      case Send(c) => CountAppend(s.queue, s.calls[c].m, l);
      case Take => CountOne(s.queue[0], l);
      case Finish => CountOne(s.consumer.m, l);
      case _ =>
    }
  }

  lemma {:induction false} CountOne(m: Msg, l: int)
    ensures Count([m], l) == Of(m, l) && Count([], l) == 0
  {
    CountAppend([], m, l);
    assert [] + [m] == [m];
  }

  lemma {:induction false} OrderKept(s: State, e: Event)
    requires InOrder(s) && Enabled(s, e)
    ensures InOrder(Apply(s, e))
    ensures |s.handled| <= |Apply(s, e).handled| && |s.sent| <= |Apply(s, e).sent|
    ensures Apply(s, e).sent[..|s.sent|] == s.sent
  {
    var s' := Apply(s, e);
    match e {
      case Send(c) =>
        assert s'.sent == Messages(s.handled) + InHand(s.consumer) + (s.queue + [s.calls[c].m]);
      case Take =>
        assert s.queue == [s.queue[0]] + s.queue[1..];
        assert s'.sent == Messages(s.handled) + ([] + [s.queue[0]]) + s.queue[1..];
      case Finish =>
        assert Messages(s'.handled) == Messages(s.handled) + [s.consumer.m];
        assert s'.sent == (Messages(s.handled) + [s.consumer.m]) + [] + s.queue;
      case _ =>
    }
  }

  lemma {:induction false} OutputKept(s: State, e: Event)
    requires OutputExact(s) && Enabled(s, e)
    ensures OutputExact(Apply(s, e))
  {
    DecidedStep(s, e);
    hide Decided, Written, WrittenOnwards, WrittenOpen;
    if e.Write? || e == Open(false) {
      var last := Handled(s.consumer.m, e.Write?);
      WrittenStep(Decided(s), last);
      OnwardsStep(Decided(s), last, s.open);
    } else if e == Open(true) {
      OpenMore(Decided(s), s.open, s.consumer.m.log);
    }
  }

  /** A message's fate is decided when its line is written or its file could not be opened. */
  lemma {:induction false} DecidedStep(s: State, e: Event)
    requires Enabled(s, e)
    ensures Decided(Apply(s, e)) ==
      if e.Write? || e == Open(false) then Decided(s) + [Handled(s.consumer.m, e.Write?)] else Decided(s)
  {
    match e {
      case Finish =>
      case Open(_) =>
      case Write =>
      case Take =>
      case _ =>
        assert Apply(s, e).handled == s.handled && Apply(s, e).consumer == s.consumer;
    }
  }

  lemma {:induction false} OnwardsStep(h: seq<Handled>, last: Handled, open: set<int>)
    requires WrittenOnwards(h) && WrittenOpen(h, open) && (last.wrote <==> last.m.log in open)
    ensures WrittenOnwards(h + [last]) && WrittenOpen(h + [last], open)
  {
    assert forall i :: 0 <= i < |h| ==> (h + [last])[i] == h[i];
  }

  lemma {:induction false} OpenMore(h: seq<Handled>, open: set<int>, l: int)
    requires WrittenOpen(h, open)
    ensures WrittenOpen(h, open + {l})
  {
  }

  lemma {:induction false} OneWaiterKept(s: State, e: Event)
    requires OneWaiter(s) && Enabled(s, e)
    ensures OneWaiter(Apply(s, e))
  {
    var s' := Apply(s, e);
    forall l | l in s'.waitStarted ensures WaitedFor(s', l) {
      if e.WaitStart? && e.log == l {
        assert s'.waiters[e.w].log == l;
      } else {
        assert WaitedFor(s, l);
        var w :| w in s.waiters && s.waiters[w].log == l;
        assert w in s'.waiters && s'.waiters[w].log == l;
      }
    }
    if e.WaitEnd? {
      assert forall v :: v in s'.waiters ==> s.waiters[v].log != s.waiters[e.w].log;
    }
  }

  lemma {:induction false} WaitersKept(s: State, e: Event)
    requires Inv(s) && Enabled(s, e)
    ensures WaitersRight(Apply(s, e))
  {
    var s' := Apply(s, e);
    OrderKept(s, e);
    forall w | w in s'.waiters
      ensures s'.waiters[w].mark <= |s'.sent|
      ensures s'.waiters[w].Released? ==> HandledUpTo(s', s'.waiters[w].log, s'.waiters[w].mark)
    {
      if e == WaitRelease(w) {
        ZeroMeansHandled(s, s.waiters[w].log);
      } else if w in s.waiters && s.waiters[w].Released? {
        assert forall i :: 0 <= i < |s.sent| ==> s'.sent[i] == s'.sent[..|s.sent|][i];
      }
    }
  }

  lemma {:induction false} CountNone(q: seq<Msg>, l: int, i: nat)
    requires i < |q| && q[i].log == l
    ensures Count(q, l) > 0
  {
    if i > 0 {
      CountNone(q[1..], l, i - 1);
    }
  }

  /** When the counter of a logger is 0, everything sent for it so far has been handled. */
  lemma {:induction false} ZeroMeansHandled(s: State, l: int)
    requires CounterExact(s) && InOrder(s) && Pending(s, l) == 0
    ensures HandledUpTo(s, l, |s.sent|)
  {
    var n := |s.handled|;
    forall i | 0 <= i < |s.sent| && s.sent[i].log == l ensures i < n {
      var hand := InHand(s.consumer);
      if n <= i < n + |hand| {
        CountNone(hand, l, i - n);
      } else if i >= n + |hand| {
        CountNone(s.queue, l, i - n - |hand|);
      }
    }
  }

  lemma {:induction false} StepKeepsInv(s: State, e: Event)
    requires Inv(s) && Enabled(s, e)
    ensures Inv(Apply(s, e))
  {
    CounterKept(s, e);
    OrderKept(s, e);
    OutputKept(s, e);
    OneWaiterKept(s, e);
    WaitersKept(s, e);
  }

  // ---------- Runs ----------

  /** A run from s, and where it ends. */
  ghost predicate Run(s: State, es: seq<Event>)
    decreases |es|
  {
    es != [] ==> Enabled(s, es[0]) && Run(Apply(s, es[0]), es[1..])
  }

  function End(s: State, es: seq<Event>): State
    requires Run(s, es)
    decreases |es|
  {
    if es == [] then s else End(Apply(s, es[0]), es[1..])
  }

  lemma {:induction false} RunKeepsInv(s: State, es: seq<Event>)
    requires Inv(s) && Run(s, es)
    ensures Inv(End(s, es))
    decreases |es|
  {
    if es != [] {
      StepKeepsInv(s, es[0]);
      RunKeepsInv(Apply(s, es[0]), es[1..]);
    }
  }

  lemma {:induction false} InitialInv()
    ensures Inv(INITIAL)
  {
  }

  /** In every interleaving, the counter is what is queued, in hand, or held by print calls. So Done, in its
      two places, never takes it below 0. */
  lemma {:induction false} CounterInEveryRun(es: seq<Event>, l: int)
    requires Run(INITIAL, es)
    ensures var s := End(INITIAL, es);
      Pending(s, l) == Count(s.queue, l) + Count(InHand(s.consumer), l) + |Holding(s.calls, l)|
      && Pending(s, l) >= 0
      && (s.consumer.Finishing? && s.consumer.m.log == l ==> Pending(s, l) >= 1)
      && (forall c :: c in s.calls && s.calls[c].Dropping? && s.calls[c].m.log == l ==> Pending(s, l) >= 1)
  {
    InitialInv();
    RunKeepsInv(INITIAL, es);
    var s := End(INITIAL, es);
    if s.consumer.Finishing? {
      CountOne(s.consumer.m, l);
    }
    forall c | c in s.calls && s.calls[c].Dropping? && s.calls[c].m.log == l ensures Pending(s, l) >= 1 {
      assert c in Holding(s.calls, l);
    }
  }

  /** The caller that set waitStarted returns only when every message of its logger that had been sent by
      then is handled; and only one caller per logger waits at a time. */
  lemma {:induction false} WaitInEveryRun(es: seq<Event>, w: int)
    requires Run(INITIAL, es) && Enabled(End(INITIAL, es), WaitEnd(w))
    ensures var s := End(INITIAL, es); var (l, mark) := (s.waiters[w].log, s.waiters[w].mark);
      mark <= |s.sent| && (forall i :: 0 <= i < mark && s.sent[i].log == l ==> i < |s.handled| && s.handled[i].m == s.sent[i])
      && (forall v :: v in s.waiters && s.waiters[v].log == l ==> v == w)
  {
    InitialInv();
    RunKeepsInv(INITIAL, es);
    var s := End(INITIAL, es);
    var (l, mark) := (s.waiters[w].log, s.waiters[w].mark);
    assert HandledUpTo(s, l, mark);
    forall i | 0 <= i < mark && s.sent[i].log == l ensures i < |s.handled| && s.handled[i].m == s.sent[i] {
      assert s.sent[i] == Messages(s.handled)[i];
    }
  }

  /** The mark of a waiter is what had been sent when it set waitStarted. */
  lemma {:induction false} MarkIsStart(s: State, w: int, l: int, es: seq<Event>)
    requires Enabled(s, WaitStart(w, l)) && Run(Apply(s, WaitStart(w, l)), es)
    requires forall i :: 0 <= i < |es| ==> es[i] != WaitEnd(w)
    ensures var s' := End(Apply(s, WaitStart(w, l)), es);
      w in s'.waiters && s'.waiters[w].log == l && s'.waiters[w].mark == |s.sent|
  {
    MarkKept(Apply(s, WaitStart(w, l)), w, es);
  }

  lemma {:induction false} MarkKept(s: State, w: int, es: seq<Event>)
    requires w in s.waiters && Run(s, es)
    requires forall i :: 0 <= i < |es| ==> es[i] != WaitEnd(w)
    ensures var s' := End(s, es);
      w in s'.waiters && s'.waiters[w].log == s.waiters[w].log && s'.waiters[w].mark == s.waiters[w].mark
    decreases |es|
  {
    if es != [] {
      assert es[0] != WaitEnd(w);
      MarkKept(Apply(s, es[0]), w, es[1..]);
    }
  }

  function OfLog(ms: seq<Msg>, l: int): seq<Msg> {
    if ms == [] then [] else OfLog(ms[..|ms| - 1], l) + if ms[|ms| - 1].log == l then [ms[|ms| - 1]] else []
  }

  lemma {:induction false} OfLogAppend(ms: seq<Msg>, m: Msg, l: int)
    ensures OfLog(ms + [m], l) == OfLog(ms, l) + if m.log == l then [m] else []
  {
    assert (ms + [m])[..|ms|] == ms;
  }

  ghost predicate NoneWritten(h: seq<Handled>, l: int) {
    forall i :: 0 <= i < |h| && h[i].m.log == l ==> !h[i].wrote
  }

  /** Once a message of a logger is written, the later ones are too. */
  ghost predicate WrittenOnwards(h: seq<Handled>) {
    forall i, j :: (0 <= i < j < |h| && h[i].wrote && h[i].m.log == h[j].m.log ==> h[j].wrote)
  }

  /** How many messages of a logger were skipped. */
  function Skipped(h: seq<Handled>, l: int): nat {
    if h == [] then 0
    else Skipped(h[..|h| - 1], l) + if h[|h| - 1].m.log == l && !h[|h| - 1].wrote then 1 else 0
  }

  lemma {:induction false} SkippedStep(h: seq<Handled>, last: Handled, l: int)
    ensures Skipped(h + [last], l) == Skipped(h, l) + if last.m.log == l && !last.wrote then 1 else 0
  {
    assert (h + [last])[..|h|] == h;
  }

  /** The lines of a logger are its messages in the order in which they were sent, without those that were
      skipped because its file could not be opened; and those all came first. */
  lemma {:induction false} LinesInOrder(h: seq<Handled>, l: int)
    requires WrittenOnwards(h)
    ensures var n := Skipped(h, l);
      n <= |OfLog(Messages(h), l)| && OfLog(Written(h), l) == OfLog(Messages(h), l)[n..]
      && (NoneWritten(h, l) ==> n == |OfLog(Messages(h), l)|)
  {
    if h != [] {
      var k := |h| - 1;
      var (front, last) := (h[..k], h[k]);
      assert h == front + [last];
      LinesInOrder(front, l);
      OneMore(front, last, l, Skipped(front, l));
    }
  }

  lemma {:induction false} OneMore(front: seq<Handled>, last: Handled, l: int, n: nat)
    requires WrittenOnwards(front + [last])
    requires n <= |OfLog(Messages(front), l)| && OfLog(Written(front), l) == OfLog(Messages(front), l)[n..]
    requires NoneWritten(front, l) ==> n == |OfLog(Messages(front), l)|
    ensures var h := front + [last];
      var x := OfLog(Messages(h), l);
      var n' := if last.m.log == l && !last.wrote then n + 1 else n;
      n' <= |x| && OfLog(Written(h), l) == x[n'..] && (NoneWritten(h, l) ==> n' == |x|)
  {
    var h := front + [last];
    assert Messages(h) == Messages(front) + [last.m];
    WrittenStep(front, last);
    OfLogAppend(Messages(front), last.m, l);
    OfLogAppend(Written(front), last.m, l);
    NoneStep(front, last, l);
    hide OfLog, Messages, Written, NoneWritten, WrittenOnwards;
    LinesStep(OfLog(Messages(front), l), OfLog(Written(front), l), last.m, last.m.log == l, last.wrote, n);
    if last.m.log == l && last.wrote {
      LastWritten(h, l);
    }
  }

  lemma {:induction false} NoneStep(front: seq<Handled>, last: Handled, l: int)
    requires WrittenOnwards(front + [last])
    ensures NoneWritten(front + [last], l) ==> NoneWritten(front, l)
    ensures last.m.log == l && !last.wrote ==> NoneWritten(front, l)
  {
    var h := front + [last];
    assert h[|front|] == last && forall i :: 0 <= i < |front| ==> h[i] == front[i];
  }

  lemma {:induction false} LastWritten(h: seq<Handled>, l: int)
    requires h != [] && h[|h| - 1].m.log == l && h[|h| - 1].wrote
    ensures !NoneWritten(h, l)
  {
  }

  lemma {:induction false} WrittenStep(front: seq<Handled>, last: Handled)
    ensures Written(front + [last]) == if last.wrote then Written(front) + [last.m] else Written(front)
  {
    assert (front + [last])[..|front|] == front;
    assert Written(front) + [] == Written(front);
  }

  lemma {:induction false} LinesStep(x: seq<Msg>, y: seq<Msg>, m: Msg, mine: bool, wrote: bool, n: nat)
    requires n <= |x| && y == x[n..] && (mine && !wrote ==> n == |x|)
    ensures var x' := x + if mine then [m] else [];
      var y' := y + if mine && wrote then [m] else [];
      var n' := if mine && !wrote then n + 1 else n;
      n' <= |x'| && y' == x'[n'..] && (mine && !wrote ==> n' == |x'|) && (!mine && n == |x| ==> n' == |x'|)
      && y + [] == y
  {
  }

  /** How often, in a run from s, the goroutine failed to open the file of l for a message. */
  function FailedOpens(s: State, es: seq<Event>, l: int): nat
    requires Run(s, es)
    decreases |es|
  {
    if es == [] then 0
    else (if es[0] == Open(false) && s.consumer.m.log == l then 1 else 0) + FailedOpens(Apply(s, es[0]), es[1..], l)
  }

  /** Each failure to open a file skips one message. */
  lemma {:induction false} SkippedInRun(s: State, es: seq<Event>, l: int)
    requires Run(s, es)
    ensures Skipped(Decided(End(s, es)), l) == Skipped(Decided(s), l) + FailedOpens(s, es, l)
    decreases |es|
  {
    if es != [] {
      DecidedStep(s, es[0]);
      if es[0].Write? || es[0] == Open(false) {
        SkippedStep(Decided(s), Handled(s.consumer.m, es[0].Write?), l);
      }
      hide Decided, Skipped, Apply;
      SkippedInRun(Apply(s, es[0]), es[1..], l);
    }
  }

  /** The decided messages are the first ones that were sent: all but the one in hand and the queued ones. */
  lemma {:induction false} DecidedFirst(s: State)
    requires InOrder(s)
    ensures |Decided(s)| == |s.sent| - |s.queue| - if s.consumer.Took? || s.consumer.Opened? then 1 else 0
    ensures s.sent[..|Decided(s)|] == Messages(Decided(s))
  {
    assert Messages(Decided(s)) == Messages(s.handled) + if s.consumer.Finishing? then [s.consumer.m] else [];
  }

  lemma {:induction false} NoneSkipped(l: int)
    ensures Skipped(Decided(INITIAL), l) == 0
  {
  }

  /** In every interleaving and at every moment, each logger's lines are the messages that were sent for it,
      in that order, up to those that are queued or in hand. Only the first ones can be missing: as many as
      there were failures to open its file. */
  lemma {:induction false} OutputInEveryRun(es: seq<Event>, l: int)
    requires Run(INITIAL, es)
    ensures var s := End(INITIAL, es);
      var k := |s.sent| - |s.queue| - if s.consumer.Took? || s.consumer.Opened? then 1 else 0;
      0 <= k <= |s.sent|
      && var mine, n := OfLog(s.sent[..k], l), FailedOpens(INITIAL, es, l);
        n <= |mine| && OfLog(s.output, l) == mine[n..]
  {
    InitialInv();
    RunKeepsInv(INITIAL, es);
    var s := End(INITIAL, es);
    assert InOrder(s) && s.output == Written(Decided(s)) && WrittenOnwards(Decided(s));
    NoneSkipped(l);
    hide *;
    SkippedInRun(INITIAL, es, l);
    DecidedFirst(s);
    LinesInOrder(Decided(s), l);
  }

  // ---------- What becomes of a print call ----------

  lemma {:induction false} RunPrefix(s: State, es: seq<Event>, i: nat)
    requires Run(s, es) && i <= |es|
    ensures Run(s, es[..i]) && Run(End(s, es[..i]), es[i..]) && End(End(s, es[..i]), es[i..]) == End(s, es)
    decreases i
  {
    if i == 0 {
      assert es[0..] == es;
    } else {
      RunPrefix(Apply(s, es[0]), es[1..], i - 1);
      assert es[..i][1..] == es[1..][..i - 1] && es[1..][i - 1..] == es[i..];
    }
  }

  /** A print call does not block: it hands its message over exactly if fewer than 10000 are waiting, and gives
      it up exactly if 10000 are. */
  lemma {:induction false} SendOrDrop(es: seq<Event>, c: int)
    requires Run(INITIAL, es)
    ensures var s := End(INITIAL, es); var added := c in s.calls && s.calls[c].Added?;
      && (Run(s, [Send(c)]) <==> added && |s.queue| < 10000)
      && (Run(s, [Full(c)]) <==> added && |s.queue| == 10000)
      && |s.queue| <= 10000
  {
    InitialInv();
    RunKeepsInv(INITIAL, es);
    var s := End(INITIAL, es);
    hide Inv;
    RunOne(s, Send(c));
    RunOne(s, Full(c));
  }

  /** A print call passes the check, and a caller of Wait sets waitStarted, exactly if no caller of Wait waits
      for that logger. */
  lemma {:induction false} ComesIn(es: seq<Event>, c: int, m: Msg, w: int, l: int)
    requires Run(INITIAL, es)
    ensures var s := End(INITIAL, es);
      && (Run(s, [Check(c, m)]) <==> c !in s.calls && !WaitedFor(s, m.log))
      && (Run(s, [WaitStart(w, l)]) <==> w !in s.waiters && !WaitedFor(s, l))
  {
    InitialInv();
    RunKeepsInv(INITIAL, es);
    hide *;
    ComesInNow(End(INITIAL, es), c, m, w, l);
  }

  lemma {:induction false} ComesInNow(s: State, c: int, m: Msg, w: int, l: int)
    requires Inv(s)
    ensures Run(s, [Check(c, m)]) <==> c !in s.calls && !WaitedFor(s, m.log)
    ensures Run(s, [WaitStart(w, l)]) <==> w !in s.waiters && !WaitedFor(s, l)
  {
    assert OneWaiter(s);
    hide Inv, Run, Apply;
    RunOne(s, Check(c, m));
    RunOne(s, WaitStart(w, l));
  }

  /** The goroutine is never stuck: it takes a message if there is one, opens its file, which may fail if it is
      not open yet, writes the line, and finishes. */
  lemma {:induction false} GoroutineNext(es: seq<Event>)
    requires Run(INITIAL, es)
    ensures var s := End(INITIAL, es);
      match s.consumer
      case Idle => Run(s, [Take]) <==> s.queue != []
      case Took(m) => Run(s, [Open(true)]) && (Run(s, [Open(false)]) <==> m.log !in s.open)
      case Opened(_) => Run(s, [Write])
      case Finishing(_, _) => Run(s, [Finish])
  {
    var s := End(INITIAL, es);
    hide Apply;
    RunOne(s, Take);
    RunOne(s, Open(true));
    RunOne(s, Open(false));
    RunOne(s, Write);
    RunOne(s, Finish);
  }

  lemma {:induction false} RunOne(s: State, e: Event)
    ensures Run(s, [e]) <==> Enabled(s, e)
  {
    hide Enabled;
    assert [e][1..] == [];
  }

  /** Messages of any kind. */
  ghost predicate Any(m: Msg) {
    true
  }

  /** How many of the messages that were checked, were sent, or were given up because the channel was full,
      are of some kind. */
  ghost function Asked(es: seq<Event>, p: Msg -> bool): nat {
    if es == [] then 0 else (if es[0].Check? && p(es[0].m) then 1 else 0) + Asked(es[1..], p)
  }

  ghost function Among(q: seq<Msg>, p: Msg -> bool): nat {
    if q == [] then 0 else Among(q[..|q| - 1], p) + if p(q[|q| - 1]) then 1 else 0
  }

  ghost function GivenUp(s: State, es: seq<Event>, p: Msg -> bool): nat
    requires Run(s, es)
    decreases |es|
  {
    if es == [] then 0
    else (if es[0].Full? && p(s.calls[es[0].c].m) then 1 else 0) + GivenUp(Apply(s, es[0]), es[1..], p)
  }

  /** The print calls that still have a message of this kind to send. */
  ghost function Live(calls: map<int, Call>, p: Msg -> bool): set<int> {
    set c | c in calls && !calls[c].Dropping? && p(calls[c].m)
  }

  ghost function Counts(call: Call, p: Msg -> bool): nat {
    if !call.Dropping? && p(call.m) then 1 else 0
  }

  lemma {:induction false} LiveUpdate(calls: map<int, Call>, c: int, call: Call, p: Msg -> bool)
    ensures |Live(calls[c := call], p)| == |Live(calls - {c}, p)| + Counts(call, p)
    ensures c in calls ==> |Live(calls, p)| == |Live(calls - {c}, p)| + Counts(calls[c], p)
    ensures c !in calls ==> calls - {c} == calls
  {
    hide Live, Counts;
    var rest := calls - {c};
    LiveMore(rest, c, call, p);
    assert calls[c := call] == rest[c := call];
    if c in calls {
      LiveMore(rest, c, calls[c], p);
      assert calls == rest[c := calls[c]];
    }
  }

  lemma {:induction false} LiveMore(calls: map<int, Call>, c: int, call: Call, p: Msg -> bool)
    requires c !in calls
    ensures |Live(calls[c := call], p)| == |Live(calls, p)| + Counts(call, p)
  {
    assert Live(calls[c := call], p) == if Counts(call, p) == 1 then Live(calls, p) + {c} else Live(calls, p);
  }

  lemma {:induction false} AmongStep(q: seq<Msg>, m: Msg, p: Msg -> bool)
    ensures Among(q + [m], p) == Among(q, p) + if p(m) then 1 else 0
  {
    assert (q + [m])[..|q|] == q;
  }

  lemma {:induction false} AccountedStep(s: State, e: Event, p: Msg -> bool)
    requires Enabled(s, e)
    ensures var s' := Apply(s, e);
      Among(s'.sent, p) + |Live(s'.calls, p)| + (if e.Full? && p(s.calls[e.c].m) then 1 else 0)
      == Among(s.sent, p) + |Live(s.calls, p)| + if e.Check? && p(e.m) then 1 else 0
  {
    hide Live, Among;
    match e {
      case Check(c, m) => LiveUpdate(s.calls, c, Checked(m), p);
      case Add(c) => LiveUpdate(s.calls, c, Added(s.calls[c].m), p);
      case Full(c) => LiveUpdate(s.calls, c, Dropping(s.calls[c].m), p);
      case Send(c) =>
        LiveUpdate(s.calls, c, s.calls[c], p);
        AmongStep(s.sent, s.calls[c].m, p);
      case DropDone(c) => LiveUpdate(s.calls, c, s.calls[c], p);
      case _ =>
    }
  }

  lemma {:induction false} AccountedFrom(s: State, es: seq<Event>, p: Msg -> bool)
    requires Run(s, es)
    ensures var s' := End(s, es);
      Among(s'.sent, p) + |Live(s'.calls, p)| + GivenUp(s, es, p) == Among(s.sent, p) + |Live(s.calls, p)| + Asked(es, p)
    decreases |es|
  {
    if es != [] {
      AccountedStep(s, es[0], p);
      hide Among, Live, Apply, Enabled;
      AccountedFrom(Apply(s, es[0]), es[1..], p);
    }
  }

  /** In every interleaving, every message that passed the check of waitStarted has been sent, is still in its
      print call, or was given up because the channel was full. */
  lemma {:induction false} EveryMessageAccounted(es: seq<Event>, p: Msg -> bool)
    requires Run(INITIAL, es)
    ensures var s := End(INITIAL, es);
      Asked(es, p) == Among(s.sent, p) + |Live(s.calls, p)| + GivenUp(INITIAL, es, p)
  {
    AccountedFrom(INITIAL, es, p);
    assert Among(INITIAL.sent, p) == 0 && Live(INITIAL.calls, p) == {};
  }

  /** The channel is full when a message is given up, and the message is one more. */
  lemma {:induction false} FullWhenFull(es: seq<Event>, i: nat)
    requires Run(INITIAL, es) && i < |es| && es[i].Full?
    ensures Run(INITIAL, es[..i]) && |End(INITIAL, es[..i]).queue| == 10000 && Asked(es, Any) > 10000
  {
    RunPrefix(INITIAL, es, i);
    assert es[i..][0] == es[i];
    var before := es[..i];
    InitialInv();
    RunKeepsInv(INITIAL, before);
    FullNow(End(INITIAL, before), es[i].c);
    hide *;
    EveryMessageAccounted(before, Any);
    AskedPrefix(es, i, Any);
  }

  lemma {:induction false} FullNow(s: State, c: int)
    requires InOrder(s) && Enabled(s, Full(c))
    ensures |s.queue| == 10000 && Among(s.sent, Any) >= 10000 && |Live(s.calls, Any)| >= 1
  {
    AmongAll(s.sent);
    assert c in Live(s.calls, Any);
    assert |s.sent| >= |s.queue|;
  }

  lemma {:induction false} AmongAll(q: seq<Msg>)
    ensures Among(q, Any) == |q|
  {
    if q != [] {
      AmongAll(q[..|q| - 1]);
    }
  }

  lemma {:induction false} AskedPrefix(es: seq<Event>, i: nat, p: Msg -> bool)
    requires i <= |es|
    ensures Asked(es[..i], p) <= Asked(es, p)
    decreases i
  {
    if i > 0 {
      AskedPrefix(es[1..], i - 1, p);
      assert es[..i][1..] == es[1..][..i - 1];
    }
  }

  /** With at most 10000 messages, none is given up: each is sent or still in its print call. */
  lemma {:induction false} NothingDropped(es: seq<Event>)
    requires Run(INITIAL, es) && Asked(es, Any) <= 10000
    ensures forall i :: 0 <= i < |es| ==> !es[i].Full?
    ensures var s := End(INITIAL, es);
      forall p :: Asked(es, p) == Among(s.sent, p) + |Live(s.calls, p)|
  {
    forall i | 0 <= i < |es| ensures !es[i].Full? {
      if es[i].Full? {
        FullWhenFull(es, i);
      }
    }
    forall p ensures Asked(es, p) == Among(End(INITIAL, es).sent, p) + |Live(End(INITIAL, es).calls, p)| {
      EveryMessageAccounted(es, p);
      NoneGivenUp(INITIAL, es, p);
    }
  }

  lemma {:induction false} NoneGivenUp(s: State, es: seq<Event>, p: Msg -> bool)
    requires Run(s, es) && forall i :: 0 <= i < |es| ==> !es[i].Full?
    ensures GivenUp(s, es, p) == 0
    decreases |es|
  {
    if es != [] {
      assert forall i :: 0 <= i < |es| - 1 ==> es[1..][i] == es[i + 1];
      NoneGivenUp(Apply(s, es[0]), es[1..], p);
    }
  }

  lemma {:induction false} WaitingAt(es: seq<Event>, i: nat, w: int, l: int)
    requires Run(INITIAL, es) && i < |es| && es[i] == WaitStart(w, l)
    requires forall j :: i < j < |es| ==> es[j] != WaitEnd(w)
    ensures w in End(INITIAL, es).waiters && End(INITIAL, es).waiters[w].log == l
  {
    RunPrefix(INITIAL, es, i);
    var s, mid := End(INITIAL, es[..i]), es[i + 1..];
    assert es[i..][0] == es[i] && es[i..][1..] == mid;
    MarkIsStart(s, w, l, mid);
  }

  /** From the moment a caller of Wait has set waitStarted until it clears it, no print call of that logger
      passes the check. */
  lemma {:induction false} NoCheckWhileWaiting(es: seq<Event>, i: nat, k: nat, w: int, l: int)
    requires Run(INITIAL, es) && i < k < |es| && es[i] == WaitStart(w, l)
    requires forall j :: i < j < k ==> es[j] != WaitEnd(w)
    ensures es[k].Check? ==> es[k].m.log != l
  {
    RunPrefix(INITIAL, es, k);
    var before := es[..k];
    WaitingAt(before, i, w, l);
    InitialInv();
    RunKeepsInv(INITIAL, before);
    assert es[k..][0] == es[k];
    hide End, CounterExact, InOrder, OutputExact, WaitersRight;
  }

  // ---------- Wait can return ----------

  /** The goroutine waits for a message, and there is none and no print call is under way. */
  predicate Quiet(s: State) {
    s.calls == map[] && s.queue == [] && s.consumer.Idle?
  }

  /** Neither a print call nor a caller of Wait comes anew. */
  predicate Onwards(es: seq<Event>) {
    forall i :: 0 <= i < |es| ==> !es[i].Check? && !es[i].WaitStart?
  }

  /** How many steps the goroutine has ahead of it, at most. */
  function Work(s: State): nat {
    4 * |s.queue| + match s.consumer case Idle => 0 case Finishing(_, _) => 1 case Opened(_) => 2 case Took(_) => 3
  }

  lemma {:induction false} RunAppend(s: State, a: seq<Event>, b: seq<Event>)
    requires Run(s, a) && Run(End(s, a), b)
    ensures Run(s, a + b) && End(s, a + b) == End(End(s, a), b)
    decreases |a|
  {
    if a == [] {
      assert a + b == b;
    } else {
      RunAppend(Apply(s, a[0]), a[1..], b);
      assert (a + b)[1..] == a[1..] + b;
    }
  }

  lemma {:induction false} OneStep(s: State, e: Event)
    requires Inv(s) && Enabled(s, e)
    ensures Run(s, [e]) && End(s, [e]) == Apply(s, e) && Inv(Apply(s, e))
  {
    StepKeepsInv(s, e);
    hide Enabled, Apply;
    assert [e][1..] == [];
  }

  /** One step of the goroutine, if it has anything to do. */
  lemma {:induction false} GoroutineStep(s: State) returns (e: Event)
    requires Inv(s) && (!s.consumer.Idle? || s.queue != [])
    ensures Run(s, [e]) && Onwards([e])
    ensures var s' := End(s, [e]); Inv(s') && s'.waiters == s.waiters && s'.calls == s.calls && Work(s') < Work(s)
  {
    e := GoroutineEvent(s);
    hide *;
    OneStep(s, e);
  }

  lemma {:induction false} GoroutineEvent(s: State) returns (e: Event)
    requires !s.consumer.Idle? || s.queue != []
    ensures Enabled(s, e) && Onwards([e])
    ensures var s' := Apply(s, e); s'.waiters == s.waiters && s'.calls == s.calls && Work(s') < Work(s)
  {
    e := match s.consumer case Idle => Take case Took(_) => Open(true) case Opened(_) => Write case Finishing(_, _) => Finish;
  }

  /** A print call that is under way, when no message is waiting. */
  lemma {:induction false} CallSteps(s: State, c: int) returns (es: seq<Event>)
    requires Inv(s) && c in s.calls && s.queue == []
    ensures Run(s, es) && Onwards(es)
    ensures var s' := End(s, es); Inv(s') && s'.waiters == s.waiters && |s'.calls| < |s.calls|
  {
    FewerCalls(s.calls, c);
    if s.calls[c].Checked? {
      AddThenSend(s, c);
      es := [Add(c), Send(c)];
    } else {
      var e := LastEvent(s, c);
      hide *;
      OneStep(s, e);
      es := [e];
    }
  }

  lemma {:induction false} LastEvent(s: State, c: int) returns (e: Event)
    requires c in s.calls && !s.calls[c].Checked? && s.queue == []
    ensures Enabled(s, e) && Onwards([e])
    ensures Apply(s, e).waiters == s.waiters && Apply(s, e).calls == s.calls - {c}
  {
    e := if s.calls[c].Added? then Send(c) else DropDone(c);
  }

  lemma {:induction false} FewerCalls(calls: map<int, Call>, c: int)
    requires c in calls
    ensures |calls - {c}| < |calls|
  {
    assert calls == (calls - {c})[c := calls[c]];
  }

  lemma {:induction false} AddThenSend(s: State, c: int)
    requires Inv(s) && Enabled(s, Add(c)) && s.queue == []
    ensures var es := [Add(c), Send(c)];
      Run(s, es) && var s' := End(s, es); Inv(s') && s'.waiters == s.waiters && s'.calls == s.calls - {c}
  {
    var s1 := Apply(s, Add(c));
    AddSendEffect(s, c);
    hide Inv, Enabled, Apply;
    OneStep(s, Add(c));
    OneStep(s1, Send(c));
    hide Run, End;
    RunAppend(s, [Add(c)], [Send(c)]);
    assert [Add(c)] + [Send(c)] == [Add(c), Send(c)];
  }

  lemma {:induction false} AddSendEffect(s: State, c: int)
    requires Enabled(s, Add(c)) && s.queue == []
    ensures var s1 := Apply(s, Add(c));
      Enabled(s1, Send(c)) && Apply(s1, Send(c)).waiters == s.waiters && Apply(s1, Send(c)).calls == s.calls - {c}
  {
    var s1 := Apply(s, Add(c));
    assert s1.calls - {c} == s.calls - {c};
  }

  lemma {:induction false} SomeCall(calls: map<int, Call>)
    requires calls != map[]
    ensures exists c :: c in calls
  {
    assert (forall c :: c !in calls) ==> calls == map[];
  }

  lemma {:induction false} NextSteps(s: State) returns (es: seq<Event>)
    requires Inv(s) && !Quiet(s)
    ensures Run(s, es) && Onwards(es)
    ensures var s' := End(s, es);
      Inv(s') && s'.waiters == s.waiters && (|s'.calls| < |s.calls| || (s'.calls == s.calls && Work(s') < Work(s)))
  {
    if !s.consumer.Idle? || s.queue != [] {
      hide Inv, Run, End, Work;
      var e := GoroutineStep(s);
      es := [e];
    } else {
      SomeCall(s.calls);
      var c :| c in s.calls;
      hide Inv, Run, End, Work;
      es := CallSteps(s, c);
    }
  }

  /** Whatever has happened, the goroutine and the print calls that are under way can finish. */
  lemma {:induction false} CanFinish(s: State) returns (es: seq<Event>)
    requires Inv(s)
    ensures Run(s, es) && Onwards(es) && Quiet(End(s, es)) && End(s, es).waiters == s.waiters && Inv(End(s, es))
    decreases |s.calls|, Work(s)
  {
    if Quiet(s) {
      return [];
    }
    hide *;
    var first := NextSteps(s);
    var rest := CanFinish(End(s, first));
    RunAppend(s, first, rest);
    OnwardsBoth(first, rest);
    es := first + rest;
  }

  lemma {:induction false} OnwardsBoth(a: seq<Event>, b: seq<Event>)
    requires Onwards(a) && Onwards(b)
    ensures Onwards(a + b)
  {
  }

  /** A caller of Wait can always return, without anything new having to come. */
  lemma {:induction false} WaitCanReturn(es: seq<Event>, w: int) returns (more: seq<Event>)
    requires Run(INITIAL, es) && w in End(INITIAL, es).waiters
    ensures Run(INITIAL, es + more) && Onwards(more) && w !in End(INITIAL, es + more).waiters
  {
    InitialInv();
    RunKeepsInv(INITIAL, es);
    var s := End(INITIAL, es);
    var quiet := CanFinish(s);
    var last := Returns(End(s, quiet), w);
    hide *;
    RunAppend(s, quiet, last);
    OnwardsBoth(quiet, last);
    more := quiet + last;
    RunAppend(INITIAL, es, more);
  }

  lemma {:induction false} Returns(s: State, w: int) returns (es: seq<Event>)
    requires Inv(s) && Quiet(s) && w in s.waiters
    ensures Run(s, es) && Onwards(es) && w !in End(s, es).waiters
  {
    if s.waiters[w].Released? {
      OneStep(s, WaitEnd(w));
      es := [WaitEnd(w)];
    } else {
      QuietMeansZero(s, s.waiters[w].log);
      ReleaseAndEnd(s, w);
      es := [WaitRelease(w), WaitEnd(w)];
    }
    hide Inv, Run, End;
  }

  lemma {:induction false} ReleaseAndEnd(s: State, w: int)
    requires Inv(s) && w in s.waiters && s.waiters[w].Waiting? && Pending(s, s.waiters[w].log) == 0
    ensures var es := [WaitRelease(w), WaitEnd(w)]; Run(s, es) && w !in End(s, es).waiters
  {
    ReleaseEffect(s, w);
    hide *;
    OneStep(s, WaitRelease(w));
    var s1 := Apply(s, WaitRelease(w));
    OneStep(s1, WaitEnd(w));
    RunAppend(s, [WaitRelease(w)], [WaitEnd(w)]);
    assert [WaitRelease(w)] + [WaitEnd(w)] == [WaitRelease(w), WaitEnd(w)];
  }

  lemma {:induction false} QuietMeansZero(s: State, l: int)
    requires Inv(s) && Quiet(s)
    ensures Pending(s, l) == 0
  {
    assert Holding(s.calls, l) == {};
    hide InOrder, OutputExact, OneWaiter, WaitersRight;
  }

  lemma {:induction false} ReleaseEffect(s: State, w: int)
    requires w in s.waiters && s.waiters[w].Waiting? && Pending(s, s.waiters[w].log) == 0
    ensures Enabled(s, WaitRelease(w)) && var s1 := Apply(s, WaitRelease(w));
      Enabled(s1, WaitEnd(w)) && w !in Apply(s1, WaitEnd(w)).waiters
  {
  }
}

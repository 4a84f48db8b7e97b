/** The thread pool as a step system. Each section that runs under a mutex is one atomic
    step; a task is opaque: while it runs it may submit, wait, return or throw. A thread has
    a stack of frames, because a task may wait and thereby run other tasks. The last five
    fields of the state are history: they record what happened and steer nothing. A task is
    named by its submission, so no name is submitted twice. */
module ThreadPool {
  import opened Wrappers

  datatype Entry = Entry(task: nat, waiter: Option<nat>, leaf: bool)

  /** Where a popped entry is: in its function, thrown with the error not yet set, past the
      handler, past the waiter's decrement. */
  datatype Phase = Running | Threw | Ended | Counted

  /** Worker: in run(false). Inline: in a task that submit() runs itself. Waiting: in wait(),
      first in run(true), then on the condition. */
  datatype Frame =
    | Worker
    | Job(entry: Entry, phase: Phase)
    | Inline(entry: Entry)
    | Waiting(waiter: nat, flushing: bool)

  datatype Thread = Thread(stack: seq<Frame>, isLeaf: bool)

  datatype Waiter = Waiter(num: int, error: bool)

  datatype State = State(
    queue: seq<Entry>,
    active: int,
    max: nat,
    running: bool,
    waiters: map<nat, Waiter>,
    threads: map<nat, Thread>,
    submitted: map<nat, Option<nat>>,
    started: set<nat>,
    finished: set<nat>,
    threw: set<nat>,
    reported: set<nat>)

  datatype Action =
    | NewWaiter(w: nat)
    | Submit(t: nat, task: nat, wo: Option<nat>, leaf: bool)
    | Pop(t: nat)
    | LeaveLoop(t: nat)
    | Return(t: nat)
    | Throw(t: nat)
    | SetError(t: nat)
    | Decrement(t: nat)
    | Release(t: nat)
    | CallWait(t: nat, w: nat)
    | WaitReturn(t: nat)
    | Stop
    | Create(max': nat, workers: set<nat>)

  function Top(s: State, t: nat): Option<Frame> {
    if t in s.threads && s.threads[t].stack != [] then Some(s.threads[t].stack[|s.threads[t].stack| - 1]) else None
  }

  predicate InLoop(f: Frame) {
    f.Worker? || (f.Waiting? && f.flushing)
  }

  /** The thread executes code outside the pool: its own, or a task's. */
  predicate InUserCode(s: State, t: nat) {
    t in s.threads &&
    match Top(s, t)
    case None => true
    case Some(Job(_, phase)) => phase.Running?
    case Some(Inline(_)) => true
    case _ => false
  }

  /** The thread-local counter: calls of task functions that have not ended. */
  function Depth(stack: seq<Frame>): nat {
    if stack == [] then 0
    else
      var f := stack[|stack| - 1];
      Depth(stack[..|stack| - 1]) +
      if f.Inline? || (f.Job? && (f.phase.Running? || f.phase.Threw?)) then 1 else 0
  }

  /** All threads are busy and work is queued, or the caller is itself a task. */
  predicate RunsInline(s: State, t: nat, leaf: bool)
    requires t in s.threads
  {
    !leaf && ((s.active == s.max && s.queue != []) || Depth(s.threads[t].stack) > 0)
  }

  predicate JobIn(s: State, t: nat, phase: Phase) {
    var f := Top(s, t);
    f.Some? && f.value.Job? && f.value.phase == phase
  }

  predicate Enabled(s: State, a: Action) {
    match a
    case NewWaiter(w) => w !in s.waiters
    case Submit(t, task, wo, leaf) =>
      && InUserCode(s, t) && !s.threads[t].isLeaf
      && task !in s.submitted && (wo.Some? ==> wo.value in s.waiters)
    case Pop(t) => Top(s, t).Some? && InLoop(Top(s, t).value) && s.running && s.queue != []
    case LeaveLoop(t) =>
      && Top(s, t).Some? && InLoop(Top(s, t).value)
      && (!s.running || (s.queue == [] && Top(s, t).value.Waiting?))
    case Return(t) => Top(s, t).Some? && (JobIn(s, t, Running) || Top(s, t).value.Inline?)
    case Throw(t) => JobIn(s, t, Running) && Top(s, t).value.entry.waiter.Some?
    case SetError(t) => JobIn(s, t, Threw)
    case Decrement(t) => JobIn(s, t, Ended)
    case Release(t) => JobIn(s, t, Counted)
    case CallWait(t, w) => InUserCode(s, t) && w in s.waiters
    case WaitReturn(t) =>
      Top(s, t).Some? && Top(s, t).value.Waiting? && !Top(s, t).value.flushing &&
      Top(s, t).value.waiter in s.waiters && s.waiters[Top(s, t).value.waiter].num == 0
    case Stop => true
    case Create(max', workers) =>
      && workers !! s.threads.Keys && |workers| == (if max' > 0 then max' - 1 else 0)
      && forall t :: t in s.threads ==> Worker !in s.threads[t].stack
  }

  function Push(s: State, t: nat, f: Frame, isLeaf: bool): State
    requires t in s.threads
  {
    s.(threads := s.threads[t := Thread(s.threads[t].stack + [f], isLeaf)])
  }

  function Replace(s: State, t: nat, fs: seq<Frame>, isLeaf: bool): State
    requires Top(s, t).Some?
  {
    var stack := s.threads[t].stack;
    s.(threads := s.threads[t := Thread(stack[..|stack| - 1] + fs, isLeaf)])
  }

  function AddNum(s: State, wo: Option<nat>, d: int): map<nat, Waiter> {
    if wo.Some? && wo.value in s.waiters
    then s.waiters[wo.value := s.waiters[wo.value].(num := s.waiters[wo.value].num + d)]
    else s.waiters
  }

  function Apply(s: State, a: Action): State
    requires Enabled(s, a)
  {
    match a
    case NewWaiter(w) => s.(waiters := s.waiters[w := Waiter(0, false)])
    case Submit(t, task, wo, leaf) => ApplySubmit(s, t, Entry(task, wo, leaf))
    case Pop(t) =>
      var e := s.queue[0];
      Push(s, t, Job(e, Running), e.leaf).(queue := s.queue[1..], active := s.active + 1, started := s.started + {e.task})
    case LeaveLoop(t) =>
      var f := Top(s, t).value;
      Replace(s, t, if f.Waiting? then [f.(flushing := false)] else [], s.threads[t].isLeaf)
    case Return(t) =>
      var f := Top(s, t).value;
      if f.Job? then Replace(s, t, [f.(phase := Ended)], false).(finished := s.finished + {f.entry.task})
      else Replace(s, t, [], false).(finished := s.finished + {f.entry.task})
    case Throw(t) =>
      var f := Top(s, t).value;
      Replace(s, t, [f.(phase := Threw)], s.threads[t].isLeaf)
        .(finished := s.finished + {f.entry.task}, threw := s.threw + {f.entry.task})
    case SetError(t) =>
      var f := Top(s, t).value;
      var wo := f.entry.waiter;
      Replace(s, t, [f.(phase := Ended)], false)
        .(waiters := if wo.Some? && wo.value in s.waiters then s.waiters[wo.value := s.waiters[wo.value].(error := true)]
                     else s.waiters,
          reported := s.reported + {f.entry.task})
    case Decrement(t) =>
      var f := Top(s, t).value;
      Replace(s, t, [f.(phase := Counted)], s.threads[t].isLeaf).(waiters := AddNum(s, f.entry.waiter, -1))
    case Release(t) => Replace(s, t, [], s.threads[t].isLeaf).(active := s.active - 1)
    case CallWait(t, w) => Push(s, t, Waiting(w, true), s.threads[t].isLeaf)
    case WaitReturn(t) => Replace(s, t, [], s.threads[t].isLeaf)
    case Stop => s.(running := false)
    case Create(max', workers) =>
      s.(running := true, max := max',
         threads := s.threads + map t | t in workers :: Thread([Worker], false))
  }

  function ApplySubmit(s: State, t: nat, e: Entry): State
    requires InUserCode(s, t)
  {
    var s' := s.(submitted := s.submitted[e.task := e.waiter]);
    if RunsInline(s, t, e.leaf) then Push(s', t, Inline(e), false).(started := s.started + {e.task})
    else s'.(waiters := AddNum(s, e.waiter, 1), queue := if e.leaf then [e] + s.queue else s.queue + [e])
  }

  /** What wait() returns. */
  function WaitResult(s: State, t: nat): bool
    requires Enabled(s, WaitReturn(t))
  {
    !s.waiters[Top(s, t).value.waiter].error
  }

  // ----- counting

  function QueuedFor(q: seq<Entry>, w: nat): nat {
    if q == [] then 0 else QueuedFor(q[1..], w) + if q[0].waiter == Some(w) then 1 else 0
  }

  lemma {:induction false} QueuedForAppend(q: seq<Entry>, e: Entry, w: nat)
    ensures QueuedFor(q + [e], w) == QueuedFor(q, w) + if e.waiter == Some(w) then 1 else 0
  {
    if q == [] {
      assert q + [e] == [e];
    } else {
      assert (q + [e])[1..] == q[1..] + [e];
      QueuedForAppend(q[1..], e, w);
    }
  }

  lemma QueuedForPrepend(q: seq<Entry>, e: Entry, w: nat)
    ensures QueuedFor([e] + q, w) == QueuedFor(q, w) + if e.waiter == Some(w) then 1 else 0
  {
    assert ([e] + q)[1..] == q;
  }

  lemma {:induction false} QueuedForZero(q: seq<Entry>, w: nat)
    ensures QueuedFor(q, w) == 0 <==> forall i :: 0 <= i < |q| ==> q[i].waiter != Some(w)
  {
    if q != [] {
      QueuedForZero(q[1..], w);
      assert forall i :: 1 <= i < |q| ==> q[i] == q[1..][i - 1];
    }
  }

  /** The frames that satisfy p, by thread and position. */
  ghost function Places(threads: map<nat, Thread>, p: Frame -> bool): set<(nat, nat)> {
    set t, i | t in threads && 0 <= i < |threads[t].stack| && p(threads[t].stack[i]) :: (t, i)
  }

  /** Replacing the top of one stack changes the count by what left and what came. */
  lemma PlacesReplace(s: State, t: nat, fs: seq<Frame>, isLeaf: bool, p: Frame -> bool)
    requires Top(s, t).Some? && |fs| <= 1
    ensures |Places(Replace(s, t, fs, isLeaf).threads, p)|
         == |Places(s.threads, p)| - (if p(Top(s, t).value) then 1 else 0) + if fs != [] && p(fs[0]) then 1 else 0
  {
    var n := |s.threads[t].stack| - 1;
    var s' := Replace(s, t, fs, isLeaf);
    assert forall i :: 0 <= i < n ==> s'.threads[t].stack[i] == s.threads[t].stack[i];
    SamePlacesBut(s.threads, s'.threads, (t, n), p);
  }

  /** Maps of threads whose frames agree everywhere but at x. */
  lemma SamePlacesBut(a: map<nat, Thread>, b: map<nat, Thread>, x: (nat, nat), p: Frame -> bool)
    requires a.Keys == b.Keys && x.0 in a
    requires forall t :: t in a && t != x.0 ==> a[t] == b[t]
    requires |a[x.0].stack| <= x.1 + 1 && |b[x.0].stack| <= x.1 + 1
    requires |a[x.0].stack| >= x.1 && |b[x.0].stack| >= x.1
    requires forall i :: 0 <= i < x.1 ==> a[x.0].stack[i] == b[x.0].stack[i]
    ensures |Places(b, p)| == |Places(a, p)|
      - (if |a[x.0].stack| == x.1 + 1 && p(a[x.0].stack[x.1]) then 1 else 0)
      + (if |b[x.0].stack| == x.1 + 1 && p(b[x.0].stack[x.1]) then 1 else 0)
  {
    hide Places;
    var before, after := Places(a, p), Places(b, p);
    forall y: (nat, nat) ensures y in before - {x} <==> y in after - {x} {
      PlacesAt(a, p, y);
      PlacesAt(b, p, y);
    }
    assert before - {x} == after - {x};
    PlacesAt(a, p, x);
    PlacesAt(b, p, x);
    Cardinality(before, x);
    Cardinality(after, x);
  }

  predicate At(threads: map<nat, Thread>, p: Frame -> bool, x: (nat, nat)) {
    x.0 in threads && x.1 < |threads[x.0].stack| && p(threads[x.0].stack[x.1])
  }

  lemma PlacesAt(threads: map<nat, Thread>, p: Frame -> bool, x: (nat, nat))
    ensures x in Places(threads, p) <==> At(threads, p, x)
  {}

  lemma Cardinality<T>(s: set<T>, x: T)
    ensures |s| == |s - {x}| + if x in s then 1 else 0
  {}

  lemma PlacesPush(s: State, t: nat, f: Frame, isLeaf: bool, p: Frame -> bool)
    requires t in s.threads
    ensures |Places(Push(s, t, f, isLeaf).threads, p)| == |Places(s.threads, p)| + if p(f) then 1 else 0
  {
    SamePlacesBut(s.threads, Push(s, t, f, isLeaf).threads, (t, |s.threads[t].stack|), p);
  }

  function OutstandingFor(w: nat): Frame -> bool {
    (f: Frame) => f.Job? && f.entry.waiter == Some(w) && !f.phase.Counted?
  }

  function IsJob(): Frame -> bool {
    (f: Frame) => f.Job?
  }

  /** The thread is in the function of the task. */
  function Executes(task: nat): Frame -> bool {
    (f: Frame) => (f.Job? && f.entry.task == task && f.phase.Running?) || (f.Inline? && f.entry.task == task)
  }

  /** A submit() through w that has not returned. */
  function InlineFor(w: nat): Frame -> bool {
    (f: Frame) => f.Inline? && f.entry.waiter == Some(w)
  }

  function HasThrown(task: nat): Frame -> bool {
    (f: Frame) => f.Job? && f.entry.task == task && f.phase.Threw?
  }

  // ----- what every step keeps

  /** Every waiter's number is its queued entries plus its popped entries not yet counted
      down; `active` is the number of popped entries not yet released. */
  ghost predicate Counts(s: State) {
    && (forall w :: w in s.waiters ==>
          s.waiters[w].num == QueuedFor(s.queue, w) + |Places(s.threads, OutstandingFor(w))|)
    && s.active == |Places(s.threads, IsJob())|
  }

  /** Leaf entries form a prefix of the queue. */
  predicate LeafFirst(s: State) {
    forall i, j :: 0 <= i < j < |s.queue| && s.queue[j].leaf ==> s.queue[i].leaf
  }

  predicate Known(s: State, e: Entry) {
    e.task in s.submitted && s.submitted[e.task] == e.waiter && (e.waiter.Some? ==> e.waiter.value in s.waiters)
  }

  /** The queue holds each task at most once and only tasks that never started. */
  predicate QueueFresh(s: State) {
    && (forall i :: 0 <= i < |s.queue| ==> Known(s, s.queue[i]) && s.queue[i].task !in s.started)
    && (forall i, j :: 0 <= i < j < |s.queue| ==> s.queue[i].task != s.queue[j].task)
  }

  predicate FrameKnown(s: State, f: Frame) {
    f.Job? || f.Inline? ==> Known(s, f.entry) && f.entry.task in s.started
  }

  predicate JobsKnown(s: State) {
    forall t, i :: t in s.threads && 0 <= i < |s.threads[t].stack| ==> FrameKnown(s, s.threads[t].stack[i])
  }

  predicate HistoryNested(s: State) {
    && s.finished <= s.started <= s.submitted.Keys
    && (forall task :: task in s.submitted && s.submitted[task].Some? ==> s.submitted[task].value in s.waiters)
  }

  /** In how many places a task is: in the queue, in the frames that execute it, among those that
      have finished. */
  ghost function Count(s: State, task: nat): nat {
    (if Queued(s, task) then 1 else 0) + |Places(s.threads, Executes(task))| + if task in s.finished then 1 else 0
  }

  /** No task is lost or doubled: each is in exactly one place. */
  ghost predicate Conserved(s: State) {
    forall task :: task in s.submitted ==> Count(s, task) == 1
  }

  predicate InQueue(q: seq<Entry>, task: nat) {
    exists i :: 0 <= i < |q| && q[i].task == task
  }

  predicate Queued(s: State, task: nat) {
    InQueue(s.queue, task)
  }

  predicate HasThrownJob(f: Frame) {
    f.Job? && f.phase.Threw?
  }

  predicate SubmittedTo(s: State, task: nat, w: nat) {
    task in s.submitted && s.submitted[task] == Some(w)
  }

  predicate ThrowersCounted(s: State) {
    forall t, i :: t in s.threads && 0 <= i < |s.threads[t].stack| && HasThrownJob(s.threads[t].stack[i]) ==>
      s.threads[t].stack[i].entry.task in s.threw
  }

  /** A waiter's error flag says whether one of its tasks has thrown, up to throws that are
      still on their way to the handler. */
  ghost predicate Errors(s: State) {
    && (forall w :: w in s.waiters ==>
          (s.waiters[w].error <==> exists task :: task in s.reported && SubmittedTo(s, task, w)))
    && s.reported <= s.threw <= s.finished
    && ThrowersCounted(s)
    && (forall task :: task in s.threw && task !in s.reported ==> Places(s.threads, HasThrown(task)) != {})
  }

  ghost predicate Inv(s: State) {
    Counts(s) && LeafFirst(s) && QueueFresh(s) && JobsKnown(s) && HistoryNested(s) && Conserved(s) && Errors(s)
  }

  // ----- preservation, one invariant at a time

  lemma CountsKept(s: State, a: Action)
    requires Inv(s) && Enabled(s, a)
    ensures Counts(Apply(s, a))
  {
    match a
    case NewWaiter(w) => CountsNewWaiter(s, w);
    case Submit(t, task, wo, leaf) => CountsSubmit(s, t, Entry(task, wo, leaf));
    case Pop(t) => CountsPop(s, t);
    case CallWait(t, w) => CountsPush(s, t, Waiting(w, true), s.threads[t].isLeaf);
    case Stop =>
    case Create(_, _) =>
      CreatePlaces(s, a, IsJob());
      forall w: nat ensures Places(Apply(s, a).threads, OutstandingFor(w)) == Places(s.threads, OutstandingFor(w)) {
        CreatePlaces(s, a, OutstandingFor(w));
      }
    case _ => CountsTop(s, a);
  }

  lemma CountsNewWaiter(s: State, w: nat)
    requires Inv(s) && w !in s.waiters
    ensures Counts(Apply(s, NewWaiter(w)))
  {
    QueuedForZero(s.queue, w);
    assert Places(s.threads, OutstandingFor(w)) == {};
  }

  lemma CountsPush(s: State, t: nat, f: Frame, isLeaf: bool)
    requires Counts(s) && t in s.threads && !f.Job?
    ensures Counts(Push(s, t, f, isLeaf))
  {
    PlacesPush(s, t, f, isLeaf, IsJob());
    forall w: nat ensures |Places(Push(s, t, f, isLeaf).threads, OutstandingFor(w))| == |Places(s.threads, OutstandingFor(w))| {
      PlacesPush(s, t, f, isLeaf, OutstandingFor(w));
    }
  }

  lemma CountsSubmit(s: State, t: nat, e: Entry)
    requires Counts(s) && InUserCode(s, t) && (e.waiter.Some? ==> e.waiter.value in s.waiters)
    ensures Counts(ApplySubmit(s, t, e))
  {
    hide Depth, QueuedFor;
    if RunsInline(s, t, e.leaf) {
      CountsPush(s, t, Inline(e), false);
    } else {
      forall w: nat ensures QueuedFor(ApplySubmit(s, t, e).queue, w)
                    == QueuedFor(s.queue, w) + if e.waiter == Some(w) then 1 else 0 {
        QueuedForAppend(s.queue, e, w);
        QueuedForPrepend(s.queue, e, w);
      }
    }
  }

  lemma CountsPop(s: State, t: nat)
    requires Counts(s) && Enabled(s, Pop(t))
    ensures Counts(Apply(s, Pop(t)))
  {
    var e := s.queue[0];
    PlacesPush(s, t, Job(e, Running), e.leaf, IsJob());
    forall w: nat ensures |Places(Push(s, t, Job(e, Running), e.leaf).threads, OutstandingFor(w))|
                  == |Places(s.threads, OutstandingFor(w))| + if e.waiter == Some(w) then 1 else 0 {
      PlacesPush(s, t, Job(e, Running), e.leaf, OutstandingFor(w));
    }
  }

  /** The frame that a step on the top of a stack leaves there. */
  function NewTop(s: State, a: Action): seq<Frame>
    requires Enabled(s, a) && TopAction(a)
  {
    var f := Top(s, a.t).value;
    match a
    case LeaveLoop(_) => if f.Waiting? then [f.(flushing := false)] else []
    case Return(_) => if f.Job? then [f.(phase := Ended)] else []
    case Throw(_) => [f.(phase := Threw)]
    case SetError(_) => [f.(phase := Ended)]
    case Decrement(_) => [f.(phase := Counted)]
    case _ => []
  }

  /** The task whose function a step on the top of a stack ends. */
  function EndedBy(s: State, a: Action): set<nat>
    requires Enabled(s, a) && TopAction(a)
  {
    if a.Return? || a.Throw? then {Top(s, a.t).value.entry.task} else {}
  }

  predicate TopAction(a: Action) {
    a.LeaveLoop? || a.Return? || a.Throw? || a.SetError? || a.Decrement? || a.Release? || a.WaitReturn?
  }

  /** What steps on the top of a stack have in common. */
  lemma TopShape(s: State, a: Action)
    requires Enabled(s, a) && TopAction(a)
    ensures var s' := Apply(s, a);
            && a.t in s'.threads
            && s'.threads == Replace(s, a.t, NewTop(s, a), s'.threads[a.t].isLeaf).threads
            && s'.queue == s.queue && s'.submitted == s.submitted && s'.started == s.started
            && s'.finished == s.finished + EndedBy(s, a)
            && s'.waiters.Keys == s.waiters.Keys
            && s'.active == s.active - (if a.Release? then 1 else 0)
            && forall w :: w in s.waiters ==>
                 s'.waiters[w].num == s.waiters[w].num
                   - if a.Decrement? && Top(s, a.t).value.entry.waiter == Some(w) then 1 else 0
  {}

  lemma CountsTop(s: State, a: Action)
    requires Inv(s) && Enabled(s, a) && TopAction(a)
    ensures Counts(Apply(s, a))
  {
    hide Places, QueuedFor, Apply, Conserved, Errors, QueueFresh, LeafFirst;
    var s' := Apply(s, a);
    TopShape(s, a);
    var isLeaf := s'.threads[a.t].isLeaf;
    PlacesReplace(s, a.t, NewTop(s, a), isLeaf, IsJob());
    forall w | w in s'.waiters
      ensures s'.waiters[w].num == QueuedFor(s'.queue, w) + |Places(s'.threads, OutstandingFor(w))|
    {
      PlacesReplace(s, a.t, NewTop(s, a), isLeaf, OutstandingFor(w));
    }
  }

  lemma CreatePlaces(s: State, a: Action, p: Frame -> bool)
    requires a.Create? && Enabled(s, a) && !p(Worker)
    ensures Places(Apply(s, a).threads, p) == Places(s.threads, p)
  {}

  lemma LeafFirstKept(s: State, a: Action)
    requires LeafFirst(s) && Enabled(s, a)
    ensures LeafFirst(Apply(s, a))
  {}

  lemma QueueFreshKept(s: State, a: Action)
    requires QueueFresh(s) && HistoryNested(s) && Enabled(s, a)
    ensures QueueFresh(Apply(s, a))
  {
    hide Depth;
    if TopAction(a) {
      QueueFreshTop(s, a);
    } else if a.Submit? {
      QueueFreshSubmit(s, a.t, Entry(a.task, a.wo, a.leaf));
    }
  }

  lemma QueueFreshTop(s: State, a: Action)
    requires QueueFresh(s) && Enabled(s, a) && TopAction(a)
    ensures QueueFresh(Apply(s, a))
  {
    hide Apply, Enabled;
    TopShape(s, a);
  }

  lemma QueueFreshSubmit(s: State, t: nat, e: Entry)
    requires QueueFresh(s) && HistoryNested(s) && InUserCode(s, t) && e.task !in s.submitted
    requires e.waiter.Some? ==> e.waiter.value in s.waiters
    ensures QueueFresh(ApplySubmit(s, t, e))
  {
    hide RunsInline;
    assert forall i :: 0 <= i < |s.queue| ==> s.queue[i].task != e.task;
    if !RunsInline(s, t, e.leaf) {
      assert forall i :: 0 <= i < |s.queue| ==> Known(ApplySubmit(s, t, e), s.queue[i]);
    }
  }

  lemma JobsKnownKept(s: State, a: Action)
    requires QueueFresh(s) && JobsKnown(s) && Enabled(s, a)
    ensures JobsKnown(Apply(s, a))
  {
    hide Depth;
    match a
    case Submit(t, task, wo, leaf) => JobsKnownSubmit(s, t, Entry(task, wo, leaf));
    case Pop(t) =>
    case NewWaiter(_) =>
    case CallWait(_, _) =>
    case Stop =>
    case Create(_, _) =>
    case _ => JobsKnownTop(s, a);
  }

  lemma JobsKnownSubmit(s: State, t: nat, e: Entry)
    requires JobsKnown(s) && InUserCode(s, t) && e.task !in s.submitted && (e.waiter.Some? ==> e.waiter.value in s.waiters)
    ensures JobsKnown(ApplySubmit(s, t, e))
  {
    hide RunsInline;
  }

  lemma JobsKnownTop(s: State, a: Action)
    requires JobsKnown(s) && Enabled(s, a) && TopAction(a)
    ensures JobsKnown(Apply(s, a))
  {
    hide Apply;
    TopShape(s, a);
  }

  lemma HistoryNestedKept(s: State, a: Action)
    requires QueueFresh(s) && JobsKnown(s) && HistoryNested(s) && Enabled(s, a)
    ensures HistoryNested(Apply(s, a))
  {
    if TopAction(a) { TopShape(s, a); }
  }

  /** A frame below the top of its stack, or in another stack, is not touched by a step. */
  lemma PlaceStays(s: State, a: Action, p: Frame -> bool) returns (top: (nat, nat))
    requires Enabled(s, a)
    ensures TopAction(a) ==>
      Top(s, a.t).Some? && top == (a.t, |s.threads[a.t].stack| - 1) &&
      (top in Places(s.threads, p) <==> p(Top(s, a.t).value)) &&
      (NewTop(s, a) != [] && p(NewTop(s, a)[0]) ==> top in Places(Apply(s, a).threads, p))
    ensures forall x :: x in Places(s.threads, p) && (TopAction(a) ==> x != top) ==> x in Places(Apply(s, a).threads, p)
  {
    top := (0, 0);
    if TopAction(a) {
      TopShape(s, a);
      top := (a.t, |s.threads[a.t].stack| - 1);
    }
  }

  /** A task not submitted yet is nowhere. */
  lemma Nowhere(s: State, task: nat)
    requires QueueFresh(s) && JobsKnown(s) && HistoryNested(s) && task !in s.submitted
    ensures Count(s, task) == 0
  {
    assert Places(s.threads, Executes(task)) == {};
  }

  lemma CountSubmit(s: State, t: nat, e: Entry, task: nat)
    requires Inv(s) && InUserCode(s, t) && e.task !in s.submitted
    ensures Count(ApplySubmit(s, t, e), task) == Count(s, task) + if task == e.task then 1 else 0
  {
    hide Places, Counts, Errors, LeafFirst, Conserved, Depth, InQueue;
    var s' := ApplySubmit(s, t, e);
    Nowhere(s, e.task);
    if RunsInline(s, t, e.leaf) {
      PlacesPush(s, t, Inline(e), false, Executes(task));
    } else {
      InQueueAdded(s.queue, e, task);
    }
  }

  lemma InQueueAdded(q: seq<Entry>, e: Entry, task: nat)
    ensures InQueue(q + [e], task) <==> InQueue(q, task) || task == e.task
    ensures InQueue([e] + q, task) <==> InQueue(q, task) || task == e.task
  {
    assert forall i :: 0 <= i < |q| ==> (q + [e])[i] == q[i] && ([e] + q)[i + 1] == q[i];
    assert (q + [e])[|q|] == e && ([e] + q)[0] == e;
  }

  lemma CountPop(s: State, t: nat, task: nat)
    requires QueueFresh(s) && Enabled(s, Pop(t))
    ensures Count(Apply(s, Pop(t)), task) == Count(s, task)
  {
    hide Places;
    var e, s' := s.queue[0], Apply(s, Pop(t));
    PlacesPush(s, t, Job(e, Running), e.leaf, Executes(task));
    assert forall i :: 0 <= i < |s'.queue| ==> s'.queue[i] == s.queue[i + 1];
    assert Queued(s, task) <==> task == e.task || Queued(s', task) by {
      if Queued(s, task) && task != e.task {
        var i :| 0 <= i < |s.queue| && s.queue[i].task == task;
        assert s'.queue[i - 1].task == task;
      }
    }
  }

  lemma CountTop(s: State, a: Action, task: nat)
    requires Inv(s) && Enabled(s, a) && TopAction(a) && task in s.submitted
    ensures Count(Apply(s, a), task) == Count(s, task)
  {
    hide Places, Counts, Errors, LeafFirst, QueueFresh, Apply;
    var s' := Apply(s, a);
    TopShape(s, a);
    PlacesReplace(s, a.t, NewTop(s, a), s'.threads[a.t].isLeaf, Executes(task));
  }

  lemma ConservedKept(s: State, a: Action)
    requires Inv(s) && Enabled(s, a)
    ensures Conserved(Apply(s, a))
  {
    hide Places, Counts, Errors, LeafFirst, QueueFresh, Count;
    var s' := Apply(s, a);
    forall task | task in s'.submitted
      ensures Count(s', task) == 1
    {
      if TopAction(a) {
        TopShape(s, a);
        CountTop(s, a, task);
      } else {
        CountOther(s, a, task);
        if task !in s.submitted {
          Nowhere(s, task);
        }
      }
    }
  }

  lemma CountOther(s: State, a: Action, task: nat)
    requires Inv(s) && Enabled(s, a) && !TopAction(a)
    ensures Count(Apply(s, a), task) == Count(s, task) + if a.Submit? && a.task == task then 1 else 0
  {
    hide Places, Counts, Errors, LeafFirst, Depth;
    match a
    case Submit(t, k, wo, leaf) => CountSubmit(s, t, Entry(k, wo, leaf), task);
    case Pop(t) => CountPop(s, t, task);
    case CallWait(t, w) => PlacesPush(s, t, Waiting(w, true), s.threads[t].isLeaf, Executes(task));
    case Create(_, _) => CreatePlaces(s, a, Executes(task));
    case _ =>
  }

  lemma FlagsKept(s: State, a: Action, w: nat)
    requires Inv(s) && Enabled(s, a) && w in Apply(s, a).waiters
    ensures var s' := Apply(s, a);
            s'.waiters[w].error <==> exists task :: task in s'.reported && SubmittedTo(s', task, w)
  {
    hide Places, Counts, LeafFirst, QueueFresh, Conserved;
    var s' := Apply(s, a);
    if a.SetError? && Top(s, a.t).value.entry.waiter == Some(w) {
      var e := Top(s, a.t).value.entry;
      assert e.task in s'.reported && SubmittedTo(s', e.task, w);
    } else {
      assert forall task :: task in s'.reported && SubmittedTo(s', task, w) <==> task in s.reported && SubmittedTo(s, task, w);
    }
  }

  lemma ErrorsKept(s: State, a: Action)
    requires Inv(s) && Enabled(s, a)
    ensures Errors(Apply(s, a))
  {
    hide Places, Inv, Apply, Enabled;
    var s' := Apply(s, a);
    forall w | w in s'.waiters
      ensures s'.waiters[w].error <==> exists task :: task in s'.reported && SubmittedTo(s', task, w)
    {
      FlagsKept(s, a, w);
    }
    forall task | task in s'.threw && task !in s'.reported
      ensures Places(s'.threads, HasThrown(task)) != {}
    {
      ThrownKept(s, a, task);
    }
    ThrowersKnown(s, a);
  }

  /** Frames that hold an exception belong to tasks counted as thrown. */
  lemma ThrowersKnown(s: State, a: Action)
    requires Inv(s) && Enabled(s, a)
    ensures var s' := Apply(s, a); s'.reported <= s'.threw <= s'.finished && ThrowersCounted(s')
  {
    hide Places, Counts, LeafFirst, QueueFresh, Conserved, Depth;
    HistoryStep(s, a);
    if TopAction(a) {
      ThrowersTop(s, a);
    }
  }

  lemma ThrowersTop(s: State, a: Action)
    requires Inv(s) && Enabled(s, a) && TopAction(a)
    ensures ThrowersCounted(Apply(s, a))
  {
    hide Places, Counts, LeafFirst, QueueFresh, Conserved, Apply;
    HistoryStep(s, a);
    TopShape(s, a);
  }

  lemma HistoryStep(s: State, a: Action)
    requires Inv(s) && Enabled(s, a)
    ensures var s' := Apply(s, a);
            && s'.reported <= s'.threw <= s'.finished && s.threw <= s'.threw
            && (a.Throw? ==> Top(s, a.t).value.entry.task in s'.threw)
            && (TopAction(a) && !a.Throw? ==> forall f :: f in NewTop(s, a) ==> !HasThrownJob(f))
  {
    hide Places, Counts, LeafFirst, QueueFresh, Conserved, Depth;
  }

  /** A task that has thrown and is not reported yet is still in some thread. */
  lemma ThrownKept(s: State, a: Action, task: nat)
    requires Inv(s) && Enabled(s, a) && task in Apply(s, a).threw && task !in Apply(s, a).reported
    ensures Places(Apply(s, a).threads, HasThrown(task)) != {}
  {
    hide Places, Counts, LeafFirst, QueueFresh, Conserved;
    var s' := Apply(s, a);
    var top := PlaceStays(s, a, HasThrown(task));
    if task in s.threw {
      var x :| x in Places(s.threads, HasThrown(task));
      assert x in Places(s'.threads, HasThrown(task));
    } else {
      assert top in Places(s'.threads, HasThrown(task));
    }
  }

  lemma InvKept(s: State, a: Action)
    requires Inv(s) && Enabled(s, a)
    ensures Inv(Apply(s, a))
  {
    hide Counts, LeafFirst, QueueFresh, JobsKnown, HistoryNested, Conserved, Errors, Apply;
    CountsKept(s, a);
    LeafFirstKept(s, a);
    QueueFreshKept(s, a);
    JobsKnownKept(s, a);
    HistoryNestedKept(s, a);
    ConservedKept(s, a);
    ErrorsKept(s, a);
  }

  // ----- whole runs

  /** A new pool: the caller's threads and max - 1 workers. */
  function Initial(max: nat, callers: set<nat>, workers: set<nat>): State {
    State([], 0, max, true, map[],
          map t | t in callers + workers :: Thread(if t in workers then [Worker] else [], false),
          map[], {}, {}, {}, {})
  }

  predicate Legal(s: State, run: seq<Action>)
    decreases |run|
  {
    run == [] || (Enabled(s, run[0]) && Legal(Apply(s, run[0]), run[1..]))
  }

  function Execute(s: State, run: seq<Action>): State
    requires Legal(s, run)
    decreases |run|
  {
    if run == [] then s else Execute(Apply(s, run[0]), run[1..])
  }

  lemma {:induction false} RunKeepsInv(s: State, run: seq<Action>)
    requires Inv(s) && Legal(s, run)
    ensures Inv(Execute(s, run))
    decreases |run|
  {
    hide Inv, Enabled, Apply;
    if run != [] {
      InvKept(s, run[0]);
      RunKeepsInv(Apply(s, run[0]), run[1..]);
    }
  }

  /** Every state that a new pool can reach, by any interleaving of any number of steps. */
  ghost predicate Reachable(s: State) {
    exists max: nat, callers: set<nat>, workers: set<nat>, run: seq<Action> ::
      Legal(Initial(max, callers, workers), run) && s == Execute(Initial(max, callers, workers), run)
  }

  lemma ReachableInv(s: State)
    requires Reachable(s)
    ensures Inv(s)
  {
    var max: nat, callers: set<nat>, workers: set<nat>, run: seq<Action> :|
      Legal(Initial(max, callers, workers), run) && s == Execute(Initial(max, callers, workers), run);
    InitialInv(max, callers, workers);
    RunKeepsInv(Initial(max, callers, workers), run);
  }

  lemma InitialInv(max: nat, callers: set<nat>, workers: set<nat>)
    ensures Inv(Initial(max, callers, workers))
  {
    assert Places(Initial(max, callers, workers).threads, IsJob()) == {};
  }

  /** When wait() returns, a task submitted through that waiter has ended or is being run by the
      submit() that took it. So all of them have ended exactly when every submit() through the
      waiter has returned. The result is false exactly when one of them threw. */
  lemma WaitReturnsAfterAllIff(s: State, t: nat)
    requires Reachable(s) && Enabled(s, WaitReturn(t))
    ensures var w := Top(s, t).value.waiter;
            && ((forall task :: SubmittedTo(s, task, w) ==> task in s.finished) <==> Places(s.threads, InlineFor(w)) == {})
            && (!WaitResult(s, t) <==> exists task :: task in s.threw && SubmittedTo(s, task, w))
  {
    hide Counts, LeafFirst, Conserved, Places;
    ReachableInv(s);
    var w := Top(s, t).value.waiter;
    NoneOutstanding(s, w);
    forall task | SubmittedTo(s, task, w)
      ensures task in s.finished || Places(s.threads, InlineFor(w)) != {}
      ensures task in s.threw ==> task in s.reported
    {
      EndedOrInline(s, task, w);
      NoFrame(s, task, w, HasThrown(task));
    }
    if Places(s.threads, InlineFor(w)) != {} {
      var task := InlineNotEnded(s, w);
    }
  }

  lemma NoneOutstanding(s: State, w: nat)
    requires Counts(s) && w in s.waiters && s.waiters[w].num == 0
    ensures Places(s.threads, OutstandingFor(w)) == {} && forall i :: 0 <= i < |s.queue| ==> s.queue[i].waiter != Some(w)
  {
    QueuedForZero(s.queue, w);
  }

  lemma EndedOrInline(s: State, task: nat, w: nat)
    requires Inv(s) && SubmittedTo(s, task, w) && Places(s.threads, OutstandingFor(w)) == {}
    requires forall i :: 0 <= i < |s.queue| ==> s.queue[i].waiter != Some(w)
    ensures task in s.finished || Places(s.threads, InlineFor(w)) != {}
  {
    hide Counts, Errors, LeafFirst;
    assert Count(s, task) == 1;
    assert !Queued(s, task);
    if task !in s.finished {
      var x :| x in Places(s.threads, Executes(task));
      var f := s.threads[x.0].stack[x.1];
      assert FrameKnown(s, f);
      assert f.Job? ==> x in Places(s.threads, OutstandingFor(w));
      assert f.Inline? ==> x in Places(s.threads, InlineFor(w));
    }
  }

  lemma InlineNotEnded(s: State, w: nat) returns (task: nat)
    requires Inv(s) && Places(s.threads, InlineFor(w)) != {}
    ensures SubmittedTo(s, task, w) && task !in s.finished
  {
    hide Counts, Errors, LeafFirst;
    var x :| x in Places(s.threads, InlineFor(w));
    var f := s.threads[x.0].stack[x.1];
    assert FrameKnown(s, f);
    task := f.entry.task;
    assert x in Places(s.threads, Executes(task));
    assert Count(s, task) == 1;
  }

  lemma NoFrame(s: State, task: nat, w: nat, p: Frame -> bool)
    requires JobsKnown(s) && SubmittedTo(s, task, w) && Places(s.threads, OutstandingFor(w)) == {}
    requires forall f :: p(f) ==> f.Job? && f.entry.task == task && !f.phase.Counted?
    ensures Places(s.threads, p) == {}
  {
    forall x | x in Places(s.threads, p) ensures x in Places(s.threads, OutstandingFor(w)) {
      assert FrameKnown(s, s.threads[x.0].stack[x.1]);
    }
  }

  /** A waiter that is not at zero has an entry in the queue or in some thread: a caller is
      never left waiting for work that has vanished. */
  lemma BlockedWaiterHasWork(s: State, w: nat)
    requires Reachable(s) && w in s.waiters && s.waiters[w].num != 0
    ensures (exists i :: 0 <= i < |s.queue| && s.queue[i].waiter == Some(w)) ||
            (exists x :: x in Places(s.threads, OutstandingFor(w)))
  {
    ReachableInv(s);
    QueuedForZero(s.queue, w);
    if Places(s.threads, OutstandingFor(w)) != {} {
      var x :| x in Places(s.threads, OutstandingFor(w));
    }
  }

  /** A popped task never ran before, and leaf tasks are popped before all others. */
  lemma PoppedOnceLeafFirst(s: State, t: nat)
    requires Reachable(s) && Enabled(s, Pop(t))
    ensures s.queue[0].task !in s.started && s.queue[0].task !in s.finished
    ensures s.queue[0].leaf || forall i :: 0 <= i < |s.queue| ==> !s.queue[i].leaf
  {
    ReachableInv(s);
  }

  // ----- submitting

  predicate InTask(f: Frame) {
    f.Inline? || (f.Job? && (f.phase.Running? || f.phase.Threw?))
  }

  lemma {:induction false} DepthCounts(stack: seq<Frame>)
    ensures Depth(stack) > 0 <==> exists i :: 0 <= i < |stack| && InTask(stack[i])
  {
    if stack != [] {
      var n := |stack| - 1;
      DepthCounts(stack[..n]);
      assert forall i :: 0 <= i < n ==> stack[..n][i] == stack[i];
      if i :| 0 <= i < |stack| && InTask(stack[i]) && i < n {
        assert InTask(stack[..n][i]);
      }
    }
  }

  /** A task is run at once, by the thread that submits it, exactly when it is no leaf and either that
      thread is in a task already, or all threads are busy and work is queued. It is queued
      otherwise, a leaf before all others, and counted by its waiter. */
  lemma SubmitExact(s: State, t: nat, task: nat, wo: Option<nat>, leaf: bool)
    requires Enabled(s, Submit(t, task, wo, leaf))
    ensures var (s', e, stack) := (Apply(s, Submit(t, task, wo, leaf)), Entry(task, wo, leaf), s.threads[t].stack);
            if !leaf && ((exists i :: 0 <= i < |stack| && InTask(stack[i])) || (s.active == s.max && s.queue != []))
            then s'.threads == s.threads[t := Thread(stack + [Inline(e)], false)] && s'.queue == s.queue && s'.waiters == s.waiters
            else
              && s'.threads == s.threads && s'.queue == (if leaf then [e] + s.queue else s.queue + [e])
              && forall w :: w in s.waiters ==>
                   w in s'.waiters && s'.waiters[w].num == s.waiters[w].num + (if wo == Some(w) then 1 else 0)
  {
    hide Depth;
    DepthCounts(s.threads[t].stack);
  }

  /** The highest frame that is no wait is that of a leaf task. */
  predicate LeafTop(stack: seq<Frame>) {
    stack != [] &&
    var f := stack[|stack| - 1];
    if f.Waiting? then LeafTop(stack[..|stack| - 1]) else f.Job? && f.entry.leaf && (f.phase.Running? || f.phase.Threw?)
  }

  /** A thread is marked as a leaf's only while it is in one. */
  predicate LeafFlag(s: State) {
    forall t :: t in s.threads && s.threads[t].isLeaf ==> LeafTop(s.threads[t].stack)
  }

  lemma LeafTopAbove(rest: seq<Frame>, f: Frame)
    ensures LeafTop(rest + [f]) <==>
            if f.Waiting? then LeafTop(rest) else f.Job? && f.entry.leaf && (f.phase.Running? || f.phase.Threw?)
  {
    assert (rest + [f])[..|rest|] == rest;
  }

  lemma LeafFlagKept(s: State, a: Action)
    requires LeafFlag(s) && Enabled(s, a)
    ensures LeafFlag(Apply(s, a))
  {
    hide Depth, LeafTop;
    match a
    case NewWaiter(_) =>
    case Stop =>
    case Create(_, _) =>
    case Submit(_, _, _, _) =>
    case Pop(t) => LeafTopAbove(s.threads[t].stack, Job(s.queue[0], Running));
    case CallWait(t, w) => LeafTopAbove(s.threads[t].stack, Waiting(w, true));
    case _ => LeafFlagTop(s, a);
  }

  lemma LeafFlagTop(s: State, a: Action)
    requires LeafFlag(s) && Enabled(s, a) && TopAction(a)
    ensures LeafFlag(Apply(s, a))
  {
    hide LeafTop, Apply;
    TopShape(s, a);
    LeafMark(s, a);
    var (rest, f) := (s.threads[a.t].stack[..|s.threads[a.t].stack| - 1], Top(s, a.t).value);
    assert s.threads[a.t].stack == rest + [f];
    LeafTopAbove(rest, f);
    if NewTop(s, a) != [] {
      LeafTopAbove(rest, NewTop(s, a)[0]);
      assert NewTop(s, a) == [NewTop(s, a)[0]];
    } else {
      assert rest + NewTop(s, a) == rest;
    }
  }

  lemma LeafMark(s: State, a: Action)
    requires Enabled(s, a) && TopAction(a)
    ensures a.t in Apply(s, a).threads
    ensures Apply(s, a).threads[a.t].isLeaf ==> s.threads[a.t].isLeaf && !a.Return? && !a.SetError?
  {}

  lemma {:induction false} RunKeepsLeafFlag(s: State, run: seq<Action>)
    requires LeafFlag(s) && Legal(s, run)
    ensures LeafFlag(Execute(s, run))
    decreases |run|
  {
    hide LeafFlag, Enabled, Apply;
    if run != [] {
      LeafFlagKept(s, run[0]);
      RunKeepsLeafFlag(Apply(s, run[0]), run[1..]);
    }
  }

  /** Submitting is refused to leaf tasks only. */
  lemma OnlyLeavesRefused(s: State, t: nat, task: nat, wo: Option<nat>, leaf: bool)
    requires Reachable(s) && InUserCode(s, t) && task !in s.submitted && (wo.Some? ==> wo.value in s.waiters)
    requires Top(s, t).Some? && Top(s, t).value.Job? ==> !Top(s, t).value.entry.leaf
    ensures Enabled(s, Submit(t, task, wo, leaf))
  {
    hide Legal, Execute;
    var max: nat, callers: set<nat>, workers: set<nat>, run: seq<Action> :|
      Legal(Initial(max, callers, workers), run) && s == Execute(Initial(max, callers, workers), run);
    RunKeepsLeafFlag(Initial(max, callers, workers), run);
  }

  /** And to a leaf task that has just begun. */
  lemma LeafRefused(s: State, t: nat, task: nat, wo: Option<nat>, leaf: bool)
    requires Enabled(s, Pop(t)) && s.queue[0].leaf
    ensures !Enabled(Apply(s, Pop(t)), Submit(t, task, wo, leaf))
  {}

  // ----- stopping

  lemma StoppedStep(s: State, a: Action, task: nat)
    requires Enabled(s, a) && !s.running && !a.Create?
    ensures !Apply(s, a).running && (Queued(s, task) ==> Queued(Apply(s, a), task))
  {
    hide InQueue, Depth;
    if a.Submit? {
      InQueueAdded(s.queue, Entry(a.task, a.wo, a.leaf), task);
    }
  }

  /** After destroy no queued task is taken until threads are created again. */
  lemma {:induction false} StoppedKeepsQueue(s: State, run: seq<Action>, task: nat)
    requires Legal(s, run) && !s.running && Queued(s, task) && forall i :: 0 <= i < |run| ==> !run[i].Create?
    ensures Queued(Execute(s, run), task)
    decreases |run|
  {
    hide Queued, Enabled, Apply;
    if run != [] {
      StoppedStep(s, run[0], task);
      assert forall i :: 0 <= i < |run[1..]| ==> run[1..][i] == run[i + 1];
      StoppedKeepsQueue(Apply(s, run[0]), run[1..], task);
    }
  }

  /** A thread leaves the loop of the pool exactly when the pool is stopped or, in a wait, when every
      task submitted so far has started. */
  lemma LeavesIff(s: State, t: nat)
    requires Reachable(s) && Top(s, t).Some? && InLoop(Top(s, t).value)
    ensures Enabled(s, LeaveLoop(t)) <==>
            !s.running || (Top(s, t).value.Waiting? && forall task :: task in s.submitted ==> task in s.started)
  {
    hide Reachable, Counts, LeafFirst, Errors;
    ReachableInv(s);
    if s.queue == [] {
      forall task | task in s.submitted
        ensures task in s.started
      {
        NotQueuedStarted(s, task);
      }
    } else {
      assert Known(s, s.queue[0]) && s.queue[0].task !in s.started;
    }
  }

  lemma NotQueuedStarted(s: State, task: nat)
    requires Inv(s) && task in s.submitted && s.queue == []
    ensures task in s.started
  {
    hide Counts, Errors, LeafFirst;
    if task !in s.finished {
      assert Count(s, task) == 1;
      var x :| x in Places(s.threads, Executes(task));
      assert FrameKnown(s, s.threads[x.0].stack[x.1]);
    }
  }

  function IsWorker(): Frame -> bool {
    (f: Frame) => f.Worker?
  }

  /** At most one thread less than the maximum serves the queue; the caller counts as one. */
  ghost predicate WorkersFit(s: State) {
    |Places(s.threads, IsWorker())| <= if s.max > 0 then s.max - 1 else 0
  }

  lemma WorkersKept(s: State, a: Action)
    requires WorkersFit(s) && Enabled(s, a)
    ensures WorkersFit(Apply(s, a))
  {
    hide Places, Depth;
    if TopAction(a) {
      TopShape(s, a);
      PlacesReplace(s, a.t, NewTop(s, a), Apply(s, a).threads[a.t].isLeaf, IsWorker());
    } else {
      match a
      case Pop(t) => PlacesPush(s, t, Job(s.queue[0], Running), s.queue[0].leaf, IsWorker());
      case CallWait(t, w) => PlacesPush(s, t, Waiting(w, true), s.threads[t].isLeaf, IsWorker());
      case Submit(t, task, wo, leaf) => PlacesPush(s, t, Inline(Entry(task, wo, leaf)), false, IsWorker());
      case Create(_, _) => CreateMakes(s, a);
      case _ =>
    }
  }

  /** Threads are made once those of the last time are gone, one for each but the caller, and each
      can take what is queued. */
  lemma CreateMakes(s: State, a: Action)
    requires Enabled(s, a) && a.Create?
    ensures |Places(Apply(s, a).threads, IsWorker())| == if a.max' > 0 then a.max' - 1 else 0
    ensures s.queue != [] ==> forall t :: t in a.workers ==> Enabled(Apply(s, a), Pop(t))
  {
    var s' := Apply(s, a);
    forall t, i
      ensures (t, i) in Places(s'.threads, IsWorker()) <==> (t, i) in FirstFrames(a.workers)
    {}
    assert Places(s'.threads, IsWorker()) == FirstFrames(a.workers);
    FirstFramesCount(a.workers);
  }

  function FirstFrames(threads: set<nat>): set<(nat, nat)> {
    set t | t in threads :: (t, 0)
  }

  lemma {:induction false} FirstFramesCount(threads: set<nat>)
    ensures |FirstFrames(threads)| == |threads|
  {
    if threads != {} {
      var t :| t in threads;
      FirstFramesCount(threads - {t});
      assert FirstFrames(threads) == FirstFrames(threads - {t}) + {(t, 0)};
    }
  }

  /** Over any run, with any number of restarts. */
  lemma {:induction false} RunKeepsWorkers(s: State, run: seq<Action>)
    requires WorkersFit(s) && Legal(s, run)
    ensures WorkersFit(Execute(s, run))
    decreases |run|
  {
    hide WorkersFit, Enabled, Apply;
    if run != [] {
      WorkersKept(s, run[0]);
      RunKeepsWorkers(Apply(s, run[0]), run[1..]);
    }
  }

  // ----- a wait that returns too early

  lemma {:induction false} LegalSnoc(s: State, run: seq<Action>, a: Action)
    requires Legal(s, run) && Enabled(Execute(s, run), a)
    ensures Legal(s, run + [a]) && Execute(s, run + [a]) == Apply(Execute(s, run), a)
    decreases |run|
  {
    hide Enabled, Apply;
    if run == [] {
      assert run + [a] == [a] && [a][1..] == [];
    } else {
      assert (run + [a])[1..] == run[1..] + [a];
      LegalSnoc(Apply(s, run[0]), run[1..], a);
    }
  }

  lemma ReachableStep(s: State, a: Action)
    requires Reachable(s) && Enabled(s, a)
    ensures Reachable(Apply(s, a))
  {
    hide Enabled, Apply, Legal, Execute;
    var max: nat, callers: set<nat>, workers: set<nat>, run: seq<Action> :|
      Legal(Initial(max, callers, workers), run) && s == Execute(Initial(max, callers, workers), run);
    LegalSnoc(Initial(max, callers, workers), run, a);
  }

  /** A pool whose only thread, 0, has the given stack. */
  function Alone(stack: seq<Frame>, queue: seq<Entry>, waiters: map<nat, Waiter>, submitted: map<nat, Option<nat>>,
                 active: int, started: set<nat>): State
  {
    State(queue, active, 1, true, waiters, map[0 := Thread(stack, false)], submitted, started, {}, {}, {})
  }

  predicate UserTop(stack: seq<Frame>) {
    stack == [] || stack[|stack| - 1].Inline? || (stack[|stack| - 1].Job? && stack[|stack| - 1].phase.Running?)
  }

  lemma Overwritten(a: seq<Frame>, b: seq<Frame>)
    ensures map[0 := Thread(a, false)][0 := Thread(b, false)] == map[0 := Thread(b, false)]
  {}

  lemma AloneNew(stack: seq<Frame>, q: seq<Entry>, ws: map<nat, Waiter>, sub: map<nat, Option<nat>>, n: int, st: set<nat>, w: nat)
    requires Reachable(Alone(stack, q, ws, sub, n, st)) && w !in ws
    ensures Reachable(Alone(stack, q, ws[w := Waiter(0, false)], sub, n, st))
  {
    hide Reachable;
    ReachableStep(Alone(stack, q, ws, sub, n, st), NewWaiter(w));
  }

  lemma AloneSubmit(ws: map<nat, Waiter>, task: nat, w: nat)
    requires Reachable(Alone([], [], ws, map[], 0, {})) && w in ws
    ensures Reachable(Alone([], [Entry(task, Some(w), false)], ws[w := ws[w].(num := ws[w].num + 1)], map[task := Some(w)], 0, {}))
  {
    hide Reachable;
    var s := Alone([], [], ws, map[], 0, {});
    ReachableStep(s, Submit(0, task, Some(w), false));
    assert [] + [Entry(task, Some(w), false)] == [Entry(task, Some(w), false)];
  }

  lemma AloneInline(stack: seq<Frame>, ws: map<nat, Waiter>, sub: map<nat, Option<nat>>, st: set<nat>, task: nat, w: nat)
    requires Reachable(Alone(stack, [], ws, sub, 1, st)) && w in ws && task !in sub
    requires stack != [] && UserTop(stack)
    ensures Reachable(Alone(stack + [Inline(Entry(task, Some(w), false))], [], ws, sub[task := Some(w)], 1, st + {task}))
  {
    hide Reachable;
    ReachableStep(Alone(stack, [], ws, sub, 1, st), Submit(0, task, Some(w), false));
    Overwritten(stack, stack + [Inline(Entry(task, Some(w), false))]);
  }

  lemma AloneCallWait(stack: seq<Frame>, q: seq<Entry>, ws: map<nat, Waiter>, sub: map<nat, Option<nat>>, n: int, st: set<nat>, w: nat)
    requires Reachable(Alone(stack, q, ws, sub, n, st)) && w in ws && UserTop(stack)
    ensures Reachable(Alone(stack + [Waiting(w, true)], q, ws, sub, n, st))
  {
    hide Reachable;
    ReachableStep(Alone(stack, q, ws, sub, n, st), CallWait(0, w));
    Overwritten(stack, stack + [Waiting(w, true)]);
  }

  lemma AlonePop(stack: seq<Frame>, e: Entry, ws: map<nat, Waiter>, sub: map<nat, Option<nat>>)
    requires Reachable(Alone(stack, [e], ws, sub, 0, {})) && !e.leaf && stack != [] && InLoop(stack[|stack| - 1])
    ensures Reachable(Alone(stack + [Job(e, Running)], [], ws, sub, 1, {e.task}))
  {
    hide Reachable;
    ReachableStep(Alone(stack, [e], ws, sub, 0, {}), Pop(0));
    assert [e][1..] == [] && {} + {e.task} == {e.task};
    Overwritten(stack, stack + [Job(e, Running)]);
  }

  lemma AloneLeave(stack: seq<Frame>, ws: map<nat, Waiter>, sub: map<nat, Option<nat>>, n: int, st: set<nat>, w: nat)
    requires Reachable(Alone(stack + [Waiting(w, true)], [], ws, sub, n, st))
    ensures Reachable(Alone(stack + [Waiting(w, false)], [], ws, sub, n, st))
  {
    hide Reachable;
    ReachableStep(Alone(stack + [Waiting(w, true)], [], ws, sub, n, st), LeaveLoop(0));
    assert (stack + [Waiting(w, true)])[..|stack|] == stack;
    Overwritten(stack + [Waiting(w, true)], stack + [Waiting(w, false)]);
  }

  /** A caller's task 1 submits task 2 through waiter 8, which submit() runs itself; task 2 waits on
      waiter 8, and that wait returns true while task 2 is still running. */
  lemma WaitInsideInline() returns (s: State)
    ensures Reachable(s) && Enabled(s, WaitReturn(0)) && Top(s, 0).value.waiter == 8
    ensures WaitResult(s, 0) && SubmittedTo(s, 2, 8) && 2 !in s.finished
  {
    hide Reachable;
    var e, e' := Entry(1, Some(7), false), Entry(2, Some(8), false);
    var both := map[][7 := Waiter(0, false)][8 := Waiter(0, false)];
    var ws := both[7 := Waiter(1, false)];
    var sub, stack: seq<Frame> := map[1 := Some(7)], [] + [Waiting(7, true)];
    NewPool();
    AloneNew([], [], map[], map[], 0, {}, 7);
    AloneNew([], [], map[][7 := Waiter(0, false)], map[], 0, {}, 8);
    AloneSubmit(both, 1, 7);
    AloneCallWait([], [e], ws, sub, 0, {}, 7);
    AlonePop(stack, e, ws, sub);
    AloneInline(stack + [Job(e, Running)], ws, sub, {1}, 2, 8);
    AloneCallWait(stack + [Job(e, Running)] + [Inline(e')], [], ws, sub[2 := Some(8)], 1, {1} + {2}, 8);
    AloneLeave(stack + [Job(e, Running)] + [Inline(e')], ws, sub[2 := Some(8)], 1, {1} + {2}, 8);
    s := Alone(stack + [Job(e, Running)] + [Inline(e')] + [Waiting(8, false)], [], ws, sub[2 := Some(8)], 1, {1} + {2});
  }

  lemma NewPool()
    ensures Reachable(Alone([], [], map[], map[], 0, {}))
  {
    var s := Initial(1, {0}, {});
    assert Legal(s, []) && s == Execute(s, []);
    assert s == Alone([], [], map[], map[], 0, {});
  }
}

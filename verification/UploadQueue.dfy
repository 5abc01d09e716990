/** The Redis lists of the analysis queue and the scripts that park and wake its jobs. */
module UploadQueue {
  import opened Sequences

  /** The serialized job; jobs of the same text are indistinguishable to the lists. */
  datatype Raw = Raw(id: nat, key: nat)

  /** The lists and flags, with the waiting lists by upload. */
  datatype Store = Store(queue: seq<Raw>, processing: seq<Raw>, waiting: map<nat, seq<Raw>>, flags: set<nat>)

  function Waiting(s: Store, key: nat): seq<Raw> {
    if key in s.waiting then s.waiting[key] else []
  }

  /** The list without the first occurrence of x. */
  function RemoveFirst(s: seq<Raw>, x: Raw): seq<Raw> {
    if s == [] then [] else if s[0] == x then s[1..] else [s[0]] + RemoveFirst(s[1..], x)
  }

  lemma ShiftedRemoval(s: seq<Raw>, i: int)
    requires 0 < i <= |s|
    ensures i < |s| ==> [s[0]] + (s[1..][..i - 1] + s[1..][i..]) == s[..i] + s[i + 1..]
    ensures i == |s| ==> [s[0]] + s[1..] == s
  {
  }

  lemma {:induction false} FirstRemoved(s: seq<Raw>, x: Raw, i: int)
    requires 0 <= i <= |s| && (forall k :: 0 <= k < i ==> s[k] != x) && (i < |s| ==> s[i] == x)
    ensures RemoveFirst(s, x) == if i < |s| then s[..i] + s[i + 1..] else s
  {
    if i > 0 {
      FirstRemoved(s[1..], x, i - 1);
      ShiftedRemoval(s, i);
    }
  }

  /** The waiting jobs of an upload go back to the queue. */
  function Wake(s: Store, key: nat): Store {
    s.(queue := Reversed(Waiting(s, key)) + s.queue, waiting := s.waiting - {key})
  }

  /** An upload is done: the flag is set and its waiting jobs go back to the queue. */
  function Complete(s: Store, key: nat): Store {
    Wake(s.(flags := s.flags + {key}), key)
  }

  function Park(s: Store, raw: Raw): Store {
    if raw.key in s.flags then s else s.(waiting := s.waiting[raw.key := Waiting(s, raw.key) + [raw]])
  }

  function Requeue(s: Store, raw: Raw): Store {
    s.(queue := [raw] + s.queue, processing := RemoveFirst(s.processing, raw))
  }

  function Unlist(s: Store, raw: Raw): Store {
    s.(processing := RemoveFirst(s.processing, raw))
  }

  /** Jobs are taken from the right end of the queue. */
  function Take(s: Store): Store
    requires s.queue != []
  {
    var last := |s.queue| - 1;
    s.(queue := s.queue[..last], processing := [s.queue[last]] + s.processing)
  }

  class Redis {
    var queue: seq<Raw>
    var processing: seq<Raw>
    var waiting: map<nat, seq<Raw>>
    var flags: set<nat>

    function Value(): Store
      reads this
    {
      Store(queue, processing, waiting, flags)
    }

    method LPush(x: Raw)
      modifies `queue
      ensures queue == [x] + old(queue)
    {
      queue := [x] + queue;
    }

    /** Removes the first occurrence of x from the processing list, if there is one. */
    method LRemProcessing(x: Raw)
      modifies `processing
      ensures processing == RemoveFirst(old(processing), x)
    {
      var i := 0;
      while i < |processing| && processing[i] != x
        invariant 0 <= i <= |processing| && processing == old(processing)
        invariant forall k :: 0 <= k < i ==> processing[k] != x
      {
        i := i + 1;
      }
      FirstRemoved(processing, x, i);
      if i < |processing| {
        processing := processing[..i] + processing[i + 1..];
      }
    }

    /** Parks a job unless its upload is done. */
    method ParkScript(raw: Raw) returns (result: int)
      modifies `waiting
      ensures Value() == Park(old(Value()), raw)
      ensures result == if raw.key in flags then 1 else 0
    {
      if raw.key in flags {
        return 1;
      }
      waiting := waiting[raw.key := Waiting(Value(), raw.key) + [raw]];
      return 0;
    }

    /** Pushes the waiting jobs one by one and deletes their list. */
    method WakeScript(key: nat) returns (count: int)
      modifies `queue, `waiting
      ensures Value() == Wake(old(Value()), key) && count == |Waiting(old(Value()), key)|
    {
      var jobs := Waiting(Value(), key);
      if |jobs| > 0 {
        for i := 0 to |jobs|
          invariant queue == Reversed(jobs[..i]) + old(queue) && waiting == old(waiting)
        {
          ReversedAppend(jobs[..i], jobs[i]);
          assert jobs[..i + 1] == jobs[..i] + [jobs[i]];
          LPush(jobs[i]);
        }
        assert jobs[..|jobs|] == jobs;
        waiting := waiting - {key};
      } else {
        assert Reversed(jobs) + queue == queue;
        waiting := waiting - {key};
      }
      count := |jobs|;
    }

    /** Sets the flag of a finished upload and wakes its jobs. */
    method CompleteScript(key: nat) returns (count: int)
      modifies `queue, `waiting, `flags
      ensures Value() == Complete(old(Value()), key) && count == |Waiting(old(Value()), key)|
    {
      flags := flags + {key};
      count := WakeScript(key);
    }

    /** The transaction that puts a refused job back. */
    method RequeueTransaction(raw: Raw)
      modifies `queue, `processing
      ensures Value() == Requeue(old(Value()), raw)
    {
      LPush(raw);
      LRemProcessing(raw);
    }
  }

  /** How many copies of x the list has. */
  function Count(s: seq<Raw>, x: Raw): nat {
    if s == [] then 0 else (if s[0] == x then 1 else 0) + Count(s[1..], x)
  }

  lemma {:induction false} CountAppend(s: seq<Raw>, t: seq<Raw>, x: Raw)
    ensures Count(s + t, x) == Count(s, x) + Count(t, x)
  {
    if s == [] {
      assert s + t == t;
    } else {
      CountAppend(s[1..], t, x);
      assert (s + t)[1..] == s[1..] + t;
    }
  }

  lemma {:induction false} CountReversed(s: seq<Raw>, x: Raw)
    ensures Count(Reversed(s), x) == Count(s, x)
  {
    if s != [] {
      var less, last := s[..|s| - 1], s[|s| - 1];
      CountReversed(less, x);
      CountAppend([last], Reversed(less), x);
      CountAppend(less, [last], x);
      assert s == less + [last];
    }
  }

  lemma {:induction false} CountIn(s: seq<Raw>, x: Raw)
    ensures Count(s, x) > 0 <==> x in s
  {
    if s != [] {
      CountIn(s[1..], x);
      assert x in s <==> x == s[0] || x in s[1..];
    }
  }

  /** One copy goes, if there is one; which of several equal copies makes no difference. */
  lemma {:induction false} RemoveFirstCount(s: seq<Raw>, x: Raw, y: Raw)
    ensures Count(RemoveFirst(s, x), y) == if y == x && Count(s, x) > 0 then Count(s, y) - 1 else Count(s, y)
  {
    if s != [] && s[0] != x {
      RemoveFirstCount(s[1..], x, y);
    }
  }

  /** Parked jobs are taken in the order in which they were parked, after those queued before. */
  lemma WakeKeepsOrder(s: Store, key: nat)
    ensures Reversed(Wake(s, key).queue) == Reversed(s.queue) + Waiting(s, key)
  {
  }

  /** Once an upload is done, nothing waits for it, and no job that asks to be parked for it is. */
  lemma DoneStaysDone(s: Store, key: nat, raw: Raw)
    requires raw.key == key
    ensures var v := Complete(s, key); Waiting(v, key) == [] && Park(v, raw) == v
    ensures forall k :: k != key ==> Waiting(Complete(s, key), k) == Waiting(s, k)
    ensures Reversed(Complete(s, key).queue) == Reversed(s.queue) + Waiting(s, key)
  {
    WakeKeepsOrder(s, key);
    hide Reversed;
  }

  /** A job that is put back is the last one to be taken. No copy of any job is lost by it, and there is one
      copy more exactly if processing had none. */
  lemma RequeueKeeps(s: Store, raw: Raw, x: Raw)
    ensures Reversed(Requeue(s, raw).queue) == Reversed(s.queue) + [raw]
    ensures Copies(Requeue(s, raw), x) == Copies(s, x) + if x == raw && raw !in s.processing then 1 else 0
  {
    CountAppend([raw], s.queue, x);
    RemoveFirstCount(s.processing, raw, x);
    CountIn(s.processing, raw);
  }

  // The protocol --------------------------------------------------------------------------------------------

  /** What a worker slot is doing with its job between two atomic steps. */
  datatype Task = Idle | Running(raw: Raw) | Parked(raw: Raw) | Refused(raw: Raw)

  /** The store, the worker slots, the jobs submitted and not finished, and the uploads that were completed
      and whose flag has expired at some time. A worker is idle again before its job has been taken off the
      processing list: those removals are still to come. Where the job had been taken off already, finishing
      it removes it once again; these removals are kept apart, although the list cannot tell them. */
  datatype World = World(store: Store, tasks: seq<Task>, unfinished: multiset<Raw>, removals: multiset<Raw>,
    repeated: multiset<Raw>, completed: set<nat>, expired: set<nat>)

  datatype Step =
    | Submit(raw: Raw)
    | Dequeue(worker: nat)
    | GiveBack(worker: nat)
    | AskToPark(worker: nat)
    | PutBack(worker: nat)
    | LeaveParked(worker: nat)
    | Finish(worker: nat)
    | Crash(worker: nat, again: nat)
    | Remove(raw: Raw)
    | RemoveAgain(raw: Raw)
    | CompleteUpload(key: nat)
    | ProcessPending(key: nat)
    | Expire(key: nat)

  /** A crash is reported once, as an error or an exit, or twice. Each report removes the job and finishes it. */
  predicate Enabled(w: World, step: Step) {
    match step
    case Submit(_) => true
    case Dequeue(i) => i < |w.tasks| && w.tasks[i].Idle? && w.store.queue != []
    case GiveBack(i) => i < |w.tasks| && w.tasks[i].Running?
    case AskToPark(i) => i < |w.tasks| && w.tasks[i].Running?
    case PutBack(i) => i < |w.tasks| && w.tasks[i].Refused?
    case LeaveParked(i) => i < |w.tasks| && w.tasks[i].Parked?
    case Finish(i) => i < |w.tasks| && w.tasks[i].Running?
    case Crash(i, again) => i < |w.tasks| && w.tasks[i].Running? && (again == 1 || again == 3)
    case Remove(raw) => raw in w.removals
    case RemoveAgain(raw) => raw in w.repeated
    case CompleteUpload(_) => true
    case ProcessPending(_) => true
    case Expire(key) => key in w.store.flags
  }

  /** What a step does to the lists and flags: one command, script or transaction. */
  function NextStore(w: World, step: Step): Store
    requires Enabled(w, step)
  {
    var s := w.store;
    match step
    case Submit(raw) => s.(queue := [raw] + s.queue)
    case Dequeue(_) => Take(s)
    case GiveBack(i) => Requeue(s, w.tasks[i].raw)
    case AskToPark(i) => Park(s, w.tasks[i].raw)
    case PutBack(i) => Requeue(s, w.tasks[i].raw)
    case LeaveParked(i) => Unlist(s, w.tasks[i].raw)
    case Finish(_) => s
    case Crash(_, _) => s
    case Remove(raw) => Unlist(s, raw)
    case RemoveAgain(raw) => Unlist(s, raw)
    case CompleteUpload(key) => Complete(s, key)
    case ProcessPending(key) => Wake(s, key)
    case Expire(key) => s.(flags := s.flags - {key})
  }

  /** One atomic step; between two steps of a worker anything else may happen. */
  function Next(w: World, step: Step): World
    requires Enabled(w, step)
  {
    var v := w.(store := NextStore(w, step));
    match step
    case Submit(raw) => v.(unfinished := w.unfinished + multiset{raw})
    case Dequeue(i) => v.(tasks := w.tasks[i := Running(w.store.queue[|w.store.queue| - 1])])
    case GiveBack(i) => v.(tasks := w.tasks[i := Idle])
    case AskToPark(i) =>
      var raw := w.tasks[i].raw;
      v.(tasks := w.tasks[i := if raw.key in w.store.flags then Refused(raw) else Parked(raw)])
    case PutBack(i) => v.(tasks := w.tasks[i := Idle], repeated := w.repeated + multiset{w.tasks[i].raw})
    case LeaveParked(i) => v.(tasks := w.tasks[i := Idle], repeated := w.repeated + multiset{w.tasks[i].raw})
    case Finish(i) =>
      v.(tasks := w.tasks[i := Idle], unfinished := w.unfinished - multiset{w.tasks[i].raw},
        removals := w.removals + multiset{w.tasks[i].raw})
    case Crash(i, again) =>
      var raw := w.tasks[i].raw;
      v.(tasks := w.tasks[i := Idle], unfinished := w.unfinished - multiset{raw},
        removals := w.removals + multiset{raw}, repeated := w.repeated[raw := w.repeated[raw] + again])
    case Remove(raw) => v.(removals := w.removals - multiset{raw})
    case RemoveAgain(raw) => v.(repeated := w.repeated - multiset{raw})
    case CompleteUpload(key) => v.(completed := w.completed + {key}, expired := w.expired - {key})
    case ProcessPending(_) => v
    case Expire(key) => v.(expired := w.expired + {key})
  }

  function Start(workers: nat): World {
    World(Store([], [], map[], {}), seq(workers, _ => Idle), multiset{}, multiset{}, multiset{}, {}, {})
  }

  ghost predicate IsRun(w: World, steps: seq<Step>, last: World)
    decreases |steps|
  {
    if steps == [] then w == last
    else Enabled(w, steps[0]) && IsRun(Next(w, steps[0]), steps[1..], last)
  }

  /** How many workers hold the job, whatever they are about to do with it. */
  function Held(tasks: seq<Task>, x: Raw): nat {
    if tasks == [] then 0 else Held(tasks[..|tasks| - 1], x) + Own(tasks[|tasks| - 1], x)
  }

  /** How many workers have parked the job and not yet taken it off the processing list. */
  function StillListed(tasks: seq<Task>, x: Raw): nat {
    if tasks == [] then 0 else StillListed(tasks[..|tasks| - 1], x) + OwnListed(tasks[|tasks| - 1], x)
  }

  function Own(t: Task, x: Raw): nat {
    if !t.Idle? && t.raw == x then 1 else 0
  }

  function OwnListed(t: Task, x: Raw): nat {
    if t.Parked? && t.raw == x then 1 else 0
  }

  lemma {:induction false} TaskChanges(tasks: seq<Task>, i: nat, t: Task, x: Raw)
    requires i < |tasks|
    ensures Held(tasks[i := t], x) + Own(tasks[i], x) == Held(tasks, x) + Own(t, x)
    ensures StillListed(tasks[i := t], x) + OwnListed(tasks[i], x) == StillListed(tasks, x) + OwnListed(t, x)
    ensures Own(tasks[i], x) <= Held(tasks, x) && OwnListed(tasks[i], x) <= StillListed(tasks, x) <= Held(tasks, x)
    ensures tasks[i].Running? && tasks[i].raw == x ==> StillListed(tasks, x) < Held(tasks, x)
  {
    var last := |tasks| - 1;
    ListedAtMostHeld(tasks[..last], x);
    if i < last {
      TaskChanges(tasks[..last], i, t, x);
      assert tasks[i := t][..last] == tasks[..last][i := t];
    } else {
      assert tasks[i := t][..last] == tasks[..last];
    }
  }

  lemma {:induction false} ListedAtMostHeld(tasks: seq<Task>, x: Raw)
    ensures StillListed(tasks, x) <= Held(tasks, x)
  {
    if tasks != [] {
      ListedAtMostHeld(tasks[..|tasks| - 1], x);
    }
  }

  lemma {:induction false} AllIdle(tasks: seq<Task>, x: Raw)
    requires forall i :: 0 <= i < |tasks| ==> tasks[i].Idle?
    ensures Held(tasks, x) == 0 && StillListed(tasks, x) == 0
  {
    if tasks != [] {
      AllIdle(tasks[..|tasks| - 1], x);
    }
  }

  /** The copies of a job in the three kinds of list. */
  function Copies(s: Store, raw: Raw): nat {
    Count(s.queue, raw) + Count(s.processing, raw) + Count(Waiting(s, raw.key), raw)
  }

  /** What the lists, the workers and the removals to come say about one job. */
  datatype Tally = Tally(queued: int, listed: int, waiting: int, held: int, parked: int, unfinished: int,
    removals: int)

  function TallyOf(w: World, raw: Raw): Tally {
    Tally(Count(w.store.queue, raw), Count(w.store.processing, raw), Count(Waiting(w.store, raw.key), raw),
      Held(w.tasks, raw), StillListed(w.tasks, raw), w.unfinished[raw], w.removals[raw])
  }

  /** Every unfinished job is queued, waiting or with a worker, and while it is parked and still listed it is
      both of the last two. Processing lists no more than what workers hold and what is about to be removed. */
  ghost predicate Balanced(w: World, raw: Raw) {
    var t := TallyOf(w, raw);
    t.queued + t.waiting + t.held == t.unfinished + t.parked && t.listed <= t.held + t.removals
  }

  ghost predicate KeyInv(w: World, key: nat) {
    && (forall raw :: raw in Waiting(w.store, key) ==> raw.key == key)
    && (key in w.store.flags ==> Waiting(w.store, key) == [])
    && (key in w.completed && Waiting(w.store, key) != [] ==> key in w.expired)
    && (key in w.completed && key !in w.store.flags ==> key in w.expired)
  }

  /** What every step keeps. */
  ghost predicate Inv(w: World) {
    (forall raw :: Balanced(w, raw)) && (forall key :: KeyInv(w, key))
  }

  lemma StartInv(workers: nat)
    ensures Inv(Start(workers))
  {
    forall raw
      ensures Balanced(Start(workers), raw)
    {
      AllIdle(Start(workers).tasks, raw);
    }
  }

  lemma StepInv(w: World, step: Step)
    requires Inv(w) && Enabled(w, step)
    ensures Inv(Next(w, step))
  {
    hide Next, Enabled, Balanced, KeyInv;
    forall raw
      ensures Balanced(Next(w, step), raw)
    {
      StepBalanced(w, step, raw);
    }
    forall key
      ensures KeyInv(Next(w, step), key)
    {
      StepKeys(w, step, key);
    }
  }

  lemma StepKeys(w: World, step: Step, key: nat)
    requires Enabled(w, step) && KeyInv(w, key)
    ensures KeyInv(Next(w, step), key)
  {
    hide Reversed, RemoveFirst;
  }

  lemma StepBalanced(w: World, step: Step, raw: Raw)
    requires Enabled(w, step) && Balanced(w, raw) && forall key :: KeyInv(w, key)
    ensures Balanced(Next(w, step), raw)
  {
    hide Next, KeyInv, Count, Held, StillListed, Waiting;
    StepTally(w, step, raw);
  }

  function One(x: Raw, raw: Raw): int {
    if x == raw then 1 else 0
  }

  /** One less, if there is one. */
  function Off(n: int, one: int): int {
    if one <= n then n - one else n
  }

  /** The job a step is about, if it is not one about an upload. */
  function JobOf(w: World, step: Step): Raw
    requires Enabled(w, step) && !step.CompleteUpload? && !step.ProcessPending? && !step.Expire?
  {
    if step.Submit? || step.Remove? || step.RemoveAgain? then step.raw
    else if step.Dequeue? then w.store.queue[|w.store.queue| - 1]
    else w.tasks[step.worker].raw
  }

  /** How a step changes the tally of a job. */
  function Moved(w: World, step: Step, raw: Raw): Tally
    requires Enabled(w, step)
  {
    var t := TallyOf(w, raw);
    if step.Expire? then t
    else if step.CompleteUpload? || step.ProcessPending? then
      if raw.key == step.key then t.(queued := t.queued + t.waiting, waiting := 0) else t
    else
      var one := One(JobOf(w, step), raw);
      match step
      case Submit(_) => t.(queued := t.queued + one, unfinished := t.unfinished + one)
      case Dequeue(_) => t.(queued := t.queued - one, listed := t.listed + one, held := t.held + one)
      case GiveBack(_) => t.(queued := t.queued + one, listed := Off(t.listed, one), held := t.held - one)
      case AskToPark(_) =>
        if JobOf(w, step).key in w.store.flags then t
        else t.(waiting := t.waiting + one, parked := t.parked + one)
      case PutBack(_) => t.(queued := t.queued + one, listed := Off(t.listed, one), held := t.held - one)
      case LeaveParked(_) => t.(listed := Off(t.listed, one), held := t.held - one, parked := t.parked - one)
      case Remove(_) => t.(listed := Off(t.listed, one), removals := t.removals - one)
      case RemoveAgain(_) => t.(listed := Off(t.listed, one))
      case _ => t.(held := t.held - one, unfinished := t.unfinished - one, removals := t.removals + one)
  }

  lemma StepTally(w: World, step: Step, raw: Raw)
    requires Enabled(w, step) && Balanced(w, raw) && forall key :: KeyInv(w, key)
    ensures TallyOf(Next(w, step), raw) == Moved(w, step, raw)
  {
    hide Next, Moved, KeyInv, TallyOf;
    match step
    case Submit(x) => PushTally(w, x, raw);
    case Dequeue(i) => TakeTally(w, i, raw);
    case GiveBack(i) => ReturnTally(w, step, raw);
    case AskToPark(i) => ParkTally(w, i, raw);
    case PutBack(i) => ReturnTally(w, step, raw);
    case LeaveParked(i) => LeaveTally(w, i, raw);
    case Finish(i) => FinishTally(w, step, raw);
    case Crash(i, _) => FinishTally(w, step, raw);
    case Remove(x) => RemoveTally(w, step, raw);
    case RemoveAgain(x) => RemoveTally(w, step, raw);
    case CompleteUpload(_) => WakeTally(w, step, raw);
    case ProcessPending(_) => WakeTally(w, step, raw);
    case Expire(_) => ExpireTally(w, step, raw);
  }

  lemma CountOne(x: Raw, raw: Raw)
    ensures Count([x], raw) == One(x, raw)
  {
  }

  lemma PushCount(s: seq<Raw>, x: Raw, raw: Raw)
    ensures Count([x] + s, raw) == Count(s, raw) + One(x, raw)
    ensures Count(s + [x], raw) == Count(s, raw) + One(x, raw)
  {
    CountAppend([x], s, raw);
    CountAppend(s, [x], raw);
    CountOne(x, raw);
  }

  lemma RemoveCount(s: seq<Raw>, x: Raw, raw: Raw)
    ensures Count(RemoveFirst(s, x), raw) == Off(Count(s, raw), One(x, raw))
  {
    RemoveFirstCount(s, x, raw);
  }

  lemma PushTally(w: World, x: Raw, raw: Raw)
    ensures TallyOf(Next(w, Submit(x)), raw) == Moved(w, Submit(x), raw)
  {
    hide Count, Held, StillListed;
    PushCount(w.store.queue, x, raw);
  }

  lemma TakeTally(w: World, i: nat, raw: Raw)
    requires Enabled(w, Dequeue(i))
    ensures TallyOf(Next(w, Dequeue(i)), raw) == Moved(w, Dequeue(i), raw)
  {
    hide Count, Held, StillListed;
    var last := |w.store.queue| - 1;
    var x := w.store.queue[last];
    assert w.store.queue == w.store.queue[..last] + [x];
    PushCount(w.store.queue[..last], x, raw);
    PushCount(w.store.processing, x, raw);
    TaskChanges(w.tasks, i, Running(x), raw);
  }

  lemma ReturnTally(w: World, step: Step, raw: Raw)
    requires Enabled(w, step) && (step.GiveBack? || step.PutBack?)
    ensures TallyOf(Next(w, step), raw) == Moved(w, step, raw)
  {
    hide Count, Held, StillListed, RemoveFirst;
    var x := w.tasks[step.worker].raw;
    PushCount(w.store.queue, x, raw);
    RemoveCount(w.store.processing, x, raw);
    TaskChanges(w.tasks, step.worker, Idle, raw);
  }

  lemma ParkTally(w: World, i: nat, raw: Raw)
    requires Enabled(w, AskToPark(i))
    ensures TallyOf(Next(w, AskToPark(i)), raw) == Moved(w, AskToPark(i), raw)
  {
    hide Count, Held, StillListed;
    var x := w.tasks[i].raw;
    TaskChanges(w.tasks, i, Next(w, AskToPark(i)).tasks[i], raw);
    PushCount(Waiting(w.store, x.key), x, raw);
  }

  lemma LeaveTally(w: World, i: nat, raw: Raw)
    requires Enabled(w, LeaveParked(i))
    ensures TallyOf(Next(w, LeaveParked(i)), raw) == Moved(w, LeaveParked(i), raw)
  {
    hide Count, Held, StillListed, RemoveFirst;
    RemoveCount(w.store.processing, w.tasks[i].raw, raw);
    TaskChanges(w.tasks, i, Idle, raw);
  }

  lemma FinishTally(w: World, step: Step, raw: Raw)
    requires Enabled(w, step) && (step.Finish? || step.Crash?) && Balanced(w, raw)
    ensures TallyOf(Next(w, step), raw) == Moved(w, step, raw)
  {
    hide Count, Held, StillListed, Waiting, Next;
    TaskChanges(w.tasks, step.worker, Idle, raw);
    if step.Finish? {
      FinishIs(w, step.worker);
    } else {
      CrashIs(w, step.worker, step.again);
    }
  }

  lemma FinishIs(w: World, i: nat)
    requires Enabled(w, Finish(i))
    ensures var v := Next(w, Finish(i)); var raw := w.tasks[i].raw;
      && v.store == w.store && v.tasks == w.tasks[i := Idle]
      && v.unfinished == w.unfinished - multiset{raw} && v.removals == w.removals + multiset{raw}
  {
  }

  lemma CrashIs(w: World, i: nat, again: nat)
    requires Enabled(w, Crash(i, again))
    ensures var v := Next(w, Crash(i, again)); var raw := w.tasks[i].raw;
      && v.store == w.store && v.tasks == w.tasks[i := Idle]
      && v.unfinished == w.unfinished - multiset{raw} && v.removals == w.removals + multiset{raw}
  {
  }

  lemma RemoveTally(w: World, step: Step, raw: Raw)
    requires Enabled(w, step) && (step.Remove? || step.RemoveAgain?)
    ensures TallyOf(Next(w, step), raw) == Moved(w, step, raw)
  {
    hide Count, Held, StillListed, RemoveFirst;
    RemoveCount(w.store.processing, step.raw, raw);
  }

  lemma WakeTally(w: World, step: Step, raw: Raw)
    requires step.CompleteUpload? || step.ProcessPending?
    requires forall key :: KeyInv(w, key)
    ensures TallyOf(Next(w, step), raw) == Moved(w, step, raw)
  {
    hide Count, Held, StillListed, Reversed;
    var jobs := Waiting(w.store, step.key);
    CountAppend(Reversed(jobs), w.store.queue, raw);
    CountReversed(jobs, raw);
    CountIn(jobs, raw);
    CountNone(raw);
    assert KeyInv(w, step.key);
    assert Waiting(Next(w, step).store, raw.key) == if raw.key == step.key then [] else Waiting(w.store, raw.key);
  }

  lemma ExpireTally(w: World, step: Step, raw: Raw)
    requires Enabled(w, step) && step.Expire?
    ensures TallyOf(Next(w, step), raw) == Moved(w, step, raw)
  {
    hide Count, Held, StillListed;
  }

  lemma CountNone(x: Raw)
    ensures Count([], x) == 0
  {
  }

  /** Every reachable world satisfies the invariant, whatever the interleaving. */
  lemma {:induction false} RunInv(w: World, steps: seq<Step>, last: World)
    requires Inv(w) && IsRun(w, steps, last)
    ensures Inv(last)
    decreases |steps|
  {
    if steps != [] {
      StepInv(w, steps[0]);
      RunInv(Next(w, steps[0]), steps[1..], last);
    }
  }

  /** No job is ever forgotten: each unfinished one is in the queue, waiting, or held by a worker. Its copies in
      the lists are no more than that, but for those parked and those about to be removed; and they are as many
      as it was submitted unless processing falls short of what the workers hold. */
  lemma NoJobLost(workers: nat, steps: seq<Step>, w: World, raw: Raw)
    requires IsRun(Start(workers), steps, w)
    ensures Count(w.store.queue, raw) + Count(Waiting(w.store, raw.key), raw) + Held(w.tasks, raw)
      == w.unfinished[raw] + StillListed(w.tasks, raw)
    ensures Copies(w.store, raw) <= w.unfinished[raw] + StillListed(w.tasks, raw) + w.removals[raw]
    ensures w.unfinished[raw] <= Copies(w.store, raw)
      <==> Held(w.tasks, raw) <= Count(w.store.processing, raw) + StillListed(w.tasks, raw)
  {
    StartInv(workers);
    RunInv(Start(workers), steps, w);
    assert Balanced(w, raw);
  }

  // When the lists lose a job -------------------------------------------------------------------------------

  /** The job has at least as many copies in the lists as it was submitted and not finished. */
  predicate Listed(w: World, raw: Raw) {
    w.unfinished[raw] <= Copies(w.store, raw)
  }

  /** The step takes a copy of the job off the processing list without finishing the job in it. */
  predicate TakesOff(w: World, step: Step, raw: Raw)
    requires Enabled(w, step)
  {
    match step
    case Remove(x) => x == raw
    case RemoveAgain(x) => x == raw
    case LeaveParked(i) => w.tasks[i].raw == raw
    case _ => false
  }

  /** The step finds a copy in processing, which may be that of another worker, and there is none to spare. */
  predicate Harms(w: World, step: Step, raw: Raw)
    requires Enabled(w, step)
  {
    TakesOff(w, step, raw) && raw in w.store.processing && w.unfinished[raw] == Copies(w.store, raw)
  }

  /** When exactly a step leaves a job with too few copies in the lists. */
  lemma ListedExactly(w: World, step: Step, raw: Raw)
    requires Inv(w) && Enabled(w, step) && Listed(w, raw)
    ensures Listed(Next(w, step), raw) <==> !Harms(w, step, raw)
  {
    hide Next, KeyInv, Count, Held, StillListed, Waiting;
    assert Balanced(w, raw);
    CountIn(w.store.processing, raw);
    StepTally(w, step, raw);
  }

  /** In every world of the run the job is listed often enough. */
  ghost predicate ListedThroughout(w: World, steps: seq<Step>, raw: Raw)
    decreases |steps|
  {
    Listed(w, raw) && (steps != [] ==> Enabled(w, steps[0]) && ListedThroughout(Next(w, steps[0]), steps[1..], raw))
  }

  /** No step of the run takes a copy off that cannot be spared. */
  ghost predicate Harmless(w: World, steps: seq<Step>, raw: Raw)
    decreases |steps|
  {
    steps != [] ==>
      Enabled(w, steps[0]) && !Harms(w, steps[0], raw) && Harmless(Next(w, steps[0]), steps[1..], raw)
  }

  lemma {:induction false} HarmlessFrom(w: World, steps: seq<Step>, last: World, raw: Raw)
    requires Inv(w) && Listed(w, raw) && IsRun(w, steps, last)
    ensures ListedThroughout(w, steps, raw) <==> Harmless(w, steps, raw)
    decreases |steps|
  {
    hide Next, Enabled, Inv, Listed, Harms;
    if steps != [] {
      var v := Next(w, steps[0]);
      ListedExactly(w, steps[0], raw);
      StepInv(w, steps[0]);
      if Listed(v, raw) {
        HarmlessFrom(v, steps[1..], last, raw);
      }
    }
  }

  /** The lists lose no job throughout a run if and only if every removal that finds a copy of the job in
      processing can spare it. */
  lemma ListedUnlessHarmed(workers: nat, steps: seq<Step>, last: World, raw: Raw)
    requires IsRun(Start(workers), steps, last)
    ensures ListedThroughout(Start(workers), steps, raw) <==> Harmless(Start(workers), steps, raw)
  {
    StartInv(workers);
    HarmlessFrom(Start(workers), steps, last, raw);
  }

  /** Processing lists exactly what the workers hold and what is about to be removed. */
  ghost predicate Exact(w: World, raw: Raw) {
    Count(w.store.processing, raw) == Held(w.tasks, raw) + w.removals[raw]
  }

  /** The step removes a job that has been removed already, and finds another copy of it. */
  predicate Strikes(w: World, step: Step, raw: Raw) {
    step == RemoveAgain(raw) && raw in w.store.processing
  }

  /** Only the removal that is done twice can upset the processing list, and it does exactly if there is
      another copy to be found. */
  lemma ExactUnlessStruck(w: World, step: Step, raw: Raw)
    requires Inv(w) && Enabled(w, step) && Exact(w, raw)
    ensures Exact(Next(w, step), raw) <==> !Strikes(w, step, raw)
  {
    hide Next, KeyInv, Count, Held, StillListed, Waiting;
    assert Balanced(w, raw);
    CountIn(w.store.processing, raw);
    StepTally(w, step, raw);
  }

  ghost predicate Unstruck(w: World, steps: seq<Step>, raw: Raw)
    decreases |steps|
  {
    steps != [] ==>
      Enabled(w, steps[0]) && !Strikes(w, steps[0], raw) && Unstruck(Next(w, steps[0]), steps[1..], raw)
  }

  lemma {:induction false} ExactRun(w: World, steps: seq<Step>, last: World, raw: Raw)
    requires Inv(w) && Exact(w, raw) && IsRun(w, steps, last) && Unstruck(w, steps, raw)
    ensures Inv(last) && Exact(last, raw)
    decreases |steps|
  {
    hide Next, Enabled, Inv, Exact, Strikes;
    if steps != [] {
      ExactUnlessStruck(w, steps[0], raw);
      StepInv(w, steps[0]);
      ExactRun(Next(w, steps[0]), steps[1..], last, raw);
    }
  }

  /** As long as no repeated removal finds a copy the balance is exact: there are as many copies as unfinished
      jobs, those parked and still listed, and those about to be removed. */
  lemma UnstruckBalance(workers: nat, steps: seq<Step>, w: World, raw: Raw)
    requires IsRun(Start(workers), steps, w) && Unstruck(Start(workers), steps, raw)
    ensures Copies(w.store, raw) == w.unfinished[raw] + StillListed(w.tasks, raw) + w.removals[raw]
  {
    StartInv(workers);
    AllIdle(Start(workers).tasks, raw);
    ExactRun(Start(workers), steps, w, raw);
    assert Balanced(w, raw);
  }

  lemma {:induction false} HeldBy(tasks: seq<Task>, x: Raw)
    ensures Held(tasks, x) > 0 <==> exists i :: 0 <= i < |tasks| && !tasks[i].Idle? && tasks[i].raw == x
  {
    if tasks != [] {
      var last := |tasks| - 1;
      HeldBy(tasks[..last], x);
      assert forall i :: 0 <= i < last ==> tasks[..last][i] == tasks[i];
    }
  }

  /** While the flag of an upload is up nothing waits for it, so each of its unfinished jobs is in the queue or
      held by a worker; and in the queue or in processing unless the lists have lost it. */
  lemma NothingWaitsUnderFlag(workers: nat, steps: seq<Step>, w: World, raw: Raw)
    requires IsRun(Start(workers), steps, w) && raw.key in w.store.flags
    ensures Waiting(w.store, raw.key) == []
    ensures raw in w.unfinished ==>
      raw in w.store.queue || exists i :: 0 <= i < |w.tasks| && !w.tasks[i].Idle? && w.tasks[i].raw == raw
    ensures raw in w.unfinished && Listed(w, raw) ==> raw in w.store.queue || raw in w.store.processing
  {
    StartInv(workers);
    RunInv(Start(workers), steps, w);
    assert Balanced(w, raw) && KeyInv(w, raw.key);
    CountIn(w.store.queue, raw);
    CountIn(w.store.processing, raw);
    HeldBy(w.tasks, raw);
  }

  /** The one step is taken at place j, and not the other after it. */
  predicate TakenAt(steps: seq<Step>, up: Step, down: Step, j: int) {
    0 <= j < |steps| && steps[j] == up && down !in steps[j + 1..]
  }

  /** The one step has been taken, and not the other since. */
  ghost predicate Since(steps: seq<Step>, up: Step, down: Step) {
    exists j :: TakenAt(steps, up, down, j)
  }

  lemma TakenLater(steps: seq<Step>, up: Step, down: Step, j: int)
    requires steps != [] && j > 0
    ensures TakenAt(steps, up, down, j) <==> TakenAt(steps[1..], up, down, j - 1)
  {
    if j < |steps| {
      assert steps[1..][j..] == steps[j + 1..];
    }
  }

  lemma SinceFirst(steps: seq<Step>, up: Step, down: Step)
    requires steps != []
    ensures Since(steps, up, down) <==> Since(steps[1..], up, down) || (steps[0] == up && down !in steps[1..])
  {
    assert TakenAt(steps, up, down, 0) <==> steps[0] == up && down !in steps[1..];
    hide TakenAt;
    if j :| TakenAt(steps, up, down, j) && j > 0 {
      TakenLater(steps, up, down, j);
    }
    if j :| TakenAt(steps[1..], up, down, j) {
      TakenNotBefore(steps[1..], up, down, j);
      TakenLater(steps, up, down, j + 1);
    }
    if j :| TakenAt(steps, up, down, j) && j < 0 {
      TakenNotBefore(steps, up, down, j);
    }
  }

  lemma TakenNotBefore(steps: seq<Step>, up: Step, down: Step, j: int)
    requires TakenAt(steps, up, down, j)
    ensures j >= 0
  {
  }

  lemma {:induction false} HistoryOfRun(w: World, steps: seq<Step>, last: World, key: nat)
    requires IsRun(w, steps, last)
    ensures key in last.store.flags <==>
      Since(steps, CompleteUpload(key), Expire(key)) || (key in w.store.flags && Expire(key) !in steps)
    ensures key in last.expired <==>
      Since(steps, Expire(key), CompleteUpload(key)) || (key in w.expired && CompleteUpload(key) !in steps)
    ensures key in last.completed <==> key in w.completed || CompleteUpload(key) in steps
    decreases |steps|
  {
    if steps != [] {
      var v := Next(w, steps[0]);
      HistoryOfRun(v, steps[1..], last, key);
      SinceFirst(steps, CompleteUpload(key), Expire(key));
      SinceFirst(steps, Expire(key), CompleteUpload(key));
      NextHistory(w, steps[0], key);
    }
  }

  lemma NextHistory(w: World, step: Step, key: nat)
    requires Enabled(w, step)
    ensures var v := Next(w, step);
      && (key in v.store.flags <==> step == CompleteUpload(key) || (key in w.store.flags && step != Expire(key)))
      && (key in v.expired <==> step == Expire(key) || (key in w.expired && step != CompleteUpload(key)))
      && (key in v.completed <==> key in w.completed || step == CompleteUpload(key))
  {
  }

  /** A flag is up exactly if its upload was completed and the flag has not expired since. */
  lemma FlagSinceCompletion(workers: nat, steps: seq<Step>, w: World, key: nat)
    requires IsRun(Start(workers), steps, w)
    ensures key in w.store.flags <==> Since(steps, CompleteUpload(key), Expire(key))
    ensures key in w.expired <==> Since(steps, Expire(key), CompleteUpload(key))
    ensures key in w.completed <==> CompleteUpload(key) in steps
  {
    HistoryOfRun(Start(workers), steps, w, key);
  }

  /** A job can be left waiting for a completed upload only if the flag of that upload has expired. */
  lemma StrandedOnlyByExpiry(workers: nat, steps: seq<Step>, w: World, key: nat)
    requires IsRun(Start(workers), steps, w) && CompleteUpload(key) in steps && Waiting(w.store, key) != []
    ensures Since(steps, Expire(key), CompleteUpload(key))
  {
    FlagSinceCompletion(workers, steps, w, key);
    StartInv(workers);
    RunInv(Start(workers), steps, w);
    assert KeyInv(w, key);
  }

  /** Right after a worker asked to park its job, something waits for the upload exactly if its flag is not up. */
  lemma ParkWaits(w: World, i: nat)
    requires Inv(w) && Enabled(w, AskToPark(i))
    ensures var raw := w.tasks[i].raw; var v := Next(w, AskToPark(i));
      && (Waiting(v.store, raw.key) != [] <==> raw.key !in v.store.flags)
      && (raw.key !in v.store.flags ==> Waiting(v.store, raw.key) == Waiting(w.store, raw.key) + [raw])
  {
    assert KeyInv(w, w.tasks[i].raw.key);
  }

  /** The steps that empty the waiting list of an upload. */
  predicate Wakes(step: Step, key: nat) {
    step == CompleteUpload(key) || step == ProcessPending(key)
  }

  /** A step that wakes leaves nothing waiting; any other one leaves what waits in its place. */
  lemma StepWaits(w: World, step: Step, key: nat)
    requires Enabled(w, step)
    ensures Wakes(step, key) ==> Waiting(Next(w, step).store, key) == []
    ensures !Wakes(step, key) ==> Waiting(w.store, key) <= Waiting(Next(w, step).store, key)
  {
    hide Next, NextStore, Waiting, Enabled;
    StoreOf(w, step);
    StoreWaits(w, step, key);
  }

  lemma StoreOf(w: World, step: Step)
    requires Enabled(w, step)
    ensures Next(w, step).store == NextStore(w, step)
  {
    hide NextStore;
  }

  lemma StoreWaits(w: World, step: Step, key: nat)
    requires Enabled(w, step)
    ensures Wakes(step, key) ==> Waiting(NextStore(w, step), key) == []
    ensures !Wakes(step, key) ==> Waiting(w.store, key) <= Waiting(NextStore(w, step), key)
  {
    hide Next, Reversed, RemoveFirst;
  }

  /** As long as no step wakes them, the parked jobs of an upload keep their places in its list. */
  lemma {:induction false} ParkedStay(w: World, steps: seq<Step>, last: World, key: nat)
    requires IsRun(w, steps, last) && forall j :: 0 <= j < |steps| ==> !Wakes(steps[j], key)
    ensures Waiting(w.store, key) <= Waiting(last.store, key)
    decreases |steps|
  {
    hide Next, Enabled;
    if steps != [] {
      StepWaits(w, steps[0], key);
      ParkedStay(Next(w, steps[0]), steps[1..], last, key);
    }
  }

  /** In every world of the run something waits for the upload. */
  ghost predicate WaitsThroughout(w: World, steps: seq<Step>, key: nat)
    decreases |steps|
  {
    Waiting(w.store, key) != [] &&
    (steps != [] ==> Enabled(w, steps[0]) && WaitsThroughout(Next(w, steps[0]), steps[1..], key))
  }

  lemma {:induction false} WaitingLasts(w: World, steps: seq<Step>, last: World, key: nat)
    requires IsRun(w, steps, last) && Waiting(w.store, key) != []
    ensures WaitsThroughout(w, steps, key) <==> forall j :: 0 <= j < |steps| ==> !Wakes(steps[j], key)
    decreases |steps|
  {
    hide Next, Enabled;
    if steps != [] {
      StepWaits(w, steps[0], key);
      if Wakes(steps[0], key) {
        assert !WaitsThroughout(Next(w, steps[0]), steps[1..], key);
      } else {
        WaitingLasts(Next(w, steps[0]), steps[1..], last, key);
        assert forall j :: 1 <= j < |steps| ==> steps[j] == steps[1..][j - 1];
      }
    }
  }

  /** When exactly a job that asked to park is stranded for the rest of a run: if and only if the flag was not
      up when it asked, and no later step completes the upload or processes what is pending for it. */
  lemma StrandedExactly(w: World, i: nat, steps: seq<Step>, last: World)
    requires Inv(w) && Enabled(w, AskToPark(i)) && IsRun(Next(w, AskToPark(i)), steps, last)
    ensures var key := w.tasks[i].raw.key;
      WaitsThroughout(Next(w, AskToPark(i)), steps, key) <==>
      key !in w.store.flags && forall j :: 0 <= j < |steps| ==> !Wakes(steps[j], key)
  {
    ParkWaits(w, i);
    var v, key := Next(w, AskToPark(i)), w.tasks[i].raw.key;
    assert v.store.flags == w.store.flags;
    if Waiting(v.store, key) != [] {
      WaitingLasts(v, steps, last, key);
    }
  }

  // The order of the jobs -----------------------------------------------------------------------------------

  function Dequeues(order: seq<nat>): seq<Step> {
    seq(|order|, k requires 0 <= k < |order| => Dequeue(order[k]))
  }

  function Submits(jobs: seq<Raw>): seq<Step> {
    seq(|jobs|, k requires 0 <= k < |jobs| => Submit(jobs[k]))
  }

  /** The jobs that a step puts into the queue, in the order in which it does. */
  function Added(w: World, step: Step): seq<Raw>
    requires Enabled(w, step)
  {
    match step
    case Submit(raw) => [raw]
    case GiveBack(i) => [w.tasks[i].raw]
    case PutBack(i) => [w.tasks[i].raw]
    case CompleteUpload(key) => Waiting(w.store, key)
    case ProcessPending(key) => Waiting(w.store, key)
    case _ => []
  }

  /** The job that is the k-th to be taken. */
  function Upcoming(queue: seq<Raw>, k: nat): Raw
    requires k < |queue|
  {
    queue[|queue| - 1 - k]
  }

  lemma QueueGrows(w: World, step: Step)
    requires Enabled(w, step) && !step.Dequeue?
    ensures Next(w, step).store.queue == Reversed(Added(w, step)) + w.store.queue
  {
    hide Next, RemoveFirst;
    StoreOf(w, step);
    ReversedOne(Added(w, step));
    assert [] + w.store.queue == w.store.queue;
  }

  lemma ReversedOne(s: seq<Raw>)
    ensures |s| == 1 ==> Reversed(s) == s
    ensures s == [] ==> Reversed(s) == s
  {
    if |s| == 1 {
      assert s[..0] == [];
    }
  }

  /** Workers that take one job after the other. */
  lemma {:induction false} DequeueRun(w: World, order: seq<nat>, last: World)
    requires IsRun(w, Dequeues(order), last)
    ensures |order| <= |w.store.queue| && |last.tasks| == |w.tasks|
    ensures forall k :: 0 <= k < |order| ==>
      order[k] < |w.tasks| && last.tasks[order[k]] == Running(Upcoming(w.store.queue, k))
    ensures forall j :: 0 <= j < |w.tasks| && !w.tasks[j].Idle? ==> last.tasks[j] == w.tasks[j]
    decreases |order|
  {
    if order != [] {
      var v := Next(w, Dequeues(order)[0]);
      assert Dequeues(order)[1..] == Dequeues(order[1..]);
      DequeueRun(v, order[1..], last);
      assert v.store.queue == w.store.queue[..|w.store.queue| - 1];
      assert v.tasks == w.tasks[order[0] := Running(w.store.queue[|w.store.queue| - 1])];
      assert forall k :: 1 <= k < |order| ==> order[k] == order[1..][k - 1];
    }
  }

  lemma RunHead(w: World, step: Step, rest: seq<Step>, last: World)
    requires IsRun(w, [step] + rest, last)
    ensures Enabled(w, step) && IsRun(Next(w, step), rest, last)
  {
    hide Next, Enabled;
    assert ([step] + rest)[1..] == rest;
  }

  /** Jobs that are submitted wait behind those that are queued, and nothing else changes for the workers. */
  lemma {:induction false} SubmitRun(w: World, jobs: seq<Raw>, rest: seq<Step>, last: World) returns (v: World)
    requires IsRun(w, Submits(jobs) + rest, last)
    ensures IsRun(v, rest, last) && v.tasks == w.tasks && v.store.queue == Reversed(jobs) + w.store.queue
    decreases |jobs|
  {
    hide IsRun;
    if jobs == [] {
      assert Submits(jobs) + rest == rest && Reversed(jobs) + w.store.queue == w.store.queue;
      v := w;
    } else {
      var next := Next(w, Submit(jobs[0]));
      assert Submits(jobs) + rest == [Submit(jobs[0])] + (Submits(jobs[1..]) + rest);
      RunHead(w, Submit(jobs[0]), Submits(jobs[1..]) + rest, last);
      v := SubmitRun(next, jobs[1..], rest, last);
      assert Reversed(jobs) + w.store.queue == Reversed(jobs[1..]) + ([jobs[0]] + w.store.queue);
    }
  }

  /** First in, first out: when jobs are submitted to an empty queue and then taken, the k-th worker to take one
      runs the k-th job submitted. */
  lemma FirstInFirstOut(w: World, jobs: seq<Raw>, order: seq<nat>, last: World)
    requires w.store.queue == [] && IsRun(w, Submits(jobs) + Dequeues(order), last)
    ensures |order| <= |jobs|
    ensures forall k :: 0 <= k < |order| ==> order[k] < |last.tasks| && last.tasks[order[k]] == Running(jobs[k])
  {
    hide *;
    var v := SubmitRun(w, jobs, Dequeues(order), last);
    DequeueRun(v, order, last);
    FromTheBack(jobs, v.store.queue);
  }

  lemma FromTheBack(jobs: seq<Raw>, queue: seq<Raw>)
    requires queue == Reversed(jobs) + []
    ensures |queue| == |jobs| && forall k :: 0 <= k < |jobs| ==> Upcoming(queue, k) == jobs[k]
  {
    hide Upcoming, Reversed;
    AddedBehind(jobs, [], queue);
  }

  lemma BackOfReversed(s: seq<Raw>, k: nat)
    requires k < |s|
    ensures Upcoming(Reversed(s), k) == s[k]
  {
    hide Reversed;
  }

  lemma BackOfBoth(front: seq<Raw>, queue: seq<Raw>, k: nat)
    requires k < |queue| + |front|
    ensures Upcoming(front + queue, k) == if k < |queue| then Upcoming(queue, k) else Upcoming(front, k - |queue|)
  {
  }

  lemma AddedAt(added: seq<Raw>, queue: seq<Raw>, k: nat)
    requires k < |queue| + |added|
    ensures Upcoming(Reversed(added) + queue, k) == if k < |queue| then Upcoming(queue, k) else added[k - |queue|]
  {
    hide Upcoming, Reversed;
    BackOfBoth(Reversed(added), queue, k);
    if k >= |queue| {
      BackOfReversed(added, k - |queue|);
    }
  }

  lemma AddedBehind(added: seq<Raw>, queue: seq<Raw>, more: seq<Raw>)
    requires more == Reversed(added) + queue
    ensures |more| == |queue| + |added|
    ensures forall k :: 0 <= k < |more| ==>
      Upcoming(more, k) == if k < |queue| then Upcoming(queue, k) else added[k - |queue|]
  {
    hide Upcoming, Reversed;
    forall k | 0 <= k < |more|
      ensures Upcoming(more, k) == if k < |queue| then Upcoming(queue, k) else added[k - |queue|]
    {
      AddedAt(added, queue, k);
    }
  }

  /** What a step puts into the queue is run after everything that was queued before, in the order in which it
      was put there, and what was queued before is run as if the step had not been. */
  lemma AddedRunLater(w: World, step: Step, order: seq<nat>, last: World, order': seq<nat>, last': World)
    requires Enabled(w, step) && !step.Dequeue? && IsRun(w, [step] + Dequeues(order), last)
    requires IsRun(w, Dequeues(order'), last') && (|order'| < |w.store.queue| ==> |order| <= |order'|)
    ensures |order| <= |w.store.queue| + |Added(w, step)|
    ensures forall k :: 0 <= k < |order| ==> order[k] < |last.tasks|
    ensures forall k :: 0 <= k < |order'| ==> order'[k] < |last'.tasks|
    ensures forall k :: 0 <= k < |order| && k < |w.store.queue| ==> last.tasks[order[k]] == last'.tasks[order'[k]]
    ensures forall k :: |w.store.queue| <= k < |order| ==>
      last.tasks[order[k]] == Running(Added(w, step)[k - |w.store.queue|])
  {
    hide *;
    RunHead(w, step, Dequeues(order), last);
    QueueGrows(w, step);
    AddedBehind(Added(w, step), w.store.queue, Next(w, step).store.queue);
    DequeueRun(Next(w, step), order, last);
    DequeueRun(w, order', last');
  }

  /** In particular a job that is submitted does not change which job is taken next. */
  lemma SubmitKeepsNext(w: World, raw: Raw, i: nat)
    requires Enabled(w, Dequeue(i))
    ensures Enabled(Next(w, Submit(raw)), Dequeue(i))
    ensures Next(Next(w, Submit(raw)), Dequeue(i)).tasks == Next(w, Dequeue(i)).tasks
  {
  }

  // Three runs ----------------------------------------------------------------------------------------------

  /** A run goes on from where its first step leads. */
  lemma Prepend(w: World, step: Step, v: World, steps: seq<Step>, last: World)
    requires Enabled(w, step) && v == Next(w, step) && IsRun(v, steps, last)
    ensures IsRun(w, [step] + steps, last)
  {
    hide Next, Enabled;
    assert ([step] + steps)[1..] == steps;
  }

  /** The only job of these runs. */
  const Job := Raw(0, 0)

  /** A world of these runs: one job, with the removals that are repeated. */
  function OneJob(store: Store, tasks: seq<Task>, repeated: multiset<Raw>, done: set<nat>, expired: set<nat>): World {
    World(store, tasks, multiset{Job}, multiset{}, repeated, done, expired)
  }

  lemma JobLists()
    ensures Reversed([Job]) == [Job] && Reversed<Raw>([]) == []
    ensures RemoveFirst([Job], Job) == [] && RemoveFirst([Job, Job], Job) == [Job]
  {
    assert Reversed<Raw>([]) == [];
    assert Reversed([Job]) == [Job] + Reversed<Raw>([]);
    assert [Job, Job][1..] == [Job] && [Job][1..] == [];
  }

  /** The run that strands a job: its upload completes, the flag expires, and only then does it ask to park. */
  function StrandingRun(): seq<Step> {
    [Submit(Job), CompleteUpload(0), Expire(0)] + [Dequeue(0), AskToPark(0), LeaveParked(0), RemoveAgain(Job)]
  }

  lemma ExpiryStrands() returns (w: World)
    ensures IsRun(Start(1), StrandingRun(), w)
    ensures 0 in w.completed && Waiting(w.store, 0) == [Job] && w.store.queue == [] && w.store.processing == []
    ensures w.tasks == [Idle] && w.unfinished == multiset{Job} && w.removals == w.repeated == multiset{}
  {
    hide IsRun, Next, Enabled, Start;
    w := OneJob(Store([], [], map[0 := [Job]], {}), [Idle], multiset{}, {0}, {0});
    ParkedLate();
    ExpiredStart([Dequeue(0), AskToPark(0), LeaveParked(0), RemoveAgain(Job)], w);
  }

  lemma ExpiredStart(steps: seq<Step>, last: World)
    requires IsRun(OneJob(Store([Job], [], map[], {}), [Idle], multiset{}, {0}, {0}), steps, last)
    ensures IsRun(Start(1), [Submit(Job), CompleteUpload(0), Expire(0)] + steps, last)
  {
    hide IsRun;
    JobLists();
    var w1 := OneJob(Store([Job], [], map[], {}), [Idle], multiset{}, {}, {});
    var w2 := OneJob(Store([Job], [], map[], {0}), [Idle], multiset{}, {0}, {});
    var w3 := OneJob(Store([Job], [], map[], {}), [Idle], multiset{}, {0}, {0});
    assert Next(Start(1), Submit(Job)) == w1;
    assert Next(w1, CompleteUpload(0)) == w2;
    assert Next(w2, Expire(0)) == w3;
    Prepend(w2, Expire(0), w3, steps, last);
    Prepend(w1, CompleteUpload(0), w2, [Expire(0)] + steps, last);
    Prepend(Start(1), Submit(Job), w1, [CompleteUpload(0)] + ([Expire(0)] + steps), last);
    assert [Submit(Job)] + ([CompleteUpload(0)] + ([Expire(0)] + steps))
      == [Submit(Job), CompleteUpload(0), Expire(0)] + steps;
  }

  lemma ParkedLate()
    ensures IsRun(OneJob(Store([Job], [], map[], {}), [Idle], multiset{}, {0}, {0}),
      [Dequeue(0), AskToPark(0), LeaveParked(0), RemoveAgain(Job)],
      OneJob(Store([], [], map[0 := [Job]], {}), [Idle], multiset{}, {0}, {0}))
  {
    hide IsRun;
    JobLists();
    var w3 := OneJob(Store([Job], [], map[], {}), [Idle], multiset{}, {0}, {0});
    var w4 := OneJob(Store([], [Job], map[], {}), [Running(Job)], multiset{}, {0}, {0});
    var w5 := OneJob(Store([], [Job], map[0 := [Job]], {}), [Parked(Job)], multiset{}, {0}, {0});
    var w6 := OneJob(Store([], [], map[0 := [Job]], {}), [Idle], multiset{Job}, {0}, {0});
    var w7 := OneJob(Store([], [], map[0 := [Job]], {}), [Idle], multiset{}, {0}, {0});
    assert Next(w3, Dequeue(0)) == w4;
    assert Waiting(w4.store, 0) + [Job] == [Job];
    assert Next(w4, AskToPark(0)) == w5;
    assert Next(w5, LeaveParked(0)) == w6;
    assert Next(w6, RemoveAgain(Job)) == w7;
    RunEnd(w7);
    Prepend(w6, RemoveAgain(Job), w7, [], w7);
    Prepend(w5, LeaveParked(0), w6, [RemoveAgain(Job)] + [], w7);
    Prepend(w4, AskToPark(0), w5, [LeaveParked(0)] + ([RemoveAgain(Job)] + []), w7);
    Prepend(w3, Dequeue(0), w4, [AskToPark(0)] + ([LeaveParked(0)] + ([RemoveAgain(Job)] + [])), w7);
    assert [Dequeue(0)] + ([AskToPark(0)] + ([LeaveParked(0)] + ([RemoveAgain(Job)] + [])))
      == [Dequeue(0), AskToPark(0), LeaveParked(0), RemoveAgain(Job)];
  }

  lemma RunEnd(w: World)
    ensures IsRun(w, [], w)
  {
  }

  /** The run in which a job that is put back is taken by another worker before the first one has removed it
      once more. */
  function PutBackRun(): seq<Step> {
    [Submit(Job), Dequeue(0)] + ([CompleteUpload(0), AskToPark(0), PutBack(0), Dequeue(1)] + [RemoveAgain(Job)])
  }

  /** The run in which a job is woken and taken by another worker before the first one has removed it twice. */
  function ParkedRun(): seq<Step> {
    [Submit(Job), Dequeue(0)] + ([AskToPark(0), CompleteUpload(0), Dequeue(1), LeaveParked(0)] + [RemoveAgain(Job)])
  }

  lemma RunParts()
    ensures PutBackRun() == [Submit(Job), Dequeue(0)]
      + ([CompleteUpload(0), AskToPark(0), PutBack(0), Dequeue(1)] + [RemoveAgain(Job)])
    ensures ParkedRun() == [Submit(Job), Dequeue(0)]
      + ([AskToPark(0), CompleteUpload(0), Dequeue(1), LeaveParked(0)] + [RemoveAgain(Job)])
  {
  }

  /** Both runs end with a job that is being worked on and is in no list. */
  lemma RemovedTwice() returns (w: World)
    ensures IsRun(Start(2), PutBackRun(), w) && IsRun(Start(2), ParkedRun(), w)
    ensures w.tasks == [Idle, Running(Job)] && w.unfinished == multiset{Job} && Copies(w.store, Job) == 0
    ensures !ListedThroughout(Start(2), PutBackRun(), Job) && !ListedThroughout(Start(2), ParkedRun(), Job)
  {
    hide *;
    FinalCopies();
    RunParts();
    w := OneJob(Store([], [], map[], {0}), [Idle, Running(Job)], multiset{}, {0}, {});
    RemovedAgain();
    TakenAfterPutBack([RemoveAgain(Job)], w);
    TakenWhileParked([RemoveAgain(Job)], w);
    TakenFirst([CompleteUpload(0), AskToPark(0), PutBack(0), Dequeue(1)] + [RemoveAgain(Job)], w);
    TakenFirst([AskToPark(0), CompleteUpload(0), Dequeue(1), LeaveParked(0)] + [RemoveAgain(Job)], w);
    EndListed(Start(2), PutBackRun(), w, Job);
    EndListed(Start(2), ParkedRun(), w, Job);
  }

  /** The final world of both runs. */
  lemma FinalCopies()
    ensures var w := OneJob(Store([], [], map[], {0}), [Idle, Running(Job)], multiset{}, {0}, {});
      w.tasks == [Idle, Running(Job)] && w.unfinished == multiset{Job} && Copies(w.store, Job) == 0 && !Listed(w, Job)
  {
    var w := OneJob(Store([], [], map[], {0}), [Idle, Running(Job)], multiset{}, {0}, {});
    assert Waiting(w.store, 0) == [];
    CountNone(Job);
  }

  lemma {:induction false} EndListed(w: World, steps: seq<Step>, last: World, raw: Raw)
    requires IsRun(w, steps, last)
    ensures ListedThroughout(w, steps, raw) ==> Listed(last, raw)
    decreases |steps|
  {
    hide Next, Enabled, Listed;
    if steps != [] && ListedThroughout(w, steps, raw) {
      EndListed(Next(w, steps[0]), steps[1..], last, raw);
    }
  }

  lemma TakenFirst(steps: seq<Step>, last: World)
    requires IsRun(OneJob(Store([], [Job], map[], {}), [Running(Job), Idle], multiset{}, {}, {}), steps, last)
    ensures IsRun(Start(2), [Submit(Job), Dequeue(0)] + steps, last)
  {
    hide IsRun;
    var w1 := OneJob(Store([Job], [], map[], {}), [Idle, Idle], multiset{}, {}, {});
    var w2 := OneJob(Store([], [Job], map[], {}), [Running(Job), Idle], multiset{}, {}, {});
    assert Next(Start(2), Submit(Job)) == w1;
    assert Next(w1, Dequeue(0)) == w2;
    Prepend(w1, Dequeue(0), w2, steps, last);
    Prepend(Start(2), Submit(Job), w1, [Dequeue(0)] + steps, last);
    assert [Submit(Job)] + ([Dequeue(0)] + steps) == [Submit(Job), Dequeue(0)] + steps;
  }

  lemma TakenAfterPutBack(steps: seq<Step>, last: World)
    requires IsRun(OneJob(Store([], [Job], map[], {0}), [Idle, Running(Job)], multiset{Job}, {0}, {}), steps, last)
    ensures IsRun(OneJob(Store([], [Job], map[], {}), [Running(Job), Idle], multiset{}, {}, {}),
      [CompleteUpload(0), AskToPark(0), PutBack(0), Dequeue(1)] + steps, last)
  {
    hide IsRun;
    JobLists();
    var w2 := OneJob(Store([], [Job], map[], {}), [Running(Job), Idle], multiset{}, {}, {});
    var w3 := OneJob(Store([], [Job], map[], {0}), [Running(Job), Idle], multiset{}, {0}, {});
    var w4 := OneJob(Store([], [Job], map[], {0}), [Refused(Job), Idle], multiset{}, {0}, {});
    var w5 := OneJob(Store([Job], [], map[], {0}), [Idle, Idle], multiset{Job}, {0}, {});
    var w6 := OneJob(Store([], [Job], map[], {0}), [Idle, Running(Job)], multiset{Job}, {0}, {});
    assert Next(w2, CompleteUpload(0)) == w3;
    assert Next(w3, AskToPark(0)) == w4;
    assert Next(w4, PutBack(0)) == w5;
    assert Next(w5, Dequeue(1)) == w6;
    Prepend(w5, Dequeue(1), w6, steps, last);
    Prepend(w4, PutBack(0), w5, [Dequeue(1)] + steps, last);
    Prepend(w3, AskToPark(0), w4, [PutBack(0)] + ([Dequeue(1)] + steps), last);
    Prepend(w2, CompleteUpload(0), w3, [AskToPark(0)] + ([PutBack(0)] + ([Dequeue(1)] + steps)), last);
    assert [CompleteUpload(0)] + ([AskToPark(0)] + ([PutBack(0)] + ([Dequeue(1)] + steps)))
      == [CompleteUpload(0), AskToPark(0), PutBack(0), Dequeue(1)] + steps;
  }

  lemma TakenWhileParked(steps: seq<Step>, last: World)
    requires IsRun(OneJob(Store([], [Job], map[], {0}), [Idle, Running(Job)], multiset{Job}, {0}, {}), steps, last)
    ensures IsRun(OneJob(Store([], [Job], map[], {}), [Running(Job), Idle], multiset{}, {}, {}),
      [AskToPark(0), CompleteUpload(0), Dequeue(1), LeaveParked(0)] + steps, last)
  {
    hide IsRun, Next, Enabled;
    var w2 := OneJob(Store([], [Job], map[], {}), [Running(Job), Idle], multiset{}, {}, {});
    var w3 := OneJob(Store([], [Job], map[0 := [Job]], {}), [Parked(Job), Idle], multiset{}, {}, {});
    var w4 := OneJob(Store([Job], [Job], map[], {0}), [Parked(Job), Idle], multiset{}, {0}, {});
    var w5 := OneJob(Store([], [Job, Job], map[], {0}), [Parked(Job), Running(Job)], multiset{}, {0}, {});
    var w6 := OneJob(Store([], [Job], map[], {0}), [Idle, Running(Job)], multiset{Job}, {0}, {});
    ParkedAndWoken(w2, w3, w4);
    TakenAndLeft(w4, w5, w6);
    Prepend(w5, LeaveParked(0), w6, steps, last);
    Prepend(w4, Dequeue(1), w5, [LeaveParked(0)] + steps, last);
    Prepend(w3, CompleteUpload(0), w4, [Dequeue(1)] + ([LeaveParked(0)] + steps), last);
    Prepend(w2, AskToPark(0), w3, [CompleteUpload(0)] + ([Dequeue(1)] + ([LeaveParked(0)] + steps)), last);
    assert [AskToPark(0)] + ([CompleteUpload(0)] + ([Dequeue(1)] + ([LeaveParked(0)] + steps)))
      == [AskToPark(0), CompleteUpload(0), Dequeue(1), LeaveParked(0)] + steps;
  }

  lemma ParkedAndWoken(w2: World, w3: World, w4: World)
    requires w2 == OneJob(Store([], [Job], map[], {}), [Running(Job), Idle], multiset{}, {}, {})
    requires w3 == OneJob(Store([], [Job], map[0 := [Job]], {}), [Parked(Job), Idle], multiset{}, {}, {})
    requires w4 == OneJob(Store([Job], [Job], map[], {0}), [Parked(Job), Idle], multiset{}, {0}, {})
    ensures Enabled(w2, AskToPark(0)) && Next(w2, AskToPark(0)) == w3
    ensures Enabled(w3, CompleteUpload(0)) && Next(w3, CompleteUpload(0)) == w4
  {
    JobLists();
    assert Waiting(w2.store, 0) + [Job] == [Job];
  }

  lemma TakenAndLeft(w4: World, w5: World, w6: World)
    requires w4 == OneJob(Store([Job], [Job], map[], {0}), [Parked(Job), Idle], multiset{}, {0}, {})
    requires w5 == OneJob(Store([], [Job, Job], map[], {0}), [Parked(Job), Running(Job)], multiset{}, {0}, {})
    requires w6 == OneJob(Store([], [Job], map[], {0}), [Idle, Running(Job)], multiset{Job}, {0}, {})
    ensures Enabled(w4, Dequeue(1)) && Next(w4, Dequeue(1)) == w5
    ensures Enabled(w5, LeaveParked(0)) && Next(w5, LeaveParked(0)) == w6
  {
    JobLists();
  }

  lemma RemovedAgain()
    ensures IsRun(OneJob(Store([], [Job], map[], {0}), [Idle, Running(Job)], multiset{Job}, {0}, {}),
      [RemoveAgain(Job)], OneJob(Store([], [], map[], {0}), [Idle, Running(Job)], multiset{}, {0}, {}))
  {
    hide IsRun;
    JobLists();
    var v := OneJob(Store([], [Job], map[], {0}), [Idle, Running(Job)], multiset{Job}, {0}, {});
    var w := OneJob(Store([], [], map[], {0}), [Idle, Running(Job)], multiset{}, {0}, {});
    RunEnd(w);
    assert Next(v, RemoveAgain(Job)) == w;
    Prepend(v, RemoveAgain(Job), w, [], w);
    assert [RemoveAgain(Job)] + [] == [RemoveAgain(Job)];
  }
}

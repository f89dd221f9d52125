/** The cooperative scheduler: a run queue whose processes hold references to the objects that
    contain them, and whose steps may add and remove processes, or run the scheduler again. */
module Process {
  import opened Wrappers

  type Pid = nat
  type Ref = nat

  /** Which object contains each process (if it is counted), and whether it is rescheduled. */
  datatype Config = Config(refOf: Pid -> Option<Ref>, reschedule: Pid -> bool)

  /** What running code may do; a step carries what the process that is executed does in turn. */
  datatype Action = Add(p: Pid) | Del(p: Pid) | Get(r: Ref) | Put(r: Ref) | Step(body: seq<Action>)

  /** `owners` counts references held elsewhere, `frames` the processes that are mid-step and
      `log` those executed so far.  An object starts with count 0 and one owner. */
  datatype State = State(queue: seq<Pid>, counts: map<Ref, int>, freed: seq<Ref>,
                         owners: map<Ref, int>, frames: seq<Pid>, log: seq<Pid>)

  function CountOf(s: State, r: Ref): int { if r in s.counts then s.counts[r] else 0 }

  function OwnersOf(s: State, r: Ref): int { if r in s.owners then s.owners[r] else 1 }

  function RefGet(s: State, r: Option<Ref>): State {
    if r.None? then s else s.(counts := s.counts[r.value := CountOf(s, r.value) + 1])
  }

  /** The object is freed when its count reaches -1, and not again below that. */
  function RefPut(s: State, r: Option<Ref>): State {
    if r.None? then s else
      var n := CountOf(s, r.value) - 1;
      s.(counts := s.counts[r.value := n], freed := if n == -1 then s.freed + [r.value] else s.freed)
  }

  function Remove(q: seq<Pid>, p: Pid): seq<Pid> {
    if q == [] then [] else if q[0] == p then q[1..] else [q[0]] + Remove(q[1..], p)
  }

  function AddTo(cfg: Config, s: State, p: Pid): State {
    if p in s.queue then s else var t := RefGet(s, cfg.refOf(p)); t.(queue := t.queue + [p])
  }

  function DelFrom(cfg: Config, s: State, p: Pid): State {
    if p in s.queue then RefPut(s.(queue := Remove(s.queue, p)), cfg.refOf(p)) else s
  }

  /** Up to the call of the process's own step method. */
  function Begin(cfg: Config, s: State): State
    requires s.queue != []
  {
    var p := s.queue[0];
    var t := RefGet(s, cfg.refOf(p));
    var u := if cfg.reschedule(p) then t.(queue := t.queue[1..] + [p]) else DelFrom(cfg, t, p);
    u.(frames := s.frames + [p], log := s.log + [p])
  }

  function Do(cfg: Config, s: State, a: Action): State
    decreases a
  {
    match a
    case Add(p) => AddTo(cfg, s, p)
    case Del(p) => DelFrom(cfg, s, p)
    case Get(r) => RefGet(s.(owners := s.owners[r := OwnersOf(s, r) + 1]), Some(r))
    case Put(r) => RefPut(s.(owners := s.owners[r := OwnersOf(s, r) - 1]), Some(r))
    case Step(body) =>
      if s.queue == [] then s
      else RefPut(Run(cfg, Begin(cfg, s), body), cfg.refOf(s.queue[0])).(frames := s.frames)
  }

  function Run(cfg: Config, s: State, acts: seq<Action>): State
    decreases acts
  {
    if acts == [] then s else Run(cfg, Do(cfg, s, acts[0]), acts[1..])
  }

  /** The scheduler's own variables, updated in place. */
  class Scheduler {
    const cfg: Config
    var queue: seq<Pid>
    var counts: map<Ref, int>
    var freed: seq<Ref>
    ghost var owners: map<Ref, int>
    ghost var frames: seq<Pid>
    ghost var log: seq<Pid>

    ghost function Now(): State
      reads this
    {
      State(queue, counts, freed, owners, frames, log)
    }

    method RefIncrement(r: Option<Ref>)
      modifies `counts
      ensures Now() == RefGet(old(Now()), r)
    {
      if r.Some? { counts := counts[r.value := (if r.value in counts then counts[r.value] else 0) + 1]; }
    }

    method RefDecrement(r: Option<Ref>)
      modifies `counts, `freed
      ensures Now() == RefPut(old(Now()), r)
    {
      if r.None? { return; }
      var n := (if r.value in counts then counts[r.value] else 0) - 1;
      counts := counts[r.value := n];
      if n >= 0 || n < -1 { return; }
      freed := freed + [r.value];
    }

    method ProcessAdd(p: Pid)
      modifies `queue, `counts
      ensures Now() == AddTo(cfg, old(Now()), p)
    {
      if p !in queue {
        RefIncrement(cfg.refOf(p));
        queue := queue + [p];
      }
    }

    method ProcessDel(p: Pid)
      modifies `queue, `counts, `freed
      ensures Now() == DelFrom(cfg, old(Now()), p)
    {
      if p in queue {
        queue := Remove(queue, p);
        RefDecrement(cfg.refOf(p));
      }
    }

    /** Execute the first process in the queue; `body` is what it does. */
    method SingleStep(body: seq<Action>)
      modifies this
      ensures Now() == Do(cfg, old(Now()), Step(body))
      decreases Step(body)
    {
      if queue == [] { return; }
      var p := queue[0];
      ghost var frames0 := frames;
      RefIncrement(cfg.refOf(p));
      if cfg.reschedule(p) {
        queue := queue[1..];
        queue := queue + [p];
      } else {
        ProcessDel(p);
      }
      frames, log := frames + [p], log + [p];
      Perform(body);
      RefDecrement(cfg.refOf(p));
      frames := frames0;
    }

    method Perform(acts: seq<Action>)
      modifies this
      ensures Now() == Run(cfg, old(Now()), acts)
      decreases acts
    {
      if acts == [] { return; }
      match acts[0] {
        case Add(p) => ProcessAdd(p);
        case Del(p) => ProcessDel(p);
        case Get(r) =>
          owners := owners[r := OwnersOf(Now(), r) + 1];
          RefIncrement(Some(r));
        case Put(r) =>
          owners := owners[r := OwnersOf(Now(), r) - 1];
          RefDecrement(Some(r));
        case Step(body) =>
          assert acts[0] == Step(body);
          SingleStep(body);
      }
      Perform(acts[1..]);
    }
  }

  // ----- References -----

  ghost predicate NoDup(q: seq<Pid>) { forall i, j :: 0 <= i < j < |q| ==> q[i] != q[j] }

  /** How many of these processes live in object `r`. */
  ghost function Held(cfg: Config, q: seq<Pid>, r: Ref): nat {
    if q == [] then 0 else Held(cfg, q[..|q| - 1], r) + if cfg.refOf(q[|q| - 1]) == Some(r) then 1 else 0
  }

  ghost predicate Alive(s: State, r: Ref) { CountOf(s, r) >= 0 }

  /** Every reference is accounted for, and the object has been freed exactly when none is left. */
  ghost predicate Inv(cfg: Config, s: State, r: Ref) {
    && NoDup(s.queue)
    && OwnersOf(s, r) >= 0
    && CountOf(s, r) + 1 == OwnersOf(s, r) + Held(cfg, s.queue, r) + Held(cfg, s.frames, r)
    && multiset(s.freed)[r] == if Alive(s, r) then 0 else 1
  }

  /** What callers owe: only live objects are used, and only references that are held are dropped. */
  ghost predicate Legal(cfg: Config, s: State, a: Action)
    decreases a
  {
    match a
    case Add(p) => cfg.refOf(p).Some? ==> Alive(s, cfg.refOf(p).value)
    case Del(p) => true
    case Get(r) => Alive(s, r)
    case Put(r) => OwnersOf(s, r) > 0
    case Step(body) => s.queue != [] ==> LegalRun(cfg, Begin(cfg, s), body)
  }

  ghost predicate LegalRun(cfg: Config, s: State, acts: seq<Action>)
    decreases acts
  {
    acts != [] ==> Legal(cfg, s, acts[0]) && LegalRun(cfg, Do(cfg, s, acts[0]), acts[1..])
  }

  lemma HeldSnoc(cfg: Config, q: seq<Pid>, p: Pid, r: Ref)
    ensures Held(cfg, q + [p], r) == Held(cfg, q, r) + if cfg.refOf(p) == Some(r) then 1 else 0
  {
    assert (q + [p])[..|q|] == q;
  }

  lemma {:induction false} HeldConcat(cfg: Config, a: seq<Pid>, b: seq<Pid>, r: Ref)
    ensures Held(cfg, a + b, r) == Held(cfg, a, r) + Held(cfg, b, r)
  {
    if b == [] {
      assert a + b == a;
    } else {
      var b', p := b[..|b| - 1], b[|b| - 1];
      assert a + b == (a + b') + [p] && b == b' + [p];
      HeldSnoc(cfg, a + b', p, r);
      HeldSnoc(cfg, b', p, r);
      HeldConcat(cfg, a, b', r);
    }
  }

  lemma {:induction false} RemoveMeaning(q: seq<Pid>, p: Pid) returns (i: nat)
    requires p in q
    ensures i < |q| && q[i] == p && Remove(q, p) == q[..i] + q[i + 1..]
  {
    if q[0] == p {
      i := 0;
    } else {
      var k := RemoveMeaning(q[1..], p);
      i := k + 1;
      assert [q[0]] + q[1..][..k] == q[..i] && q[1..][k + 1..] == q[i + 1..];
    }
  }

  lemma DropDistinct(q: seq<Pid>, i: nat)
    requires i < |q| && NoDup(q)
    ensures NoDup(q[..i] + q[i + 1..]) && q[i] !in q[..i] + q[i + 1..]
  {
    var d := q[..i] + q[i + 1..];
    assert forall k :: 0 <= k < |d| ==> d[k] == q[if k < i then k else k + 1];
  }

  lemma DropHeld(cfg: Config, q: seq<Pid>, i: nat, r: Ref)
    requires i < |q|
    ensures Held(cfg, q, r) == Held(cfg, q[..i] + q[i + 1..], r) + if cfg.refOf(q[i]) == Some(r) then 1 else 0
  {
    HeldConcat(cfg, q[..i], q[i + 1..], r);
    HeldConcat(cfg, q[..i] + [q[i]], q[i + 1..], r);
    HeldSnoc(cfg, q[..i], q[i], r);
    assert q == (q[..i] + [q[i]]) + q[i + 1..];
  }

  lemma RemoveHeld(cfg: Config, q: seq<Pid>, p: Pid, r: Ref)
    requires p in q && NoDup(q)
    ensures NoDup(Remove(q, p)) && p !in Remove(q, p)
    ensures Held(cfg, q, r) == Held(cfg, Remove(q, p), r) + if cfg.refOf(p) == Some(r) then 1 else 0
  {
    var i := RemoveMeaning(q, p);
    DropDistinct(q, i);
    DropHeld(cfg, q, i, r);
  }

  lemma AddKeeps(cfg: Config, s: State, p: Pid, r: Ref)
    requires Inv(cfg, s, r) && Legal(cfg, s, Add(p))
    ensures Inv(cfg, AddTo(cfg, s, p), r)
  {
    HeldSnoc(cfg, s.queue, p, r);
  }

  lemma DelKeeps(cfg: Config, s: State, p: Pid, r: Ref)
    requires Inv(cfg, s, r)
    ensures Inv(cfg, DelFrom(cfg, s, p), r)
  {
    if p in s.queue { RemoveHeld(cfg, s.queue, p, r); }
  }

  lemma Rotate(cfg: Config, q: seq<Pid>, r: Ref)
    requires q != [] && NoDup(q)
    ensures NoDup(q[1..] + [q[0]]) && Held(cfg, q[1..] + [q[0]], r) == Held(cfg, q, r)
  {
    hide Held, NoDup;
    HeldConcat(cfg, [q[0]], q[1..], r);
    HeldConcat(cfg, q[1..], [q[0]], r);
    assert q == [q[0]] + q[1..];
    RotateDistinct(q);
  }

  lemma RotateDistinct(q: seq<Pid>)
    requires q != [] && NoDup(q)
    ensures NoDup(q[1..] + [q[0]])
  {
  }

  lemma PushKeeps(cfg: Config, s: State, p: Pid, log: seq<Pid>, r: Ref)
    requires Inv(cfg, s, r) && p in s.queue
    ensures Inv(cfg, RefGet(s, cfg.refOf(p)).(frames := s.frames + [p], log := log), r)
  {
    hide Held, NoDup;
    HeldSnoc(cfg, s.frames, p, r);
    if cfg.refOf(p) == Some(r) { HeldIn(cfg, s.queue, p, r); }
  }

  lemma BeginKeeps(cfg: Config, s: State, r: Ref)
    requires Inv(cfg, s, r) && s.queue != []
    ensures Inv(cfg, Begin(cfg, s), r)
  {
    var p := s.queue[0];
    var t := RefGet(s, cfg.refOf(p)).(frames := s.frames + [p], log := s.log + [p]);
    PushKeeps(cfg, s, p, s.log + [p], r);
    hide Inv, Held;
    if cfg.reschedule(p) {
      RotateKeeps(cfg, t, r);
      assert Begin(cfg, s) == t.(queue := t.queue[1..] + [t.queue[0]]);
    } else {
      DelKeeps(cfg, t, p, r);
      assert Begin(cfg, s) == DelFrom(cfg, t, p);
    }
  }

  lemma RotateKeeps(cfg: Config, s: State, r: Ref)
    requires Inv(cfg, s, r) && s.queue != []
    ensures Inv(cfg, s.(queue := s.queue[1..] + [s.queue[0]]), r)
  {
    Rotate(cfg, s.queue, r);
  }

  lemma EndKeeps(cfg: Config, s: State, p: Pid, frames: seq<Pid>, r: Ref)
    requires Inv(cfg, s, r) && s.frames == frames + [p]
    ensures Inv(cfg, RefPut(s, cfg.refOf(p)).(frames := frames), r)
  {
    HeldSnoc(cfg, frames, p, r);
  }

  lemma {:induction false} FramesKept(cfg: Config, s: State, acts: seq<Action>)
    ensures Run(cfg, s, acts).frames == s.frames
    decreases acts
  {
    if acts != [] { FramesKept(cfg, Do(cfg, s, acts[0]), acts[1..]); }
  }

  lemma {:induction false} DoKeeps(cfg: Config, s: State, a: Action, r: Ref)
    requires Inv(cfg, s, r) && Legal(cfg, s, a)
    ensures Inv(cfg, Do(cfg, s, a), r)
    decreases a
  {
    match a
    case Add(p) => AddKeeps(cfg, s, p, r);
    case Del(p) => DelKeeps(cfg, s, p, r);
    case Get(_) =>
    case Put(_) =>
    case Step(body) =>
      if s.queue != [] {
        BeginKeeps(cfg, s, r);
        RunKeeps(cfg, Begin(cfg, s), body, r);
        FramesKept(cfg, Begin(cfg, s), body);
        EndKeeps(cfg, Run(cfg, Begin(cfg, s), body), s.queue[0], s.frames, r);
      }
  }

  lemma {:induction false} RunKeeps(cfg: Config, s: State, acts: seq<Action>, r: Ref)
    requires Inv(cfg, s, r) && LegalRun(cfg, s, acts)
    ensures Inv(cfg, Run(cfg, s, acts), r)
    decreases acts
  {
    if acts != [] {
      DoKeeps(cfg, s, acts[0], r);
      RunKeeps(cfg, Do(cfg, s, acts[0]), acts[1..], r);
    }
  }

  /** Every state passed through, including those inside steps. */
  ghost function Trace(cfg: Config, s: State, acts: seq<Action>): seq<State>
    decreases acts
  {
    [s] + if acts == [] then [] else Inside(cfg, s, acts[0]) + Trace(cfg, Do(cfg, s, acts[0]), acts[1..])
  }

  ghost function Inside(cfg: Config, s: State, a: Action): seq<State>
    decreases a
  {
    if a.Step? && s.queue != [] then Trace(cfg, Begin(cfg, s), a.body) else []
  }

  lemma {:induction false} TraceKeeps(cfg: Config, s: State, acts: seq<Action>, r: Ref)
    requires Inv(cfg, s, r) && LegalRun(cfg, s, acts)
    ensures forall t :: t in Trace(cfg, s, acts) ==> Inv(cfg, t, r)
    decreases acts
  {
    if acts != [] {
      var a := acts[0];
      if a.Step? && s.queue != [] {
        BeginKeeps(cfg, s, r);
        TraceKeeps(cfg, Begin(cfg, s), a.body, r);
      }
      DoKeeps(cfg, s, a, r);
      TraceKeeps(cfg, Do(cfg, s, a), acts[1..], r);
    }
  }

  lemma {:induction false} HeldIn(cfg: Config, q: seq<Pid>, p: Pid, r: Ref)
    requires p in q && cfg.refOf(p) == Some(r)
    ensures Held(cfg, q, r) > 0
  {
    if q[|q| - 1] != p {
      assert p in q[..|q| - 1];
      HeldIn(cfg, q[..|q| - 1], p, r);
    }
  }

  /** In every run from the start, an object is freed at most once, and never while one of its
      processes is queued or mid-step. */
  lemma NeverFreedWhileRunning(cfg: Config, acts: seq<Action>, t: State, p: Pid, r: Ref)
    requires LegalRun(cfg, State([], map[], [], map[], [], []), acts)
    requires t in Trace(cfg, State([], map[], [], map[], [], []), acts)
    ensures NoDup(t.queue) && multiset(t.freed)[r] <= 1
    ensures cfg.refOf(p) == Some(r) && (p in t.queue || p in t.frames) ==> r !in t.freed
    ensures r in t.freed <==> OwnersOf(t, r) == 0 && Held(cfg, t.queue, r) == 0 && Held(cfg, t.frames, r) == 0
  {
    TraceKeeps(cfg, State([], map[], [], map[], [], []), acts, r);
    if cfg.refOf(p) == Some(r) {
      if p in t.queue { HeldIn(cfg, t.queue, p, r); }
      if p in t.frames { HeldIn(cfg, t.frames, p, r); }
    }
  }

  // ----- Fairness -----

  ghost predicate Removes(a: Action, x: Pid)
    decreases a
  {
    a == Del(x) || (a.Step? && RunRemoves(a.body, x))
  }

  ghost predicate RunRemoves(acts: seq<Action>, x: Pid)
    decreases acts
  {
    acts != [] && (Removes(acts[0], x) || RunRemoves(acts[1..], x))
  }

  /** `x` has been executed between `s` and `t`, or is still queued no further back than `n`. */
  ghost predicate Progress(s: State, t: State, x: Pid, n: int) {
    && s.log <= t.log
    && (x in t.log[|s.log|..] || exists i :: 0 <= i < |t.queue| && t.queue[i] == x && i <= n)
  }

  ghost function Steps(acts: seq<Action>): nat {
    if acts == [] then 0 else (if acts[0].Step? then 1 else 0) + Steps(acts[1..])
  }

  lemma DelProgress(cfg: Config, s: State, p: Pid, x: Pid, n: nat)
    requires n < |s.queue| && s.queue[n] == x && p != x
    ensures Progress(s, DelFrom(cfg, s, p), x, n)
  {
    var t := DelFrom(cfg, s, p);
    if p in s.queue {
      var i := RemoveMeaning(s.queue, p);
      var k := if i < n then n - 1 else n;
      assert t.queue == s.queue[..i] + s.queue[i + 1..];
      assert t.queue[k] == x;
    }
  }

  lemma BeginProgress(cfg: Config, s: State, x: Pid, n: nat)
    requires n < |s.queue| && s.queue[n] == x && s.queue[0] != x
    ensures n > 0 && n - 1 < |Begin(cfg, s).queue| && Begin(cfg, s).queue[n - 1] == x
  {
  }

  lemma ProgressChain(s: State, t: State, u: State, x: Pid, n: int, m: int)
    requires s.log <= t.log && Progress(t, u, x, m) && m <= n
    ensures Progress(s, u, x, n)
  {
    assert t.log[|s.log|..] <= u.log[|s.log|..];
    assert u.log[|t.log|..] == u.log[|s.log|..][|t.log| - |s.log|..];
  }

  lemma LogGrows(s: State, t: State, u: State, x: Pid, n: int)
    requires s.log <= t.log <= u.log && x in t.log[|s.log|..]
    ensures Progress(s, u, x, n)
  {
    var i :| 0 <= i < |t.log[|s.log|..]| && t.log[|s.log|..][i] == x;
    assert u.log[|s.log|..][i] == u.log[|s.log| + i] == t.log[|s.log| + i];
  }

  lemma {:induction false} LogKept(cfg: Config, s: State, acts: seq<Action>)
    ensures s.log <= Run(cfg, s, acts).log
    decreases acts
  {
    if acts != [] {
      var a := acts[0];
      if a.Step? && s.queue != [] { LogKept(cfg, Begin(cfg, s), a.body); }
      LogKept(cfg, Do(cfg, s, a), acts[1..]);
    }
  }

  lemma {:induction false} DoProgress(cfg: Config, s: State, a: Action, x: Pid, n: nat)
    requires n < |s.queue| && s.queue[n] == x && !Removes(a, x)
    ensures Progress(s, Do(cfg, s, a), x, if a.Step? then n - 1 else n)
    decreases a
  {
    match a
    case Add(p) => assert Do(cfg, s, a).queue[n] == x;
    case Del(p) => DelProgress(cfg, s, p, x, n);
    case Get(_) => assert Do(cfg, s, a).queue[n] == x;
    case Put(_) => assert Do(cfg, s, a).queue[n] == x;
    case Step(body) =>
      var b := Begin(cfg, s);
      var e := Run(cfg, b, body);
      LogKept(cfg, b, body);
      if s.queue[0] == x {
        assert b.log[|s.log|..] == [x];
        LogGrows(s, b, e, x, n - 1);
      } else {
        BeginProgress(cfg, s, x, n);
        RunProgress(cfg, b, body, x, n - 1);
        ProgressChain(s, b, e, x, n - 1, n - 1 - Steps(body));
      }
  }

  /** Each top-level step brings a queued process forward by one place, or executes it. */
  lemma {:induction false} RunProgress(cfg: Config, s: State, acts: seq<Action>, x: Pid, n: nat)
    requires n < |s.queue| && s.queue[n] == x && !RunRemoves(acts, x)
    ensures Progress(s, Run(cfg, s, acts), x, n - Steps(acts))
    decreases acts
  {
    if acts == [] {
      assert s.queue[n] == x;
    } else {
      var a := acts[0];
      var t, u := Do(cfg, s, a), Run(cfg, s, acts);
      DoProgress(cfg, s, a, x, n);
      LogKept(cfg, t, acts[1..]);
      if x in t.log[|s.log|..] {
        LogGrows(s, t, u, x, n - Steps(acts));
      } else {
        var i :| 0 <= i < |t.queue| && t.queue[i] == x && i <= if a.Step? then n - 1 else n;
        RunProgress(cfg, t, acts[1..], x, i);
        ProgressChain(s, t, u, x, n - Steps(acts), i - Steps(acts[1..]));
      }
    }
  }

  /** A process at position `n` runs within `n + 1` top-level steps, unless it is removed. */
  lemma Fair(cfg: Config, s: State, acts: seq<Action>, x: Pid, n: nat)
    requires n < |s.queue| && s.queue[n] == x && !RunRemoves(acts, x) && Steps(acts) > n
    ensures s.log <= Run(cfg, s, acts).log && x in Run(cfg, s, acts).log[|s.log|..]
  {
    RunProgress(cfg, s, acts, x, n);
  }

  // ----- What adding, removing and stepping do to the queue -----

  /** Adding again and removing again have no effect. */
  lemma AddDelIdempotent(cfg: Config, s: State, p: Pid)
    requires NoDup(s.queue)
    ensures AddTo(cfg, AddTo(cfg, s, p), p) == AddTo(cfg, s, p) && p in AddTo(cfg, s, p).queue
    ensures DelFrom(cfg, DelFrom(cfg, s, p), p) == DelFrom(cfg, s, p) && p !in DelFrom(cfg, s, p).queue
  {
    RemoveOnly(s.queue, p);
  }

  /** Removing a process that was just added gives back queue and reference counts, and frees nothing. */
  lemma AddThenDel(cfg: Config, s: State, p: Pid)
    requires p !in s.queue && (cfg.refOf(p).Some? ==> Alive(s, cfg.refOf(p).value))
    ensures var t := DelFrom(cfg, AddTo(cfg, s, p), p);
            t.queue == s.queue && t.freed == s.freed && forall r :: CountOf(t, r) == CountOf(s, r)
  {
    RemoveAdded(s.queue, p);
  }

  lemma {:induction false} RemoveAdded(q: seq<Pid>, p: Pid)
    requires p !in q
    ensures Remove(q + [p], p) == q
  {
    if q != [] {
      assert (q + [p])[1..] == q[1..] + [p];
      RemoveAdded(q[1..], p);
      assert q == [q[0]] + q[1..];
    }
  }

  lemma RemoveOnly(q: seq<Pid>, p: Pid)
    requires NoDup(q)
    ensures NoDup(Remove(q, p)) && forall x :: x in Remove(q, p) <==> x in q && x != p
  {
    if p in q {
      var i := RemoveMeaning(q, p);
      WithoutOne(q, i);
    } else {
      RemoveAbsent(q, p);
    }
  }

  lemma WithoutOne(q: seq<Pid>, i: nat)
    requires NoDup(q) && i < |q|
    ensures var r := q[..i] + q[i + 1..]; NoDup(r) && forall x :: x in r <==> x in q && x != q[i]
  {
    var r := q[..i] + q[i + 1..];
    assert forall k :: 0 <= k < |r| ==> r[k] == q[if k < i then k else k + 1];
    forall x | x in q && x != q[i] ensures x in r {
      var k :| 0 <= k < |q| && q[k] == x;
      assert r[if k < i then k else k - 1] == x;
    }
  }

  lemma {:induction false} RemoveAbsent(q: seq<Pid>, p: Pid)
    requires p !in q
    ensures Remove(q, p) == q
  {
    if q != [] {
      RemoveAbsent(q[1..], p);
      assert q == [q[0]] + q[1..];
    }
  }

  /** When a process is executed, the others move up; it goes to the end of the queue if it is to be
      rescheduled, and leaves it otherwise. */
  lemma BeginQueue(cfg: Config, s: State)
    requires s.queue != []
    ensures Begin(cfg, s).queue == s.queue[1..] + if cfg.reschedule(s.queue[0]) then [s.queue[0]] else []
    ensures Begin(cfg, s).log == s.log + [s.queue[0]]
  {
    assert s.queue[1..] + [] == s.queue[1..];
  }

  ghost predicate Adds(a: Action, x: Pid)
    decreases a
  {
    a == Add(x) || (a.Step? && RunAdds(a.body, x))
  }

  ghost predicate RunAdds(acts: seq<Action>, x: Pid)
    decreases acts
  {
    acts != [] && (Adds(acts[0], x) || RunAdds(acts[1..], x))
  }

  lemma {:induction false} DistinctKept(cfg: Config, s: State, acts: seq<Action>)
    requires NoDup(s.queue)
    ensures NoDup(Run(cfg, s, acts).queue)
    decreases acts
  {
    if acts != [] {
      var a := acts[0];
      if a.Del? { RemoveOnly(s.queue, a.p); }
      if a.Step? && s.queue != [] {
        BeginDistinct(cfg, s);
        DistinctKept(cfg, Begin(cfg, s), a.body);
      }
      DistinctKept(cfg, Do(cfg, s, a), acts[1..]);
    }
  }

  lemma BeginDistinct(cfg: Config, s: State)
    requires s.queue != [] && NoDup(s.queue)
    ensures NoDup(Begin(cfg, s).queue)
    ensures forall x :: x in Begin(cfg, s).queue <==> x in s.queue && (x == s.queue[0] ==> cfg.reschedule(x))
  {
    BeginQueue(cfg, s);
    var q := s.queue;
    assert q == [q[0]] + q[1..];
    assert forall i :: 0 <= i < |q[1..]| ==> q[1..][i] == q[i + 1] && q[0] != q[i + 1];
  }

  /** A rescheduled process stays in the queue until it is removed, and so runs again and again. */
  lemma {:induction false} StaysQueued(cfg: Config, s: State, acts: seq<Action>, x: Pid)
    requires NoDup(s.queue) && x in s.queue && cfg.reschedule(x) && !RunRemoves(acts, x)
    ensures x in Run(cfg, s, acts).queue
    decreases acts
  {
    if acts != [] {
      var a := acts[0];
      if a.Del? { RemoveOnly(s.queue, a.p); }
      if a.Step? {
        BeginDistinct(cfg, s);
        StaysQueued(cfg, Begin(cfg, s), a.body, x);
        DistinctKept(cfg, Begin(cfg, s), a.body);
      }
      StaysQueued(cfg, Do(cfg, s, a), acts[1..], x);
    }
  }

  /** Queue and log after an action, and who is queued at most. */
  lemma DoEffects(cfg: Config, s: State, a: Action, x: Pid)
    requires NoDup(s.queue) && !Adds(a, x)
    ensures !a.Step? || s.queue == [] ==> Do(cfg, s, a).log == s.log && NoDup(Do(cfg, s, a).queue) && (x in Do(cfg, s, a).queue ==> x in s.queue)
    ensures a.Step? && s.queue != [] ==>
              var b := Begin(cfg, s);
              var t := Run(cfg, b, a.body);
              && Do(cfg, s, a).queue == t.queue && Do(cfg, s, a).log == t.log
              && NoDup(b.queue) && (x in b.queue <==> x in s.queue && (x == s.queue[0] ==> cfg.reschedule(x)))
              && multiset(b.log)[x] == multiset(s.log)[x] + if x == s.queue[0] then 1 else 0
  {
    if a.Del? { RemoveOnly(s.queue, a.p); }
    if a.Step? && s.queue != [] {
      BeginDistinct(cfg, s);
      BeginQueue(cfg, s);
    }
  }

  /** A process that is neither queued nor added is not executed. */
  lemma {:induction false} NotQueuedNotRun(cfg: Config, s: State, acts: seq<Action>, x: Pid)
    requires NoDup(s.queue) && x !in s.queue && !RunAdds(acts, x)
    ensures x !in Run(cfg, s, acts).queue && multiset(Run(cfg, s, acts).log)[x] == multiset(s.log)[x]
    decreases acts
  {
    hide Do, Begin, NoDup;
    if acts != [] {
      var a := acts[0];
      DoEffects(cfg, s, a, x);
      if a.Step? && s.queue != [] {
        NotQueuedNotRun(cfg, Begin(cfg, s), a.body, x);
        DistinctKept(cfg, Begin(cfg, s), a.body);
      }
      NotQueuedNotRun(cfg, Do(cfg, s, a), acts[1..], x);
    }
  }

  /** A process that is not rescheduled is executed at most once each time it is added. */
  lemma {:induction false} OneShot(cfg: Config, s: State, acts: seq<Action>, x: Pid)
    requires NoDup(s.queue) && !cfg.reschedule(x) && !RunAdds(acts, x)
    ensures var t := Run(cfg, s, acts);
            multiset(t.log)[x] + (if x in t.queue then 1 else 0) <= multiset(s.log)[x] + (if x in s.queue then 1 else 0)
    decreases acts
  {
    hide Do, Begin, NoDup;
    if acts != [] {
      var a := acts[0];
      DoEffects(cfg, s, a, x);
      if a.Step? && s.queue != [] {
        OneShot(cfg, Begin(cfg, s), a.body, x);
        DistinctKept(cfg, Begin(cfg, s), a.body);
      }
      OneShot(cfg, Do(cfg, s, a), acts[1..], x);
    }
  }
}

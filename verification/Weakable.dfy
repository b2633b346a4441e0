/**
 * The weak-pointer protocol: any number of threads take strong references through a link
 * while the object they refer to is destroyed. Every atomic operation is one step.
 */
module WeakLinks {

  /** `m_consumers` and `m_ref_count` are 32 bits wide. */
  const WRAP: nat := 0x1_0000_0000

  /** What is kept of a number in 32 bits. */
  function Wrap(x: nat): (w: nat)
    ensures w < WRAP
  {
    x % WRAP
  }

  /** With more threads than this, the count of consumers can wrap around to zero under `revoke`. */
  const THREAD_LIMIT: nat := 0x8000_0000

  /** Where a thread is in `strong_ref`, `unsafe_ptr` or the destruction of the object. */
  datatype Pc =
    | Idle
    | Entered               // `fetch_add` found the revoked bit clear; `m_ptr` is loaded next
    | Loaded                // the loaded pointer is not null; `try_ref` is next
    | Leaving(got: bool)    // `fetch_sub` is next; `got` says whether `ref` was adopted
    | Peeking               // `unsafe_ptr` found the revoked bit clear; it loads `m_ptr` next
    | Answered(got: bool)   // `unsafe_ptr` returns next; `got` says whether its answer is not null
    | Destroying            // `unref` took the count to zero; `fetch_or` is next
    | Waiting(seen: nat)    // in the loop of `revoke`, with `current_consumers`
    | Freeing               // `revoke` has returned; the memory is released next

  /** A thread and the references it holds. */
  datatype Thread = Thread(pc: Pc, held: nat)

  datatype State = State(consumers: nat, pointer: bool, refCount: nat, alive: bool, threads: seq<Thread>)

  datatype Action = StrongRef | UnsafePtr | Ref | Unref | Next

  /** The assertions a step can trip over. */
  datatype Check = RefOfDeadObject | CountOverflow | UnrefOfDeadObject | RevokedTwice | FreedWhileReferenced

  /** What a step leads to: it may not apply, or a VERIFY may stop the program. */
  datatype Outcome = Disabled | Aborted(check: Check) | Stepped(s: State)

  // ---- The steps ----

  function SetThread(s: State, t: nat, thread: Thread): State
    requires t < |s.threads|
  {
    s.(threads := s.threads[t := thread])
  }

  function SetPc(s: State, t: nat, pc: Pc): State
    requires t < |s.threads|
  {
    SetThread(s, t, Thread(pc, s.threads[t].held))
  }

  /** `ref`, called with the count it sees; the new state counts one more. */
  function RefStep(s: State, next: State): Outcome {
    if s.refCount == 0 then Aborted(RefOfDeadObject)
    else if s.refCount + 1 >= WRAP then Aborted(CountOverflow)
    else Stepped(next.(refCount := s.refCount + 1))
  }

  function NextStep(s: State, t: nat): Outcome
    requires t < |s.threads|
  {
    var held := s.threads[t].held;
    match s.threads[t].pc
    case Idle => Disabled
    case Entered => Stepped(SetPc(s, t, if s.pointer then Loaded else Leaving(false)))
    case Loaded =>
      if s.refCount == 0 then Stepped(SetPc(s, t, Leaving(false)))
      else RefStep(s, SetPc(s, t, Leaving(true)))
    case Leaving(got) =>
      var thread := Thread(Idle, if got then held + 1 else held);
      Stepped(SetThread(s, t, thread).(consumers := Wrap(s.consumers + WRAP - 2)))
    case Peeking => Stepped(SetPc(s, t, Answered(s.pointer)))
    case Answered(_) => Stepped(SetPc(s, t, Idle))
    case Destroying =>
      if s.consumers % 2 == 1 then Aborted(RevokedTwice)
      else Stepped(SetPc(s, t, Waiting(s.consumers)).(consumers := s.consumers + 1))
    case Waiting(seen) =>
      if seen > 0 then Stepped(SetPc(s, t, Waiting(s.consumers - s.consumers % 2)))
      else Stepped(SetPc(s, t, Freeing).(pointer := false))
    case Freeing =>
      if s.refCount != 0 then Aborted(FreedWhileReferenced)
      else Stepped(SetPc(s, t, Idle).(alive := false))
  }

  function Step(s: State, t: nat, a: Action): Outcome {
    if t >= |s.threads| then Disabled
    else if a == Next then NextStep(s, t)
    else if s.threads[t].pc != Idle then Disabled
    else
      var held := s.threads[t].held;
      match a
      case StrongRef =>
        Stepped(SetPc(s, t, if s.consumers % 2 == 0 then Entered else Leaving(false))
                .(consumers := Wrap(s.consumers + 2)))
      case UnsafePtr => Stepped(SetPc(s, t, if s.consumers % 2 == 1 then Answered(false) else Peeking))
      case Ref =>
        if held == 0 then Disabled
        else RefStep(s, SetThread(s, t, Thread(Idle, held + 1)))
      case Unref =>
        if held == 0 then Disabled
        else if s.refCount == 0 then Aborted(UnrefOfDeadObject)
        else Stepped(SetThread(s, t, Thread(if s.refCount == 1 then Destroying else Idle, held - 1))
                     .(refCount := s.refCount - 1))
  }

  /** Whether the step reads or writes the object itself rather than the link. */
  predicate Touches(s: State, t: nat, a: Action) {
    && t < |s.threads|
    && ((a == Next && s.threads[t].pc in {Loaded, Freeing})
        || (a in {Ref, Unref} && s.threads[t].pc == Idle && s.threads[t].held > 0))
  }

  /** One object, its first reference held by thread 0, and a link nobody uses yet. */
  function Initial(n: nat): State
    requires n > 0
  {
    State(0, true, 1, true, seq(n, i requires 0 <= i < n => Thread(Idle, if i == 0 then 1 else 0)))
  }

  /** The state after a schedule, as far as every step of it applies. */
  function Run(s: State, schedule: seq<(nat, Action)>): Outcome
    decreases |schedule|
  {
    if |schedule| == 0 then Stepped(s)
    else
      match Step(s, schedule[0].0, schedule[0].1)
      case Stepped(s') => Run(s', schedule[1..])
      case stuck => stuck
  }

  // ---- Counting over threads ----

  /** The sum of a measure over all threads. */
  function Sum(threads: seq<Thread>, f: Thread -> nat): nat {
    if |threads| == 0 then 0 else f(threads[0]) + Sum(threads[1..], f)
  }

  lemma {:induction false} SumUpdate(threads: seq<Thread>, f: Thread -> nat, t: nat, thread: Thread)
    requires t < |threads|
    ensures Sum(threads[t := thread], f) == Sum(threads, f) - f(threads[t]) + f(thread)
    ensures Sum(threads, f) >= f(threads[t])
  {
    if t > 0 {
      assert threads[t := thread][1..] == threads[1..][t - 1 := thread];
      SumUpdate(threads[1..], f, t - 1, thread);
    } else {
      assert threads[t := thread][1..] == threads[1..];
    }
  }

  lemma {:induction false} SumAtMost(threads: seq<Thread>, f: Thread -> nat, g: Thread -> nat, k: nat)
    requires forall x :: f(x) <= k * g(x)
    ensures Sum(threads, f) <= k * Sum(threads, g)
  {
    if |threads| > 0 {
      SumAtMost(threads[1..], f, g, k);
      assert f(threads[0]) <= k * g(threads[0]);
    }
  }

  lemma {:induction false} SumBounded(threads: seq<Thread>, f: Thread -> nat)
    requires forall x :: f(x) <= 1
    ensures Sum(threads, f) <= |threads|
  {
    if |threads| > 0 {
      SumBounded(threads[1..], f);
    }
  }

  function Bit(b: bool): nat {
    if b then 1 else 0
  }

  /** Between `fetch_add` and `fetch_sub`. */
  function Between(x: Thread): nat {
    Bit(x.pc.Entered? || x.pc.Loaded? || x.pc.Leaving?)
  }

  /** Between them, having seen the revoked bit clear and not yet done with the object, or holding it. */
  function Inside(x: Thread): nat {
    Bit(x.pc.Entered? || x.pc.Loaded? || x.pc == Leaving(true))
  }

  /** The counted references a thread answers for. */
  function References(x: Thread): nat {
    x.held + Bit(x.pc == Leaving(true))
  }

  /** In `unsafe_ptr`. */
  predicate Peeks(x: Thread) {
    x.pc.Peeking? || x.pc.Answered?
  }

  function Dying(x: Thread): nat {
    Bit(x.pc.Destroying? || x.pc.Waiting? || x.pc.Freeing?)
  }

  /** Past `fetch_or`. */
  function Revoking(x: Thread): nat {
    Bit(x.pc.Waiting? || x.pc.Freeing?)
  }

  /** `revoke` has found no consumer left. */
  function Drained(x: Thread): nat {
    Bit(x.pc == Waiting(0) || x.pc.Freeing?)
  }

  function Returned(x: Thread): nat {
    Bit(x.pc.Freeing?)
  }

  // ---- The invariant ----

  /** Twice the threads between add and sub, plus the revoked bit. */
  ghost function Consumers(s: State): nat {
    2 * Sum(s.threads, Between) + Sum(s.threads, Revoking) + Bit(!s.alive)
  }

  ghost predicate Inv(s: State) {
    && |s.threads| <= THREAD_LIMIT
    && s.consumers == Wrap(Consumers(s))
    && s.refCount == Sum(s.threads, References) && s.refCount < WRAP
    // Exactly one of: referenced, being destroyed by one thread, gone.
    && Bit(s.refCount > 0) + Sum(s.threads, Dying) + Bit(!s.alive) == 1
    && (Sum(s.threads, Drained) + Bit(!s.alive) > 0 ==> Sum(s.threads, Inside) == 0)
    && (s.pointer <==> Sum(s.threads, Returned) + Bit(!s.alive) == 0)
  }

  /** The sums the invariant speaks of, as one thread changes. */
  lemma Moved(threads: seq<Thread>, t: nat, x: Thread)
    requires t < |threads|
    ensures var was, threads' := threads[t], threads[t := x];
      && Sum(threads', Between) == Sum(threads, Between) - Between(was) + Between(x)
      && Sum(threads', Inside) == Sum(threads, Inside) - Inside(was) + Inside(x)
      && Sum(threads', References) == Sum(threads, References) - References(was) + References(x)
      && Sum(threads', Dying) == Sum(threads, Dying) - Dying(was) + Dying(x)
      && Sum(threads', Revoking) == Sum(threads, Revoking) - Revoking(was) + Revoking(x)
      && Sum(threads', Drained) == Sum(threads, Drained) - Drained(was) + Drained(x)
      && Sum(threads', Returned) == Sum(threads, Returned) - Returned(was) + Returned(x)
    ensures var was := threads[t];
      && Sum(threads, Between) >= Between(was) && Sum(threads, Inside) >= Inside(was)
      && Sum(threads, References) >= References(was) && Sum(threads, Dying) >= Dying(was)
      && Sum(threads, Revoking) >= Revoking(was) && Sum(threads, Drained) >= Drained(was)
      && Sum(threads, Returned) >= Returned(was)
  {
    SumUpdate(threads, Between, t, x);
    SumUpdate(threads, Inside, t, x);
    SumUpdate(threads, References, t, x);
    SumUpdate(threads, Dying, t, x);
    SumUpdate(threads, Revoking, t, x);
    SumUpdate(threads, Drained, t, x);
    SumUpdate(threads, Returned, t, x);
  }

  lemma {:induction false} SumAdds(threads: seq<Thread>, f: Thread -> nat, g: Thread -> nat, h: Thread -> nat)
    requires forall x :: h(x) == f(x) + g(x)
    ensures Sum(threads, h) == Sum(threads, f) + Sum(threads, g)
  {
    if |threads| > 0 {
      SumAdds(threads[1..], f, g, h);
      assert h(threads[0]) == f(threads[0]) + g(threads[0]);
    }
  }

  function Engaged(x: Thread): nat {
    Between(x) + Dying(x)
  }

  /** How the sums bound each other in any state. */
  lemma Nested(threads: seq<Thread>)
    ensures Sum(threads, Between) + Sum(threads, Dying) <= |threads|
    ensures Sum(threads, Inside) <= Sum(threads, Between)
    ensures Sum(threads, Drained) <= Sum(threads, Revoking) <= Sum(threads, Dying)
    ensures Sum(threads, Returned) <= Sum(threads, Drained)
  {
    SumBounded(threads, Engaged);
    SumAdds(threads, Between, Dying, Engaged);
    SumAtMost(threads, Inside, Between, 1);
    SumAtMost(threads, Drained, Revoking, 1);
    SumAtMost(threads, Revoking, Dying, 1);
    SumAtMost(threads, Returned, Drained, 1);
  }

  lemma WrapIs(x: nat)
    requires x < 2 * WRAP
    ensures Wrap(x) == if x < WRAP then x else x - WRAP
  {
  }

  /** Atomic additions to and subtractions from a wrapped count, and its lowest bit. */
  lemma WrappedCount(x: nat)
    requires x <= WRAP + 1
    ensures Wrap(Wrap(x) + 2) == Wrap(x + 2) && Wrap(x) % 2 == x % 2
    ensures x >= 2 ==> Wrap(Wrap(x) + WRAP - 2) == Wrap(x - 2)
    ensures x % 2 == 0 ==> Wrap(x) + 1 == Wrap(x + 1)
    ensures x < WRAP ==> Wrap(x) == x
  {
    hide Wrap;
    WrapIs(x);
    WrapIs(x + 2);
    WrapIs(x + 1);
    WrapIs(Wrap(x) + 2);
    if x >= 2 {
      WrapIs(x - 2);
      WrapIs(Wrap(x) + WRAP - 2);
    }
  }

  /** All that a step does to the threads is to change one of them. */
  lemma OneThreadSteps(s: State, t: nat, a: Action)
    requires Step(s, t, a).Stepped?
    ensures var s' := Step(s, t, a).s;
      t < |s.threads| == |s'.threads| && s'.threads == s.threads[t := s'.threads[t]]
  {
  }

  lemma StepFacts(s: State, t: nat, a: Action)
    requires Inv(s) && Step(s, t, a).Stepped?
    ensures Consumers(s) <= WRAP + 1
    ensures Sum(s.threads, Between) + Sum(s.threads, Dying) <= THREAD_LIMIT
    ensures Sum(s.threads, Returned) <= Sum(s.threads, Drained) <= Sum(s.threads, Revoking) <= Sum(s.threads, Dying)
    ensures Sum(s.threads, Inside) <= Sum(s.threads, Between)
  {
    hide Sum, Wrap, Step;
    Nested(s.threads);
  }

  lemma StrongRefBegins(s: State, t: nat)
    requires Inv(s) && Step(s, t, StrongRef).Stepped?
    ensures Inv(Step(s, t, StrongRef).s)
  {
    hide Sum, Wrap;
    var s' := Step(s, t, StrongRef).s;
    StepFacts(s, t, StrongRef);
    WrappedCount(Consumers(s));
    OneThreadSteps(s, t, StrongRef);
    Moved(s.threads, t, s'.threads[t]);
  }

  lemma HolderSteps(s: State, t: nat, a: Action)
    requires Inv(s) && a in {UnsafePtr, Ref, Unref} && Step(s, t, a).Stepped?
    ensures Inv(Step(s, t, a).s)
  {
    hide Sum, Wrap;
    var s' := Step(s, t, a).s;
    StepFacts(s, t, a);
    OneThreadSteps(s, t, a);
    Moved(s.threads, t, s'.threads[t]);
  }

  lemma StrongRefGoesOn(s: State, t: nat)
    requires Inv(s) && Step(s, t, Next).Stepped? && (Between(s.threads[t]) > 0 || Peeks(s.threads[t]))
    ensures Inv(Step(s, t, Next).s)
  {
    hide Sum, Wrap;
    var s' := Step(s, t, Next).s;
    StepFacts(s, t, Next);
    WrappedCount(Consumers(s));
    OneThreadSteps(s, t, Next);
    Moved(s.threads, t, s'.threads[t]);
  }

  lemma RevokeGoesOn(s: State, t: nat)
    requires Inv(s) && Step(s, t, Next).Stepped? && Dying(s.threads[t]) > 0
    ensures Inv(Step(s, t, Next).s)
  {
    hide Sum, Wrap;
    var s' := Step(s, t, Next).s;
    StepFacts(s, t, Next);
    WrappedCount(Consumers(s));
    OneThreadSteps(s, t, Next);
    Moved(s.threads, t, s'.threads[t]);
  }

  /** Every step of every thread keeps the invariant. */
  lemma StepKeepsInvariant(s: State, t: nat, a: Action)
    requires Inv(s) && Step(s, t, a).Stepped?
    ensures Inv(Step(s, t, a).s)
  {
    hide Inv;
    if a == StrongRef {
      StrongRefBegins(s, t);
    } else if a != Next {
      HolderSteps(s, t, a);
    } else if Dying(s.threads[t]) > 0 {
      RevokeGoesOn(s, t);
    } else {
      StrongRefGoesOn(s, t);
    }
  }

  /** The object's memory may be released: `revoke` has returned, or it is already gone. */
  ghost predicate RevokeReturned(s: State) {
    !s.alive || exists i :: 0 <= i < |s.threads| && s.threads[i].pc == Freeing
  }

  /** Only the thread that destroys the object touches it once `revoke` has returned, to release it. */
  lemma TouchesAreSafe(s: State, t: nat, a: Action)
    requires Inv(s) && Touches(s, t, a)
    ensures s.alive
    ensures s.threads[t].pc != Freeing ==> !RevokeReturned(s)
  {
    hide Sum;
    Nested(s.threads);
    Moved(s.threads, t, s.threads[t]);
    forall i | 0 <= i < |s.threads| && s.threads[i].pc == Freeing ensures Sum(s.threads, Returned) > 0 {
      Moved(s.threads, i, s.threads[i]);
    }
    if s.threads[t].pc != Freeing {
      assert Sum(s.threads, Returned) + Bit(!s.alive) == 0;
    }
  }

  /** A reference that a thread holds, or that its `strong_ref` will return, is counted and keeps the object alive. */
  lemma ReferencesAreCounted(s: State, t: nat)
    requires Inv(s) && t < |s.threads| && References(s.threads[t]) > 0
    ensures s.refCount >= References(s.threads[t]) && s.alive && s.pointer
    ensures forall i :: 0 <= i < |s.threads| ==> Dying(s.threads[i]) == 0
  {
    hide Sum;
    Nested(s.threads);
    Moved(s.threads, t, s.threads[t]);
    forall i | 0 <= i < |s.threads| ensures Dying(s.threads[i]) == 0 {
      Moved(s.threads, i, s.threads[i]);
    }
  }

  /** The only VERIFY that can stop a run is the one against an overflow of the reference count. */
  lemma VerifiesHold(s: State, t: nat, a: Action)
    requires Inv(s)
    ensures Step(s, t, a).Aborted? ==> Step(s, t, a).check == CountOverflow && s.refCount == WRAP - 1
  {
    hide Sum;
    if t < |s.threads| {
      Nested(s.threads);
      var idle := Thread(Idle, 0);
      Moved(s.threads, t, idle);
      Nested(s.threads[t := idle]);
    }
  }

  lemma {:induction false} NoReferences(threads: seq<Thread>, f: Thread -> nat)
    requires forall i :: 0 <= i < |threads| ==> f(threads[i]) == 0
    ensures Sum(threads, f) == 0
  {
    if |threads| > 0 {
      NoReferences(threads[1..], f);
    }
  }

  lemma InitialInvariant(n: nat)
    requires 0 < n <= THREAD_LIMIT
    ensures Inv(Initial(n))
  {
    var threads := Initial(n).threads;
    assert threads == [Thread(Idle, 1)] + threads[1..];
    NoReferences(threads[1..], References);
    NoReferences(threads, Between);
    NoReferences(threads, Inside);
    NoReferences(threads, Dying);
    NoReferences(threads, Revoking);
    NoReferences(threads, Drained);
    NoReferences(threads, Returned);
  }

  /** The invariant holds after every schedule. */
  lemma {:induction false} RunKeepsInvariant(s: State, schedule: seq<(nat, Action)>)
    requires Inv(s)
    ensures Run(s, schedule).Stepped? ==> Inv(Run(s, schedule).s)
    ensures Run(s, schedule).Aborted? ==> Run(s, schedule).check == CountOverflow
    decreases |schedule|
  {
    hide Inv, Step;
    if |schedule| > 0 {
      VerifiesHold(s, schedule[0].0, schedule[0].1);
      if Step(s, schedule[0].0, schedule[0].1).Stepped? {
        StepKeepsInvariant(s, schedule[0].0, schedule[0].1);
        RunKeepsInvariant(Step(s, schedule[0].0, schedule[0].1).s, schedule[1..]);
      }
    }
  }

  lemma {:induction false} SameThreads(s: State, schedule: seq<(nat, Action)>)
    ensures Run(s, schedule).Stepped? ==> |Run(s, schedule).s.threads| == |s.threads|
    decreases |schedule|
  {
    if |schedule| > 0 && Step(s, schedule[0].0, schedule[0].1).Stepped? {
      SameThreads(Step(s, schedule[0].0, schedule[0].1).s, schedule[1..]);
    }
  }

  /**
   * For up to 2^31 threads and any interleaving from the start: `m_consumers` counts the threads
   * between add and sub (in full, if there are fewer), a step that touches the object finds it alive and not yet
   * given up by `revoke`, and a thread with a reference holds a counted one.
   */
  lemma Safety(n: nat, schedule: seq<(nat, Action)>, t: nat, a: Action)
    requires 0 < n <= THREAD_LIMIT
    ensures var r := Run(Initial(n), schedule);
      && (r.Aborted? ==> r.check == CountOverflow)
      && (r.Stepped? ==>
        && Inv(r.s) && (n < THREAD_LIMIT ==> r.s.consumers == Consumers(r.s))
        && (Touches(r.s, t, a) ==> r.s.alive && (r.s.threads[t].pc != Freeing ==> !RevokeReturned(r.s)))
        && (t < |r.s.threads| && References(r.s.threads[t]) > 0 ==>
            r.s.alive && r.s.refCount >= References(r.s.threads[t])))
  {
    InitialInvariant(n);
    RunKeepsInvariant(Initial(n), schedule);
    var r := Run(Initial(n), schedule);
    if r.Stepped? {
      SameThreads(Initial(n), schedule);
      Nested(r.s.threads);
      if Touches(r.s, t, a) {
        TouchesAreSafe(r.s, t, a);
      }
      if t < |r.s.threads| && References(r.s.threads[t]) > 0 {
        ReferencesAreCounted(r.s, t);
      }
    }
  }

  /** Once gone, always gone: no schedule revives the object, and both ways to reach it answer null. */
  lemma {:induction false} GoneForever(s: State, schedule: seq<(nat, Action)>)
    requires Inv(s) && !s.alive
    ensures Run(s, schedule).Stepped? ==>
      !Run(s, schedule).s.alive && !Run(s, schedule).s.pointer && Run(s, schedule).s.refCount == 0
    decreases |schedule|
  {
    hide Sum;
    if |schedule| > 0 && Step(s, schedule[0].0, schedule[0].1).Stepped? {
      StepKeepsInvariant(s, schedule[0].0, schedule[0].1);
      GoneForever(Step(s, schedule[0].0, schedule[0].1).s, schedule[1..]);
    }
  }

  // ---- Progress ----

  /** Steps a thread takes at most until it is out of `strong_ref`. */
  function StepsLeft(x: Thread): nat {
    match x.pc
    case Entered => 3
    case Loaded => 2
    case Leaving(_) => 1
    case _ => 0
  }

  lemma {:induction false} SomeThread(threads: seq<Thread>, f: Thread -> nat) returns (t: nat)
    requires Sum(threads, f) > 0
    ensures t < |threads| && f(threads[t]) > 0
  {
    if f(threads[0]) > 0 {
      t := 0;
    } else {
      t := SomeThread(threads[1..], f);
      t := t + 1;
    }
  }

  lemma BetweenHaveStepsLeft(threads: seq<Thread>)
    ensures Sum(threads, Between) <= Sum(threads, StepsLeft) <= 3 * Sum(threads, Between)
  {
    SumAtMost(threads, Between, StepsLeft, 1);
    SumAtMost(threads, StepsLeft, Between, 3);
  }

  lemma ReferencedOnly(s: State, d: nat)
    requires Inv(s) && d < |s.threads| && Revoking(s.threads[d]) > 0
    ensures s.refCount == 0 && s.alive
    ensures s.threads[d].pc.Waiting? ==> Step(s, d, Next).Stepped?
  {
    hide Sum;
    Nested(s.threads);
    Moved(s.threads, d, s.threads[d]);
  }

  lemma LeavingMakesProgress(s: State, d: nat, t: nat)
    requires Inv(s) && d < |s.threads| && s.threads[d].pc.Waiting? && t < |s.threads| && StepsLeft(s.threads[t]) > 0
    ensures var r := Step(s, t, Next);
      && r.Stepped? && Inv(r.s) && |r.s.threads| == |s.threads| && r.s.threads[d] == s.threads[d]
      && Sum(r.s.threads, StepsLeft) < Sum(s.threads, StepsLeft)
  {
    hide Sum;
    ReferencedOnly(s, d);
    var s' := Step(s, t, Next).s;
    StepKeepsInvariant(s, t, Next);
    SumUpdate(s.threads, StepsLeft, t, s'.threads[t]);
    assert s'.threads == s.threads[t := s'.threads[t]];
  }

  lemma RunAppends(s: State, t: nat, a: Action, rest: seq<(nat, Action)>)
    requires Step(s, t, a).Stepped?
    ensures Run(s, [(t, a)] + rest) == Run(Step(s, t, a).s, rest)
  {
    assert ([(t, a)] + rest)[1..] == rest;
  }

  lemma LastLap(s: State, d: nat) returns (schedule: seq<(nat, Action)>)
    requires Inv(s) && d < |s.threads| && s.threads[d].pc.Waiting? && Sum(s.threads, StepsLeft) == 0
    ensures Run(s, schedule).Stepped? && !Run(s, schedule).s.alive && |schedule| <= 3
  {
    hide Sum;
    BetweenHaveStepsLeft(s.threads);
    ReferencedOnly(s, d);
    Moved(s.threads, d, s.threads[d]);
    Nested(s.threads);
    schedule := [(d, Next), (d, Next)];
    var s1 := Step(s, d, Next).s;
    StepKeepsInvariant(s, d, Next);
    ReferencedOnly(s1, d);
    RunAppends(s, d, Next, [(d, Next)]);
    RunAppends(s1, d, Next, []);
    if s.threads[d].pc.seen > 0 {
      schedule := [(d, Next), (d, Next), (d, Next)];
      var s2 := Step(s1, d, Next).s;
      StepKeepsInvariant(s1, d, Next);
      ReferencedOnly(s2, d);
      RunAppends(s, d, Next, [(d, Next), (d, Next)]);
      RunAppends(s1, d, Next, [(d, Next)]);
      RunAppends(s2, d, Next, []);
    }
  }

  /** The wait in `revoke` cannot deadlock: once the threads inside have left, the object is released. */
  lemma {:induction false} RevokeCanFinish(s: State, d: nat) returns (schedule: seq<(nat, Action)>)
    requires Inv(s) && d < |s.threads| && s.threads[d].pc.Waiting?
    ensures Run(s, schedule).Stepped? && !Run(s, schedule).s.alive
    ensures |schedule| <= Sum(s.threads, StepsLeft) + 3
    decreases Sum(s.threads, StepsLeft)
  {
    hide Inv, Step, Sum;
    if Sum(s.threads, StepsLeft) == 0 {
      schedule := LastLap(s, d);
    } else {
      var t := SomeThread(s.threads, StepsLeft);
      LeavingMakesProgress(s, d, t);
      var rest := RevokeCanFinish(Step(s, t, Next).s, d);
      RunAppends(s, t, Next, rest);
      schedule := [(t, Next)] + rest;
    }
  }

  /** The state after a schedule from which what does not apply is left out. */
  function Play(s: State, schedule: seq<(nat, Action)>): Outcome
    decreases |schedule|
  {
    if |schedule| == 0 then Stepped(s)
    else
      match Step(s, schedule[0].0, schedule[0].1)
      case Stepped(s') => Play(s', schedule[1..])
      case Disabled => Play(s, schedule[1..])
      case Aborted(check) => Aborted(check)
  }

  /** How often a thread is to go on. */
  function Turns(schedule: seq<(nat, Action)>, t: nat): nat {
    if |schedule| == 0 then 0 else Bit(schedule[0] == (t, Next)) + Turns(schedule[1..], t)
  }

  predicate WithoutStrongRef(schedule: seq<(nat, Action)>) {
    forall i :: 0 <= i < |schedule| ==> schedule[i].1 != StrongRef
  }

  /** The object is being revoked by that thread, or gone. */
  ghost predicate Ending(s: State, d: nat) {
    Inv(s) && d < |s.threads| && (s.alive ==> Revoking(s.threads[d]) > 0)
  }

  /** What thread `x` still has to do after a step of thread `t`. */
  function LeftAfter(s: State, t: nat, a: Action, x: nat): nat
    requires x < |s.threads|
  {
    var left := StepsLeft(s.threads[x]);
    if left > 0 && x == t && a == Next then left - 1 else left
  }

  /** While the object is being revoked, nobody gets further away from having left, and nothing stops the program. */
  lemma EndingGoesOn(s: State, d: nat, t: nat, a: Action)
    requires Ending(s, d) && s.alive && a != StrongRef
    ensures var r := Step(s, t, a);
      && !r.Aborted?
      && (r.Stepped? ==> Ending(r.s, d) && |r.s.threads| == |s.threads|)
      && (r.Stepped? ==> forall x :: 0 <= x < |s.threads| ==> StepsLeft(r.s.threads[x]) <= LeftAfter(s, t, a, x))
      && (r.Disabled? ==> forall x :: 0 <= x < |s.threads| ==> StepsLeft(s.threads[x]) <= LeftAfter(s, t, a, x))
  {
    hide Sum, Wrap;
    ReferencedOnly(s, d);
    VerifiesHold(s, t, a);
    if Step(s, t, a).Stepped? {
      StepKeepsInvariant(s, t, a);
      OneThreadSteps(s, t, a);
      hide Inv;
    }
  }

  lemma GoneStaysGone(s: State, d: nat, t: nat, a: Action)
    requires Ending(s, d) && !s.alive
    ensures var r := Step(s, t, a);
      !r.Aborted? && (r.Stepped? ==> Ending(r.s, d) && !r.s.alive)
  {
    hide Sum, Wrap;
    VerifiesHold(s, t, a);
    if Step(s, t, a).Stepped? {
      StepKeepsInvariant(s, t, a);
      OneThreadSteps(s, t, a);
    }
  }

  lemma {:induction false} GoneThroughout(s: State, d: nat, schedule: seq<(nat, Action)>)
    requires Ending(s, d) && !s.alive
    ensures var r := Play(s, schedule); r.Stepped? && Ending(r.s, d) && !r.s.alive
    decreases |schedule|
  {
    hide Ending, Step;
    if |schedule| > 0 {
      GoneStaysGone(s, d, schedule[0].0, schedule[0].1);
      var r := Step(s, schedule[0].0, schedule[0].1);
      GoneThroughout(if r.Stepped? then r.s else s, d, schedule[1..]);
    }
  }

  ghost predicate AllHaveTurns(s: State, schedule: seq<(nat, Action)>) {
    forall x :: 0 <= x < |s.threads| ==> StepsLeft(s.threads[x]) <= Turns(schedule, x)
  }

  /** When everybody inside has had the steps they need, they have left, unless the object is gone before. */
  lemma {:induction false} AllLeave(s: State, d: nat, schedule: seq<(nat, Action)>)
    requires Ending(s, d) && s.alive && WithoutStrongRef(schedule) && AllHaveTurns(s, schedule)
    ensures var r := Play(s, schedule);
      && r.Stepped? && Ending(r.s, d)
      && (r.s.alive ==> forall x :: 0 <= x < |r.s.threads| ==> StepsLeft(r.s.threads[x]) == 0)
    decreases |schedule|
  {
    hide Ending, Step, StepsLeft;
    if |schedule| > 0 {
      var t, a := schedule[0].0, schedule[0].1;
      EndingGoesOn(s, d, t, a);
      var r := Step(s, t, a);
      var next := if r.Stepped? then r.s else s;
      forall x | 0 <= x < |next.threads| ensures StepsLeft(next.threads[x]) <= Turns(schedule[1..], x) {
        assert StepsLeft(next.threads[x]) <= LeftAfter(s, t, a, x) && StepsLeft(s.threads[x]) <= Turns(schedule, x);
      }
      if next.alive {
        AllLeave(next, d, schedule[1..]);
      } else {
        GoneThroughout(next, d, schedule[1..]);
      }
    }
  }

  /** What the revoking thread still has to do once everybody has left. */
  function RevokerLeft(s: State, d: nat): nat
    requires d < |s.threads|
  {
    if !s.alive then 0
    else
      match s.threads[d].pc
      case Waiting(seen) => if seen > 0 then 3 else 2
      case Freeing => 1
      case _ => 0
  }

  /** When everybody has left, they stay out, and every step of the revoking thread brings it closer to the end. */
  lemma RevokerGoesOn(s: State, d: nat, t: nat, a: Action)
    requires Ending(s, d) && s.alive && a != StrongRef && Sum(s.threads, StepsLeft) == 0
    ensures var r := Step(s, t, a);
      && !r.Aborted?
      && (r.Stepped? ==> Ending(r.s, d) && Sum(r.s.threads, StepsLeft) == 0)
      && (r.Stepped? ==> RevokerLeft(r.s, d) <= RevokerLeft(s, d) - Bit((t, a) == (d, Next)))
      && (r.Disabled? ==> (t, a) != (d, Next))
  {
    hide Sum, Wrap;
    EndingGoesOn(s, d, t, a);
    BetweenHaveStepsLeft(s.threads);
    Moved(s.threads, d, s.threads[d]);
    Nested(s.threads);
    WrappedCount(Consumers(s));
    var r := Step(s, t, a);
    if r.Stepped? {
      OneThreadSteps(s, t, a);
      SumUpdate(s.threads, StepsLeft, t, r.s.threads[t]);
    }
  }

  lemma {:induction false} RevokerReleases(s: State, d: nat, schedule: seq<(nat, Action)>)
    requires Ending(s, d) && s.alive && WithoutStrongRef(schedule) && Sum(s.threads, StepsLeft) == 0
    requires RevokerLeft(s, d) <= Turns(schedule, d)
    ensures var r := Play(s, schedule); r.Stepped? && !r.s.alive
    decreases |schedule|
  {
    if |schedule| > 0 {
      hide Step, Sum, Inv;
      var t, a := schedule[0].0, schedule[0].1;
      RevokerGoesOn(s, d, t, a);
      var r := Step(s, t, a);
      var next := if r.Stepped? then r.s else s;
      if next.alive {
        RevokerReleases(next, d, schedule[1..]);
      } else {
        GoneThroughout(next, d, schedule[1..]);
      }
    }
  }

  lemma {:induction false} PlayConcat(s: State, first: seq<(nat, Action)>, second: seq<(nat, Action)>)
    requires Play(s, first).Stepped?
    ensures Play(s, first + second) == Play(Play(s, first).s, second)
    decreases |first|
  {
    hide Step;
    if |first| == 0 {
      assert first + second == second;
    } else {
      assert (first + second)[1..] == first[1..] + second;
      var r := Step(s, first[0].0, first[0].1);
      PlayConcat(if r.Stepped? then r.s else s, first[1..], second);
    }
  }

  /**
   * The wait in `revoke` ends: every schedule without a new `strong_ref` in which every thread inside gets the steps
   * it needs, and after them the waiting thread gets three, ends with the object released, whatever else it does.
   */
  lemma FairSchedulesRelease(s: State, d: nat, first: seq<(nat, Action)>, second: seq<(nat, Action)>)
    requires Inv(s) && d < |s.threads| && s.threads[d].pc.Waiting?
    requires WithoutStrongRef(first) && WithoutStrongRef(second)
    requires AllHaveTurns(s, first) && Turns(second, d) >= 3
    ensures var r := Play(s, first + second); r.Stepped? && !r.s.alive
  {
    ReferencedOnly(s, d);
    assert Ending(s, d);
    hide Inv, Step, Sum;
    AllLeave(s, d, first);
    PlayConcat(s, first, second);
    var s' := Play(s, first).s;
    if s'.alive {
      NoReferences(s'.threads, StepsLeft);
      RevokerReleases(s', d, second);
    } else {
      GoneThroughout(s', d, second);
    }
  }

  /** A `strong_ref` whose consumer the waiting thread sees. */
  function Lap(t: nat, d: nat): seq<(nat, Action)> {
    [(t, StrongRef), (d, Next), (t, Next)]
  }

  function Laps(t: nat, d: nat, k: nat): seq<(nat, Action)> {
    if k == 0 then [] else Lap(t, d) + Laps(t, d, k - 1)
  }

  /** While the object is being revoked, a `strong_ref` finds the revoked bit and is counted. */
  lemma ConsumerIsCounted(s: State, d: nat, t: nat)
    requires Inv(s) && d < |s.threads| && s.threads[d].pc.Waiting? && t < |s.threads| && s.threads[t].pc == Idle
    ensures var r := Step(s, t, StrongRef);
      && r.Stepped? && Inv(r.s) && r.s.consumers > 1
      && r.s.threads == s.threads[t := Thread(Leaving(false), s.threads[t].held)]
  {
    hide Sum, Wrap;
    Nested(s.threads);
    ReferencedOnly(s, d);
    Moved(s.threads, d, s.threads[d]);
    WrappedCount(Consumers(s));
    var s1 := Step(s, t, StrongRef).s;
    StepKeepsInvariant(s, t, StrongRef);
    Moved(s.threads, t, s1.threads[t]);
    Nested(s1.threads);
    Moved(s1.threads, d, s1.threads[d]);
    WrappedCount(Consumers(s1));
  }

  lemma LapLeavesWaiting(s: State, d: nat, t: nat)
    requires Inv(s) && d < |s.threads| && s.threads[d].pc.Waiting? && s.threads[d].pc.seen > 0
    requires t < |s.threads| && s.threads[t].pc == Idle
    ensures var r := Run(s, Lap(t, d));
      && r.Stepped? && Inv(r.s) && |r.s.threads| == |s.threads| && r.s.threads[t] == s.threads[t]
      && r.s.threads[d].pc.Waiting? && r.s.threads[d].pc.seen > 0
  {
    hide Sum, Wrap, Inv;
    ConsumerIsCounted(s, d, t);
    var s1 := Step(s, t, StrongRef).s;
    var s2 := Step(s1, d, Next).s;
    StepKeepsInvariant(s1, d, Next);
    StepKeepsInvariant(s2, t, Next);
    RunAppends(s, t, StrongRef, [(d, Next), (t, Next)]);
    RunAppends(s1, d, Next, [(t, Next)]);
    RunAppends(s2, t, Next, []);
  }

  lemma LapHasOneTurn(t: nat, d: nat, rest: seq<(nat, Action)>)
    requires t != d
    ensures Turns(Lap(t, d) + rest, d) == 1 + Turns(rest, d)
  {
    var laps := Lap(t, d) + rest;
    var laps1, laps2 := laps[1..], laps[2..];
    assert laps1[1..] == laps2 && laps2[1..] == rest;
    assert Turns(laps2, d) == Turns(rest, d);
    assert Turns(laps1, d) == 1 + Turns(laps2, d);
  }

  /** New calls of `strong_ref` can keep `revoke` waiting for any number of rounds, although both threads get turns. */
  lemma {:induction false} StrongRefsKeepWaiting(s: State, d: nat, t: nat, k: nat)
    requires Inv(s) && d < |s.threads| && s.threads[d].pc.Waiting? && s.threads[d].pc.seen > 0
    requires t < |s.threads| && s.threads[t].pc == Idle
    ensures Turns(Laps(t, d, k), d) == k
    ensures var r := Run(s, Laps(t, d, k)); r.Stepped? && d < |r.s.threads| && r.s.threads[d].pc.Waiting?
    decreases k
  {
    hide Inv, Step;
    if k > 0 {
      LapLeavesWaiting(s, d, t);
      LapHasOneTurn(t, d, Laps(t, d, k - 1));
      var next := Run(s, Lap(t, d)).s;
      StrongRefsKeepWaiting(next, d, t, k - 1);
      RunConcat(s, Lap(t, d), Laps(t, d, k - 1));
    }
  }

  // ---- When a strong reference is had ----

  predicate WithoutThread(schedule: seq<(nat, Action)>, t: nat) {
    forall i :: 0 <= i < |schedule| ==> schedule[i].0 != t
  }

  lemma {:induction false} PlayParts(s: State, first: seq<(nat, Action)>, second: seq<(nat, Action)>)
    requires Play(s, first + second).Stepped?
    ensures Play(s, first).Stepped? && Play(s, first + second) == Play(Play(s, first).s, second)
    decreases |first|
  {
    hide Step;
    if |first| == 0 {
      assert first + second == second;
    } else {
      assert (first + second)[1..] == first[1..] + second;
      var r := Step(s, first[0].0, first[0].1);
      PlayParts(if r.Stepped? then r.s else s, first[1..], second);
    }
  }

  lemma {:induction false} PlayKeepsInvariant(s: State, schedule: seq<(nat, Action)>)
    requires Inv(s) && Play(s, schedule).Stepped?
    ensures Inv(Play(s, schedule).s)
    decreases |schedule|
  {
    hide Inv, Step;
    if |schedule| > 0 {
      var r := Step(s, schedule[0].0, schedule[0].1);
      if r.Stepped? {
        StepKeepsInvariant(s, schedule[0].0, schedule[0].1);
      }
      PlayKeepsInvariant(if r.Stepped? then r.s else s, schedule[1..]);
    }
  }

  lemma OtherSteps(s: State, other: nat, a: Action, t: nat)
    requires t < |s.threads| && other != t && Step(s, other, a).Stepped?
    ensures var s' := Step(s, other, a).s;
      && t < |s'.threads| && s'.threads[t] == s.threads[t]
      && (s.refCount == 0 ==> s'.refCount == 0)
  {
    hide Wrap;
    OneThreadSteps(s, other, a);
  }

  /** What the others do does not move a thread, and does not bring back a count that is zero. */
  lemma {:induction false} OthersPlay(s: State, schedule: seq<(nat, Action)>, t: nat)
    requires t < |s.threads| && WithoutThread(schedule, t) && Play(s, schedule).Stepped?
    ensures var s' := Play(s, schedule).s;
      && t < |s'.threads| && s'.threads[t] == s.threads[t]
      && (s.refCount == 0 ==> s'.refCount == 0)
    decreases |schedule|
  {
    hide Step;
    if |schedule| > 0 {
      var r := Step(s, schedule[0].0, schedule[0].1);
      assert schedule[0].0 != t;
      if r.Stepped? {
        OtherSteps(s, schedule[0].0, schedule[0].1, t);
      }
      OthersPlay(if r.Stepped? then r.s else s, schedule[1..], t);
    }
  }

  function StepIfAny(s: State, t: nat, a: Action): State {
    var r := Step(s, t, a);
    if r.Stepped? then r.s else s
  }

  /** One turn of a thread, and then what the others do. */
  ghost predicate TurnLeads(s: State, t: nat, a: Action, s': State) {
    var next := StepIfAny(s, t, a);
    && Inv(s) && Inv(next) && Inv(s') && !Step(s, t, a).Aborted?
    && t < |s.threads| && t < |next.threads| && t < |s'.threads| && s'.threads[t] == next.threads[t]
    && (next.refCount == 0 ==> s'.refCount == 0)
  }

  lemma TurnAndOthers(s: State, t: nat, a: Action, others: seq<(nat, Action)>)
    requires Inv(s) && t < |s.threads| && WithoutThread(others, t) && Play(s, [(t, a)] + others).Stepped?
    ensures TurnLeads(s, t, a, Play(s, [(t, a)] + others).s)
  {
    hide Inv;
    assert ([(t, a)] + others)[1..] == others;
    PlayKeepsInvariant(s, [(t, a)] + others);
    var r := Step(s, t, a);
    if r.Stepped? {
      StepKeepsInvariant(s, t, a);
      OneThreadSteps(s, t, a);
    }
    hide Step, WithoutThread;
    OthersPlay(StepIfAny(s, t, a), others, t);
  }

  lemma TurnIsThere(s: State, t: nat, a: Action, s': State)
    requires TurnLeads(s, t, a, s')
    ensures Inv(s') && t < |s'.threads|
  {
  }

  lemma LastTurn(s: State, t: nat)
    requires Inv(s) && t < |s.threads| && Play(s, [(t, Next)]).Stepped?
    ensures TurnLeads(s, t, Next, Play(s, [(t, Next)]).s)
  {
    hide Inv, TurnLeads, Play;
    assert [(t, Next)] + [] == [(t, Next)];
    TurnAndOthers(s, t, Next, []);
  }

  /** The revoked bit is set only when no reference is left. */
  lemma RevokedIsUnreferenced(s: State)
    requires Inv(s) && s.consumers % 2 == 1
    ensures s.refCount == 0
  {
    hide Sum, Wrap;
    Nested(s.threads);
    WrappedCount(Consumers(s));
  }

  lemma EnteredSeesPointer(s: State, t: nat)
    requires Inv(s) && t < |s.threads| && s.threads[t].pc == Entered
    ensures s.pointer
  {
    hide Sum, Wrap;
    Nested(s.threads);
    Moved(s.threads, t, s.threads[t]);
  }

  /** The `fetch_add`: a thread is inside only if the bit was clear. */
  lemma AddLeads(s: State, t: nat, s1: State)
    requires TurnLeads(s, t, StrongRef, s1) && s.threads[t].pc == Idle
    ensures s1.threads[t] == Thread(if s.consumers % 2 == 0 then Entered else Leaving(false), s.threads[t].held)
    ensures s.refCount == 0 ==> s1.refCount == 0
  {
    hide Inv, Wrap;
  }

  /** The load: the pointer is there. */
  lemma LoadLeads(s1: State, t: nat, s2: State)
    requires TurnLeads(s1, t, Next, s2) && (s1.threads[t].pc == Entered || s1.threads[t].pc == Leaving(false))
    ensures s2.threads[t] == Thread(if s1.threads[t].pc == Entered then Loaded else Idle, s1.threads[t].held)
    ensures s1.refCount == 0 ==> s2.refCount == 0
  {
    if s1.threads[t].pc == Entered {
      EnteredSeesPointer(s1, t);
    }
    hide Inv, Wrap;
  }

  /** `try_ref` succeeds exactly if the object is still referenced. */
  lemma TryLeads(s2: State, t: nat, s3: State)
    requires TurnLeads(s2, t, Next, s3) && (s2.threads[t].pc == Loaded || s2.threads[t].pc == Idle)
    ensures s3.threads[t]
         == Thread(if s2.threads[t].pc == Loaded then Leaving(s2.refCount > 0) else Idle, s2.threads[t].held)
  {
    hide Inv, Wrap;
  }

  /** The `fetch_sub`, and the reference is had. */
  lemma SubLeads(s3: State, t: nat, s4: State)
    requires TurnLeads(s3, t, Next, s4) && (s3.threads[t].pc.Leaving? || s3.threads[t].pc == Idle)
    ensures s4.threads[t] == Thread(Idle, s3.threads[t].held + Bit(s3.threads[t].pc == Leaving(true)))
  {
    hide Inv, Wrap;
  }

  /** The four steps together. */
  lemma FourTurnsLead(s: State, t: nat, s1: State, s2: State, s3: State, s4: State)
    requires TurnLeads(s, t, StrongRef, s1) && s.threads[t].pc == Idle
    requires TurnLeads(s1, t, Next, s2) && TurnLeads(s2, t, Next, s3) && TurnLeads(s3, t, Next, s4)
    ensures t < |s4.threads| && s4.threads[t] == Thread(Idle, s.threads[t].held + Bit(s2.refCount > 0))
    ensures s2.refCount > 0 ==> s.consumers % 2 == 0
    ensures s4.refCount >= s4.threads[t].held
  {
    if s.consumers % 2 == 1 {
      RevokedIsUnreferenced(s);
    }
    AddLeads(s, t, s1);
    LoadLeads(s1, t, s2);
    TryLeads(s2, t, s3);
    SubLeads(s3, t, s4);
    hide Inv, Step;
    if s4.threads[t].held > 0 {
      ReferencesAreCounted(s4, t);
    }
  }

  /** `strong_ref`, with what other threads do in between. */
  function StrongRefAmong(t: nat, a: seq<(nat, Action)>, b: seq<(nat, Action)>, c: seq<(nat, Action)>)
    : seq<(nat, Action)>
  {
    ([(t, StrongRef)] + a) + (([(t, Next)] + b) + (([(t, Next)] + c) + [(t, Next)]))
  }

  /**
   * Whatever other threads do in between, `strong_ref` returns a reference exactly if the object still has one when
   * it comes to `try_ref`; it has then found the revoked bit clear, and the reference is counted.
   */
  lemma StrongRefSucceedsExactly(s: State, t: nat, a: seq<(nat, Action)>, b: seq<(nat, Action)>,
                                 c: seq<(nat, Action)>)
    requires Inv(s) && t < |s.threads| && s.threads[t].pc == Idle
    requires WithoutThread(a, t) && WithoutThread(b, t) && WithoutThread(c, t)
    requires Play(s, StrongRefAmong(t, a, b, c)).Stepped?
    ensures Play(s, ([(t, StrongRef)] + a) + ([(t, Next)] + b)).Stepped?
    ensures var tried := Play(s, ([(t, StrongRef)] + a) + ([(t, Next)] + b)).s;
      var s' := Play(s, StrongRefAmong(t, a, b, c)).s;
      && t < |s'.threads| && s'.threads[t] == Thread(Idle, s.threads[t].held + Bit(tried.refCount > 0))
      && (tried.refCount > 0 ==> s.consumers % 2 == 0)
      && s'.refCount >= s'.threads[t].held
  {
    hide Inv, Step, Play, TurnLeads, WithoutThread;
    var first, second, third := [(t, StrongRef)] + a, [(t, Next)] + b, [(t, Next)] + c;
    PlayParts(s, first, second + (third + [(t, Next)]));
    var s1 := Play(s, first).s;
    PlayParts(s1, second, third + [(t, Next)]);
    var s2 := Play(s1, second).s;
    PlayParts(s2, third, [(t, Next)]);
    var s3 := Play(s2, third).s;
    PlayConcat(s, first, second);
    TurnAndOthers(s, t, StrongRef, a);
    TurnIsThere(s, t, StrongRef, s1);
    TurnAndOthers(s1, t, Next, b);
    TurnIsThere(s1, t, Next, s2);
    TurnAndOthers(s2, t, Next, c);
    TurnIsThere(s2, t, Next, s3);
    LastTurn(s3, t);
    FourTurnsLead(s, t, s1, s2, s3, Play(s3, [(t, Next)]).s);
  }

  /** What `unsafe_ptr` answers: null if the revoked bit is set, and else the pointer, which `revoke` may take away. */
  lemma UnsafePtrAnswers(s: State, t: nat, a: seq<(nat, Action)>)
    requires Inv(s) && t < |s.threads| && s.threads[t].pc == Idle
    requires WithoutThread(a, t) && Play(s, ([(t, UnsafePtr)] + a) + [(t, Next)]).Stepped?
    ensures Play(s, [(t, UnsafePtr)] + a).Stepped?
    ensures var loaded, s' := Play(s, [(t, UnsafePtr)] + a).s, Play(s, ([(t, UnsafePtr)] + a) + [(t, Next)]).s;
      && t < |loaded.threads| && t < |s'.threads|
      && (s.consumers % 2 == 0 ==> s'.threads[t].pc == Answered(loaded.pointer))
      && (s.consumers % 2 == 1 ==> loaded.threads[t].pc == Answered(false) && s'.threads[t].pc == Idle)
      && (loaded.refCount > 0 ==> s.consumers % 2 == 0 && loaded.pointer)
  {
    hide Inv, Step, Play, TurnLeads, WithoutThread;
    PlayParts(s, [(t, UnsafePtr)] + a, [(t, Next)]);
    var s1 := Play(s, [(t, UnsafePtr)] + a).s;
    TurnAndOthers(s, t, UnsafePtr, a);
    TurnIsThere(s, t, UnsafePtr, s1);
    LastTurn(s1, t);
    PeekLeads(s, t, s1, Play(s1, [(t, Next)]).s);
  }

  lemma PeekLeads(s: State, t: nat, s1: State, s2: State)
    requires TurnLeads(s, t, UnsafePtr, s1) && s.threads[t].pc == Idle && TurnLeads(s1, t, Next, s2)
    ensures t < |s2.threads|
    ensures s.consumers % 2 == 0 ==> s2.threads[t].pc == Answered(s1.pointer)
    ensures s.consumers % 2 == 1 ==> s1.threads[t].pc == Answered(false) && s2.threads[t].pc == Idle
    ensures s1.refCount > 0 ==> s.consumers % 2 == 0 && s1.pointer
  {
    if s.consumers % 2 == 1 {
      RevokedIsUnreferenced(s);
    }
    if s1.refCount > 0 {
      ReferencedHasPointer(s1);
    }
    hide Inv;
  }

  lemma ReferencedHasPointer(s: State)
    requires Inv(s) && s.refCount > 0
    ensures s.pointer
  {
    hide Sum, Wrap;
    Nested(s.threads);
  }

  /** `ref` counts one more, and `unref` takes it back. */
  lemma RefIsUndone(s: State, t: nat)
    requires t < |s.threads| && s.threads[t].pc == Idle && 0 < s.threads[t].held && 0 < s.refCount < WRAP - 1
    ensures Run(s, [(t, Ref)])
         == Stepped(s.(refCount := s.refCount + 1, threads := s.threads[t := Thread(Idle, s.threads[t].held + 1)]))
    ensures Run(s, [(t, Ref), (t, Unref)]) == Stepped(s)
  {
    var s1 := Step(s, t, Ref).s;
    RunAppends(s, t, Ref, []);
    RunAppends(s, t, Ref, [(t, Unref)]);
    RunAppends(s1, t, Unref, []);
    assert s1.threads[t := s.threads[t]] == s.threads;
  }

  // ---- No reference keeps the object for good ----

  /** Inside, and on the way to a reference that is not counted yet. */
  function Coming(x: Thread): nat {
    Bit(x.pc.Entered? || x.pc.Loaded?)
  }

  /** Steps a thread takes at most until it is idle and has given up its references. */
  function Work(x: Thread): nat {
    References(x) + 2 * StepsLeft(x) + Bit(x.pc.Peeking?) + Bit(Peeks(x))
  }

  /** What a thread does to give up its references. */
  function WayOut(x: Thread): Action {
    if x.pc == Idle then Unref else Next
  }

  /** While the object is referenced, some thread can come closer to giving up its references. */
  lemma ReferencesGoDown(s: State) returns (t: nat)
    requires Inv(s) && s.refCount > 0 && s.refCount + Sum(s.threads, Coming) < WRAP
    ensures t < |s.threads|
    ensures var r := Step(s, t, WayOut(s.threads[t]));
      && r.Stepped? && Inv(r.s) && Sum(r.s.threads, Work) < Sum(s.threads, Work)
      && r.s.refCount + Sum(r.s.threads, Coming) < WRAP
  {
    hide Sum, Wrap;
    SumAtMost(s.threads, References, Work, 1);
    t := SomeThread(s.threads, Work);
    NobodyDies(s, t);
    SumUpdate(s.threads, Coming, t, s.threads[t]);
    var a := WayOut(s.threads[t]);
    StepKeepsInvariant(s, t, a);
    OneThreadSteps(s, t, a);
    var s' := Step(s, t, a).s;
    hide Inv;
    SumUpdate(s.threads, Work, t, s'.threads[t]);
    SumUpdate(s.threads, Coming, t, s'.threads[t]);
  }

  lemma NobodyDies(s: State, t: nat)
    requires Inv(s) && s.refCount > 0 && t < |s.threads|
    ensures Dying(s.threads[t]) == 0
  {
    hide Sum, Wrap;
    Moved(s.threads, t, s.threads[t]);
  }

  /** From the last reference on, the object is destroyed. */
  lemma UnreferencedIsReleased(s: State) returns (schedule: seq<(nat, Action)>)
    requires Inv(s) && s.refCount == 0
    ensures Run(s, schedule).Stepped? && !Run(s, schedule).s.alive
  {
    hide Sum, Wrap;
    schedule := [];
    if s.alive {
      var d := SomeThread(s.threads, Dying);
      VerifiesHold(s, d, Next);
      if s.threads[d].pc.Waiting? {
        schedule := RevokeCanFinish(s, d);
      } else {
        var s' := Step(s, d, Next).s;
        StepKeepsInvariant(s, d, Next);
        if s'.alive {
          schedule := RevokeCanFinish(s', d);
        }
        RunAppends(s, d, Next, schedule);
        schedule := [(d, Next)] + schedule;
      }
    }
  }

  /** From every state in which the count does not overflow, there is a schedule that releases the object. */
  lemma {:induction false} CanBeReleased(s: State) returns (schedule: seq<(nat, Action)>)
    requires Inv(s) && s.refCount + Sum(s.threads, Coming) < WRAP
    ensures Run(s, schedule).Stepped? && !Run(s, schedule).s.alive
    decreases Sum(s.threads, Work)
  {
    hide Inv, Step, Sum;
    if s.refCount == 0 {
      schedule := UnreferencedIsReleased(s);
    } else {
      var t := ReferencesGoDown(s);
      var a := WayOut(s.threads[t]);
      var rest := CanBeReleased(Step(s, t, a).s);
      RunAppends(s, t, a, rest);
      schedule := [(t, a)] + rest;
    }
  }

  // ---- Why not more than 2^31 threads ----

  /** Threads 1 to `k` call `strong_ref` at once. */
  function EnterAll(k: nat): seq<(nat, Action)> {
    seq(k, i requires 0 <= i < k => (i + 1, StrongRef))
  }

  function AllEntered(n: nat, k: nat): State {
    State(Wrap(2 * k), true, 1, true,
          seq(n, i requires 0 <= i < n =>
            if i == 0 then Thread(Idle, 1) else Thread(if i <= k then Entered else Idle, 0)))
  }

  lemma {:induction false} RunConcat(s: State, first: seq<(nat, Action)>, second: seq<(nat, Action)>)
    requires Run(s, first).Stepped?
    ensures Run(s, first + second) == Run(Run(s, first).s, second)
    decreases |first|
  {
    if |first| == 0 {
      assert first + second == second;
    } else {
      assert (first + second)[1..] == first[1..] + second;
      RunConcat(Step(s, first[0].0, first[0].1).s, first[1..], second);
    }
  }

  lemma EnterOneMore(n: nat, k: nat)
    requires 0 < k < n
    ensures Step(AllEntered(n, k - 1), k, StrongRef) == Stepped(AllEntered(n, k))
  {
    assert Wrap(2 * (k - 1)) % 2 == 0 && Wrap(Wrap(2 * (k - 1)) + 2) == Wrap(2 * k);
    assert AllEntered(n, k - 1).threads[k := Thread(Entered, 0)] == AllEntered(n, k).threads;
  }

  lemma {:induction false} EnterAllRuns(n: nat, k: nat)
    requires k < n
    ensures Run(Initial(n), EnterAll(k)) == Stepped(AllEntered(n, k))
  {
    if k == 0 {
      assert AllEntered(n, 0) == Initial(n);
    } else {
      hide Step, AllEntered;
      EnterAllRuns(n, k - 1);
      EnterOneMore(n, k);
      assert EnterAll(k) == EnterAll(k - 1) + [(k, StrongRef)];
      RunConcat(Initial(n), EnterAll(k - 1), [(k, StrongRef)]);
      RunAppends(AllEntered(n, k - 1), k, StrongRef, []);
    }
  }

  /** Destruction that does not see thread 1 about to touch the object. */
  lemma DestroyedUnder(s: State)
    requires |s.threads| > 1 && s.threads[0] == Thread(Idle, 1) && s.threads[1].pc == Loaded
    requires s.refCount == 1 && s.consumers == 0
    ensures var r := Run(s, [(0, Unref), (0, Next), (0, Next), (0, Next)]);
      r.Stepped? && !r.s.alive && Touches(r.s, 1, Next)
  {
    RunAppends(s, 0, Unref, [(0, Next), (0, Next), (0, Next)]);
    var s2 := Step(s, 0, Unref).s;
    RunAppends(s2, 0, Next, [(0, Next), (0, Next)]);
    var s3 := Step(s2, 0, Next).s;
    RunAppends(s3, 0, Next, [(0, Next)]);
    var s4 := Step(s3, 0, Next).s;
    RunAppends(s4, 0, Next, []);
  }

  /** Everybody but the holder enters, one loads the pointer, and the holder lets go. */
  function Overrun(): seq<(nat, Action)> {
    EnterAll(THREAD_LIMIT) + [(1, Next), (0, Unref), (0, Next), (0, Next), (0, Next)]
  }

  /** With any larger number of threads, a run ends with `try_ref` about to touch an object that is gone. */
  lemma TooManyThreads(n: nat)
    requires n > THREAD_LIMIT
    ensures var r := Run(Initial(n), Overrun());
      r.Stepped? && !r.s.alive && Touches(r.s, 1, Next)
  {
    var s := AllEntered(n, THREAD_LIMIT);
    assert s.consumers == 0 && s.threads[1] == Thread(Entered, 0) && s.threads[0] == Thread(Idle, 1);
    RunAppends(s, 1, Next, [(0, Unref), (0, Next), (0, Next), (0, Next)]);
    DestroyedUnder(Step(s, 1, Next).s);
    var rest := [(1, Next), (0, Unref), (0, Next), (0, Next), (0, Next)];
    assert Overrun() == EnterAll(THREAD_LIMIT) + rest;
    hide *;
    EnterAllRuns(n, THREAD_LIMIT);
    RunConcat(Initial(n), EnterAll(THREAD_LIMIT), rest);
    assert [(1, Next)] + [(0, Unref), (0, Next), (0, Next), (0, Next)] == rest;
  }

  /** After the schedule, whoever touches the object finds it alive and, but to release it, not given up. */
  ghost predicate SafeAfter(n: nat, schedule: seq<(nat, Action)>)
    requires n > 0
  {
    var r := Run(Initial(n), schedule);
    r.Stepped? ==> forall t: nat, a: Action :: Touches(r.s, t, a) ==>
      r.s.alive && (r.s.threads[t].pc != Freeing ==> !RevokeReturned(r.s))
  }

  /** The protocol is safe for exactly the numbers of threads up to 2^31. */
  lemma SafeExactlyUpToLimit(n: nat)
    requires n > 0
    ensures (forall schedule :: SafeAfter(n, schedule)) <==> n <= THREAD_LIMIT
  {
    if n <= THREAD_LIMIT {
      forall schedule ensures SafeAfter(n, schedule) {
        var r := Run(Initial(n), schedule);
        forall t: nat, a: Action | r.Stepped? && Touches(r.s, t, a)
          ensures r.s.alive && (r.s.threads[t].pc != Freeing ==> !RevokeReturned(r.s))
        {
          Safety(n, schedule, t, a);
        }
      }
    } else {
      TooManyThreads(n);
      assert !SafeAfter(n, Overrun());
    }
  }
}

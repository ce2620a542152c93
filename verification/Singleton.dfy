/** The double-checked singleton: any number of threads running Instance and Free,
    one step of one thread at a time. */
module Singleton {
  import opened Wire

  type Thread = nat

  // Objects are numbered in the order they are allocated; 0 is NULL.
  type Pointer = nat

  /** Where a thread is.  Instance: Check, Acquire, Recheck, Allocate, Store, Release,
      Return.  Free: SetFree, AcquireFree, CheckFree, Delete, Clear, ReleaseFree. */
  datatype Place =
    | Idle
    | Check | Acquire | Recheck | Allocate | Store(p: Pointer) | Release | Return
    | SetFree | AcquireFree | CheckFree | Delete | Clear | ReleaseFree

  // The static members, the threads, and the history of the run.
  datatype State = State(
    instance: Pointer,        // m_pInstance
    freed: bool,              // m_bFree
    lock: Option<Thread>,     // m_lock
    places: map<Thread, Place>,
    created: nat,           // objects allocated so far
    deleted: seq<Pointer>,    // objects deleted so far
    results: seq<Pointer>)    // values returned by Instance so far

  const START := State(0, false, None, map[], 0, [], [])

  function At(s: State, t: Thread): Place {
    if t in s.places then s.places[t] else Idle
  }

  function Go(s: State, t: Thread, p: Place): State {
    s.(places := s.places[t := p])
  }

  // One step of thread t.  free: the operation an idle thread starts; fails: whether
  // an allocation yields NULL.
  datatype Move = Move(t: Thread, free: bool, fails: bool)

  // A thread that waits for the lock does not move.
  function Step(s: State, m: Move): State {
    var t := m.t;
    match At(s, t)
    case Idle => Go(s, t, if m.free then SetFree else Check)
    case Check => Go(s, t, if s.instance == 0 then Acquire else Return)
    case Acquire => if s.lock == None then Go(s.(lock := Some(t)), t, Recheck) else s
    case Recheck => Go(s, t, if s.instance == 0 then Allocate else Release)
    case Allocate => if m.fails then Go(s, t, Store(0)) else Go(s.(created := s.created + 1), t, Store(s.created + 1))
    case Store(p) => Go(s.(instance := p), t, Release)
    case Release => Go(s.(lock := None), t, Return)
    case Return => Go(s.(results := s.results + [s.instance]), t, Idle)
    case SetFree => Go(s.(freed := true), t, AcquireFree)
    case AcquireFree => if s.lock == None then Go(s.(lock := Some(t)), t, CheckFree) else s
    case CheckFree => Go(s, t, if s.instance != 0 then Delete else ReleaseFree)
    case Delete => Go(s.(deleted := s.deleted + [s.instance]), t, Clear)
    case Clear => Go(s.(instance := 0), t, ReleaseFree)
    case ReleaseFree => Go(s.(lock := None), t, Idle)
  }

  // A run: any threads in any order.
  function After(moves: seq<Move>): State {
    if moves == [] then START else Step(After(moves[..|moves| - 1]), moves[|moves| - 1])
  }

  // --- what every run keeps -------------------------------------------------------------------------

  predicate Critical(p: Place) {
    p.Recheck? || p.Allocate? || p.Store? || p.Release? || p.CheckFree? || p.Delete? || p.Clear? || p.ReleaseFree?
  }

  // The lock is held by exactly the thread between its Lock and its Unlock.
  ghost predicate Exclusive(s: State) {
    forall t: Thread :: Critical(At(s, t)) <==> s.lock == Some(t)
  }

  // Objects are deleted in the order they were allocated, at most one being alive.
  ghost predicate OneAlive(s: State) {
    && |s.deleted| <= s.created <= |s.deleted| + 1
    && forall i :: 0 <= i < |s.deleted| ==> s.deleted[i] == i + 1
  }

  // The object alive, or NULL.
  function Alive(s: State): Pointer {
    if s.created == |s.deleted| then 0 else s.created
  }

  // The place of the lock holder, and how m_pInstance stands to the object alive.
  ghost predicate Consistent(s: State) {
    match s.lock
    case None => s.instance == Alive(s)
    case Some(t) =>
      match At(s, t)
      case Store(p) => s.instance == 0 && p == Alive(s)
      case Clear => s.instance == s.created != 0 && Alive(s) == 0
      case Allocate => s.instance == Alive(s) == 0
      case Delete => s.instance == Alive(s) != 0
      case _ => s.instance == Alive(s)
  }

  ghost predicate Inv(s: State) {
    Exclusive(s) && OneAlive(s) && Consistent(s)
  }

  lemma StepExclusive(s: State, m: Move)
    requires Exclusive(s)
    ensures Exclusive(Step(s, m))
  {
    var s1 := Step(s, m);
    forall t: Thread
      ensures Critical(At(s1, t)) <==> s1.lock == Some(t)
    {
      assert Critical(At(s, t)) <==> s.lock == Some(t);
      assert Critical(At(s, m.t)) <==> s.lock == Some(m.t);
    }
  }

  lemma StepKeeps(s: State, m: Move)
    requires Inv(s)
    ensures Inv(Step(s, m))
  {
    StepExclusive(s, m);
    assert Critical(At(s, m.t)) <==> s.lock == Some(m.t);
    assert s.lock.Some? ==> Critical(At(s, s.lock.value));
    StepAlive(s, m);
    StepConsistent(s, m);
  }

  lemma StepAlive(s: State, m: Move)
    requires OneAlive(s) && Consistent(s) && (Critical(At(s, m.t)) <==> s.lock == Some(m.t))
    ensures OneAlive(Step(s, m))
  {
  }

  lemma StepConsistent(s: State, m: Move)
    requires OneAlive(s) && Consistent(s)
    requires Critical(At(s, m.t)) <==> s.lock == Some(m.t)
    requires s.lock.Some? ==> Critical(At(s, s.lock.value))
    ensures Consistent(Step(s, m))
  {
    CountAlive(s);
    hide OneAlive;
  }

  lemma CountAlive(s: State)
    requires OneAlive(s)
    ensures |s.deleted| <= s.created <= |s.deleted| + 1
  {
  }

  /** Over every run allocations minus deletions is 0 or 1, no object is deleted twice
      and none before it exists, and while the lock is free m_pInstance is the object
      alive: non-NULL exactly when one is. */
  lemma {:induction false} EveryRun(moves: seq<Move>)
    ensures var s := After(moves);
            && Inv(s)
            && 0 <= s.created - |s.deleted| <= 1
            && (forall i, j :: 0 <= i < j < |s.deleted| ==> s.deleted[i] != s.deleted[j])
            && (forall i :: 0 <= i < |s.deleted| ==> 1 <= s.deleted[i] <= s.created)
            && (s.lock == None ==> s.instance == Alive(s) && (s.instance != 0 <==> s.created - |s.deleted| == 1))
    decreases |moves|
  {
    if moves != [] {
      EveryRun(moves[..|moves| - 1]);
      StepKeeps(After(moves[..|moves| - 1]), moves[|moves| - 1]);
    }
  }

  predicate InFree(p: Place) {
    p.SetFree? || p.AcquireFree? || p.CheckFree? || p.Delete? || p.Clear? || p.ReleaseFree?
  }

  // Nobody is in Free, nothing was deleted, and only the first object was returned.
  ghost predicate Untouched(s: State) {
    && s.deleted == [] && (s.instance == 0 || s.instance == 1)
    && (forall t: Thread :: !InFree(At(s, t)))
    && (forall i :: 0 <= i < |s.results| ==> s.results[i] == 0 || s.results[i] == 1)
  }

  /** In runs without Free, every call of Instance that returns an object returns the
      same one. */
  lemma {:induction false} SameInstance(moves: seq<Move>)
    requires forall m :: m in moves ==> !m.free
    ensures var s := After(moves);
            Untouched(s) && forall i, j :: 0 <= i < |s.results| && 0 <= j < |s.results| && s.results[i] != 0 && s.results[j] != 0 ==> s.results[i] == s.results[j]
    decreases |moves|
  {
    if moves != [] {
      var before := moves[..|moves| - 1];
      SameInstance(before);
      EveryRun(before);
      UntouchedStep(After(before), moves[|moves| - 1]);
    }
  }

  lemma UntouchedStep(s: State, m: Move)
    requires Inv(s) && Untouched(s) && !m.free
    ensures Untouched(Step(s, m))
  {
    var s1 := Step(s, m);
    assert Critical(At(s, m.t)) <==> s.lock == Some(m.t);
    assert !InFree(At(s, m.t));
    hide Exclusive;
    forall t: Thread
      ensures !InFree(At(s1, t))
    {
      assert !InFree(At(s, t));
    }
  }

  // Once Instance has been through, m_pInstance is the first object.
  ghost predicate Sure(s: State) {
    && (forall t: Thread :: At(s, t).Release? || At(s, t).Return? ==> s.instance == 1)
    && (forall t: Thread :: At(s, t).Store? ==> At(s, t).p == 1)
  }

  /** In runs without Free in which no allocation fails, every call of Instance returns
      that object. */
  lemma {:induction false} AlwaysAnObject(moves: seq<Move>)
    requires forall m :: m in moves ==> !m.free && !m.fails
    ensures var s := After(moves); Sure(s) && forall i :: 0 <= i < |s.results| ==> s.results[i] == 1
    decreases |moves|
  {
    if moves != [] {
      var before := moves[..|moves| - 1];
      AlwaysAnObject(before);
      SameInstance(before);
      EveryRun(before);
      SureStep(After(before), moves[|moves| - 1]);
    }
  }

  lemma SureStep(s: State, m: Move)
    requires Inv(s) && Untouched(s) && Sure(s) && !m.free && !m.fails
    ensures Sure(Step(s, m))
    ensures At(s, m.t).Return? ==> s.instance == 1
  {
    var s1 := Step(s, m);
    assert Critical(At(s, m.t)) <==> s.lock == Some(m.t);
    assert !InFree(At(s, m.t));
    hide Exclusive;
    forall t: Thread
      ensures At(s1, t).Release? || At(s1, t).Return? ==> s1.instance == 1
      ensures At(s1, t).Store? ==> At(s1, t).p == 1
    {
      assert At(s, t).Release? || At(s, t).Return? ==> s.instance == 1;
      assert At(s, t).Store? ==> At(s, t).p == 1;
    }
  }

  // Free has set m_bFree before it waits for the lock.
  ghost predicate Flagged(s: State) {
    && (forall t: Thread :: InFree(At(s, t)) && !At(s, t).SetFree? ==> s.freed)
    && (s.deleted != [] ==> s.freed)
  }

  /** Whenever an object is deleted, m_bFree is set, so that its destructor neither waits
      for the lock, which Free holds, nor deletes once more; without a call of Free it is
      never set. */
  lemma {:induction false} FlaggedAlways(moves: seq<Move>)
    ensures Flagged(After(moves))
    ensures (forall m :: m in moves ==> !m.free) ==> !After(moves).freed
    decreases |moves|
  {
    if moves != [] {
      var before, m := moves[..|moves| - 1], moves[|moves| - 1];
      FlaggedAlways(before);
      FlaggedStep(After(before), m);
      if forall m :: m in moves ==> !m.free {
        SameInstance(before);
        assert !InFree(At(After(before), m.t));
      }
    }
  }

  lemma FlaggedStep(s: State, m: Move)
    requires Flagged(s)
    ensures Flagged(Step(s, m))
  {
    var s1 := Step(s, m);
    forall t: Thread | InFree(At(s1, t)) && !At(s1, t).SetFree?
      ensures s1.freed
    {
      assert InFree(At(s, t)) && !At(s, t).SetFree? ==> s.freed;
    }
    assert InFree(At(s, m.t)) && !At(s, m.t).SetFree? ==> s.freed;
  }

  /** In every run, with Free as well: what a thread at its return statement is about to
      return, unless NULL, is alive exactly when no thread has deleted it and not yet
      cleared m_pInstance. */
  lemma ReturnedAlive(moves: seq<Move>, t: Thread)
    requires At(After(moves), t) == Return
    ensures var s, s1 := After(moves), After(moves + [Move(t, false, false)]);
            && s1.results == s.results + [s.instance]
            && (s.instance != 0 ==> (s.instance == Alive(s) <==> forall u: Thread :: !At(s, u).Clear?))
            && (s.instance != 0 && s.instance != Alive(s) ==> s.instance in s.deleted)
  {
    var s := After(moves);
    EveryRun(moves);
    assert (moves + [Move(t, false, false)])[..|moves|] == moves;
    hide After, Step;
    if s.lock.Some? {
      assert Critical(At(s, s.lock.value));
    }
    forall u: Thread | At(s, u).Clear?
      ensures s.lock == Some(u)
    {
      assert Critical(At(s, u));
    }
    assert !Critical(At(s, t));
    if s.instance != 0 && s.instance != Alive(s) {
      assert s.deleted[s.created - 1] == s.instance;
    }
  }

  // --- a run with Free ------------------------------------------------------------------------------

  // n steps of one thread, without allocation failure.
  function Calls(t: Thread, free: bool, n: nat): seq<Move> {
    if n == 0 then [] else Calls(t, free, n - 1) + [Move(t, free, false)]
  }

  function Many(s: State, t: Thread, free: bool, n: nat): State {
    if n == 0 then s else Step(Many(s, t, free, n - 1), Move(t, free, false))
  }

  lemma {:induction false} AfterCalls(before: seq<Move>, t: Thread, free: bool, n: nat)
    ensures After(before + Calls(t, free, n)) == Many(After(before), t, free, n)
  {
    hide Step;
    if n == 0 {
      assert before + Calls(t, free, 0) == before;
    } else {
      AfterCalls(before, t, free, n - 1);
      var moves := before + Calls(t, free, n);
      assert moves[..|moves| - 1] == before + Calls(t, free, n - 1);
    }
  }

  // A call of Instance that finds NULL takes eight steps.
  lemma InstanceRuns(s: State, t: Thread)
    requires At(s, t) == Idle && s.instance == 0 && s.lock == None
    ensures var s1 := Many(s, t, false, 8);
            At(s1, t) == Idle && s1.instance == s.created + 1 && s1.lock == None && s1.results == s.results + [s1.instance]
            && s1.created == s.created + 1 && forall u: Thread :: u != t ==> At(s1, u) == At(s, u)
  {
    hide Many;
    var m := Move(t, false, false);
    var s1 := Step(s, m);
    var s2 := Step(s1, m);
    var s3 := Step(s2, m);
    var s4 := Step(s3, m);
    assert At(s2, t) == Acquire && At(s4, t) == Allocate;
    var s5 := Step(s4, m);
    var s6 := Step(s5, m);
    var s7 := Step(s6, m);
    assert At(s6, t) == Release;
    Eight(s, t, false);
  }

  lemma Eight(s: State, t: Thread, free: bool)
    ensures var m := Move(t, free, false);
            var s4 := Step(Step(Step(Step(s, m), m), m), m);
            Many(s, t, free, 7) == Step(Step(Step(s4, m), m), m) && Many(s, t, free, 8) == Step(Many(s, t, free, 7), m)
  {
    hide Step;
    assert Many(s, t, free, 1) == Step(s, Move(t, free, false));
    assert Many(s, t, free, 3) == Step(Many(s, t, free, 2), Move(t, free, false));
    assert Many(s, t, free, 5) == Step(Many(s, t, free, 4), Move(t, free, false));
  }

  // A call of Free that finds an object takes seven.
  lemma FreeRuns(s: State, t: Thread)
    requires At(s, t) == Idle && s.instance != 0 && s.lock == None
    ensures var s1 := Many(s, t, true, 7);
            At(s1, t) == Idle && s1.instance == 0 && s1.lock == None && s1.results == s.results
            && s1.created == s.created && forall u: Thread :: u != t ==> At(s1, u) == At(s, u)
  {
    hide Many;
    var m := Move(t, true, false);
    var s1 := Step(s, m);
    var s2 := Step(s1, m);
    var s3 := Step(s2, m);
    var s4 := Step(s3, m);
    assert At(s2, t) == AcquireFree && At(s4, t) == Delete;
    var s5 := Step(s4, m);
    var s6 := Step(s5, m);
    assert At(s6, t) == ReleaseFree;
    Eight(s, t, true);
  }

  /** With Free the instance is not the same for ever: the calls before and after it
      return different objects. */
  lemma FreeChangesInstance()
    ensures After(Calls(0, false, 8) + Calls(1, true, 7) + Calls(0, false, 8)).results == [1, 2]
  {
    hide Many, After, Calls, Step;
    var a, b := Calls(0, false, 8), Calls(1, true, 7);
    AfterNothing();
    AfterCalls([], 0, false, 8);
    assert [] + a == a;
    InstanceRuns(START, 0);
    AfterCalls(a, 1, true, 7);
    FreeRuns(After(a), 1);
    AfterCalls(a + b, 0, false, 8);
    InstanceRuns(After(a + b), 0);
  }

  /** And a call of Instance that runs into Free can return the deleted object. */
  lemma DeletedReturned()
    ensures var s := After(Calls(0, false, 8) + Calls(2, false, 2) + Calls(1, true, 5) + Calls(2, false, 1));
            s.results == [1, 1] && s.deleted == [1]
  {
    hide After, Calls;
    var a, b, c := Calls(0, false, 8), Calls(2, false, 2), Calls(1, true, 5);
    AfterNothing();
    AfterCalls([], 0, false, 8);
    assert [] + a == a;
    InstanceRuns(START, 0);
    assert After(a).deleted == [] by {
      EveryRun(a);
      AliveNothing(After(a));
    }
    AfterCalls(a, 2, false, 2);
    AfterCalls(a + b, 1, true, 5);
    AfterCalls(a + b + c, 2, false, 1);
    Overtaken(After(a));
  }

  lemma AliveNothing(s: State)
    requires OneAlive(s) && s.created == 1 && s.instance == 1 && s.lock == None && Consistent(s)
    ensures s.deleted == []
  {
  }

  lemma Overtaken(s: State)
    requires s.instance == 1 && s.lock == None && s.deleted == [] && s.results == [1]
    requires At(s, 1) == Idle && At(s, 2) == Idle
    ensures var s1 := Many(Many(Many(s, 2, false, 2), 1, true, 5), 2, false, 1);
            s1.results == [1, 1] && s1.deleted == [1]
  {
    hide Many, Step;
    BeforeReturn(s, 2, 1);
    var s1 := Many(s, 2, false, 2);
    BeforeClear(s1, 1, 2);
    One(Many(s1, 1, true, 5), 2, false);
    Returns(Many(s1, 1, true, 5), 2);
  }

  // Two steps of a call of Instance that finds an object.
  lemma BeforeReturn(s: State, t: Thread, u: Thread)
    requires s.instance != 0 && At(s, t) == Idle && u != t
    ensures var s1 := Many(s, t, false, 2);
            At(s1, t) == Return && At(s1, u) == At(s, u) && s1 == s.(places := s1.places)
  {
    Two(s, t, false);
    hide Many;
  }

  // Five steps of a call of Free.
  lemma BeforeClear(s: State, t: Thread, u: Thread)
    requires s.instance != 0 && s.lock == None && At(s, t) == Idle && u != t
    ensures var s1 := Many(s, t, true, 5);
            At(s1, u) == At(s, u) && s1.instance == s.instance && s1.results == s.results && s1.deleted == s.deleted + [s.instance]
  {
    Five(s, t, true);
    hide Many;
    var f := Move(t, true, false);
    var s2 := Step(Step(s, f), f);
    assert At(s2, t) == AcquireFree && s2.instance == s.instance && s2.lock == None && At(s2, u) == At(s, u);
    var s4 := Step(Step(s2, f), f);
    assert At(s4, t) == Delete && At(s4, u) == At(s, u);
  }

  lemma Returns(s: State, t: Thread)
    requires At(s, t) == Return
    ensures var s1 := Step(s, Move(t, false, false)); s1.results == s.results + [s.instance] && s1.deleted == s.deleted
  {
  }

  lemma One(s: State, t: Thread, free: bool)
    ensures Many(s, t, free, 1) == Step(s, Move(t, free, false))
  {
    hide Step;
  }

  lemma Two(s: State, t: Thread, free: bool)
    ensures var m := Move(t, free, false); Many(s, t, free, 2) == Step(Step(s, m), m)
  {
    hide Step;
    One(s, t, free);
  }

  lemma Five(s: State, t: Thread, free: bool)
    ensures var m := Move(t, free, false); Many(s, t, free, 5) == Step(Step(Step(Step(Step(s, m), m), m), m), m)
  {
    hide Step;
    Two(s, t, free);
    assert Many(s, t, free, 4) == Step(Many(s, t, free, 3), Move(t, free, false));
  }

  lemma AfterNothing()
    ensures After([]) == START
  {
  }
}

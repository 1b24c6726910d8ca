/** Admission of connection handlers. Several accept loops share one atomic counter, which each
    increments first and, if the ceiling was already reached, decrements again. Every atomic
    operation is one step, and the steps of all threads interleave freely. The program's ceiling is 64;
    the results hold for any. */
module SlotAdmission {
  type Acceptor = nat
  type Handler = nat

  /** Values of the shared `usize`; `fetch_add` and `fetch_sub` wrap around. */
  const WORD: nat := 0x1_0000_0000_0000_0000

  /** What an accept loop is in the middle of: nothing, undoing its increment, or starting the thread of a handler. A
      thread that cannot be created panics in the accept loop itself, which in a build that unwinds ends that loop; a
      build that aborts ends the whole process there. */
  datatype Loop = Accepting | Undoing | Starting(h: Handler) | Ended

  /** A reserved slot belongs to a handler that has not started, is running, or never started; only a started handler
      owns the guard that releases it. */
  datatype Phase = Reserved | Running | NeverStarted

  datatype State = State(counter: nat, loops: map<Acceptor, Loop>, handlers: map<Handler, Phase>)

  datatype Event =
    | Increment(a: Acceptor, h: Handler)
    | Undo(a: Acceptor)
    | Start(a: Acceptor)
    | StartFails(a: Acceptor)
    | Finish(h: Handler)
    | Panic(h: Handler)

  function Initial(acceptors: set<Acceptor>): State {
    State(0, map a | a in acceptors :: Accepting, map[])
  }

  predicate IsAt(s: State, a: Acceptor, l: Loop) {
    a in s.loops && s.loops[a] == l
  }

  predicate Enabled(s: State, e: Event) {
    match e
    case Increment(a, h) => IsAt(s, a, Accepting) && h !in s.handlers
    case Undo(a) => IsAt(s, a, Undoing)
    case Start(a) => a in s.loops && s.loops[a].Starting?
    case StartFails(a) => a in s.loops && s.loops[a].Starting?
    case Finish(h) => h in s.handlers && s.handlers[h] == Running
    case Panic(h) => h in s.handlers && s.handlers[h] == Running
  }

  function FetchAdd(counter: nat): nat {
    (counter + 1) % WORD
  }

  function FetchSub(counter: nat): nat {
    (counter + WORD - 1) % WORD
  }

  function Next(s: State, e: Event, max: nat): State
    requires Enabled(s, e)
  {
    match e
    case Increment(a, h) =>
      if s.counter >= max then State(FetchAdd(s.counter), s.loops[a := Undoing], s.handlers)
      else State(FetchAdd(s.counter), s.loops[a := Starting(h)], s.handlers[h := Reserved])
    case Undo(a) => State(FetchSub(s.counter), s.loops[a := Accepting], s.handlers)
    case Start(a) => State(s.counter, s.loops[a := Accepting], s.handlers[s.loops[a].h := Running])
    case StartFails(a) => State(s.counter, s.loops[a := Ended], s.handlers[s.loops[a].h := NeverStarted])
    case Finish(h) => State(FetchSub(s.counter), s.loops, s.handlers - {h})
    case Panic(h) => State(FetchSub(s.counter), s.loops, s.handlers - {h})
  }

  // ---- Runs ----

  /** The state after a run. An event that is not enabled changes nothing; no run holds one. */
  function After(events: seq<Event>, max: nat, acceptors: set<Acceptor>): State {
    if events == [] then Initial(acceptors)
    else
      var before, e := After(events[..|events| - 1], max, acceptors), events[|events| - 1];
      if Enabled(before, e) then Next(before, e, max) else before
  }

  predicate IsRun(events: seq<Event>, max: nat, acceptors: set<Acceptor>) {
    events == []
    || (IsRun(events[..|events| - 1], max, acceptors)
        && Enabled(After(events[..|events| - 1], max, acceptors), events[|events| - 1]))
  }

  function KeysWith<V(==)>(m: map<nat, V>, v: V): set<nat> {
    set k | k in m && m[k] == v
  }

  /** The accept loops that have incremented over the ceiling and not yet decremented. */
  function UndoingIn(s: State): set<Acceptor> {
    KeysWith(s.loops, Undoing)
  }

  function EndedIn(s: State): set<Acceptor> {
    KeysWith(s.loops, Ended)
  }

  function HandlersIn(s: State, p: Phase): set<Handler> {
    KeysWith(s.handlers, p)
  }

  /** Reserved handlers are those some loop is starting, one each. */
  predicate LoopsOwnReserved(s: State) {
    && (forall a :: a in s.loops && s.loops[a].Starting? ==>
        s.loops[a].h in s.handlers && s.handlers[s.loops[a].h] == Reserved)
    && (forall a, b :: a in s.loops && b in s.loops && a != b && s.loops[a].Starting? ==> s.loops[b] != s.loops[a])
  }

  predicate Invariant(s: State, max: nat, acceptors: set<Acceptor>) {
    && s.loops.Keys == acceptors
    && s.counter == |UndoingIn(s)| + |s.handlers|
    && |s.handlers| <= max
    && LoopsOwnReserved(s)
    && |HandlersIn(s, NeverStarted)| == |EndedIn(s)|
  }

  lemma SubsetSize(a: set<nat>, b: set<nat>)
    requires a <= b
    ensures |a| <= |b|
  {
    assert b == a + (b - a);
  }

  lemma ReplaceKeepsSize(m: map<Handler, Phase>, h: Handler, p: Phase)
    requires h in m
    ensures |m[h := p]| == |m|
  {
    assert m[h := p].Keys == m.Keys;
    assert |m[h := p]| == |m[h := p].Keys| && |m| == |m.Keys|;
  }

  lemma AddGrows(m: map<Handler, Phase>, h: Handler, p: Phase)
    requires h !in m
    ensures |m[h := p]| == |m| + 1
  {
    assert m[h := p].Keys == m.Keys + {h};
    assert |m[h := p]| == |m[h := p].Keys| && |m| == |m.Keys|;
  }

  lemma RemoveShrinks(m: map<Handler, Phase>, h: Handler)
    requires h in m
    ensures |m - {h}| == |m| - 1
  {
    assert (m - {h}).Keys == m.Keys - {h};
    assert |m - {h}| == |(m - {h}).Keys| && |m| == |m.Keys|;
  }

  lemma InKeysWith<V>(m: map<nat, V>, v: V, k: nat)
    ensures k in KeysWith(m, v) <==> k in m && m[k] == v
  {
  }

  lemma CountAfterUpdate<V>(m: map<nat, V>, k: nat, v: V, w: V)
    ensures |KeysWith(m[k := v], w)|
            == |KeysWith(m, w)| + (if v == w then 1 else 0) - (if k in m && m[k] == w then 1 else 0)
  {
    var before, after := KeysWith(m, w), KeysWith(m[k := v], w);
    if v == w {
      assert after == before + {k};
    } else {
      assert after == before - {k};
    }
  }

  lemma CountAfterRemoval<V>(m: map<nat, V>, k: nat, w: V)
    ensures |KeysWith(m - {k}, w)| == |KeysWith(m, w)| - if k in m && m[k] == w then 1 else 0
  {
    assert KeysWith(m - {k}, w) == KeysWith(m, w) - {k};
  }

  lemma NoWrap(c: nat)
    requires c < WORD
    ensures c + 1 < WORD ==> FetchAdd(c) == c + 1
    ensures c > 0 ==> FetchSub(c) == c - 1
  {
  }

  lemma CounterFits(s: State, max: nat, acceptors: set<Acceptor>)
    requires max + |acceptors| < WORD && Invariant(s, max, acceptors)
    ensures s.counter <= max + |acceptors|
    ensures (exists a :: IsAt(s, a, Accepting)) ==> s.counter < max + |acceptors|
  {
    SubsetSize(UndoingIn(s), acceptors);
    if a :| IsAt(s, a, Accepting) {
      SubsetSize(UndoingIn(s) + {a}, acceptors);
    }
  }

  lemma StepKeepsOwnership(s: State, e: Event, max: nat)
    requires LoopsOwnReserved(s) && Enabled(s, e)
    ensures LoopsOwnReserved(Next(s, e, max))
  {
    hide FetchAdd, FetchSub;
  }

  // ---- What one step does to each count ----

  /** The loop an event belongs to, and where it leaves that loop. */
  lemma LoopCount(s: State, e: Event, max: nat, l: Loop)
    requires Enabled(s, e) && (l == Undoing || l == Ended)
    ensures |KeysWith(Next(s, e, max).loops, l)|
            == |KeysWith(s.loops, l)| + (if l == Undoing && e.Increment? && s.counter >= max then 1 else 0)
               + (if l == Ended && e.StartFails? then 1 else 0) - (if l == Undoing && e.Undo? then 1 else 0)
  {
    hide FetchAdd, FetchSub, KeysWith;
    match e
    case Increment(a, h) => CountAfterUpdate(s.loops, a, if s.counter >= max then Undoing else Starting(h), l);
    case Undo(a) => CountAfterUpdate(s.loops, a, Accepting, l);
    case Start(a) => CountAfterUpdate(s.loops, a, Accepting, l);
    case StartFails(a) => CountAfterUpdate(s.loops, a, Ended, l);
    case Finish(h) =>
    case Panic(h) =>
  }

  lemma NeverStartedCount(s: State, e: Event, max: nat)
    requires Enabled(s, e) && LoopsOwnReserved(s)
    ensures |HandlersIn(Next(s, e, max), NeverStarted)|
            == |HandlersIn(s, NeverStarted)| + if e.StartFails? then 1 else 0
  {
    hide FetchAdd, FetchSub, KeysWith;
    match e
    case Increment(a, h) => CountAfterUpdate(s.handlers, h, Reserved, NeverStarted);
    case Undo(a) =>
    case Start(a) => CountAfterUpdate(s.handlers, s.loops[a].h, Running, NeverStarted);
    case StartFails(a) => CountAfterUpdate(s.handlers, s.loops[a].h, NeverStarted, NeverStarted);
    case Finish(h) => CountAfterRemoval(s.handlers, h, NeverStarted);
    case Panic(h) => CountAfterRemoval(s.handlers, h, NeverStarted);
  }

  lemma HandlerCount(s: State, e: Event, max: nat)
    requires Enabled(s, e) && LoopsOwnReserved(s)
    ensures |Next(s, e, max).handlers|
            == |s.handlers| + (if e.Increment? && s.counter < max then 1 else 0)
               - (if e.Finish? || e.Panic? then 1 else 0)
  {
    hide FetchAdd, FetchSub;
    match e
    case Increment(a, h) =>
      if s.counter < max {
        AddGrows(s.handlers, h, Reserved);
      }
    case Undo(a) =>
    case Start(a) => ReplaceKeepsSize(s.handlers, s.loops[a].h, Running);
    case StartFails(a) => ReplaceKeepsSize(s.handlers, s.loops[a].h, NeverStarted);
    case Finish(h) => RemoveShrinks(s.handlers, h);
    case Panic(h) => RemoveShrinks(s.handlers, h);
  }

  lemma CounterStep(s: State, e: Event, max: nat, acceptors: set<Acceptor>)
    requires max + |acceptors| < WORD
    requires Invariant(s, max, acceptors) && Enabled(s, e)
    ensures Next(s, e, max).counter
            == s.counter + (if e.Increment? then 1 else 0) - (if e.Undo? || e.Finish? || e.Panic? then 1 else 0)
  {
    CounterFits(s, max, acceptors);
    NoWrap(s.counter);
    hide FetchAdd, FetchSub, LoopsOwnReserved, EndedIn;
    match e
    case Undo(a) => assert a in UndoingIn(s);
    case Finish(h) => RemoveShrinks(s.handlers, h);
    case Panic(h) => RemoveShrinks(s.handlers, h);
    case _ =>
  }

  lemma StepKeepsLoops(s: State, e: Event, max: nat)
    requires Enabled(s, e)
    ensures Next(s, e, max).loops.Keys == s.loops.Keys
  {
  }

  lemma StepKeepsInvariant(s: State, e: Event, max: nat, acceptors: set<Acceptor>)
    requires max + |acceptors| < WORD
    requires Invariant(s, max, acceptors) && Enabled(s, e)
    ensures Invariant(Next(s, e, max), max, acceptors)
  {
    StepKeepsLoops(s, e, max);
    hide Enabled, Next, KeysWith, LoopsOwnReserved;
    StepKeepsOwnership(s, e, max);
    CounterStep(s, e, max, acceptors);
    LoopCount(s, e, max, Undoing);
    LoopCount(s, e, max, Ended);
    NeverStartedCount(s, e, max);
    HandlerCount(s, e, max);
  }

  lemma InitialInvariant(max: nat, acceptors: set<Acceptor>)
    ensures Invariant(Initial(acceptors), max, acceptors)
  {
    var s := Initial(acceptors);
    assert UndoingIn(s) == {} && EndedIn(s) == {} && HandlersIn(s, NeverStarted) == {};
  }

  lemma {:induction false} RunKeepsInvariant(events: seq<Event>, max: nat, acceptors: set<Acceptor>)
    requires max + |acceptors| < WORD && IsRun(events, max, acceptors)
    ensures Invariant(After(events, max, acceptors), max, acceptors)
  {
    hide Invariant, Enabled, Next;
    if events == [] {
      InitialInvariant(max, acceptors);
    } else {
      var before := events[..|events| - 1];
      RunKeepsInvariant(before, max, acceptors);
      StepKeepsInvariant(After(before, max, acceptors), events[|events| - 1], max, acceptors);
    }
  }

  /** In every interleaving the handlers never exceed the ceiling, and the counter is the held slots plus the pending
      undos. */
  lemma CeilingHoldsInEveryRun(events: seq<Event>, max: nat, acceptors: set<Acceptor>)
    requires max + |acceptors| < WORD && IsRun(events, max, acceptors)
    ensures var s := After(events, max, acceptors);
            && s.counter == |UndoingIn(s)| + |s.handlers| <= max + |acceptors|
            && |HandlersIn(s, Running)| <= |s.handlers| <= max
  {
    RunKeepsInvariant(events, max, acceptors);
    var s := After(events, max, acceptors);
    CounterFits(s, max, acceptors);
    assert HandlersIn(s, Running) <= s.handlers.Keys;
    SubsetSize(HandlersIn(s, Running), s.handlers.Keys);
  }

  /** Nothing is in flight: no pending undo, no handler waiting to start or running. */
  predicate Drained(s: State) {
    UndoingIn(s) == {} && HandlersIn(s, Reserved) == {} && HandlersIn(s, Running) == {}
  }

  lemma DrainedHandlers(s: State)
    requires Drained(s)
    ensures |HandlersIn(s, NeverStarted)| == |s.handlers|
    ensures |s.handlers| == 0 <==> HandlersIn(s, NeverStarted) == {}
  {
    var all, never := s.handlers.Keys, HandlersIn(s, NeverStarted);
    forall h | h in all
      ensures h in never
    {
      assert h !in HandlersIn(s, Reserved) && h !in HandlersIn(s, Running);
      InKeysWith(s.handlers, s.handlers[h], h);
      assert s.handlers[h] == NeverStarted;
    }
    assert never == all && |all| == |s.handlers|;
  }

  /** Once everything drains the counter is the number of accept loops that ended on a thread they could not create,
      so it is back at zero exactly when every reserved handler did start, and what leaks never exceeds the number of
      accept loops. */
  lemma DrainedCounter(events: seq<Event>, max: nat, acceptors: set<Acceptor>)
    requires max + |acceptors| < WORD && IsRun(events, max, acceptors)
    requires Drained(After(events, max, acceptors))
    ensures var s := After(events, max, acceptors);
            && s.counter == |EndedIn(s)| <= |acceptors|
            && (s.counter == 0 <==> HandlersIn(s, NeverStarted) == {})
  {
    RunKeepsInvariant(events, max, acceptors);
    var s := After(events, max, acceptors);
    assert EndedIn(s) <= acceptors;
    DrainedHandlers(s);
    hide After, KeysWith, LoopsOwnReserved;
    SubsetSize(EndedIn(s), acceptors);
  }

  lemma {:induction false} StartedHandlersNeverLeak(events: seq<Event>, max: nat, acceptors: set<Acceptor>)
    requires IsRun(events, max, acceptors)
    requires forall i :: 0 <= i < |events| ==> !events[i].StartFails?
    ensures HandlersIn(After(events, max, acceptors), NeverStarted) == {}
  {
    if events != [] {
      var before := events[..|events| - 1];
      StartedHandlersNeverLeak(before, max, acceptors);
      var s, t := After(before, max, acceptors), After(events, max, acceptors);
      assert !events[|events| - 1].StartFails?;
      forall h | h in t.handlers
        ensures t.handlers[h] != NeverStarted
      {
        assert h in s.handlers ==> h !in HandlersIn(s, NeverStarted);
      }
    }
  }

  // ---- How many are admitted ----

  function Attempts(events: seq<Event>): nat {
    if events == [] then 0
    else Attempts(events[..|events| - 1]) + if events[|events| - 1].Increment? then 1 else 0
  }

  predicate NoReleases(events: seq<Event>) {
    forall i :: 0 <= i < |events| ==> !events[i].Finish? && !events[i].Panic?
  }

  function Min(a: nat, b: nat): nat {
    if a <= b then a else b
  }

  /** While nothing is released, exactly the first `max` attempts are admitted, however their increments and undos
      interleave. */
  lemma {:induction false} AdmittedWithoutReleases(events: seq<Event>, max: nat, acceptors: set<Acceptor>)
    requires max + |acceptors| < WORD && IsRun(events, max, acceptors) && NoReleases(events)
    ensures |After(events, max, acceptors).handlers| == Min(Attempts(events), max)
    ensures UndoingIn(After(events, max, acceptors)) != {} ==> |After(events, max, acceptors).handlers| == max
  {
    if events == [] {
      InitialInvariant(max, acceptors);
      assert UndoingIn(After(events, max, acceptors)) == {};
    } else {
      var before, e := events[..|events| - 1], events[|events| - 1];
      var s := After(before, max, acceptors);
      AdmittedWithoutReleases(before, max, acceptors);
      RunKeepsInvariant(before, max, acceptors);
      assert !e.Finish? && !e.Panic?;
      HandlerCount(s, e, max);
      LoopCount(s, e, max, Undoing);
      hide Enabled, Next, LoopsOwnReserved, KeysWith;
      assert UndoingIn(s) != {} || |UndoingIn(s)| == 0;
      assert |UndoingIn(Next(s, e, max))| == 0 ==> UndoingIn(Next(s, e, max)) == {};
    }
  }

  /** An attempt is refused exactly when held slots and pending undos together reach the ceiling. */
  lemma RefusedExactly(events: seq<Event>, max: nat, acceptors: set<Acceptor>, a: Acceptor, h: Handler)
    requires max + |acceptors| < WORD && IsRun(events, max, acceptors)
    requires Enabled(After(events, max, acceptors), Increment(a, h))
    ensures var s := After(events, max, acceptors);
            h !in Next(s, Increment(a, h), max).handlers <==> |s.handlers| + |UndoingIn(s)| >= max
  {
    RunKeepsInvariant(events, max, acceptors);
  }

  // ---- Two runs ----

  lemma NothingHappened(max: nat, acceptors: set<Acceptor>)
    ensures IsRun([], max, acceptors) && After([], max, acceptors) == Initial(acceptors)
  {
  }

  lemma RunExtends(events: seq<Event>, e: Event, max: nat, acceptors: set<Acceptor>, s: State)
    requires IsRun(events, max, acceptors) && After(events, max, acceptors) == s && Enabled(s, e)
    ensures IsRun(events + [e], max, acceptors)
    ensures After(events + [e], max, acceptors) == Next(s, e, max)
  {
    assert (events + [e])[..|events|] == events;
  }

  /** Held slots alone need not reach it: a pending undo can refuse a connection while a slot is free. */
  lemma PendingUndoCanRefuseBelowTheCeiling()
    ensures var run := [Increment(0, 0), Start(0), Increment(1, 1), Finish(0)];
            var s := After(run, 1, {0, 1});
            && IsRun(run, 1, {0, 1}) && s.handlers == map[]
            && Enabled(s, Increment(0, 2)) && 2 !in Next(s, Increment(0, 2), 1).handlers
  {
    hide After, IsRun;
    var e0, e1, e2, e3 := Increment(0, 0), Start(0), Increment(1, 1), Finish(0);
    NothingHappened(1, {0, 1});
    RunExtends([], e0, 1, {0, 1}, State(0, map[0 := Accepting, 1 := Accepting], map[]));
    assert [] + [e0] == [e0];
    RunExtends([e0], e1, 1, {0, 1}, State(1, map[0 := Starting(0), 1 := Accepting], map[0 := Reserved]));
    assert [e0] + [e1] == [e0, e1];
    RunExtends([e0, e1], e2, 1, {0, 1}, State(1, map[0 := Accepting, 1 := Accepting], map[0 := Running]));
    assert [e0, e1] + [e2] == [e0, e1, e2];
    RunExtends([e0, e1, e2], e3, 1, {0, 1}, State(2, map[0 := Accepting, 1 := Undoing], map[0 := Running]));
    assert [e0, e1, e2] + [e3] == [e0, e1, e2, e3];
    assert After([e0, e1, e2, e3], 1, {0, 1}) == State(1, map[0 := Accepting, 1 := Undoing], map[]);
  }

  /** A thread that cannot be created keeps its slot: nothing is in flight, and every attempt of the other loop is
      refused. */
  lemma UnstartedThreadKeepsItsSlot()
    ensures var run := [Increment(0, 0), StartFails(0)];
            var s := After(run, 1, {0, 1});
            && IsRun(run, 1, {0, 1}) && Drained(s) && s.counter == 1 && EndedIn(s) == {0}
            && forall h :: h !in s.handlers ==>
               Enabled(s, Increment(1, h)) && h !in Next(s, Increment(1, h), 1).handlers
  {
    hide After, IsRun;
    var e0, e1 := Increment(0, 0), StartFails(0);
    NothingHappened(1, {0, 1});
    RunExtends([], e0, 1, {0, 1}, State(0, map[0 := Accepting, 1 := Accepting], map[]));
    assert [] + [e0] == [e0];
    RunExtends([e0], e1, 1, {0, 1}, State(1, map[0 := Starting(0), 1 := Accepting], map[0 := Reserved]));
    assert [e0] + [e1] == [e0, e1];
    assert After([e0, e1], 1, {0, 1}) == State(1, map[0 := Ended, 1 := Accepting], map[0 := NeverStarted]);
  }
}

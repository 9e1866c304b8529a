// Whole runs of the cache: requests in any order, with timer synchronizations anywhere between them.
module CacheRuns {
  import opened Bytes
  import opened Wrappers
  import opened CacheModel
  import opened Sql

  datatype Event = Do(req: Request) | Tick

  function Step(r: Regime, s: State, e: Event): State {
    match e
    case Do(req) => Perform(r, s, req).0
    case Tick => TimerSync(r, s)
  }

  function Run(r: Regime, s: State, es: seq<Event>): State
    decreases |es|
  {
    if es == [] then s else Run(r, Step(r, s, es[0]), es[1..])
  }

  /** The answers a run gives, in order; a synchronization answers nothing. */
  function Answers(r: Regime, s: State, es: seq<Event>): seq<Outcome>
    decreases |es|
  {
    if es == [] then []
    else
      (if es[0].Do? then [Perform(r, s, es[0].req).1] else []) + Answers(r, Step(r, s, es[0]), es[1..])
  }

  /** The client requests of a run, in order. */
  function Requests(es: seq<Event>): seq<Request> {
    if es == [] then [] else (if es[0].Do? then [es[0].req] else []) + Requests(es[1..])
  }

  function SpecRun(a: Abstract, reqs: seq<Request>): Abstract
    decreases |reqs|
  {
    if reqs == [] then a else SpecRun(SpecPerform(a, reqs[0]).0, reqs[1..])
  }

  function SpecAnswers(a: Abstract, reqs: seq<Request>): seq<Outcome>
    decreases |reqs|
  {
    if reqs == [] then []
    else [SpecPerform(a, reqs[0]).1] + SpecAnswers(SpecPerform(a, reqs[0]).0, reqs[1..])
  }

  /** The runs the results are about: no oversize SET of a cached key, and no quote in what is written
      into statements, each at the moment the request arrives. */
  predicate AdmissibleRun(r: Regime, a: Abstract, reqs: seq<Request>)
    decreases |reqs|
  {
    reqs == [] ||
    (&& Admissible(r, a.touched, reqs[0]) && QuoteSafe(r, a.touched, reqs[0])
     && AdmissibleRun(r, SpecPerform(a, reqs[0]).0, reqs[1..]))
  }

  lemma TickRefines(r: Regime, s: State, a: Abstract)
    requires Refines(r, s, a)
    ensures Refines(r, TimerSync(r, s), a)
  {
    if r == DeferDump {
      SyncCorrect(s);
      ShowsVisible(s, a.data);
      ShowsVisible(TimerSync(r, s), a.data);
    }
  }

  /** Every admissible run, with synchronizations anywhere, answers what one plain map answers, ends
      showing that map, and keeps the invariant. */
  lemma {:induction false} RunRefines(r: Regime, s: State, a: Abstract, es: seq<Event>)
    requires Refines(r, s, a) && AdmissibleRun(r, a, Requests(es))
    ensures Refines(r, Run(r, s, es), SpecRun(a, Requests(es)))
    ensures Answers(r, s, es) == SpecAnswers(a, Requests(es))
    decreases |es|
  {
    if es != [] {
      match es[0]
      case Tick =>
        TickRefines(r, s, a);
        assert Requests(es) == Requests(es[1..]);
        RunRefines(r, Step(r, s, es[0]), a, es[1..]);
      case Do(req) =>
        PerformRefines(r, s, a, req);
        assert Requests(es) == [req] + Requests(es[1..]);
        assert Requests(es)[1..] == Requests(es[1..]);
        RunRefines(r, Step(r, s, es[0]), SpecPerform(a, req).0, es[1..]);
    }
  }

  /** From one database, the same requests get the same answers in any two regimes, whatever the timer
      does, and in the caching regimes they bring the same keys into the cache. */
  lemma RegimeEquivalence(r: Regime, r': Regime, db: Table, es: seq<Event>, es': seq<Event>)
    requires NoEmptyValue(db) && Requests(es) == Requests(es')
    requires AdmissibleRun(r, AbstractStart(db), Requests(es))
    requires AdmissibleRun(r', AbstractStart(db), Requests(es))
    ensures Answers(r, Start(db), es) == Answers(r', Start(db), es')
    ensures Visible(Run(r, Start(db), es)) == Visible(Run(r', Start(db), es'))
    ensures r != NoCache && r' != NoCache ==>
              Run(r, Start(db), es).cache.Keys == Run(r', Start(db), es').cache.Keys
  {
    StartRefines(r, db);
    StartRefines(r', db);
    RunRefines(r, Start(db), AbstractStart(db), es);
    RunRefines(r', Start(db), AbstractStart(db), es');
    var a := SpecRun(AbstractStart(db), Requests(es));
    ShowsVisible(Run(r, Start(db), es), a.data);
    ShowsVisible(Run(r', Start(db), es'), a.data);
  }

  /** In every reachable state of an uncached or write-through run the database is the plain map, the
      log is empty, and the cache repeats the database: a live entry is the stored value, a tombstone
      means the key is not stored. */
  lemma WriteThroughCoherence(r: Regime, db: Table, es: seq<Event>)
    requires r == NoCache || r == GetCache
    requires NoEmptyValue(db) && AdmissibleRun(r, AbstractStart(db), Requests(es))
    ensures var s := Run(r, Start(db), es);
      && s.log == []
      && s.db == SpecRun(AbstractStart(db), Requests(es)).data
      && (forall k :: k in s.cache ==> Lookup(s.db, k) == EntryValue(s.cache[k]))
  {
    StartRefines(r, db);
    RunRefines(r, Start(db), AbstractStart(db), es);
    var s, a := Run(r, Start(db), es), SpecRun(AbstractStart(db), Requests(es));
    forall k ensures Lookup(s.db, k) == Lookup(a.data, k) {
      assert VisibleAt(s, k) == Lookup(a.data, k);
    }
    SameLookups(s.db, a.data);
  }

  /** In every reachable state of a deferred-dump run every pending key is cached, and replaying the
      pending log over the database gives for each cached key exactly the cached value or absence, and
      over all keys the plain map. */
  lemma DeferredDumpCoherence(db: Table, es: seq<Event>)
    requires NoEmptyValue(db) && AdmissibleRun(DeferDump, AbstractStart(db), Requests(es))
    ensures var s := Run(DeferDump, Start(db), es);
      && (forall i :: 0 <= i < |s.log| ==> s.log[i].key in s.cache)
      && (forall k :: k in s.cache ==> Lookup(Replay(s.log, s.db), k) == EntryValue(s.cache[k]))
      && Replay(s.log, s.db) == SpecRun(AbstractStart(db), Requests(es)).data
  {
    StartRefines(DeferDump, db);
    RunRefines(DeferDump, Start(db), AbstractStart(db), es);
    var s, a := Run(DeferDump, Start(db), es), SpecRun(AbstractStart(db), Requests(es));
    SyncCorrect(s);
    ShowsVisible(s, a.data);
  }

  /** A request of the deferred-dump regime that only reads or only waits. */
  predicate OnlyWaits(e: Event) {
    e.Do? && !e.req.Del? && (e.req.Set? ==> |e.req.key| <= 98 && |e.req.value| <= 97)
  }

  function Sets(es: seq<Event>): nat {
    if es == [] then 0 else (if es[0].Do? && es[0].req.Set? then 1 else 0) + Sets(es[1..])
  }

  /** Nothing is saved early: while fewer than 10000 operations wait, GETs and fitting SETs leave the
      database as it is, and every SET waits. */
  lemma {:induction false} NothingIsSavedEarly(s: State, es: seq<Event>)
    requires forall i :: 0 <= i < |es| ==> OnlyWaits(es[i])
    requires |s.log| + Sets(es) < 10000
    ensures var s' := Run(DeferDump, s, es); s'.db == s.db && |s'.log| == |s.log| + Sets(es)
    decreases |es|
  {
    if es != [] {
      var req := es[0].req;
      var s' := Step(DeferDump, s, es[0]);
      assert OnlyWaits(es[0]);
      if req.Set? {
        FittingSetWaits(s, req.key, req.value);
      }
      NothingIsSavedEarly(s', es[1..]);
    }
  }

  /** The events that save: the timer, and a fitting SET or DEL when 9999 operations wait. */
  predicate Saves(s: State, e: Event) {
    e.Tick? || (|s.log| == 9999 && !e.req.Get? && |e.req.key| <= 98 && (e.req.Set? ==> |e.req.value| <= 97))
  }

  lemma NothingWaitingIsSaved(s: State, a: Abstract)
    requires Refines(DeferDump, s, a) && s.log == []
    ensures s.db == a.data
  {
    SyncCorrect(s);
    ShowsVisible(s, a.data);
  }

  /** After either, whatever happened before, nothing waits and the database holds exactly the plain map. */
  lemma EverythingIsSaved(db: Table, es: seq<Event>, e: Event)
    requires NoEmptyValue(db) && AdmissibleRun(DeferDump, AbstractStart(db), Requests(es))
    requires Saves(Run(DeferDump, Start(db), es), e)
    requires e.Do? ==> Admissible(DeferDump, SpecRun(AbstractStart(db), Requests(es)).touched, e.req)
    ensures var s' := Step(DeferDump, Run(DeferDump, Start(db), es), e);
      var a := SpecRun(AbstractStart(db), Requests(es));
      && s'.log == []
      && s'.db == if e.Do? then SpecPerform(a, e.req).0.data else a.data
  {
    hide Run;
    hide AdmissibleRun;
    hide SpecRun;
    hide Requests;
    hide Replay;
    hide Refines;
    hide Admissible;
    StartRefines(DeferDump, db);
    RunRefines(DeferDump, Start(db), AbstractStart(db), es);
    var s, a := Run(DeferDump, Start(db), es), SpecRun(AbstractStart(db), Requests(es));
    var s' := Step(DeferDump, s, e);
    var a' := if e.Do? then SpecPerform(a, e.req).0 else a;
    if e.Do? {
      PerformRefines(DeferDump, s, a, e.req);
    } else {
      TickRefines(DeferDump, s, a);
    }
    NothingWaitingIsSaved(s', a');
  }

  predicate Oversize(req: Request, k: Text) {
    req.Set? && req.key == k && !ValueFits(req.value)
  }

  lemma OnlyCacheStep(s: State, req: Request, k: Text)
    requires KeyFits(k) && !Oversize(req, k)
    ensures var db' := Perform(OnlyCache, s, req).0.db; Lookup(db', k) == Lookup(s.db, k) || k !in db'
  {
  }

  /** ONLY_CACHE never saves: whatever is set at a fitting key, the database keeps the value it started
      with there, or loses it to a deletion. */
  lemma {:induction false} OnlyCacheNeverSaves(s: State, a: Abstract, es: seq<Event>, k: Text)
    requires Refines(OnlyCache, s, a) && AdmissibleRun(OnlyCache, a, Requests(es))
    requires KeyFits(k)
    requires forall i :: 0 <= i < |Requests(es)| ==> !Oversize(Requests(es)[i], k)
    ensures var db' := Run(OnlyCache, s, es).db; Lookup(db', k) == Lookup(s.db, k) || k !in db'
    decreases |es|
  {
    hide Refines;
    hide Perform;
    hide SpecPerform;
    if es != [] {
      var s' := Step(OnlyCache, s, es[0]);
      if es[0].Do? {
        assert Requests(es)[0] == es[0].req;
        assert Requests(es)[1..] == Requests(es[1..]);
        PerformRefines(OnlyCache, s, a, es[0].req);
        OnlyCacheStep(s, es[0].req, k);
        OnlyCacheNeverSaves(s', SpecPerform(a, es[0].req).0, es[1..], k);
      } else {
        assert Requests(es) == Requests(es[1..]);
        OnlyCacheNeverSaves(s', a, es[1..], k);
      }
    }
  }

  // ---------- how stale the database may be ----------

  /** A deferred-dump run together with every value the plain map has had since the last synchronization. */
  datatype Tracked = Tracked(s: State, a: Abstract, held: seq<Table>)

  function StartTracked(db: Table): Tracked {
    Tracked(Start(db), AbstractStart(db), [db])
  }

  function TrackedStep(t: Tracked, e: Event): Tracked {
    var s' := Step(DeferDump, t.s, e);
    var a' := if e.Do? then SpecPerform(t.a, e.req).0 else t.a;
    // A request shortens the log only by the forced synchronization.
    var synced := e.Tick? || |s'.log| < |t.s.log|;
    Tracked(s', a', if synced then [a'.data] else t.held + [a'.data])
  }

  function TrackedRun(t: Tracked, es: seq<Event>): Tracked
    decreases |es|
  {
    if es == [] then t else TrackedRun(TrackedStep(t, es[0]), es[1..])
  }

  ghost predicate HeldSinceSync(t: Tracked, k: Text) {
    exists i :: 0 <= i < |t.held| && Lookup(t.s.db, k) == Lookup(t.held[i], k)
  }

  ghost predicate BoundedStaleness(t: Tracked) {
    && |t.s.log| < MAX_COUNT_OPERATION
    && forall k ::
         && HeldSinceSync(t, k)
         && (!Logged(t.s.log, k) ==> Lookup(t.s.db, k) == Lookup(t.a.data, k))
  }

  lemma UnloggedIsCurrent(s: State, a: Abstract, k: Text)
    requires Refines(DeferDump, s, a) && !Logged(s.log, k)
    ensures Lookup(s.db, k) == Lookup(a.data, k)
  {
    assert VisibleAt(s, k) == Lookup(a.data, k);
    ReplaySkipsUnlogged(s.log, s.db, k);
  }

  /** Short of a synchronization, a request changes the database only at its own key, to the new value. */
  lemma RequestWritesThroughOrWaits(s: State, a: Abstract, req: Request, k: Text)
    requires Refines(DeferDump, s, a)
    requires |s.log| <= |Perform(DeferDump, s, req).0.log|
    ensures var db' := Perform(DeferDump, s, req).0.db;
      || Lookup(db', k) == Lookup(s.db, k)
      || Lookup(db', k) == Lookup(SpecPerform(a, req).0.data, k)
  {
  }

  lemma StalenessStep(t: Tracked, e: Event)
    requires Refines(DeferDump, t.s, t.a) && BoundedStaleness(t)
    requires e.Do? ==> Admissible(DeferDump, t.a.touched, e.req)
    ensures var t' := TrackedStep(t, e); Refines(DeferDump, t'.s, t'.a) && BoundedStaleness(t')
  {
    var t' := TrackedStep(t, e);
    if e.Do? {
      PerformRefines(DeferDump, t.s, t.a, e.req);
    } else {
      TickRefines(DeferDump, t.s, t.a);
    }
    forall k
      ensures HeldSinceSync(t', k)
      ensures !Logged(t'.s.log, k) ==> Lookup(t'.s.db, k) == Lookup(t'.a.data, k)
    {
      if !Logged(t'.s.log, k) {
        UnloggedIsCurrent(t'.s, t'.a, k);
      }
      assert t'.held[|t'.held| - 1] == t'.a.data;
      if |t'.held| == 1 {
        assert t'.s.log == [] by { assert e.Tick? || |t'.s.log| < |t.s.log|; }
      } else {
        RequestWritesThroughOrWaits(t.s, t.a, e.req, k);
        assert HeldSinceSync(t, k);
        var i :| 0 <= i < |t.held| && Lookup(t.s.db, k) == Lookup(t.held[i], k);
        assert t'.held[i] == t.held[i];
      }
    }
  }

  /** In every reachable state of an admissible deferred-dump run each key of the database has a value
      the plain map had at or after the last synchronization, the current one unless the key waits in
      the log, and fewer than 10000 operations wait. */
  lemma {:induction false} StalenessIsBounded(t: Tracked, es: seq<Event>)
    requires Refines(DeferDump, t.s, t.a) && BoundedStaleness(t)
    requires AdmissibleRun(DeferDump, t.a, Requests(es))
    ensures BoundedStaleness(TrackedRun(t, es))
    ensures TrackedRun(t, es).s == Run(DeferDump, t.s, es)
    ensures TrackedRun(t, es).a == SpecRun(t.a, Requests(es))
    decreases |es|
  {
    if es != [] {
      StalenessStep(t, es[0]);
      if es[0].Do? {
        assert Requests(es)[1..] == Requests(es[1..]);
      } else {
        assert Requests(es) == Requests(es[1..]);
      }
      StalenessIsBounded(TrackedStep(t, es[0]), es[1..]);
    }
  }

  /** The same, from the moment the proxy starts. */
  lemma StalenessFromStart(db: Table, es: seq<Event>)
    requires NoEmptyValue(db) && AdmissibleRun(DeferDump, AbstractStart(db), Requests(es))
    ensures BoundedStaleness(TrackedRun(StartTracked(db), es))
  {
    StartRefines(DeferDump, db);
    var t := StartTracked(db);
    forall k ensures HeldSinceSync(t, k) {
      assert Lookup(t.s.db, k) == Lookup(t.held[0], k);
    }
    StalenessIsBounded(t, es);
  }
}

// The write-back cache as a state machine: the hash table, the pending log and the database, and
// what GET, SET, DEL and a synchronization do to them under each caching regime.
module CacheModel {
  import opened Bytes
  import opened Wrappers

  const KEY_SIZE: nat := 100
  const DATA_SIZE: nat := 200
  const VALUE_SIZE: nat := DATA_SIZE - 1 - KEY_SIZE
  const MAX_COUNT_OPERATION: nat := 10000

  datatype Regime = NoCache | GetCache | OnlyCache | DeferDump

  /** A cache record: a live value, or the mark that the key is known to be absent. */
  datatype Entry = Live(value: Text) | Tombstone

  /** An operation waiting in the log. */
  datatype Op = SetOp(key: Text, value: Text) | DelOp(key: Text)

  type Table = map<Text, Text>

  datatype State = State(cache: map<Text, Entry>, log: seq<Op>, db: Table)

  datatype Request = Get(key: Text) | Set(key: Text, value: Text) | Del(key: Text)

  /** What a request answers: the value found, or done, or whether something was deleted. */
  datatype Outcome = Found(value: Option<Text>) | Stored | Deleted(success: bool)

  predicate KeyFits(key: Text) {
    |key| + 1 < KEY_SIZE
  }

  predicate ValueFits(value: Text) {
    |value| + 1 < VALUE_SIZE
  }

  /** What fits, in bytes, and how many operations may wait. */
  lemma LimitsAre(key: Text, value: Text)
    ensures KeyFits(key) <==> |key| <= 98
    ensures ValueFits(value) <==> |value| <= 97
    ensures MAX_COUNT_OPERATION == 10000 && KEY_SIZE == 100 && DATA_SIZE == 200 && VALUE_SIZE == 99
  {
  }

  function EntryValue(e: Entry): Option<Text> {
    match e
    case Live(v) => Some(v)
    case Tombstone => None
  }

  // ---------- the database ----------

  /** An empty string read from the database counts as an absent key. */
  function DbGet(db: Table, k: Text): Option<Text> {
    if k in db && db[k] != [] then Some(db[k]) else None
  }

  function Apply(op: Op, db: Table): Table {
    match op
    case SetOp(k, v) => db[k := v]
    case DelOp(k) => db - {k}
  }

  /** The database after the operations of a log, oldest first. */
  function Replay(log: seq<Op>, db: Table): Table {
    if log == [] then db else Apply(log[|log| - 1], Replay(log[..|log| - 1], db))
  }

  // ---------- the operations ----------

  function SyncWithDb(s: State): State {
    State(s.cache, [], Replay(s.log, s.db))
  }

  /** Appends to the log; the 10000th pending operation forces a synchronization. */
  function AddLog(s: State, op: Op): State {
    var s' := s.(log := s.log + [op]);
    if |s'.log| == MAX_COUNT_OPERATION then SyncWithDb(s') else s'
  }

  function ReqGet(r: Regime, s: State, k: Text): (State, Option<Text>) {
    if r == NoCache || !KeyFits(k) then
      (s, DbGet(s.db, k))
    else if k in s.cache then
      (s, EntryValue(s.cache[k]))
    else match DbGet(s.db, k)
      case None => (s.(cache := s.cache[k := Tombstone]), None)
      case Some(v) => (if ValueFits(v) then s.(cache := s.cache[k := Live(v)]) else s, Some(v))
  }

  function ReqSet(r: Regime, s: State, k: Text, v: Text): State {
    if r == NoCache || !KeyFits(k) || !ValueFits(v) then
      s.(db := s.db[k := v])
    else
      var s' := s.(cache := s.cache[k := Live(v)]);
      match r
      case GetCache => s'.(db := s.db[k := v])
      case OnlyCache => s'
      case DeferDump => AddLog(s', SetOp(k, v))
  }

  function ReqDel(r: Regime, s: State, k: Text): (State, bool) {
    if r == NoCache || !KeyFits(k) then
      (s.(db := s.db - {k}), k in s.db)
    else if r == GetCache then
      (State(s.cache[k := Tombstone], s.log, s.db - {k}), k in s.db)
    else
      var success := if k in s.cache then s.cache[k].Live? else k in s.db;
      var db' := if k in s.cache then s.db else s.db - {k};
      var s' := State(s.cache[k := Tombstone], s.log, db');
      (if r == DeferDump then AddLog(s', DelOp(k)) else s', success)
  }

  function Perform(r: Regime, s: State, req: Request): (State, Outcome) {
    match req
    case Get(k) => var (s', v) := ReqGet(r, s, k); (s', Found(v))
    case Set(k, v) => (ReqSet(r, s, k, v), Stored)
    case Del(k) => var (s', success) := ReqDel(r, s, k); (s', Deleted(success))
  }

  /** The timer is armed only in the deferred-dump regime. */
  function TimerSync(r: Regime, s: State): State {
    if r == DeferDump then SyncWithDb(s) else s
  }

  // ---------- what a client sees ----------

  function VisibleAt(s: State, k: Text): Option<Text> {
    if k in s.cache then EntryValue(s.cache[k]) else Lookup(s.db, k)
  }

  /** The one map the cache, the log and the database stand for. */
  function Visible(s: State): Table {
    map k | k in s.db.Keys + s.cache.Keys && VisibleAt(s, k).Some? :: VisibleAt(s, k).value
  }

  /** Reading any key answers what the map `m` holds. */
  ghost predicate Shows(s: State, m: Table) {
    forall k :: VisibleAt(s, k) == Lookup(m, k)
  }

  lemma VisibleLookup(s: State, k: Text)
    ensures Lookup(Visible(s), k) == VisibleAt(s, k)
  {
  }

  /** `Visible(s)` is the one map the state shows. */
  lemma ShowsVisible(s: State, m: Table)
    ensures Shows(s, m) <==> m == Visible(s)
  {
    forall k ensures Lookup(Visible(s), k) == VisibleAt(s, k) {
      VisibleLookup(s, k);
    }
    if Shows(s, m) {
      SameLookups(m, Visible(s));
    }
  }

  /** The proxy seen from outside: one map, and the keys it has had reason to cache so far. */
  datatype Abstract = Abstract(data: Table, touched: set<Text>)

  /** The keys a request brings into the cache: the same in all three caching regimes. */
  function Touches(data: Table, req: Request): set<Text> {
    match req
    case Get(k) => if KeyFits(k) && (k in data ==> ValueFits(data[k])) then {k} else {}
    case Set(k, v) => if KeyFits(k) && ValueFits(v) then {k} else {}
    case Del(k) => if KeyFits(k) then {k} else {}
  }

  function SpecPerform(a: Abstract, req: Request): (Abstract, Outcome) {
    var touched := a.touched + Touches(a.data, req);
    match req
    case Get(k) => (Abstract(a.data, touched), Found(Lookup(a.data, k)))
    case Set(k, v) => (Abstract(a.data[k := v], touched), Stored)
    case Del(k) => (Abstract(a.data - {k}, touched), Deleted(k in a.data))
  }

  /** A SET whose key fits but whose value does not bypasses the cache, so the key must not be cached. */
  predicate Admissible(r: Regime, touched: set<Text>, req: Request) {
    req.Set? ==>
      && req.value != []
      && (r != NoCache && KeyFits(req.key) && !ValueFits(req.value) ==> req.key !in touched)
  }

  // ---------- the invariant ----------

  predicate NoEmptyValue(db: Table) {
    forall k :: k in db ==> db[k] != []
  }

  predicate EntryFits(k: Text, e: Entry) {
    KeyFits(k) && (e.Live? ==> e.value != [] && ValueFits(e.value))
  }

  predicate OpFits(op: Op) {
    KeyFits(op.key) && (op.SetOp? ==> op.value != [] && ValueFits(op.value))
  }

  predicate Logged(log: seq<Op>, k: Text) {
    exists i :: 0 <= i < |log| && log[i].key == k
  }

  /** Replaying the pending log over the database gives, for each cached key, what the cache says. */
  ghost predicate ReplayCoherent(s: State) {
    forall k :: k in s.cache ==> Lookup(Replay(s.log, s.db), k) == EntryValue(s.cache[k])
  }

  ghost predicate Inv(r: Regime, s: State) {
    && (r == NoCache ==> s.cache == map[])
    && (r != DeferDump ==> s.log == [])
    && |s.log| < MAX_COUNT_OPERATION
    && NoEmptyValue(s.db)
    && (forall k :: k in s.cache ==> EntryFits(k, s.cache[k]))
    && (forall i :: 0 <= i < |s.log| ==> OpFits(s.log[i]) && s.log[i].key in s.cache)
    && (r == GetCache || r == DeferDump ==> ReplayCoherent(s))
  }

  ghost predicate Refines(r: Regime, s: State, a: Abstract) {
    && Inv(r, s)
    && Shows(s, a.data)
    && (r != NoCache ==> s.cache.Keys == a.touched)
  }

  function Start(db: Table): State {
    State(map[], [], db)
  }

  function AbstractStart(db: Table): Abstract {
    Abstract(db, {})
  }

  lemma StartRefines(r: Regime, db: Table)
    requires NoEmptyValue(db)
    ensures Refines(r, Start(db), AbstractStart(db))
  {
  }

  // ---------- replay, key by key ----------

  /** What replay leaves at a key depends only on what was there at that key. */
  lemma {:induction false} ReplayIsLocal(log: seq<Op>, db: Table, db': Table, k: Text)
    requires Lookup(db, k) == Lookup(db', k)
    ensures Lookup(Replay(log, db), k) == Lookup(Replay(log, db'), k)
  {
    if log != [] {
      ReplayIsLocal(log[..|log| - 1], db, db', k);
    }
  }

  lemma {:induction false} ReplaySkipsUnlogged(log: seq<Op>, db: Table, k: Text)
    requires !Logged(log, k)
    ensures Lookup(Replay(log, db), k) == Lookup(db, k)
  {
    if log != [] {
      var init := log[..|log| - 1];
      assert forall i :: 0 <= i < |init| ==> init[i] == log[i];
      assert log[|log| - 1].key != k;
      ReplaySkipsUnlogged(init, db, k);
    }
  }

  lemma {:induction false} ReplayKeepsValues(log: seq<Op>, db: Table)
    requires NoEmptyValue(db)
    requires forall i :: 0 <= i < |log| ==> OpFits(log[i])
    ensures NoEmptyValue(Replay(log, db))
  {
    if log != [] {
      ReplayKeepsValues(log[..|log| - 1], db);
    }
  }

  lemma ReplayAppend(log: seq<Op>, op: Op, db: Table)
    ensures Replay(log + [op], db) == Apply(op, Replay(log, db))
  {
    assert (log + [op])[..|log|] == log;
  }

  // ---------- synchronization ----------

  /** A synchronization empties the log, changes nothing a client sees, and makes the database equal
      to what clients see; doing it again changes nothing. */
  lemma SyncCorrect(s: State)
    requires Inv(DeferDump, s)
    ensures var s' := SyncWithDb(s);
      && Inv(DeferDump, s')
      && Visible(s') == Visible(s)
      && s'.db == Visible(s)
      && s'.log == []
      && SyncWithDb(s') == s'
  {
    ShowsVisible(s, Visible(s));
    SyncShowsSame(s, Visible(s));
    var s' := SyncWithDb(s);
    ReplayKeepsValues(s.log, s.db);
    ShowsVisible(s', Visible(s));
    SameLookups(s'.db, Visible(s));
  }

  lemma SyncShowsSame(s: State, m: Table)
    requires Shows(s, m) && ReplayCoherent(s)
    requires forall i :: 0 <= i < |s.log| ==> s.log[i].key in s.cache
    ensures Shows(SyncWithDb(s), m)
    ensures forall k :: Lookup(SyncWithDb(s).db, k) == Lookup(m, k)
  {
    var s' := SyncWithDb(s);
    forall k
      ensures VisibleAt(s', k) == Lookup(m, k) && Lookup(s'.db, k) == Lookup(m, k)
    {
      assert VisibleAt(s, k) == Lookup(m, k);
      if k !in s.cache {
        ReplaySkipsUnlogged(s.log, s.db, k);
      }
    }
  }

  // ---------- each request refines the same request on one map ----------

  lemma GetRefines(r: Regime, s: State, a: Abstract, k: Text)
    requires Refines(r, s, a)
    ensures Refines(r, ReqGet(r, s, k).0, SpecPerform(a, Get(k)).0)
    ensures ReqGet(r, s, k).1 == Lookup(a.data, k)
  {
    hide Replay;
    hide KeyFits;
    hide ValueFits;
    assert VisibleAt(s, k) == Lookup(a.data, k);
    if k !in s.cache {
      ReplaySkipsUnlogged(s.log, s.db, k);
    }
  }

  /** The log after one more operation, on a key whose entry already says what the operation does. */
  lemma AddLogRefines(s: State, op: Op, a: Abstract)
    requires |s.log| < MAX_COUNT_OPERATION && NoEmptyValue(s.db)
    requires forall k :: k in s.cache ==> EntryFits(k, s.cache[k])
    requires forall i :: 0 <= i < |s.log| ==> OpFits(s.log[i]) && s.log[i].key in s.cache
    requires OpFits(op) && op.key in s.cache
    requires EntryValue(s.cache[op.key]) == (if op.SetOp? then Some(op.value) else None)
    requires forall k :: k in s.cache && k != op.key ==> Lookup(Replay(s.log, s.db), k) == EntryValue(s.cache[k])
    requires Shows(s, a.data) && s.cache.Keys == a.touched
    ensures Refines(DeferDump, AddLog(s, op), a)
  {
    var s' := s.(log := s.log + [op]);
    ReplayAppend(s.log, op, s.db);
    assert ReplayCoherent(s');
    assert Shows(s', a.data) by {
      assert forall k :: VisibleAt(s', k) == VisibleAt(s, k);
    }
    if |s'.log| == MAX_COUNT_OPERATION {
      SyncShowsSame(s', a.data);
      ReplayKeepsValues(s'.log, s'.db);
    }
  }

  /** A step that changes what is visible at one key only. */
  lemma ShowsUpdate(s: State, m: Table, s': State, m': Table, k: Text)
    requires Shows(s, m)
    requires forall x :: x != k ==> VisibleAt(s', x) == VisibleAt(s, x) && Lookup(m', x) == Lookup(m, x)
    requires VisibleAt(s', k) == Lookup(m', k)
    ensures Shows(s', m')
  {
    forall x ensures VisibleAt(s', x) == Lookup(m', x) {
      assert VisibleAt(s, x) == Lookup(m, x);
    }
  }

  lemma SetRefines(r: Regime, s: State, a: Abstract, k: Text, v: Text)
    requires Refines(r, s, a) && Admissible(r, a.touched, Set(k, v))
    ensures Refines(r, ReqSet(r, s, k, v), SpecPerform(a, Set(k, v)).0)
  {
    if r == NoCache || !KeyFits(k) || !ValueFits(v) {
      DirectWriteRefines(r, s, a, k, Some(v));
    } else {
      var s' := s.(cache := s.cache[k := Live(v)]);
      var a' := Abstract(a.data[k := v], a.touched + {k});
      ShowsUpdate(s, a.data, s', a'.data, k);
      match r
      case GetCache => ShowsUpdate(s, a.data, s'.(db := s.db[k := v]), a'.data, k);
      case OnlyCache =>
      case DeferDump => AddLogRefines(s', SetOp(k, v), a');
    }
  }

  /** A write that goes straight to the database on a key the cache knows nothing about. */
  lemma DirectWriteRefines(r: Regime, s: State, a: Abstract, k: Text, v: Option<Text>)
    requires Refines(r, s, a) && k !in s.cache && (v.Some? ==> v.value != [])
    ensures var db' := if v.Some? then s.db[k := v.value] else s.db - {k};
      var data' := if v.Some? then a.data[k := v.value] else a.data - {k};
      Refines(r, s.(db := db'), Abstract(data', a.touched))
  {
    var db' := if v.Some? then s.db[k := v.value] else s.db - {k};
    var data' := if v.Some? then a.data[k := v.value] else a.data - {k};
    ShowsUpdate(s, a.data, s.(db := db'), data', k);
    forall x | x in s.cache
      ensures Lookup(Replay(s.log, db'), x) == Lookup(Replay(s.log, s.db), x)
    {
      ReplayIsLocal(s.log, s.db, db', x);
    }
  }

  lemma DelRefines(r: Regime, s: State, a: Abstract, k: Text)
    requires Refines(r, s, a)
    ensures Refines(r, ReqDel(r, s, k).0, SpecPerform(a, Del(k)).0)
    ensures ReqDel(r, s, k).1 == (k in a.data)
  {
    hide Replay;
    assert VisibleAt(s, k) == Lookup(a.data, k);
    if r == NoCache || !KeyFits(k) {
      assert k !in s.cache;
      hide Refines;
      DirectWriteRefines(r, s, a, k, None);
    } else {
      assert r == GetCache && k in s.cache ==> Lookup(Replay(s.log, s.db), k) == EntryValue(s.cache[k]) && s.log == [];
      ReplayNothing(s.db);
      hide Refines;
      DelCachedRefines(r, s, a, k);
    }
  }

  lemma ReplayNothing(db: Table)
    ensures Replay([], db) == db
  {
  }

  /** A deletion that leaves a tombstone. */
  lemma DelCachedRefines(r: Regime, s: State, a: Abstract, k: Text)
    requires Refines(r, s, a) && r != NoCache && KeyFits(k)
    ensures Refines(r, ReqDel(r, s, k).0, SpecPerform(a, Del(k)).0)
  {
    var db' := if r != GetCache && k in s.cache then s.db else s.db - {k};
    var s' := State(s.cache[k := Tombstone], s.log, db');
    forall x | x in s.cache && x != k
      ensures Lookup(Replay(s.log, db'), x) == Lookup(Replay(s.log, s.db), x)
    {
      ReplayIsLocal(s.log, s.db, db', x);
    }
    var a' := Abstract(a.data - {k}, a.touched + {k});
    ShowsUpdate(s, a.data, s', a'.data, k);
    if r == DeferDump {
      AddLogRefines(s', DelOp(k), a');
    }
  }

  /** An empty string in the database reads as absent, and is then known to be absent. */
  lemma EmptyReadsAsAbsent(r: Regime, s: State, k: Text)
    requires k !in s.cache && k in s.db && s.db[k] == []
    ensures ReqGet(r, s, k).1 == None
    ensures r != NoCache && |k| <= 98 ==> ReqGet(r, s, k).0.cache == s.cache[k := Tombstone]
  {
  }

  /** A SET that fits, in the deferred-dump regime, short of 10000 operations: the database is left
      alone, and the operation waits behind the others. */
  lemma FittingSetWaits(s: State, k: Text, v: Text)
    requires |k| <= 98 && |v| <= 97 && |s.log| < 9999
    ensures ReqSet(DeferDump, s, k, v) == State(s.cache[k := Live(v)], s.log + [SetOp(k, v)], s.db)
  {
  }

  /** A DEL that fits, where the cache is written back late or never: the database is told at once of a key
      the cache does not know, and of no other. */
  lemma FittingDelWaits(r: Regime, s: State, k: Text)
    requires (r == OnlyCache || r == DeferDump) && |k| <= 98 && |s.log| < 9999
    ensures var s' := ReqDel(r, s, k).0;
      && s'.cache == s.cache[k := Tombstone]
      && s'.db == (if k in s.cache then s.db else s.db - {k})
      && s'.log == if r == DeferDump then s.log + [DelOp(k)] else s.log
  {
  }

  /** One request, in any regime: the invariant is kept, the visible map changes as a plain map would,
      the answer is the plain map's, and the cached keys are those the history says. */
  lemma PerformRefines(r: Regime, s: State, a: Abstract, req: Request)
    requires Refines(r, s, a) && Admissible(r, a.touched, req)
    ensures var (s', o) := Perform(r, s, req);
      var (a', o') := SpecPerform(a, req);
      Refines(r, s', a') && o == o'
  {
    match req
    case Get(k) => GetRefines(r, s, a, k);
    case Set(k, v) => SetRefines(r, s, a, k, v);
    case Del(k) => DelRefines(r, s, a, k);
  }

  /** The admissibility condition is exact: a SET acts on the visible map as on a plain map if and only
      if it is not an oversize value for a cached key. */
  lemma SetIsFaithfulIff(r: Regime, s: State, a: Abstract, k: Text, v: Text)
    requires Refines(r, s, a) && v != []
    ensures Visible(ReqSet(r, s, k, v)) == a.data[k := v] <==> Admissible(r, a.touched, Set(k, v))
  {
    var s' := ReqSet(r, s, k, v);
    ShowsVisible(s', a.data[k := v]);
    if Admissible(r, a.touched, Set(k, v)) {
      SetRefines(r, s, a, k, v);
    } else {
      assert EntryFits(k, s.cache[k]);
      assert VisibleAt(s', k) == EntryValue(s.cache[k]);
      assert Lookup(a.data[k := v], k) == Some(v);
    }
  }

  lemma {:induction false} ReplayOverwrites(log: seq<Op>, db: Table, db': Table, k: Text)
    requires Logged(log, k)
    ensures Lookup(Replay(log, db), k) == Lookup(Replay(log, db'), k)
  {
    var init := log[..|log| - 1];
    if log[|log| - 1].key != k {
      assert Logged(init, k) by {
        var i :| 0 <= i < |log| && log[i].key == k;
        assert init[i].key == k;
      }
      ReplayOverwrites(init, db, db', k);
    }
  }

  /** The inadmissible case, in every state and caching regime: the next GET answers the old value, and
      if the key is pending, the next synchronization puts the old value back into the database. */
  lemma OversizeSetIsLost(r: Regime, s: State, a: Abstract, k: Text, v: Text)
    requires Refines(r, s, a) && v != [] && !Admissible(r, a.touched, Set(k, v))
    ensures var s' := ReqSet(r, s, k, v);
      && ReqGet(r, s', k) == (s', Lookup(a.data, k))
      && Lookup(a.data, k) != Some(v)
      && (Logged(s.log, k) ==> Lookup(SyncWithDb(s').db, k) == Lookup(a.data, k))
  {
    assert VisibleAt(s, k) == Lookup(a.data, k);
    assert EntryFits(k, s.cache[k]);
    if Logged(s.log, k) {
      ReplayOverwrites(s.log, s.db, s.db[k := v], k);
    }
  }

  /** One such case: `k` is set to `v` and then to 98 times `x`, and still reads as `v`. */
  lemma OversizeSetExample()
    ensures var k, v, big := Ascii("k"), Ascii("v"), seq(98, _ => ToByte('x'));
      var s := ReqSet(GetCache, ReqSet(GetCache, Start(map[]), k, v), k, big);
      ReqGet(GetCache, s, k).1 == Some(v) && s.db == map[k := big]
  {
  }
}

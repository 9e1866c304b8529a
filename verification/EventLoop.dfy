// The worker process: one proxy and the connections of all its clients, driven by events.
module EventLoop {
  import opened Bytes
  import opened Wrappers
  import opened CacheModel
  import opened WorkWithSocket
  import opened Replies
  import opened RedisProxy
  import opened SendReqPostgres
  import opened WholeSystem

  /** What the event loop can be told: a client is accepted once, sends 1 to 200 bytes at a time, and
      has its answer written after that. */
  predicate CanHappen(clients: set<ClientId>, e: Event) {
    match e
    case Accept(id) => id !in clients
    case Chunk(id, bytes) => id in clients && 1 <= |bytes| <= 200
    case Writable(id) => id in clients
    case Timer => true
  }

  /** Each event of the run can happen at its moment. */
  ghost predicate RunCanHappen(r: Regime, db: Table, es: seq<Event>) {
    forall n :: 0 <= n < |es| ==> CanHappen(SystemRun(r, SystemStart(db), es[..n]).conns.Keys, es[n])
  }

  /** The runs the results are about: well-formed streams, and commands the model covers. */
  ghost predicate InScope(r: Regime, db: Table, es: seq<Event>) {
    && NoEmptyValue(db) && WellFormedStreams(es) && RunCanHappen(r, db, es)
    && AdmissibleServe(r, AbstractStart(db), Completions(map[], es))
  }

  class Worker {
    const proxy: Proxy
    var conns: map<ClientId, Connection>

    /** Every client has its own connection, with its own read state. */
    ghost predicate Apart()
      reads this
    {
      forall i, j :: i in conns && j in conns && i != j ==>
        conns[i] != conns[j] && conns[i].readData != conns[j].readData
    }

    ghost predicate ConnsValid()
      reads this, conns.Values, set c | c in conns.Values :: c.readData
    {
      forall i :: i in conns ==> conns[i].Valid()
    }

    ghost function ConnViews(): map<ClientId, Conn>
      reads this, conns.Values, set c | c in conns.Values :: c.readData
    {
      map i | i in conns :: conns[i].View()
    }

    ghost predicate Valid()
      reads this, proxy.Repr(), conns.Values, set c | c in conns.Values :: c.readData
    {
      proxy.Valid() && Apart() && ConnsValid()
    }

    /** The worker and all its connections as one value. */
    ghost function View(): System
      reads this, proxy.Repr(), conns.Values, set c | c in conns.Values :: c.readData
    {
      System(ConnViews(), proxy.View())
    }

    /** All objects that events may change, apart from this one. */
    ghost function Objects(): set<object>
      reads this, proxy.log
    {
      proxy.Repr() + conns.Values
      + (set c | c in conns.Values :: c.readData)
      + (set c | c in conns.Values :: c.readData.readBuffer)
    }

    constructor (regime: Regime, table: Text, data: Table)
      requires |table| <= KEY_SIZE && NulFree(table) && AllStorable(data)
      ensures Valid() && proxy.regime == regime && fresh(Objects())
      ensures View() == SystemStart(data)
    {
      hide Proxy.Valid;
      hide Proxy.View;
      proxy := new Proxy(regime, table, data);
      conns := map[];
    }

    /** A callback that changes one connection leaves all others as they were. */
    twostate lemma OnlyOne(id: ClientId)
      requires id in conns && conns == old(conns) && Apart() && old(ConnsValid()) && conns[id].Valid()
      requires forall i :: i in conns && i != id ==> unchanged(conns[i]) && unchanged(conns[i].readData)
      ensures ConnsValid() && ConnViews() == old(ConnViews())[id := conns[id].View()]
    {
      hide Connection.Valid;
      hide Connection.View;
    }

    /** A new connection comes beside the others. */
    twostate lemma OneMore(id: ClientId)
      requires id !in old(conns) && id in conns && conns == old(conns)[id := conns[id]]
      requires old(Apart()) && old(ConnsValid()) && conns[id].Valid()
      requires forall i :: i in old(conns) ==> conns[i] != conns[id] && conns[i].readData != conns[id].readData
      requires forall i :: i in old(conns) ==> unchanged(conns[i]) && unchanged(conns[i].readData)
      ensures Apart() && ConnsValid() && ConnViews() == old(ConnViews())[id := conns[id].View()]
    {
      hide Connection.Valid;
      hide Connection.View;
    }

    twostate lemma OneMoreObjects(id: ClientId)
      requires id in conns && conns == old(conns)[id := conns[id]] && proxy.Repr() == old(proxy.Repr())
      ensures Objects() <= old(Objects()) + {conns[id], conns[id].readData, conns[id].readData.readBuffer}
    {
      hide Proxy.Repr;
      assert conns.Values <= old(conns.Values) + {conns[id]};
    }

    /** Bytes arrive from one client. */
    method OnRead(id: ClientId, chunk: Text)
      requires Valid() && id in conns && 1 <= |chunk| <= BUFFER_SIZE
      requires CanServe(proxy.regime, proxy.View(), conns[id].View().parser, chunk)
      modifies proxy.Repr(), conns[id], conns[id].readData, conns[id].readData.readBuffer
      ensures Valid() && fresh(Objects() - old(Objects()))
      ensures View() == SystemStep(proxy.regime, old(View()), Chunk(id, chunk))
    {
      hide Proxy.Valid;
      hide Proxy.View;
      hide CanServe;
      hide ChunkStep;
      hide ReadData.View;
      hide SystemStep;
      var c := conns[id];
      assert c.View().parser == c.readData.View();
      hide Connection.Valid;
      hide Connection.View;
      ghost var store, views := proxy.View(), ConnViews();
      ghost var frame := proxy.Repr() + {c, c.readData, c.readData.readBuffer};
      assert this !in frame;
      assert forall i :: i in conns && i != id ==> conns[i] !in frame && conns[i].readData !in frame;
      hide Proxy.Repr;
      assert c.Valid() && views[id] == c.View();
      hide ConnsValid;
      hide ConnViews;
      hide Apart;
      c.OnReadCb(proxy, chunk);
      OnlyOne(id);
      ChunkStepOf(proxy.regime, views, store, id, chunk, proxy.View(), c.View());
    }

    /** The socket takes the whole answer. */
    method OnWrite(id: ClientId)
      requires Valid() && id in conns
      modifies conns[id]
      ensures Valid() && Objects() == old(Objects())
      ensures View() == SystemStep(proxy.regime, old(View()), Writable(id))
    {
      hide Proxy.Valid;
      hide Proxy.View;
      hide WriteStep;
      hide AfterPartialWrite;
      hide ReadData.View;
      hide SystemStep;
      var c := conns[id];
      assert c !in proxy.Repr();
      hide Proxy.Repr;
      assert c.Valid() && ConnViews()[id] == c.View();
      hide Connection.Valid;
      hide Connection.View;
      hide ConnsValid;
      hide ConnViews;
      ghost var store, views := proxy.View(), ConnViews();
      var written := c.OnWriteCb(|c.answer|);
      OnlyOne(id);
      WriteStepOf(proxy.regime, views, store, id);
    }

    static method NewConnection(p: Proxy) returns (c: Connection)
      requires p.Valid()
      ensures c.Valid() && c.View() == NEW_CONN
      ensures fresh(c) && fresh(c.readData) && fresh(c.readData.readBuffer)
      ensures p.Valid() && p.Repr() == old(p.Repr()) && p.View() == old(p.View())
    {
      hide Proxy.View;
      c := new Connection();
    }

    /** Keeps a connection that shares nothing with the others. */
    method Register(id: ClientId, c: Connection)
      requires Valid() && id !in conns && c.Valid()
      requires forall i :: i in conns ==> conns[i] != c && conns[i].readData != c.readData
      modifies this`conns
      ensures Valid() && Objects() <= old(Objects()) + {c, c.readData, c.readData.readBuffer}
      ensures View() == System(old(View()).conns[id := c.View()], old(View()).store)
    {
      hide Proxy.Valid;
      hide Proxy.View;
      hide Connection.Valid;
      hide Connection.View;
      hide Objects;
      assert this !in proxy.Repr();
      hide Proxy.Repr;
      hide Apart;
      hide ConnsValid;
      hide ConnViews;
      conns := conns[id := c];
      OneMore(id);
      OneMoreObjects(id);
    }

    /** A client connects. */
    method OnAccept(id: ClientId)
      requires Valid() && id !in conns
      modifies this`conns
      ensures Valid() && fresh(Objects() - old(Objects()))
      ensures View() == SystemStep(proxy.regime, old(View()), Accept(id))
    {
      hide Proxy.Valid;
      hide Proxy.View;
      hide Connection.Valid;
      hide Connection.View;
      hide SystemStep;
      hide Proxy.Repr;
      hide Apart;
      hide ConnsValid;
      assert id !in ConnViews();
      hide ConnViews;
      ghost var views, store := ConnViews(), proxy.View();
      var c := NewConnection(proxy);
      assert ConnViews() == views;
      Register(id, c);
      AcceptStepOf(proxy.regime, views, store, id);
    }

    /** The timer is armed in the deferred-dump regime only. */
    method OnTimer()
      requires Valid()
      modifies proxy.log, proxy.transaction, proxy.db
      ensures Valid() && Objects() == old(Objects())
      ensures View() == SystemStep(proxy.regime, old(View()), Timer)
    {
      hide Proxy.Valid;
      hide Proxy.View;
      hide TimerSync;
      hide Apart;
      hide ConnsValid;
      hide ConnViews;
      hide Proxy.Repr;
      if proxy.regime == DeferDump {
        proxy.OnTimerTimeout();
      } else {
        TimerElsewhere(proxy.regime, proxy.View());
      }
    }

    /** One round of the event loop. */
    method Handle(e: Event)
      requires Valid() && CanHappen(conns.Keys, e)
      requires e.Chunk? ==> CanServe(proxy.regime, proxy.View(), conns[e.id].View().parser, e.bytes)
      modifies this`conns, Objects()
      ensures Valid() && fresh(Objects() - old(Objects()))
      ensures View() == SystemStep(proxy.regime, old(View()), e)
    {
      hide Valid;
      hide View;
      hide SystemStep;
      hide CanServe;
      assert {proxy.log, proxy.transaction, proxy.db} <= proxy.Repr() <= Objects();
      assert forall i :: i in conns ==> {conns[i], conns[i].readData, conns[i].readData.readBuffer} <= Objects();
      hide Proxy.Repr;
      hide Objects;
      match e
      case Accept(id) => OnAccept(id);
      case Chunk(id, bytes) => OnRead(id, bytes);
      case Writable(id) => OnWrite(id);
      case Timer => OnTimer();
    }

    /** The next event of a run: it can be handled, and leads to the next state of the run. */
    method HandleNext(db: Table, es: seq<Event>, n: nat)
      requires n < |es| && Valid() && InScope(proxy.regime, db, es)
      requires View() == SystemRun(proxy.regime, SystemStart(db), es[..n])
      modifies this`conns, Objects()
      ensures Valid() && fresh(Objects() - old(Objects()))
      ensures View() == SystemRun(proxy.regime, SystemStart(db), es[..n + 1])
    {
      hide Valid;
      hide View;
      hide Objects;
      hide CanServe;
      hide CanHappen;
      hide InScope;
      hide SystemStep;
      hide SystemRun;
      hide Connection.View;
      EventCanBeHandled(this, db, es, n);
      Handle(es[n]);
      SystemRunNext(proxy.regime, SystemStart(db), es, n);
    }

    /** The event loop, on whatever events come: every callback is called in a state in which it may be
        called, and the objects end as the value the theorems are about. */
    method Run(db: Table, es: seq<Event>)
      requires Valid() && View() == SystemStart(db) && InScope(proxy.regime, db, es)
      modifies this`conns, Objects()
      ensures Valid() && View() == SystemRun(proxy.regime, SystemStart(db), es)
    {
      hide Valid;
      hide View;
      hide InScope;
      hide Proxy.Repr;
      hide SystemStep;
      assert es[..0] == [];
      var i := 0;
      while i < |es|
        invariant 0 <= i <= |es|
        invariant Valid() && View() == SystemRun(proxy.regime, SystemStart(db), es[..i])
        invariant fresh(Objects() - old(Objects()))
      {
        HandleNext(db, es, i);
        i := i + 1;
      }
      assert es[..i] == es;
    }
  }

  lemma TimerElsewhere(r: Regime, s: State)
    requires r != DeferDump
    ensures TimerSync(r, s) == s
  {
  }

  lemma ChunkStepOf(r: Regime, conns: map<ClientId, Conn>, s: State, id: ClientId, chunk: Text, s': State, c': Conn)
    requires id in conns && (s', c') == ChunkStep(r, s, conns[id], chunk)
    ensures SystemStep(r, System(conns, s), Chunk(id, chunk)) == System(conns[id := c'], s')
  {
    hide ChunkStep;
  }

  lemma AcceptStepOf(r: Regime, conns: map<ClientId, Conn>, s: State, id: ClientId)
    requires id !in conns
    ensures SystemStep(r, System(conns, s), Accept(id)) == System(conns[id := NEW_CONN], s)
  {
  }

  lemma WriteStepOf(r: Regime, conns: map<ClientId, Conn>, s: State, id: ClientId)
    requires id in conns
    ensures SystemStep(r, System(conns, s), Writable(id)) == System(conns[id := WriteStep(conns[id])], s)
  {
  }

  lemma {:induction false} SystemRunNext(r: Regime, sys: System, es: seq<Event>, n: nat)
    requires n < |es|
    ensures SystemRun(r, sys, es[..n + 1]) == SystemStep(r, SystemRun(r, sys, es[..n]), es[n])
    decreases n
  {
    hide SystemStep;
    if n == 0 {
      assert es[..1] == [es[0]] && es[..0] == [];
      assert SystemRun(r, SystemStep(r, sys, es[0]), []) == SystemStep(r, sys, es[0]);
    } else {
      assert es[..n + 1][1..] == es[1..][..n] && es[..n][1..] == es[1..][..n - 1];
      SystemRunNext(r, SystemStep(r, sys, es[0]), es[1..], n - 1);
    }
  }

  /** What the main theorem says of the state a run leads to. */
  ghost predicate AnswersAsOneMap(sys: System, db: Table, es: seq<Event>) {
    var (a, replies) := SpecServe(AbstractStart(db), Completions(map[], es));
    && Visible(sys.store) == a.data
    && forall id :: Output(sys, id) == Frames(For(id, replies)) && ReadReplies(Output(sys, id)) == Some(For(id, replies))
  }

  /** The whole process: it is set up, runs, and every client is answered what one plain map answers. */
  method ProxyStartWork(r: Regime, table: Text, db: Table, es: seq<Event>) returns (w: Worker)
    requires |table| <= KEY_SIZE && NulFree(table) && AllStorable(db) && InScope(r, db, es)
    ensures w.Valid() && w.View() == SystemRun(r, SystemStart(db), es)
    ensures AnswersAsOneMap(w.View(), db, es)
  {
    hide Worker.Valid;
    hide Worker.View;
    hide Worker.Objects;
    hide InScope;
    hide AnswersAsOneMap;
    hide SystemRun;
    w := new Worker(r, table, db);
    w.Run(db, es);
    RunAnswersAsOneMap(r, db, es);
  }

  lemma EventCanBeHandled(w: Worker, db: Table, es: seq<Event>, n: nat)
    requires n < |es| && w.View() == SystemRun(w.proxy.regime, SystemStart(db), es[..n])
    requires InScope(w.proxy.regime, db, es)
    ensures CanHappen(w.conns.Keys, es[n])
    ensures es[n].Chunk? ==>
              && es[n].id in w.conns
              && CanServe(w.proxy.regime, w.proxy.View(), w.conns[es[n].id].View().parser, es[n].bytes)
  {
    hide Proxy.View;
    hide Connection.View;
    hide AdmissibleServe;
    hide CanServe;
    hide SystemRun;
    assert w.View().conns.Keys == w.conns.Keys;
    if es[n].Chunk? {
      EveryChunkIsServed(w.proxy.regime, db, es, n);
    }
  }

  lemma RunAnswersAsOneMap(r: Regime, db: Table, es: seq<Event>)
    requires InScope(r, db, es)
    ensures AnswersAsOneMap(SystemRun(r, SystemStart(db), es), db, es)
  {
    hide AdmissibleServe;
    hide RunCanHappen;
    hide SystemRun;
    hide Completions;
    hide SpecServe;
    SystemRefinement(r, db, es, 0);
    forall id
      ensures var replies := SpecServe(AbstractStart(db), Completions(map[], es)).1;
        var sys := SystemRun(r, SystemStart(db), es);
        Output(sys, id) == Frames(For(id, replies)) && ReadReplies(Output(sys, id)) == Some(For(id, replies))
    {
      SystemRefinement(r, db, es, id);
    }
  }
}

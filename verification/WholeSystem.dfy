// The whole worker: any number of clients, each sending bytes in pieces, answers written when the
// socket takes them, and the timer. The replies each client gets are those of one plain map.
module WholeSystem {
  import opened Bytes
  import opened Wrappers
  import opened CacheModel
  import CacheRuns
  import opened Commands
  import opened Resp
  import opened ParserMachine
  import opened Replies
  import opened RedisProxy

  type ClientId = nat

  datatype Event = Accept(id: ClientId) | Chunk(id: ClientId, bytes: Text) | Writable(id: ClientId) | Timer

  datatype System = System(conns: map<ClientId, Conn>, store: State)

  function ConnOf(sys: System, id: ClientId): Conn {
    if id in sys.conns then sys.conns[id] else NEW_CONN
  }

  function SystemStep(r: Regime, sys: System, e: Event): System {
    match e
    case Accept(id) => if id in sys.conns then sys else sys.(conns := sys.conns[id := NEW_CONN])
    case Chunk(id, bytes) =>
      var (s', c') := ChunkStep(r, sys.store, ConnOf(sys, id), bytes);
      System(sys.conns[id := c'], s')
    case Writable(id) =>
      if id in sys.conns then sys.(conns := sys.conns[id := WriteStep(sys.conns[id])]) else sys
    case Timer => sys.(store := TimerSync(r, sys.store))
  }

  function SystemRun(r: Regime, sys: System, es: seq<Event>): System
    decreases |es|
  {
    if es == [] then sys else SystemRun(r, SystemStep(r, sys, es[0]), es[1..])
  }

  function SystemStart(db: Table): System {
    System(map[], Start(db))
  }

  /** Everything answered to a client so far, written or waiting to be. */
  function Output(sys: System, id: ClientId): Text {
    ConnOf(sys, id).sent + ConnOf(sys, id).answer
  }

  // ---------- the plain map that serves the same clients ----------

  type Parsers = map<ClientId, Parser>

  function ParserOf(ps: Parsers, id: ClientId): Parser {
    if id in ps then ps[id] else INIT
  }

  function ParsersOf(sys: System): Parsers {
    map id | id in sys.conns :: sys.conns[id].parser
  }

  /** Something that concerns one client. */
  datatype Owned<T> = From(id: ClientId, what: T)

  function TagAll<T>(id: ClientId, xs: seq<T>): (r: seq<Owned<T>>)
    ensures |r| == |xs|
  {
    seq(|xs|, i requires 0 <= i < |xs| => From(id, xs[i]))
  }

  /** What one client is concerned with. */
  function For<T>(id: ClientId, xs: seq<Owned<T>>): seq<T> {
    if xs == [] then [] else (if xs[0].id == id then [xs[0].what] else []) + For(id, xs[1..])
  }

  /** The commands of all clients in the order in which they are completed. */
  function Completions(ps: Parsers, es: seq<Event>): seq<Owned<Command>>
    decreases |es|
  {
    if es == [] then []
    else match es[0]
      case Accept(id) => Completions(if id in ps then ps else ps[id := INIT], es[1..])
      case Chunk(id, bytes) =>
        var (p, cmds) := Feed(ParserOf(ps, id), bytes);
        TagAll(id, cmds) + Completions(ps[id := p], es[1..])
      case Writable(_) => Completions(ps, es[1..])
      case Timer => Completions(ps, es[1..])
  }

  /** One plain map executing commands in order, each reply going to the client that asked. */
  function SpecServe(a: Abstract, cs: seq<Owned<Command>>): (Abstract, seq<Owned<Reply>>)
    decreases |cs|
  {
    if cs == [] then (a, [])
    else
      var (a', reply) := SpecExecute(a, cs[0].what);
      var (a'', replies) := SpecServe(a', cs[1..]);
      (a'', [From(cs[0].id, reply)] + replies)
  }

  predicate AdmissibleServe(r: Regime, a: Abstract, cs: seq<Owned<Command>>)
    decreases |cs|
  {
    cs == [] || (AdmissibleCommand(r, a.touched, cs[0].what) && AdmissibleServe(r, SpecExecute(a, cs[0].what).0, cs[1..]))
  }

  function BytesFrom(id: ClientId, es: seq<Event>): Text {
    if es == [] then []
    else (if es[0].Chunk? && es[0].id == id then es[0].bytes else []) + BytesFrom(id, es[1..])
  }

  // ---------- filtering ----------

  lemma {:induction false} ForAppend<T>(id: ClientId, xs: seq<Owned<T>>, ys: seq<Owned<T>>)
    ensures For(id, xs + ys) == For(id, xs) + For(id, ys)
    decreases |xs|
  {
    if xs == [] {
      assert xs + ys == ys;
    } else {
      assert (xs + ys)[0] == xs[0] && (xs + ys)[1..] == xs[1..] + ys;
      ForAppend(id, xs[1..], ys);
      ConcatAssoc(if xs[0].id == id then [xs[0].what] else [], For(id, xs[1..]), For(id, ys));
    }
  }

  lemma {:induction false} ForTagged<T>(id: ClientId, who: ClientId, xs: seq<T>)
    ensures For(id, TagAll(who, xs)) == if id == who then xs else []
    decreases |xs|
  {
    if xs != [] {
      assert TagAll(who, xs)[1..] == TagAll(who, xs[1..]);
      ForTagged(id, who, xs[1..]);
    }
  }

  // ---------- one chunk ----------

  lemma ExecutableAsCached(r: Regime, s: State, a: Abstract, argv: Command)
    requires Refines(r, s, a) && AdmissibleCommand(r, a.touched, argv)
    ensures Executable(r, s.cache.Keys, argv)
  {
  }

  /** Commands one client completes, run in a row, then whatever comes later. */
  lemma {:induction false} ServeRow(r: Regime, s: State, a: Abstract, id: ClientId, cmds: seq<Command>,
                                    later: seq<Owned<Command>>)
    requires Refines(r, s, a) && AdmissibleServe(r, a, TagAll(id, cmds) + later)
    ensures var (s', replies) := ExecuteAll(r, s, cmds);
      var a' := SpecExecuteAll(a, cmds).0;
      && ExecutableAll(r, s, cmds)
      && replies == SpecExecuteAll(a, cmds).1
      && Refines(r, s', a')
      && AdmissibleServe(r, a', later)
      && SpecServe(a, TagAll(id, cmds) + later) ==
         (SpecServe(a', later).0, TagAll(id, replies) + SpecServe(a', later).1)
    decreases |cmds|
  {
    hide Refines;
    hide Execute;
    hide SpecExecute;
    hide AdmissibleCommand;
    hide Executable;
    if cmds == [] {
      assert TagAll(id, cmds) + later == later;
      assert TagAll<Reply>(id, []) + SpecServe(a, later).1 == SpecServe(a, later).1;
    } else {
      var all := TagAll(id, cmds) + later;
      assert all[1..] == TagAll(id, cmds[1..]) + later;
      assert all[0] == From(id, cmds[0]);
      ExecuteRefines(r, s, a, cmds[0]);
      ExecutableAsCached(r, s, a, cmds[0]);
      var s', a' := Execute(r, s, cmds[0]).0, SpecExecute(a, cmds[0]).0;
      ServeRow(r, s', a', id, cmds[1..], later);
      var replies, more := ExecuteAll(r, s', cmds[1..]).1, SpecServe(SpecExecuteAll(a, cmds).0, later).1;
      var first := SpecExecute(a, cmds[0]).1;
      assert TagAll(id, [first] + replies) + more == [From(id, first)] + (TagAll(id, replies) + more);
    }
  }

  // ---------- every run ----------

  lemma ParsersAfterChunk(sys: System, id: ClientId, c: Conn, s: State)
    ensures ParsersOf(System(sys.conns[id := c], s)) == ParsersOf(sys)[id := c.parser]
    ensures ParserOf(ParsersOf(sys), id) == ConnOf(sys, id).parser
  {
  }

  /** A chunk from one client adds the frames of its replies to that client's output only. */
  lemma ChunkOutput(r: Regime, sys: System, who: ClientId, bytes: Text, id: ClientId)
    ensures var next := SystemStep(r, sys, Chunk(who, bytes));
      var (p, cmds) := Feed(ParserOf(ParsersOf(sys), who), bytes);
      var (s', replies) := ExecuteAll(r, sys.store, cmds);
      && next.store == s'
      && ParsersOf(next) == ParsersOf(sys)[who := p]
      && Output(next, id) == Output(sys, id) + Frames(if id == who then replies else [])
  {
    hide ExecuteAll;
    hide Feed;
    hide Frames;
    hide ParsersOf;
    hide ParserOf;
    var c := ConnOf(sys, who);
    var (s', c') := ChunkStep(r, sys.store, c, bytes);
    ParsersAfterChunk(sys, who, c', s');
    var replies := ExecuteAll(r, sys.store, Feed(c.parser, bytes).1).1;
    assert c.sent + (c.answer + Frames(replies)) == c.sent + c.answer + Frames(replies);
    NoFrames(Output(sys, id));
  }

  lemma NoFrames(t: Text)
    ensures t + Frames([]) == t
  {
  }

  /** No client's bytes, from here on, take its parser out of its domain. */
  ghost predicate NoFaults(ps: Parsers, es: seq<Event>) {
    forall id :: Feed(ParserOf(ps, id), BytesFrom(id, es)).0 != Fault
  }

  /** The chunk at hand keeps its client's parser in the domain, and the later ones do. */
  lemma NoFaultsAfterChunk(ps: Parsers, es: seq<Event>)
    requires NoFaults(ps, es) && es != [] && es[0].Chunk?
    ensures var p := Feed(ParserOf(ps, es[0].id), es[0].bytes).0;
      p != Fault && NoFaults(ps[es[0].id := p], es[1..])
  {
    hide Feed;
    var who, bytes := es[0].id, es[0].bytes;
    var p := Feed(ParserOf(ps, who), bytes).0;
    FeedAppend(ParserOf(ps, who), bytes, BytesFrom(who, es[1..]));
    FeedFault(BytesFrom(who, es[1..]));
    assert Feed(ParserOf(ps, who), BytesFrom(who, es)).0 != Fault;
    forall id ensures Feed(ParserOf(ps[who := p], id), BytesFrom(id, es[1..])).0 != Fault {
      assert Feed(ParserOf(ps, id), BytesFrom(id, es)).0 != Fault;
      if id != who {
        assert BytesFrom(id, es) == BytesFrom(id, es[1..]);
      }
    }
  }

  lemma NoFaultsAfterOther(ps: Parsers, ps': Parsers, es: seq<Event>)
    requires NoFaults(ps, es) && es != [] && !es[0].Chunk?
    requires forall id :: ParserOf(ps', id) == ParserOf(ps, id)
    ensures NoFaults(ps', es[1..])
  {
    hide Feed;
    forall id ensures Feed(ParserOf(ps', id), BytesFrom(id, es[1..])).0 != Fault {
      assert Feed(ParserOf(ps, id), BytesFrom(id, es)).0 != Fault;
      assert BytesFrom(id, es) == BytesFrom(id, es[1..]);
    }
  }

  lemma AcceptKeepsOutput(r: Regime, sys: System, who: ClientId, id: ClientId)
    ensures var next := SystemStep(r, sys, Accept(who));
      && Output(next, id) == Output(sys, id)
      && ParsersOf(next) == (if who in ParsersOf(sys) then ParsersOf(sys) else ParsersOf(sys)[who := INIT])
      && next.store == sys.store
  {
    if who !in sys.conns {
      ParsersAfterChunk(sys, who, NEW_CONN, sys.store);
    }
  }

  lemma WriteKeepsOutput(r: Regime, sys: System, who: ClientId, id: ClientId)
    ensures Output(SystemStep(r, sys, Writable(who)), id) == Output(sys, id)
  {
    var c := ConnOf(sys, who);
    assert (c.sent + c.answer) + [] == c.sent + c.answer;
  }

  // ---------- every run ----------

  /** What the plain map does on an event: its next state, and the replies it gives. */
  function ServedBy(a: Abstract, ps: Parsers, e: Event): (Abstract, seq<Owned<Reply>>) {
    if e.Chunk? then
      var (a', replies) := SpecExecuteAll(a, Feed(ParserOf(ps, e.id), e.bytes).1);
      (a', TagAll(e.id, replies))
    else
      (a, [])
  }

  /** The system shows the plain map, and nothing that is still to come is outside the model. */
  ghost predicate Serves(r: Regime, sys: System, a: Abstract, es: seq<Event>) {
    && Refines(r, sys.store, a)
    && NoFaults(ParsersOf(sys), es)
    && AdmissibleServe(r, a, Completions(ParsersOf(sys), es))
  }

  /** A chunk can be served, and what it completes is served as by the plain map. */
  lemma ChunkServes(r: Regime, sys: System, a: Abstract, es: seq<Event>)
    requires es != [] && es[0].Chunk? && Serves(r, sys, a, es)
    ensures var next := SystemStep(r, sys, es[0]);
      var (a', replies) := ServedBy(a, ParsersOf(sys), es[0]);
      var (a'', more) := SpecServe(a', Completions(ParsersOf(next), es[1..]));
      && CanServe(r, sys.store, ParserOf(ParsersOf(sys), es[0].id), es[0].bytes)
      && Serves(r, next, a', es[1..])
      && SpecServe(a, Completions(ParsersOf(sys), es)) == (a'', replies + more)
  {
    hide Refines;
    hide ExecuteAll;
    hide SpecExecuteAll;
    hide ExecutableAll;
    hide AdmissibleServe;
    hide SpecServe;
    hide Feed;
    hide NoFaults;
    hide ParsersOf;
    hide ParserOf;
    hide SystemStep;
    hide Output;
    var who, bytes := es[0].id, es[0].bytes;
    var (p, cmds) := Feed(ParserOf(ParsersOf(sys), who), bytes);
    NoFaultsAfterChunk(ParsersOf(sys), es);
    ServeRow(r, sys.store, a, who, cmds, Completions(ParsersOf(sys)[who := p], es[1..]));
    ChunkOutput(r, sys, who, bytes, who);
  }

  /** Every other event serves nothing and leaves what is to come as it is. */
  lemma OtherServes(r: Regime, sys: System, a: Abstract, es: seq<Event>)
    requires es != [] && !es[0].Chunk? && Serves(r, sys, a, es)
    ensures var next := SystemStep(r, sys, es[0]);
      && Serves(r, next, a, es[1..])
      && Completions(ParsersOf(sys), es) == Completions(ParsersOf(next), es[1..])
  {
    hide Refines;
    hide AdmissibleServe;
    hide NoFaults;
    var next := SystemStep(r, sys, es[0]);
    match es[0] {
      case Accept(who) => AcceptKeepsOutput(r, sys, who, who);
      case Writable(_) => assert ParsersOf(next) == ParsersOf(sys);
      case Timer => CacheRuns.TickRefines(r, sys.store, a);
    }
    NoFaultsAfterOther(ParsersOf(sys), ParsersOf(next), es);
  }

  /** One event adds the frames of the replies it is served to the output of the client that asked. */
  lemma StepOutput(r: Regime, sys: System, a: Abstract, es: seq<Event>, id: ClientId)
    requires es != [] && Serves(r, sys, a, es)
    ensures Output(SystemStep(r, sys, es[0]), id) ==
            Output(sys, id) + Frames(For(id, ServedBy(a, ParsersOf(sys), es[0]).1))
  {
    hide Refines;
    hide ExecuteAll;
    hide SpecExecuteAll;
    hide Feed;
    hide NoFaults;
    hide Frames;
    match es[0]
    case Chunk(who, bytes) =>
      var (p, cmds) := Feed(ParserOf(ParsersOf(sys), who), bytes);
      ServeRow(r, sys.store, a, who, cmds, Completions(ParsersOf(sys)[who := p], es[1..]));
      ChunkOutput(r, sys, who, bytes, id);
      ForTagged(id, who, SpecExecuteAll(a, cmds).1);
    case Accept(who) =>
      AcceptKeepsOutput(r, sys, who, id);
      NoFrames(Output(sys, id));
    case Writable(who) =>
      WriteKeepsOutput(r, sys, who, id);
      NoFrames(Output(sys, id));
    case Timer =>
      NoFrames(Output(sys, id));
  }

  /** From any state that shows the plain map: whatever the clients and the timer do, the bytes
      answered to each client grow by the frames of the plain map's replies to that client's commands. */
  lemma {:induction false} RunServes(r: Regime, sys: System, a: Abstract, es: seq<Event>, id: ClientId)
    requires Serves(r, sys, a, es)
    ensures var (a', replies) := SpecServe(a, Completions(ParsersOf(sys), es));
      var sys' := SystemRun(r, sys, es);
      && Refines(r, sys'.store, a')
      && Output(sys', id) == Output(sys, id) + Frames(For(id, replies))
    decreases |es|
  {
    hide Refines;
    hide Serves;
    hide Output;
    hide SystemStep;
    hide SpecServe;
    hide Completions;
    hide ServedBy;
    if es == [] {
      NothingServed(r, sys, a, id);
    } else {
      var next := SystemStep(r, sys, es[0]);
      var (a', replies) := ServedBy(a, ParsersOf(sys), es[0]);
      StepServes(r, sys, a, es);
      StepOutput(r, sys, a, es, id);
      RunServes(r, next, a', es[1..], id);
      FramesOfMore(id, replies, SpecServe(a', Completions(ParsersOf(next), es[1..])).1, Output(sys, id));
    }
  }

  /** One event of a run, whichever it is. */
  lemma StepServes(r: Regime, sys: System, a: Abstract, es: seq<Event>)
    requires es != [] && Serves(r, sys, a, es)
    ensures var next := SystemStep(r, sys, es[0]);
      var (a', replies) := ServedBy(a, ParsersOf(sys), es[0]);
      var (a'', more) := SpecServe(a', Completions(ParsersOf(next), es[1..]));
      && Serves(r, next, a', es[1..])
      && SpecServe(a, Completions(ParsersOf(sys), es)) == (a'', replies + more)
  {
    hide Serves;
    hide SystemStep;
    hide SpecServe;
    hide Completions;
    if es[0].Chunk? {
      ChunkServes(r, sys, a, es);
    } else {
      OtherServes(r, sys, a, es);
      var more := SpecServe(a, Completions(ParsersOf(sys), es)).1;
      assert [] + more == more;
    }
  }

  lemma NothingServed(r: Regime, sys: System, a: Abstract, id: ClientId)
    requires Serves(r, sys, a, [])
    ensures SpecServe(a, Completions(ParsersOf(sys), [])) == (a, []) && Refines(r, sys.store, a)
    ensures Output(sys, id) == Output(sys, id) + Frames(For<Reply>(id, []))
  {
    hide Refines;
    NoFrames(Output(sys, id));
  }

  lemma FramesOfMore(id: ClientId, replies: seq<Owned<Reply>>, more: seq<Owned<Reply>>, before: Text)
    ensures before + Frames(For(id, replies + more)) ==
            before + Frames(For(id, replies)) + Frames(For(id, more))
  {
    ForAppend(id, replies, more);
    FramesAppend(For(id, replies), For(id, more));
    ConcatAssoc(before, Frames(For(id, replies)), Frames(For(id, more)));
  }

  // ---------- what each client completes ----------

  lemma ForFirstChunk(ps: Parsers, es: seq<Event>, id: ClientId)
    requires es != [] && es[0].Chunk?
    ensures var (p, cmds) := Feed(ParserOf(ps, es[0].id), es[0].bytes);
      For(id, Completions(ps, es)) ==
      (if es[0].id == id then cmds else []) + For(id, Completions(ps[es[0].id := p], es[1..]))
  {
    hide Feed;
    var (p, cmds) := Feed(ParserOf(ps, es[0].id), es[0].bytes);
    ForAppend(id, TagAll(es[0].id, cmds), Completions(ps[es[0].id := p], es[1..]));
    ForTagged(id, es[0].id, cmds);
  }

  /** The commands a client completes are those its bytes hold, however they were cut and whatever the
      other clients did in between. */
  lemma {:induction false} ClientCommandsAreFed(ps: Parsers, es: seq<Event>, id: ClientId)
    ensures For(id, Completions(ps, es)) == Feed(ParserOf(ps, id), BytesFrom(id, es)).1
    decreases |es|
  {
    hide Feed;
    if es == [] {
      FeedNone(ParserOf(ps, id));
    } else if es[0].Chunk? {
      var who, bytes := es[0].id, es[0].bytes;
      var p := Feed(ParserOf(ps, who), bytes).0;
      ForFirstChunk(ps, es, id);
      ClientCommandsAreFed(ps[who := p], es[1..], id);
      hide Completions;
      hide For;
      if who == id {
        FeedAppend(ParserOf(ps, id), bytes, BytesFrom(id, es[1..]));
      } else {
        assert BytesFrom(id, es) == BytesFrom(id, es[1..]);
      }
    } else {
      var who := if es[0].Accept? then es[0].id else id;
      ClientCommandsAreFed(if es[0].Accept? && who !in ps then ps[who := INIT] else ps, es[1..], id);
      assert BytesFrom(id, es) == BytesFrom(id, es[1..]);
    }
  }

  lemma FeedNone(p: Parser)
    ensures Feed(p, []) == (p, [])
  {
  }

  // ---------- the callbacks cover every run ----------

  lemma {:induction false} ChunkIsServedFrom(r: Regime, sys: System, a: Abstract, es: seq<Event>, n: nat)
    requires n < |es| && es[n].Chunk? && Serves(r, sys, a, es)
    ensures var before := SystemRun(r, sys, es[..n]);
      CanServe(r, before.store, ConnOf(before, es[n].id).parser, es[n].bytes)
    decreases n
  {
    hide Serves;
    hide SystemStep;
    hide SpecServe;
    hide Completions;
    hide CanServe;
    if n == 0 {
      ChunkServes(r, sys, a, es);
    } else {
      StepServes(r, sys, a, es);
      assert es[..n][1..] == es[1..][..n - 1];
      ChunkIsServedFrom(r, SystemStep(r, sys, es[0]), ServedBy(a, ParsersOf(sys), es[0]).0, es[1..], n - 1);
    }
  }

  /** Every client's bytes are a well-formed stream, possibly cut. */
  ghost predicate WellFormedStreams(es: seq<Event>) {
    forall id :: ReadStream(BytesFrom(id, es)).Scanned?
  }

  lemma StartServes(r: Regime, db: Table, es: seq<Event>)
    requires NoEmptyValue(db) && WellFormedStreams(es)
    requires AdmissibleServe(r, AbstractStart(db), Completions(map[], es))
    ensures ParsersOf(SystemStart(db)) == map[]
    ensures Serves(r, SystemStart(db), AbstractStart(db), es)
  {
    hide Refines;
    hide AdmissibleServe;
    assert ParsersOf(SystemStart(db)) == map[];
    StartRefines(r, db);
    forall id ensures Feed(ParserOf(map[], id), BytesFrom(id, es)).0 != Fault {
      assert ReadStream(BytesFrom(id, es)).Scanned?;
      FeedReadsStream(INIT, BytesFrom(id, es));
    }
  }

  /** In every run the theorem below is about, each chunk arrives in a state in which it can be served:
      the parser stays in its domain, and every command it completes can be run when its turn comes. */
  lemma EveryChunkIsServed(r: Regime, db: Table, es: seq<Event>, n: nat)
    requires n < |es| && es[n].Chunk?
    requires NoEmptyValue(db) && WellFormedStreams(es)
    requires AdmissibleServe(r, AbstractStart(db), Completions(map[], es))
    ensures var before := SystemRun(r, SystemStart(db), es[..n]);
      CanServe(r, before.store, ConnOf(before, es[n].id).parser, es[n].bytes)
  {
    hide Serves;
    StartServes(r, db, es);
    ChunkIsServedFrom(r, SystemStart(db), AbstractStart(db), es, n);
  }

  lemma {:induction false} BytesFromPrefix(id: ClientId, es: seq<Event>, n: nat)
    requires n <= |es|
    ensures BytesFrom(id, es[..n]) <= BytesFrom(id, es)
    decreases |es|
  {
    if n > 0 {
      assert es[..n][1..] == es[1..][..n - 1];
      BytesFromPrefix(id, es[1..], n - 1);
    }
  }

  /** At every moment of a run the commands a client has completed are those its bytes so far hold, and
      they are the first commands of its whole stream. */
  lemma CompletedSoFar(es: seq<Event>, n: nat, id: ClientId)
    requires n <= |es| && ReadStream(BytesFrom(id, es)).Scanned?
    ensures var sofar := ReadStream(BytesFrom(id, es[..n]));
      && sofar.Scanned?
      && For(id, Completions(map[], es[..n])) == sofar.cmds
      && sofar.cmds <= ReadStream(BytesFrom(id, es)).cmds
  {
    var all, sofar := BytesFrom(id, es), BytesFrom(id, es[..n]);
    BytesFromPrefix(id, es, n);
    assert all[..|sofar|] == sofar;
    ReadStreamPrefix(all, |sofar|);
    ClientCommandsAreFed(map[], es[..n], id);
    FeedReadsStream(INIT, sofar);
  }

  // ---------- replies can be told apart ----------

  lemma FixedTextsAreLines()
    ensures CR !in Ascii("syntax error") && CR !in Ascii("unknown command") && CR !in Ascii("OK") && CR !in Ascii("PONG")
  {
  }

  lemma ReplyIsFramable(a: Abstract, argv: Command)
    requires NoEmptyValue(a.data)
    ensures Framable(SpecExecute(a, argv).1)
  {
    FixedTextsAreLines();
    hide Ascii;
    hide SpecDel;
    hide SpecPerform;
  }

  lemma SpecKeepsNoEmptyValue(r: Regime, a: Abstract, argv: Command)
    requires NoEmptyValue(a.data) && AdmissibleCommand(r, a.touched, argv)
    ensures NoEmptyValue(SpecExecute(a, argv).0.data)
  {
  }

  predicate AllFramable(replies: seq<Reply>) {
    forall i :: 0 <= i < |replies| ==> Framable(replies[i])
  }

  lemma {:induction false} RepliesAreFramable(r: Regime, a: Abstract, cs: seq<Owned<Command>>, id: ClientId)
    requires NoEmptyValue(a.data) && AdmissibleServe(r, a, cs)
    ensures AllFramable(For(id, SpecServe(a, cs).1))
    decreases |cs|
  {
    hide SpecExecute;
    hide AdmissibleCommand;
    hide Framable;
    hide NoEmptyValue;
    if cs != [] {
      var (a', reply) := SpecExecute(a, cs[0].what);
      var served := SpecServe(a', cs[1..]).1;
      ReplyIsFramable(a, cs[0].what);
      SpecKeepsNoEmptyValue(r, a, cs[0].what);
      RepliesAreFramable(r, a', cs[1..], id);
      assert SpecServe(a, cs).1[1..] == served;
    }
  }

  // ---------- the theorem ----------

  /** For every run of well-formed streams, cut and interleaved in any way, with the timer firing at any
      time: each client completes exactly the commands its bytes hold; the bytes it is answered are the
      frames of one plain map's replies to its commands, that map executing all clients' commands in
      completion order; they read back as exactly those replies; and the state shows that map. */
  lemma SystemRefinement(r: Regime, db: Table, es: seq<Event>, id: ClientId)
    requires NoEmptyValue(db) && WellFormedStreams(es)
    requires AdmissibleServe(r, AbstractStart(db), Completions(map[], es))
    ensures var cs := Completions(map[], es);
      var (a, replies) := SpecServe(AbstractStart(db), cs);
      var sys := SystemRun(r, SystemStart(db), es);
      && For(id, cs) == ReadStream(BytesFrom(id, es)).cmds
      && Output(sys, id) == Frames(For(id, replies))
      && ReadReplies(Output(sys, id)) == Some(For(id, replies))
      && Visible(sys.store) == a.data
  {
    hide Refines;
    hide Serves;
    hide SystemRun;
    hide SpecServe;
    hide Completions;
    hide Feed;
    hide AdmissibleServe;
    var start := SystemStart(db);
    StartServes(r, db, es);
    RunServes(r, start, AbstractStart(db), es, id);
    ClientCommandsAreFed(map[], es, id);
    assert ReadStream(BytesFrom(id, es)).Scanned?;
    FeedReadsStream(INIT, BytesFrom(id, es));
    var (a, replies) := SpecServe(AbstractStart(db), Completions(map[], es));
    var sys := SystemRun(r, start, es);
    StartAnswersNothing(db, id, Frames(For(id, replies)));
    RepliesAreFramable(r, AbstractStart(db), Completions(map[], es), id);
    FramesReadBack(For(id, replies));
    RefinesShows(r, sys.store, a);
  }

  lemma StartAnswersNothing(db: Table, id: ClientId, more: Text)
    ensures Output(SystemStart(db), id) + more == more
  {
  }

  /** In the deferred-dump regime the timer saves everything: after it the database holds exactly the
      plain map of all commands completed so far, and nothing waits. */
  lemma TimerSaves(db: Table, es: seq<Event>)
    requires NoEmptyValue(db) && WellFormedStreams(es)
    requires AdmissibleServe(DeferDump, AbstractStart(db), Completions(map[], es))
    ensures var store := SystemStep(DeferDump, SystemRun(DeferDump, SystemStart(db), es), Timer).store;
      store.log == [] && store.db == SpecServe(AbstractStart(db), Completions(map[], es)).0.data
  {
    hide Refines;
    hide Serves;
    hide SystemRun;
    hide SpecServe;
    hide Completions;
    hide AdmissibleServe;
    hide Replay;
    StartServes(DeferDump, db, es);
    RunServes(DeferDump, SystemStart(db), AbstractStart(db), es, 0);
    var s := SystemRun(DeferDump, SystemStart(db), es).store;
    var a := SpecServe(AbstractStart(db), Completions(map[], es)).0;
    CacheRuns.TickRefines(DeferDump, s, a);
    CacheRuns.NothingWaitingIsSaved(TimerSync(DeferDump, s), a);
  }

  /** The run without its timer events. */
  function WithoutTimer(es: seq<Event>): seq<Event> {
    if es == [] then [] else (if es[0].Timer? then [] else [es[0]]) + WithoutTimer(es[1..])
  }

  lemma {:induction false} TimerCompletesNothing(ps: Parsers, es: seq<Event>)
    ensures Completions(ps, WithoutTimer(es)) == Completions(ps, es)
    decreases |es|
  {
    if es != [] {
      var rest := WithoutTimer(es[1..]);
      match es[0]
      case Accept(id) =>
        assert WithoutTimer(es)[1..] == rest;
        TimerCompletesNothing(if id in ps then ps else ps[id := INIT], es[1..]);
      case Timer =>
        assert WithoutTimer(es) == rest;
        TimerCompletesNothing(ps, es[1..]);
      case Chunk(id, bytes) =>
        assert WithoutTimer(es)[1..] == rest;
        TimerCompletesNothing(ps[id := Feed(ParserOf(ps, id), bytes).0], es[1..]);
      case Writable(_) =>
        assert WithoutTimer(es)[1..] == rest;
        TimerCompletesNothing(ps, es[1..]);
    }
  }

  lemma {:induction false} TimerSendsNothing(es: seq<Event>, id: ClientId)
    ensures BytesFrom(id, WithoutTimer(es)) == BytesFrom(id, es)
  {
    if es != [] {
      TimerSendsNothing(es[1..], id);
      if es[0].Timer? {
        assert WithoutTimer(es) == WithoutTimer(es[1..]);
      } else {
        assert WithoutTimer(es)[1..] == WithoutTimer(es[1..]);
      }
    }
  }

  /** No client can tell when, or whether, synchronizations happen, nor which regime is in use. */
  lemma SyncsAndRegimesAreInvisible(r: Regime, r': Regime, db: Table, es: seq<Event>, id: ClientId)
    requires NoEmptyValue(db) && WellFormedStreams(es)
    requires AdmissibleServe(r, AbstractStart(db), Completions(map[], es))
    requires AdmissibleServe(r', AbstractStart(db), Completions(map[], es))
    ensures Output(SystemRun(r, SystemStart(db), es), id) ==
            Output(SystemRun(r', SystemStart(db), WithoutTimer(es)), id)
  {
    hide AdmissibleServe;
    hide Completions;
    hide Serves;
    hide SystemRun;
    hide SpecServe;
    TimerCompletesNothing(map[], es);
    forall i ensures ReadStream(BytesFrom(i, WithoutTimer(es))).Scanned? {
      TimerSendsNothing(es, i);
    }
    StartServes(r, db, es);
    StartServes(r', db, WithoutTimer(es));
    RunServes(r, SystemStart(db), AbstractStart(db), es, id);
    RunServes(r', SystemStart(db), AbstractStart(db), WithoutTimer(es), id);
  }
}

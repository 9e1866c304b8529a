// What one client sees on the wire, byte for byte.
module OnTheWire {
  import opened Bytes
  import opened Decimal
  import opened CacheModel
  import opened Quoting
  import opened Sql
  import opened Commands
  import opened Resp
  import opened ParserMachine
  import opened Replies
  import opened WholeSystem

  /** If everything concerns one client, it is what concerns that client. */
  lemma {:induction false} AllFromOne<T>(id: ClientId, xs: seq<Owned<T>>)
    requires forall i :: i != id ==> For(i, xs) == []
    ensures xs == TagAll(id, For(id, xs))
    decreases |xs|
  {
    if xs != [] {
      assert xs[0].id == id by {
        assert xs[0].id != id ==> For(xs[0].id, xs) == [];
      }
      forall i | i != id ensures For(i, xs[1..]) == [] {
        assert For(i, xs) == [];
      }
      AllFromOne(id, xs[1..]);
      assert xs == [xs[0]] + xs[1..];
    }
  }

  /** The commands completed by a client that is the only one to send anything. */
  lemma OneClientCompletes(es: seq<Event>, id: ClientId, cmds: seq<Command>)
    requires forall i :: i != id ==> BytesFrom(i, es) == []
    requires ReadStream(BytesFrom(id, es)) == Scanned(cmds, true)
    ensures WellFormedStreams(es) && Completions(map[], es) == TagAll(id, cmds)
  {
    hide Feed;
    hide Completions;
    var cs := Completions(map[], es);
    forall i
      ensures ReadStream(BytesFrom(i, es)).Scanned?
      ensures For(i, cs) == if i == id then cmds else []
    {
      assert i != id ==> BytesFrom(i, es) == [];
      ClientCommandsAreFed(map[], es, i);
      FeedReadsStream(INIT, BytesFrom(i, es));
    }
    AllFromOne(id, cs);
  }

  lemma ReadsTwo(first: Command, second: Command)
    requires Encodable(first) && Encodable(second)
    ensures ReadStream(Encode(first) + Encode(second)) == Scanned([first, second], true)
  {
    hide Encode;
    var cmds, noise: seq<Text> := [first, second], [[], [], []];
    ReadStreamOf(cmds, noise);
    assert cmds[1..] == [second] && cmds[1..][1..] == [] && noise[1..] == [[], []] && noise[1..][1..] == [[]];
    assert EncodeStream([], [[]]) == [];
    assert EncodeStream([second], [[], []]) == [] + (Encode(second) + []);
    assert [] + (Encode(second) + []) == Encode(second);
    assert EncodeStream(cmds, noise) == [] + (Encode(first) + Encode(second));
    assert [] + (Encode(first) + Encode(second)) == Encode(first) + Encode(second);
  }

  lemma ServesTwo(r: Regime, a: Abstract, id: ClientId, first: Command, second: Command)
    requires AdmissibleCommand(r, a.touched, first)
    requires AdmissibleCommand(r, SpecExecute(a, first).0.touched, second)
    ensures var (a', reply) := SpecExecute(a, first);
      var cs := TagAll(id, [first, second]);
      && AdmissibleServe(r, a, cs)
      && For(id, SpecServe(a, cs).1) == [reply, SpecExecute(a', second).1]
  {
    hide SpecExecute;
    hide AdmissibleCommand;
    var cs := TagAll(id, [first, second]);
    var (a', reply) := SpecExecute(a, first);
    assert cs == [From(id, first), From(id, second)];
    assert cs[1..] == [From(id, second)] && cs[1..][1..] == [];
    var a'' := SpecExecute(a', second).0;
    assert AdmissibleServe(r, a'', []);
    assert AdmissibleServe(r, a', cs[1..]);
    var reply' := SpecExecute(a', second).1;
    assert SpecServe(a', cs[1..]).1 == [From(id, reply')] + [];
    assert SpecServe(a, cs).1 == [From(id, reply), From(id, reply')];
    assert For(id, [From(id, reply')]) == [reply'] + [];
    assert [From(id, reply), From(id, reply')][1..] == [From(id, reply')];
  }

  lemma FramesOfTwo(first: Reply, second: Reply)
    ensures Frames([first, second]) == Frame(first) + Frame(second)
  {
    assert [first, second][1..] == [second] && [second][1..] == [];
    assert Frames([second]) == Frame(second) + [];
  }

  /** A client sets a key and gets it: whatever the regime, however its bytes are cut, whenever the timer
      fires and the socket takes the answer, these are the bytes it is answered. */
  lemma SetThenGetOnTheWire(r: Regime, db: Table, es: seq<Event>, id: ClientId, first: Command, second: Command)
    requires NoEmptyValue(db)
    requires Supported(first) && |first| == 3 && IsName(first[0], "SET", "set")
    requires Supported(second) && |second| == 2 && IsName(second[0], "GET", "get") && second[1] == first[1]
    requires QuoteFree(first[1]) && QuoteFree(first[2])
    requires BytesFrom(id, es) == Encode(first) + Encode(second)
    requires forall i :: i != id ==> BytesFrom(i, es) == []
    ensures Output(SystemRun(r, SystemStart(db), es), id) ==
            Ascii("+OK\r\n") + Ascii("$") + Print(|first[2]|) + Ascii("\r\n") + first[2] + Ascii("\r\n")
  {
    hide SystemRun;
    hide Completions;
    hide IsName;
    hide Encode;
    hide SpecExecute;
    hide AdmissibleServe;
    hide SpecServe;
    hide Frames;
    hide Frame;
    hide ReadStream;
    var a := AbstractStart(db);
    ReadsTwo(first, second);
    OneClientCompletes(es, id, [first, second]);
    GetAdmissible(r, a, first, second);
    ServesTwo(r, a, id, first, second);
    SystemRefinement(r, db, es, id);
    SpecSetIs(a, first);
    SpecGetIs(SpecExecute(a, first).0, second);
    FramesOfTwo(Status(Ascii("OK")), Bulk(first[2]));
    OkAndBulk(first[2]);
  }

  lemma OkLine()
    ensures Frame(Status(Ascii("OK"))) == Ascii("+OK\r\n")
  {
    FrameIs(Status(Ascii("OK")));
    AsciiConcat("+", "OK");
    AsciiConcat("+OK", "\r\n");
    assert "+" + "OK" == "+OK" && "+OK" + "\r\n" == "+OK\r\n";
  }

  lemma OkAndBulk(value: Text)
    requires value != []
    ensures Frame(Status(Ascii("OK"))) + Frame(Bulk(value)) ==
            Ascii("+OK\r\n") + Ascii("$") + Print(|value|) + Ascii("\r\n") + value + Ascii("\r\n")
  {
    hide Ascii;
    hide Frame;
    hide Print;
    OkLine();
    FrameIs(Bulk(value));
    var ok, size, end := Ascii("+OK\r\n"), Print(|value|), Ascii("\r\n");
    ConcatAssoc(ok, Ascii("$") + size + end + value, end);
    ConcatAssoc(ok, Ascii("$") + size + end, value);
    ConcatAssoc(ok, Ascii("$") + size, end);
    ConcatAssoc(ok, Ascii("$"), size);
  }
}

// One client connection: bytes arrive, commands are parsed, run and answered, the answer is written.
module RedisProxy {
  import opened Bytes
  import opened CacheModel
  import opened Commands
  import opened ParserMachine
  import opened WorkWithSocket
  import opened Replies
  import opened RedisReqvConverter
  import opened PostgresReqvConverter
  import opened SendReqPostgres

  /** A connection between two events: the parser, the answer bytes waiting to be written, and those
      already written to the socket. */
  datatype Conn = Conn(parser: Parser, answer: Text, sent: Text)

  const NEW_CONN: Conn := Conn(INIT, [], [])

  /** Bytes arrive: the commands they complete run in order, and their frames are appended to the
      answer in order. */
  function FinalResult(r: Regime, s: State, answer: Text, v: Parser, bytes: Text): (State, Text, Parser) {
    var (v', cmds) := Feed(v, bytes);
    var (s', replies) := ExecuteAll(r, s, cmds);
    (s', answer + Frames(replies), v')
  }

  function ChunkStep(r: Regime, s: State, c: Conn, chunk: Text): (State, Conn) {
    var (s', answer, parser) := FinalResult(r, s, c.answer, c.parser, chunk);
    (s', Conn(parser, answer, c.sent))
  }

  /** A complete write of the waiting answer. */
  function WriteStep(c: Conn): Conn {
    c.(answer := [], sent := c.sent + c.answer)
  }

  /** What a write of fewer bytes leaves to be written: the size shrinks by the bytes written, and then
      by the same count too little of the rest is moved to the front. */
  function AfterPartialWrite(answer: Text, written: nat): Text
    requires 2 * written <= |answer|
  {
    var size := |answer| - written;
    Overwrite(answer, 0, answer[written..written + (size - written)])[..size]
  }

  /** What is left after a partial write is what was not written if and only if the last bytes of the
      answer, as many as were written, repeat the ones before them. */
  lemma PartialWriteKeepsOrderIff(answer: Text, written: nat)
    requires 2 * written <= |answer|
    ensures AfterPartialWrite(answer, written) == answer[written..] <==>
            answer[|answer| - 2 * written..|answer| - written] == answer[|answer| - written..]
  {
    var n := |answer| - 2 * written;
    var r := AfterPartialWrite(answer, written);
    assert r == answer[written..written + n] + answer[n..n + written];
    assert answer[written..] == answer[written..written + n] + answer[written + n..];
    assert r[n..] == answer[n..n + written] && answer[written..][n..] == answer[written + n..];
  }

  /** One such case: of the six bytes of two replies, two are written. */
  lemma PartialWriteExample()
    ensures AfterPartialWrite([1, 2, 3, 4, 5, 6], 2) == [3, 4, 3, 4]
  {
    var answer: Text := [1, 2, 3, 4, 5, 6];
    assert answer[2..4] == [3, 4];
    assert Overwrite(answer, 0, [3, 4]) == [3, 4, 3, 4, 5, 6];
  }

  /** The bytes keep the parser in its domain, and complete only commands that can be run in turn. */
  predicate CanServe(r: Regime, s: State, v: Parser, bytes: Text) {
    Feed(v, bytes).0 != Fault && ExecutableAll(r, s, Feed(v, bytes).1)
  }

  /** The callback still owes `outcome`: serving the pending bytes is possible and leads to it. */
  predicate Owes(r: Regime, s: State, answer: Text, v: Parser, pending: Text, outcome: (State, Text, Parser)) {
    CanServe(r, s, v, pending) && FinalResult(r, s, answer, v, pending) == outcome
  }

  /** The same once a command has been parsed that is still to be run and answered. */
  predicate OwesWith(r: Regime, s: State, answer: Text, cmd: Command, v: Parser, pending: Text,
                     outcome: (State, Text, Parser)) {
    && Executable(r, s.cache.Keys, cmd)
    && Owes(r, Execute(r, s, cmd).0, answer + Frame(Execute(r, s, cmd).1), v, pending, outcome)
  }

  lemma OwesChunk(r: Regime, s: State, answer: Text, v: Parser, chunk: Text) returns (outcome: (State, Text, Parser))
    requires CanServe(r, s, v, chunk)
    ensures outcome == FinalResult(r, s, answer, v, chunk) && Owes(r, s, answer, v, chunk, outcome)
  {
    outcome := FinalResult(r, s, answer, v, chunk);
  }

  lemma OwesInDomain(r: Regime, s: State, answer: Text, v: Parser, pending: Text, outcome: (State, Text, Parser))
    requires Owes(r, s, answer, v, pending, outcome)
    ensures Feed(v, pending).0 != Fault
  {
  }

  lemma OwesNothing(r: Regime, s: State, answer: Text, v: Parser, outcome: (State, Text, Parser))
    requires Owes(r, s, answer, v, [], outcome)
    ensures outcome == (s, answer, v)
  {
    assert answer + Frames([]) == answer;
  }

  lemma NothingToServe(r: Regime, s: State, answer: Text, v: Parser, pending: Text, v': Parser,
                       outcome: (State, Text, Parser))
    requires Owes(r, s, answer, v, pending, outcome) && Feed(v, pending) == (v', [])
    ensures Owes(r, s, answer, v', [], outcome)
  {
  }

  /** Running and answering the first command of the pending bytes leaves the outcome as it is. */
  lemma ResultAfterCommand(r: Regime, s: State, answer: Text, v: Parser, pending: Text,
                            cmd: Command, v': Parser, pending': Text)
    requires Feed(v, pending) == (Feed(v', pending').0, [cmd] + Feed(v', pending').1)
    ensures var (s', reply) := Execute(r, s, cmd);
      FinalResult(r, s, answer, v, pending) == FinalResult(r, s', answer + Frame(reply), v', pending')
  {
    hide Execute;
    hide Frame;
    var (s', reply) := Execute(r, s, cmd);
    var more := Feed(v', pending').1;
    assert ([cmd] + more)[1..] == more;
    var replies := ExecuteAll(r, s', more).1;
    assert ([reply] + replies)[1..] == replies;
    assert answer + (Frame(reply) + Frames(replies)) == answer + Frame(reply) + Frames(replies);
  }

  lemma CommandToServe(r: Regime, s: State, answer: Text, v: Parser, pending: Text,
                       cmd: Command, v': Parser, pending': Text, outcome: (State, Text, Parser))
    requires Owes(r, s, answer, v, pending, outcome)
    requires Feed(v, pending) == (Feed(v', pending').0, [cmd] + Feed(v', pending').1)
    ensures OwesWith(r, s, answer, cmd, v', pending', outcome)
  {
    hide Executable;
    hide Feed;
    hide Execute;
    hide FinalResult;
    ResultAfterCommand(r, s, answer, v, pending, cmd, v', pending');
    assert ([cmd] + Feed(v', pending').1)[1..] == Feed(v', pending').1;
  }

  class Connection {
    const readData: ReadData
    var answer: Text
    ghost var sent: Text

    ghost predicate Valid()
      reads this, readData
    {
      readData.Valid() && readData.curBufferSize == 0
    }

    ghost function View(): Conn
      reads this, readData
    {
      Conn(readData.View(), answer, sent)
    }

    /** As `on_accept_cb` sets it up. */
    constructor ()
      ensures Valid() && View() == NEW_CONN
      ensures fresh(readData) && fresh(readData.readBuffer)
    {
      readData := new ReadData();
      answer := [];
      sent := [];
    }

    /** The read callback: whatever the chunk completes is run and answered, and no byte is left over. */
    method OnReadCb(p: Proxy, chunk: Text)
      requires p.Valid() && Valid() && 1 <= |chunk| <= BUFFER_SIZE
      requires CanServe(p.regime, p.View(), readData.View(), chunk)
      modifies p.Repr(), this, readData, readData.readBuffer
      ensures p.Valid() && fresh(p.Repr() - old(p.Repr())) && Valid()
      ensures (p.View(), View()) == ChunkStep(p.regime, old(p.View()), old(View()), chunk)
    {
      hide Proxy.Valid;
      hide Proxy.View;
      hide ReadData.Valid;
      hide ReadData.View;
      hide CanServe;
      hide FinalResult;
      hide Owes;
      assert {this, readData, readData.readBuffer} !! p.Repr();
      hide Proxy.Repr;
      readData.ReadChunk(chunk);
      ghost var outcome := OwesChunk(p.regime, p.View(), answer, readData.View(), chunk);
      while true
        invariant p.Valid() && fresh(p.Repr() - old(p.Repr())) && readData.Valid()
        invariant readData.curBufferSize > 0 && sent == old(sent)
        invariant Owes(p.regime, p.View(), answer, readData.View(), readData.Pending(), outcome)
        decreases readData.curBufferSize
      {
        var served := ServeNext(p, outcome);
        if !served || readData.curBufferSize == 0 {
          break;
        }
      }
      assert readData.Pending() == [];
      OwesNothing(p.regime, p.View(), answer, readData.View(), outcome);
    }

    /** One round of the loop: the next command, if the pending bytes complete one, is run and answered. */
    method ServeNext(p: Proxy, ghost outcome: (State, Text, Parser)) returns (served: bool)
      requires p.Valid() && readData.Valid() && readData.curBufferSize > 0
      requires Owes(p.regime, p.View(), answer, readData.View(), readData.Pending(), outcome)
      modifies p.Repr(), this`answer, readData, readData.readBuffer
      ensures p.Valid() && fresh(p.Repr() - old(p.Repr())) && readData.Valid()
      ensures readData.curBufferSize < old(readData.curBufferSize)
      ensures Owes(p.regime, p.View(), answer, readData.View(), readData.Pending(), outcome)
      ensures !served ==> readData.curBufferSize == 0
    {
      hide Proxy.Valid;
      hide Proxy.View;
      hide ReadData.Valid;
      hide ReadData.View;
      hide Feed;
      hide Execute;
      hide Executable;
      hide Owes;
      hide Frame;
      hide KeySet;
      assert {this, readData, readData.readBuffer} !! p.Repr();
      hide Proxy.Repr;
      ghost var view, pending := readData.View(), readData.Pending();
      OwesInDomain(p.regime, p.View(), answer, view, pending, outcome);
      readData.NextCommand();
      if readData.exitStatus != All {
        assert readData.Pending() == [];
        NothingToServe(p.regime, p.View(), answer, view, pending, readData.View(), outcome);
        served := false;
      } else {
        CommandToServe(p.regime, p.View(), answer, view, pending, readData.argv, readData.View(), readData.Pending(), outcome);
        var frame := ServeCommand(p, readData.argv);
        answer := answer + frame;
        served := true;
      }
    }

    /** Runs one command and frames its reply. */
    static method ServeCommand(p: Proxy, argv: Command) returns (frame: Text)
      requires p.Valid() && Executable(p.regime, p.View().cache.Keys, argv)
      modifies p.Repr()
      ensures p.Valid() && fresh(p.Repr() - old(p.Repr()))
      ensures p.View() == Execute(p.regime, old(p.View()), argv).0
      ensures frame == Frame(Execute(p.regime, old(p.View()), argv).1)
    {
      hide Proxy.Valid;
      hide Proxy.View;
      hide Execute;
      ghost var reply := Execute(p.regime, p.View(), argv).1;
      var code, pgAnswer, size := ProcessRedisToPostgres(p, argv);
      var rdAnswer := DefineTypeReq(pgAnswer, size, reply);
      frame := rdAnswer[..];
    }

    /** The write callback, given how many bytes the socket took, or -1. A count between half of the answer
        and all of it would copy a negative number of bytes, which is not modelled. */
    method OnWriteCb(byteWrite: int) returns (written: Text)
      requires Valid() && -1 <= byteWrite <= |answer|
      requires byteWrite == |answer| || 2 * byteWrite <= |answer|
      modifies this
      ensures Valid() && readData.View() == old(readData.View())
      ensures byteWrite == -1 ==> written == [] && View() == old(View())
      ensures byteWrite != -1 ==> written == old(answer)[..byteWrite] && sent == old(sent) + written
      ensures byteWrite == |old(answer)| ==> View() == WriteStep(old(View()))
      ensures 0 <= byteWrite < |old(answer)| ==> answer == AfterPartialWrite(old(answer), byteWrite)
    {
      if byteWrite == -1 {
        return [];
      }
      written := answer[..byteWrite];
      sent := sent + written;
      if byteWrite == |answer| {
        answer := [];
      } else {
        var sizeAnswer := |answer| - byteWrite;
        answer := Overwrite(answer, 0, answer[byteWrite..byteWrite + (sizeAnswer - byteWrite)])[..sizeAnswer];
      }
    }
  }
}

// The per-connection read state: a 200-byte buffer and the parser working on it in place.
module WorkWithSocket {
  import opened Bytes
  import opened Decimal
  import opened ParserMachine

  const BUFFER_SIZE: nat := 200

  /** One call of the parser: it stops after the byte that completes a command, or at the end of the
      bytes. Also how many bytes it used up. */
  function Parse(p: Parser, s: Text): (r: (Parser, nat))
    requires !Completed(p)
    ensures r.1 <= |s|
    ensures !Completed(r.0) ==> r.1 == |s|
    ensures s != [] ==> 0 < r.1
    decreases |s|
  {
    if s == [] then (p, 0)
    else
      var q := Step(p, s[0]);
      if Completed(q) then (q, 1) else var (r, n) := Parse(q, s[1..]); (r, n + 1)
  }

  class ReadData {
    var argv: seq<Text>
    var argc: int
    var curCountArgv: int
    var curBufferSize: nat
    var parsingNum: int
    var isNegative: bool
    var parsingStr: Text
    var sizeStr: int
    var curSizeStr: int
    const readBuffer: array<byte>
    var readStatus: ReadStatus
    var exitStatus: ExitStatus

    ghost predicate Valid()
      reads this
    {
      && readBuffer.Length == 200 && curBufferSize <= 200
      && (argc != -1 ==> curCountArgv == |argv|)
      && curSizeStr == |parsingStr|
      && ParserInv(View())
    }

    /** The parser state these fields hold. */
    ghost function View(): Parser
      reads this
    {
      Parser(readStatus, exitStatus, argc, argv, parsingNum, isNegative, sizeStr, parsingStr)
    }

    /** The bytes received and not used up yet. */
    ghost function Pending(): Text
      reads this, readBuffer
      requires Valid()
    {
      readBuffer[..curBufferSize]
    }

    /** As set up when a connection is accepted. */
    constructor ()
      ensures Valid() && View() == INIT && curBufferSize == 0 && fresh(readBuffer)
    {
      readBuffer := new byte[BUFFER_SIZE](_ => NUL);
      argv, argc, curCountArgv, curBufferSize := [], -1, 0, 0;
      parsingNum, isNegative, parsingStr, sizeStr, curSizeStr := 0, false, [], 0, 0;
      readStatus, exitStatus := ArrayWait, NotAll;
    }

    /** `read` into the buffer: a chunk of 1 to 200 bytes replaces what the buffer held. */
    method ReadChunk(chunk: Text)
      requires Valid() && curBufferSize == 0 && 1 <= |chunk| <= BUFFER_SIZE
      modifies this`curBufferSize, readBuffer
      ensures Valid() && View() == old(View()) && Pending() == chunk
    {
      Memcpy(readBuffer, curBufferSize, chunk);
      curBufferSize := |chunk|;
      assert readBuffer[..curBufferSize] == readBuffer[..][0..0 + |chunk|];
    }

    /** Forgets a completed command before the next one. */
    method ResetCompleted()
      requires Valid()
      modifies this
      ensures Valid() && View() == Reset(old(View()))
      ensures exitStatus == NotAll && curBufferSize == old(curBufferSize)
    {
      if exitStatus == All {
        readStatus := ArrayWait;
        argv := [];
        argc := -1;
        parsingStr := [];
        parsingNum := 0;
        exitStatus := NotAll;
      }
    }

    /** The line end of a count or of a length. */
    method TakeNumberEnd()
      requires Valid() && exitStatus == NotAll && readStatus == NumWait && EndNumber(View()) != Fault
      modifies this
      ensures Valid() && View() == EndNumber(old(View()))
      ensures curBufferSize == old(curBufferSize)
    {
      parsingNum := if isNegative then parsingNum * -1 else parsingNum;
      if argc == -1 {
        argc := parsingNum;
        curCountArgv := 0;
        readStatus := StartStringWait;
        argv := [];
      } else {
        sizeStr := parsingNum;
        curSizeStr := 0;
        parsingStr := [];
        readStatus := StringWait;
      }
      parsingNum := 0;
      StepKeepsInv(old(View()), CR);
    }

    /** A byte of a payload, perhaps the last one. */
    method TakePayloadByte(c: byte)
      requires Valid() && exitStatus == NotAll && readStatus == StrSymWait
      modifies this
      ensures Valid() && View() == Step(old(View()), c)
      ensures curBufferSize == old(curBufferSize)
    {
      StepKeepsInv(View(), c);
      assert argc != -1;
      hide ParserInv;
      parsingStr := parsingStr + [c];
      curSizeStr := curSizeStr + 1;
      if curSizeStr == sizeStr {
        argv := argv + [parsingStr];
        parsingStr := [];
        curCountArgv := curCountArgv + 1;
        sizeStr, curSizeStr := 0, 0;
        if curCountArgv == argc {
          readStatus := End;
        } else {
          readStatus := StartStringWait;
        }
      }
    }

    /** The body of the parser's loop for one byte, short of the buffer index. */
    method TakeByte(c: byte)
      requires Valid() && exitStatus == NotAll && Step(View(), c) != Fault
      modifies this
      ensures Valid() && View() == Step(old(View()), c)
      ensures curBufferSize == old(curBufferSize)
    {
      StepKeepsInv(View(), c);
      hide ParserInv;
      if c == STAR && readStatus == ArrayWait {
        readStatus := NumOrMinusWait;
      } else if (IsDigit(c) || c == MINUS) && readStatus == NumOrMinusWait {
        if IsDigit(c) {
          parsingNum := parsingNum * 10 + DigitValue(c);
          isNegative := false;
        } else {
          isNegative := true;
        }
        readStatus := NumWait;
      } else if IsDigit(c) && readStatus == NumWait {
        parsingNum := parsingNum * 10 + DigitValue(c);
      } else if c == CR && readStatus == NumWait {
        TakeNumberEnd();
      } else if c == LF && readStatus == StartStringWait {
      } else if c == LF && readStatus == StringWait {
        readStatus := StrSymWait;
      } else if c == DOLLAR && readStatus == StartStringWait {
        readStatus := NumOrMinusWait;
      } else if readStatus == StrSymWait {
        TakePayloadByte(c);
      } else if readStatus == End {
        if c == LF {
          exitStatus := All;
        }
      }
    }

    /** Moves the bytes after a completed command to the front of the buffer. */
    method ReplacePartOfBuffer(curBufferIndex: nat)
      requires Valid() && curBufferIndex <= curBufferSize
      modifies this`curBufferSize, readBuffer
      ensures Valid() && View() == old(View()) && Pending() == old(Pending())[curBufferIndex..]
    {
      var rest := readBuffer[curBufferIndex..curBufferSize];
      Memcpy(readBuffer, 0, rest);
      curBufferSize := curBufferSize - curBufferIndex;
      assert readBuffer[..curBufferSize] == readBuffer[..][0..0 + |rest|];
    }

    /** Parses the pending bytes up to the end of a command or of the bytes; each byte used up is used
        up once, and the others stay pending in order. */
    method ParseCliMes()
      requires Valid() && exitStatus == NotAll && curBufferSize > 0
      requires Parse(View(), Pending()).0 != Fault
      modifies this, readBuffer
      ensures Valid()
      ensures View() == Parse(old(View()), old(Pending())).0
      ensures Pending() == old(Pending())[Parse(old(View()), old(Pending())).1..]
      ensures exitStatus == NotAll ==> curBufferSize == 0
    {
      hide ParserInv;
      hide Step;
      hide Parse;
      ghost var start, bytes := View(), Pending();
      var curBufferIndex := 0;
      while true
        invariant Valid() && exitStatus == NotAll
        invariant curBufferSize == |bytes| && 0 <= curBufferIndex < |bytes| && readBuffer[..curBufferSize] == bytes
        invariant Parse(View(), bytes[curBufferIndex..]).0 == Parse(start, bytes).0
        invariant curBufferIndex + Parse(View(), bytes[curBufferIndex..]).1 == Parse(start, bytes).1
        decreases |bytes| - curBufferIndex
      {
        var c := readBuffer[curBufferIndex];
        ghost var rest := bytes[curBufferIndex..];
        assert rest[0] == c && rest[1..] == bytes[curBufferIndex + 1..];
        ParseStep(View(), rest);
        TakeByte(c);
        curBufferIndex := curBufferIndex + 1;
        if exitStatus == All {
          ReplacePartOfBuffer(curBufferIndex);
          return;
        }
        if curBufferIndex >= curBufferSize {
          ParseNothing(View());
          curBufferSize := 0;
          exitStatus := NotAll;
          return;
        }
      }
    }

    /** One round of the read callback's loop: the next command, if the pending bytes complete one. */
    method NextCommand()
      requires Valid() && curBufferSize > 0
      requires Feed(View(), Pending()).0 != Fault
      modifies this, readBuffer
      ensures Valid() && curBufferSize < old(curBufferSize)
      ensures var rest := Feed(View(), Pending());
        Feed(old(View()), old(Pending())) == if exitStatus == All then (rest.0, [argv] + rest.1) else (View(), [])
      ensures exitStatus == NotAll ==> curBufferSize == 0
    {
      hide ParserInv;
      hide Parse;
      hide Feed;
      ghost var view, pending := View(), Pending();
      FeedOfReset(view, pending);
      ResetCompleted();
      assert Pending() == pending;
      assert !Completed(View()) && exitStatus == NotAll;
      FeedIsParse(View(), pending);
      FeedFault(pending[Parse(View(), pending).1..]);
      ParseCliMes();
    }
  }

  lemma {:induction false} ParseFault(s: Text)
    ensures Parse(Fault, s).0 == Fault
    decreases |s|
  {
    if s != [] {
      ParseFault(s[1..]);
    }
  }

  lemma ParseNothing(p: Parser)
    requires !Completed(p)
    ensures Parse(p, []) == (p, 0)
  {
  }

  lemma ParseStep(p: Parser, s: Text)
    requires p.Parser? && !Completed(p) && s != [] && Parse(p, s).0 != Fault
    ensures var q := Step(p, s[0]);
      && q != Fault
      && Parse(p, s) == if Completed(q) then (q, 1) else (Parse(q, s[1..]).0, 1 + Parse(q, s[1..]).1)
  {
    ParseFault(s[1..]);
  }

  /** Feeding is parsing command by command. */
  lemma {:induction false} FeedIsParse(p: Parser, s: Text)
    requires s != [] && !Completed(p)
    ensures var (q, n) := Parse(p, s);
      Feed(p, s) == if Completed(q) then (Feed(q, s[n..]).0, [q.argv] + Feed(q, s[n..]).1) else (q, [])
    decreases |s|
  {
    var q := Step(p, s[0]);
    if !Completed(q) && |s| > 1 {
      FeedIsParse(q, s[1..]);
      var n := Parse(q, s[1..]).1;
      assert s[1..][n..] == s[n + 1..];
    } else if !Completed(q) {
      assert Parse(q, s[1..]) == (q, 0);
    }
  }

  lemma FeedOfReset(p: Parser, s: Text)
    requires s != []
    ensures Feed(p, s) == Feed(Reset(p), s)
  {
  }
}

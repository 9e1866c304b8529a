// The incremental command parser as a machine that takes one byte at a time and can stop anywhere.
module ParserMachine {
  import opened Bytes
  import opened Decimal
  import opened Commands
  import opened Resp

  datatype ReadStatus =
    | ArrayWait | NumOrMinusWait | NumWait | StringWait | StartStringWait | StrSymWait | End

  datatype ExitStatus = NotAll | All

  /** A parser between two bytes. `Fault` is where the modelled domain ends: a count or length that is
      not positive or does not fit a C int. */
  datatype Parser =
    | Parser(status: ReadStatus, exit: ExitStatus, argc: int, argv: seq<Text>,
             num: int, negative: bool, size: int, str: Text)
    | Fault

  const INIT: Parser := Parser(ArrayWait, NotAll, -1, [], 0, false, 0, [])

  /** The state before the first byte after a completed command. */
  function Reset(p: Parser): Parser {
    if Completed(p) then INIT else p
  }

  predicate Completed(p: Parser) {
    p.Parser? && p.exit.All?
  }

  function TakeDigit(p: Parser, c: byte): Parser
    requires p.Parser? && IsDigit(c)
  {
    var n := p.num * 10 + DigitValue(c);
    if n > INT_MAX then Fault else p.(num := n)
  }

  /** The line end of a count or a length. */
  function EndNumber(p: Parser): Parser
    requires p.Parser?
  {
    var n := if p.negative then -p.num else p.num;
    if p.argc == -1 then
      if n <= 0 then Fault else p.(argc := n, argv := [], num := 0, status := StartStringWait)
    else
      if n <= 0 || n == INT_MAX then Fault else p.(size := n, str := [], num := 0, status := StringWait)
  }

  function EndArgument(p: Parser): Parser
    requires p.Parser?
  {
    var argv := p.argv + [p.str];
    p.(argv := argv, size := 0, str := [], status := if |argv| == p.argc then End else StartStringWait)
  }

  function Step(p: Parser, c: byte): Parser {
    if p.Fault? then Fault
    else match p.status
      case ArrayWait => if c == STAR then p.(status := NumOrMinusWait) else p
      case NumOrMinusWait =>
        if IsDigit(c) then TakeDigit(p.(negative := false, status := NumWait), c)
        else if c == MINUS then p.(negative := true, status := NumWait)
        else p
      case NumWait => if IsDigit(c) then TakeDigit(p, c) else if c == CR then EndNumber(p) else p
      case StringWait => if c == LF then p.(status := StrSymWait) else p
      case StartStringWait => if c == DOLLAR then p.(status := NumOrMinusWait) else p
      case StrSymWait =>
        var q := p.(str := p.str + [c]);
        if |q.str| == p.size then EndArgument(q) else q
      case End => if c == LF then p.(exit := All) else p
  }

  /** Feeding bytes, across command boundaries: the final state, and the commands completed. */
  function Feed(p: Parser, s: Text): (Parser, seq<Command>)
    decreases |s|
  {
    if s == [] then (p, [])
    else
      var q := Step(Reset(p), s[0]);
      var (r, cmds) := Feed(q, s[1..]);
      (r, if Completed(q) then [q.argv] + cmds else cmds)
  }

  function FeedChunks(p: Parser, chunks: seq<Text>): (Parser, seq<Command>)
    decreases |chunks|
  {
    if chunks == [] then (p, [])
    else
      var (q, cmds) := Feed(p, chunks[0]);
      var (r, more) := FeedChunks(q, chunks[1..]);
      (r, cmds + more)
  }

  function Concat(chunks: seq<Text>): Text {
    if chunks == [] then [] else chunks[0] + Concat(chunks[1..])
  }

  // ---------- the invariant ----------

  /** In every state: counts and lengths are C ints; while a payload is read its index is below the
      size and the argument index below the argument count. */
  predicate ParserInv(p: Parser) {
    p.Parser? ==>
      && 0 <= p.num <= INT_MAX
      && (p.exit.All? ==> p.status.End?)
      && (p.status.ArrayWait? ==> p.argc == -1)
      && (!p.status.NumWait? && !p.status.NumOrMinusWait? ==> p.num == 0 && !p.negative)
      && (p.status.NumOrMinusWait? ==> p.num == 0 && !p.negative)
      && (p.argc == -1 ==> p.argv == [] && (p.status.ArrayWait? || p.status.NumWait? || p.status.NumOrMinusWait?))
      && (p.argc != -1 ==> 1 <= p.argc <= INT_MAX)
      && (p.argc != -1 && !p.status.End? ==> |p.argv| < p.argc)
      && (p.status.End? ==> |p.argv| == p.argc)
      && (if p.status.StringWait? || p.status.StrSymWait?
          then 1 <= p.size < INT_MAX && |p.str| < p.size
          else p.size == 0 && p.str == [])
      && (forall i :: 0 <= i < |p.argv| ==> 1 <= |p.argv[i]| < INT_MAX)
  }

  /** Whatever byte comes, the parser keeps its invariant. */
  lemma StepKeepsInv(p: Parser, c: byte)
    requires ParserInv(p) && !Completed(p)
    ensures ParserInv(Step(p, c))
  {
  }

  /** What the parser waits for, by character; any other byte is skipped without a trace. */
  lemma StepIs(p: Parser, c: byte)
    requires p.Parser?
    ensures p.status.ArrayWait? ==>
              Step(p, c) == if c == Ascii("*")[0] then p.(status := NumOrMinusWait) else p
    ensures p.status.StartStringWait? ==>
              Step(p, c) == if c == Ascii("$")[0] then p.(status := NumOrMinusWait) else p
    ensures p.status.StringWait? ==>
              Step(p, c) == if c == Ascii("\n")[0] then p.(status := StrSymWait) else p
    ensures p.status.End? ==>
              Step(p, c) == if c == Ascii("\n")[0] then p.(exit := All) else p
    ensures p.status.NumOrMinusWait? && !('0' as int <= c as int <= '9' as int) ==>
              Step(p, c) == if c == Ascii("-")[0] then p.(negative := true, status := NumWait) else p
    ensures p.status.NumWait? && !('0' as int <= c as int <= '9' as int) ==>
              Step(p, c) == if c == Ascii("\r")[0] then EndNumber(p) else p
  {
    hide EndNumber;
    hide EndArgument;
    hide TakeDigit;
  }

  /** On any bytes at all, in any pieces, the invariant holds, and every command completed has at least
      one argument and no empty one. */
  lemma {:induction false} FeedKeepsInv(p: Parser, s: Text)
    requires ParserInv(p)
    ensures ParserInv(Feed(p, s).0)
    ensures forall i :: 0 <= i < |Feed(p, s).1| ==> Encodable(Feed(p, s).1[i])
    decreases |s|
  {
    if s != [] {
      StepKeepsInv(Reset(p), s[0]);
      FeedKeepsInv(Step(Reset(p), s[0]), s[1..]);
    }
  }

  /** The commands the results cover, among those the parser can complete: all but COMMAND and those with
      a NUL byte or an argument of 2147483646 bytes. */
  lemma CompletedIsSupported(p: Parser, s: Text, i: nat)
    requires ParserInv(p) && i < |Feed(p, s).1|
    ensures var cmd := Feed(p, s).1[i];
      && cmd != []
      && (Supported(cmd) <==>
            && (forall j :: 0 <= j < |cmd| ==> NulFree(cmd[j]) && |cmd[j]| != 2147483646)
            && !IsName(cmd[0], "COMMAND", "command"))
  {
    hide IsName;
    hide ParserInv;
    hide NulFree;
    FeedKeepsInv(p, s);
    hide Feed;
    var cmd := Feed(p, s).1[i];
    assert Encodable(cmd);
  }

  lemma {:induction false} FeedFault(s: Text)
    ensures Feed(Fault, s) == (Fault, [])
    decreases |s|
  {
    if s != [] {
      FeedFault(s[1..]);
    }
  }

  // ---------- chunk independence ----------

  /** Stopping anywhere and going on later is the same as not stopping. */
  lemma {:induction false} FeedAppend(p: Parser, s: Text, t: Text)
    ensures var (q, cmds) := Feed(p, s);
      Feed(p, s + t) == (Feed(q, t).0, cmds + Feed(q, t).1)
    decreases |s|
  {
    if s == [] {
      assert s + t == t;
      assert Feed(p, s).1 + Feed(p, t).1 == Feed(p, t).1;
    } else {
      var q := Step(Reset(p), s[0]);
      assert (s + t)[0] == s[0] && (s + t)[1..] == s[1..] + t;
      FeedAppend(q, s[1..], t);
      var (r, cmds) := Feed(q, s[1..]);
      if Completed(q) {
        assert ([q.argv] + cmds) + Feed(r, t).1 == [q.argv] + (cmds + Feed(r, t).1);
      }
    }
  }

  /** However a stream is cut, the same commands come out, and the same state is left. The machine stops
      at `Fault`, so this speaks of the code for bytes that keep the parser in its domain. */
  lemma {:induction false} ChunksDoNotMatter(p: Parser, chunks: seq<Text>)
    ensures FeedChunks(p, chunks) == Feed(p, Concat(chunks))
    decreases |chunks|
  {
    if chunks != [] {
      FeedAppend(p, chunks[0], Concat(chunks[1..]));
      ChunksDoNotMatter(Feed(p, chunks[0]).0, chunks[1..]);
    }
  }

  // ---------- the machine against the one-shot reader ----------

  /** Nothing completed, and the parser still in its domain. */
  ghost predicate Waits(p: Parser, s: Text) {
    Feed(p, s).1 == [] && Feed(p, s).0.Parser? && !Completed(Feed(p, s).0)
  }

  /** The bytes of s up to `rest` complete the command `cmd`; the next byte starts afresh. */
  ghost predicate Completes(p: Parser, s: Text, cmd: Command, rest: Text)
    requires p.Parser?
  {
    var q := p.(status := End, exit := All, argc := |cmd|, argv := cmd, num := 0, size := 0, str := []);
    Feed(p, s) == (Feed(q, rest).0, [cmd] + Feed(q, rest).1)
  }

  /** The parser after a number and its CRLF. */
  function AfterNumber(p: Parser, n: nat): Parser
    requires p.Parser?
  {
    if p.argc == -1 then p.(argc := n, argv := [], num := 0, status := StartStringWait)
    else p.(size := n, str := [], num := 0, status := StrSymWait)
  }

  function NumberLimit(p: Parser): nat
    requires p.Parser?
  {
    if p.argc == -1 then INT_MAX else INT_MAX - 1
  }

  predicate Reading(p: Parser, status: ReadStatus) {
    p.Parser? && p.exit.NotAll? && p.status == status
  }

  lemma {:induction false} FeedDigits(p: Parser, s: Text)
    requires Reading(p, NumWait) && !p.negative && 0 <= p.num <= NumberLimit(p)
    ensures var r := ReadDigits(NumberLimit(p), p.num, s);
      && (r.Got? ==> Feed(p, s) == Feed(AfterNumber(p, r.value), r.rest))
      && (r.More? ==> Waits(p, s))
    decreases |s|
  {
    if s != [] && !ReadDigits(NumberLimit(p), p.num, s).Bad? {
      var q := Step(p, s[0]);
      if IsDigit(s[0]) {
        FeedDigits(q, s[1..]);
      } else if |s| > 1 {
        assert Feed(p, s) == Feed(q, s[1..]);
        assert s[1..][1..] == s[2..];
        assert Step(q, s[1]) == AfterNumber(p, p.num);
      } else {
        assert Feed(q, s[1..]) == (q, []);
      }
    }
  }

  lemma FeedNumber(p: Parser, s: Text)
    requires Reading(p, NumOrMinusWait) && !p.negative && p.num == 0
    ensures var r := ReadNumber(NumberLimit(p), s);
      && (r.Got? ==> Feed(p, s) == Feed(AfterNumber(p, r.value), r.rest))
      && (r.More? ==> Waits(p, s))
  {
    if s != [] && !ReadNumber(NumberLimit(p), s).Bad? {
      var q := Step(p, s[0]);
      assert Feed(p, s) == Feed(q, s[1..]);
      FeedDigits(q, s[1..]);
    }
  }

  lemma {:induction false} FeedPayload(p: Parser, s: Text)
    requires Reading(p, StrSymWait) && |p.str| < p.size
    ensures if |s| < p.size - |p.str| then Waits(p, s)
            else
              var k := p.size - |p.str|;
              Feed(p, s) == Feed(EndArgument(p.(str := p.str + s[..k])), s[k..])
    decreases |s|
  {
    if s != [] {
      var q := Step(p, s[0]);
      if |p.str| + 1 == p.size {
        assert s[..1] == [s[0]];
      } else {
        FeedPayload(q, s[1..]);
        var k := p.size - |p.str|;
        if k <= |s| {
          assert q.str + s[1..][..k - 1] == p.str + s[..k];
          assert s[1..][k - 1..] == s[k..];
        }
      }
    }
  }

  /** CRLF between two arguments. */
  lemma FeedMiddleEnd(p: Parser, s: Text)
    requires Reading(p, StartStringWait)
    ensures var r := ReadEnd(s);
      && (r.Got? ==> Feed(p, s) == Feed(p, r.rest))
      && (r.More? ==> Waits(p, s))
  {
    if |s| > 1 && ReadEnd(s).Got? {
      assert Feed(p, s) == Feed(p, s[1..]);
      assert s[1..][1..] == s[2..];
    } else if |s| == 1 {
      assert ReadEnd(s).More? ==> Feed(p, s) == Feed(p, s[1..]);
    }
  }

  /** CRLF after the last argument completes the command. */
  lemma FeedLastEnd(p: Parser, s: Text)
    requires Reading(p, End) && ParserInv(p)
    ensures var r := ReadEnd(s);
      && (r.Got? ==> Completes(p, s, p.argv, r.rest))
      && (r.More? ==> Waits(p, s))
  {
    if |s| > 1 && ReadEnd(s).Got? {
      assert Feed(p, s) == Feed(p, s[1..]);
      assert s[1..][1..] == s[2..];
    } else if |s| == 1 {
      assert ReadEnd(s).More? ==> Feed(p, s) == Feed(p, s[1..]);
    }
  }

  /** The payload of an argument whose length has been read. */
  lemma FeedArgPayload(p: Parser, n: nat, payload: Text)
    requires Reading(p, StartStringWait) && ParserInv(p) && p.argc != -1 && |p.argv| < p.argc && 1 <= n < INT_MAX
    ensures var r := ReadPayload(n, payload);
      var q := p.(size := n, str := [], num := 0, status := StrSymWait);
      && (r.Got? && |p.argv| + 1 < p.argc ==> Feed(q, payload) == Feed(p.(argv := p.argv + [r.value]), r.rest))
      && (r.Got? && |p.argv| + 1 == p.argc ==> Completes(q, payload, p.argv + [r.value], r.rest))
      && (r.More? ==> Waits(q, payload))
  {
    var q := p.(size := n, str := [], num := 0, status := StrSymWait);
    FeedPayload(q, payload);
    if n <= |payload| {
      var argv := p.argv + [payload[..n]];
      assert [] + payload[..n] == payload[..n];
      if |argv| < p.argc {
        assert EndArgument(q.(str := payload[..n])) == p.(argv := argv);
        FeedMiddleEnd(p.(argv := argv), payload[n..]);
      } else {
        FeedLastEnd(p.(argv := argv, status := End), payload[n..]);
      }
    }
  }

  /** One argument and its CRLF: the next one is awaited, or the command is complete. */
  lemma FeedArg(p: Parser, s: Text)
    requires Reading(p, StartStringWait) && ParserInv(p)
    ensures var r := ReadArg(s);
      && (r.Got? && |p.argv| + 1 < p.argc ==> Feed(p, s) == Feed(p.(argv := p.argv + [r.value]), r.rest))
      && (r.Got? && |p.argv| + 1 == p.argc ==> Completes(p, s, p.argv + [r.value], r.rest))
      && (r.More? ==> Waits(p, s))
  {
    hide ReadDigits;
    hide EndNumber;
    hide TakeDigit;
    if s != [] && s[0] == DOLLAR {
      var q := p.(status := NumOrMinusWait);
      assert Feed(p, s) == Feed(q, s[1..]);
      FeedNumber(q, s[1..]);
      var number := ReadNumber(INT_MAX - 1, s[1..]);
      if number.Got? {
        var n, payload := number.value, number.rest;
        FeedArgPayload(p, n, payload);
      }
    }
  }

  lemma {:induction false} FeedArgs(p: Parser, n: nat, s: Text)
    requires Reading(p, StartStringWait) && ParserInv(p) && 1 <= n && |p.argv| + n == p.argc
    ensures var r := ReadArgs(n, s);
      && (r.Got? ==> Completes(p, s, p.argv + r.value, r.rest))
      && (r.More? ==> Waits(p, s))
    decreases n
  {
    hide ReadArg;
    hide Feed;
    FeedArg(p, s);
    var first := ReadArg(s);
    if first.Got? {
      if n == 1 {
        assert ReadArgs(0, first.rest) == Got([], first.rest);
        assert [first.value] + [] == [first.value];
      } else {
        var q := p.(argv := p.argv + [first.value]);
        FeedArgs(q, n - 1, first.rest);
        var r := ReadArgs(n - 1, first.rest);
        if r.Got? {
          assert q.argv + r.value == p.argv + ([first.value] + r.value);
        }
      }
    }
  }

  /** On every well-formed stream, complete or cut anywhere, the machine stays in its domain and emits
      exactly the commands the one-shot reader finds. */
  lemma {:induction false} FeedReadsStream(p: Parser, s: Text)
    requires Reset(p) == INIT && ReadStream(s).Scanned?
    ensures Feed(p, s).1 == ReadStream(s).cmds
    ensures Feed(p, s).0.Parser?
    ensures ReadStream(s).complete ==> Reset(Feed(p, s).0) == INIT
    decreases |s|
  {
    if s == [] {
    } else if s[0] != STAR {
      assert Feed(p, s) == Feed(INIT, s[1..]);
      FeedReadsStream(INIT, s[1..]);
    } else {
      var q := INIT.(status := NumOrMinusWait);
      assert Feed(p, s) == Feed(q, s[1..]);
      FeedNumber(q, s[1..]);
      var number := ReadNumber(INT_MAX, s[1..]);
      if number.Got? {
        FeedArgs(AfterNumber(q, number.value), number.value, number.rest);
        var r := ReadCommand(s[1..]);
        if r.Got? {
          assert AfterNumber(q, number.value).argv + r.value == r.value;
          FeedReadsStream(INIT.(status := End, exit := All, argc := |r.value|, argv := r.value), r.rest);
        }
      }
    }
  }

  /** Printing commands, with noise between them, and feeding the stream in any pieces gives exactly the
      commands back. */
  lemma RoundTrip(cmds: seq<Command>, noise: seq<Text>, chunks: seq<Text>)
    requires |noise| == |cmds| + 1
    requires forall i :: 0 <= i < |cmds| ==> Encodable(cmds[i])
    requires forall i :: 0 <= i < |noise| ==> ToByte('*') !in noise[i]
    requires Concat(chunks) == EncodeStream(cmds, noise)
    ensures FeedChunks(INIT, chunks).1 == cmds
    ensures Reset(FeedChunks(INIT, chunks).0) == INIT
  {
    ChunksDoNotMatter(INIT, chunks);
    ReadStreamOf(cmds, noise);
    FeedReadsStream(INIT, Concat(chunks));
  }
}

// The dispatcher: runs the call a command selects and leaves the reply in a tagged buffer.
module RedisReqvConverter {
  import opened Bytes
  import opened Wrappers
  import opened Decimal
  import opened CacheModel
  import opened Commands
  import opened Replies
  import opened Sql
  import opened WorkWithDb
  import opened SendReqPostgres

  const MAX_ERROR_SIZE: nat := 256

  method ToBigCase(s: array<byte>)
    modifies s
    ensures s[..] == Upper(old(s[..]))
  {
    var i := 0;
    while i < s.Length
      invariant 0 <= i <= s.Length
      invariant forall j :: 0 <= j < i ==> s[j] == UpperByte(old(s[j]))
      invariant forall j :: i <= j < s.Length ==> s[j] == old(s[j])
    {
      if 97 <= s[i] <= 122 {
        s[i] := s[i] - 32;
      }
      i := i + 1;
    }
  }

  /** A fresh buffer holding a tag and data. */
  method NewTagged(tag: byte, data: Text) returns (answer: array<byte>, size: nat)
    ensures fresh(answer) && size == answer.Length == 1 + |data|
    ensures answer[..size] == [tag] + data
  {
    size := 1 + |data|;
    answer := new byte[size];
    answer[0] := tag;
    Memcpy(answer, 1, data);
  }

  method ProcessGet(p: Proxy, key: Text) returns (code: int, answer: array<byte>, size: nat)
    requires p.Valid() && IsArgument(key) && QuoteSafe(p.regime, p.View().cache.Keys, Get(key))
    modifies p.Repr()
    ensures p.Valid() && fresh(p.Repr() - old(p.Repr()))
    ensures p.View() == ReqGet(p.regime, old(p.View()), key).0
    ensures code == 0 && fresh(answer) && size <= answer.Length && size <= INT_MAX
    ensures var value := ReqGet(p.regime, old(p.View()), key).1;
      answer[..size] == if value.Some? then [3] + value.value + [0] else [3]
  {
    hide CacheModel.ReqGet;
    hide Proxy.Valid;
    hide Proxy.View;
    var res, value := p.ReqGet(key);
    if res == Non {
      answer, size := NewTagged(TAG_BULK, []);
      code := 0;
    } else if res == ErrReq {
      answer, size := NewTagged(TAG_BULK, []);
      code := -1;
    } else {
      answer, size := NewTagged(TAG_BULK, value.value + [NUL]);
      ConcatAssoc([TAG_BULK], value.value, [NUL]);
      code := 0;
    }
  }

  method ProcessSet(p: Proxy, key: Text, value: Text) returns (code: int, answer: array<byte>, size: nat)
    requires p.Valid() && IsArgument(key) && IsArgument(value)
    requires QuoteSafe(p.regime, p.View().cache.Keys, Set(key, value))
    modifies p.Repr()
    ensures p.Valid() && fresh(p.Repr() - old(p.Repr()))
    ensures p.View() == ReqSet(p.regime, old(p.View()), key, value)
    ensures code == 0 && fresh(answer) && size <= answer.Length && size <= INT_MAX
    ensures answer[..size] == Tagged(Status(Ascii("OK")))
  {
    hide CacheModel.ReqSet;
    hide Proxy.Valid;
    hide Proxy.View;
    var res := p.ReqSet(key, value);
    answer, size := NewTagged(TAG_STATUS, Ascii("OK") + [NUL]);
    code := if res == ErrReq then -1 else 0;
  }

  method ProcessDel(p: Proxy, argv: Command) returns (code: int, answer: array<byte>, size: nat)
    requires p.Valid() && 1 <= |argv| <= INT_MAX
    requires forall i :: 1 <= i < |argv| ==>
               IsArgument(argv[i]) && QuoteSafe(p.regime, p.View().cache.Keys, Del(argv[i]))
    modifies p.Repr()
    ensures p.Valid() && fresh(p.Repr() - old(p.Repr()))
    ensures p.View() == DelEach(p.regime, old(p.View()), argv[1..]).0
    ensures code == 0 && fresh(answer) && size <= answer.Length && size <= INT_MAX
    ensures answer[..size] == Tagged(Integer(DelEach(p.regime, old(p.View()), argv[1..]).1))
  {
    hide CacheModel.ReqDel;
    hide DelEach;
    hide Print;
    hide Proxy.Valid;
    hide Proxy.View;
    var successfulDeletions := DeleteAll(p, argv);
    var num := new byte[20];
    PrintedIntFits(successfulDeletions);
    var countWriteSym := PrintInto(num, successfulDeletions);
    answer, size := NewTagged(TAG_INTEGER, num[..countWriteSym]);
    code := 0;
  }

  /** The loop over the listed keys: the deletions that found something are counted. */
  method DeleteAll(p: Proxy, argv: Command) returns (successfulDeletions: nat)
    requires p.Valid() && 1 <= |argv|
    requires forall i :: 1 <= i < |argv| ==>
               IsArgument(argv[i]) && QuoteSafe(p.regime, p.View().cache.Keys, Del(argv[i]))
    modifies p.Repr()
    ensures p.Valid() && fresh(p.Repr() - old(p.Repr()))
    ensures (p.View(), successfulDeletions) == DelEach(p.regime, old(p.View()), argv[1..])
    ensures successfulDeletions < |argv|
  {
    hide CacheModel.ReqDel;
    hide Proxy.Valid;
    hide Proxy.View;
    hide IsArgument;
    successfulDeletions := 0;
    var i := 1;
    while i < |argv|
      invariant 1 <= i <= |argv|
      invariant p.Valid() && fresh(p.Repr() - old(p.Repr()))
      invariant p.View() == DelEach(p.regime, old(p.View()), argv[1..i]).0
      invariant successfulDeletions == DelEach(p.regime, old(p.View()), argv[1..i]).1 < i
    {
      DelEachKeepsCached(p.regime, old(p.View()), argv[1..i]);
      assert argv[1..i + 1][..i - 1] == argv[1..i];
      var res := p.ReqDel(argv[i]);
      if res == Ok {
        successfulDeletions := successfulDeletions + 1;
      }
      i := i + 1;
    }
    assert argv[1..i] == argv[1..];
  }

  /** The proxy is left alone. */
  method ProcessPing(ghost p: Proxy) returns (answer: array<byte>, size: nat)
    requires p.Valid()
    ensures p.Valid() && p.View() == old(p.View()) && p.Repr() == old(p.Repr())
    ensures fresh(answer) && size <= answer.Length && size <= INT_MAX
    ensures answer[..size] == Tagged(Status(Ascii("PONG")))
  {
    answer, size := NewTagged(TAG_STATUS, Ascii("PONG") + [NUL]);
  }

  /** Error buffers have a fixed size; only the message is filled in, and the proxy is left alone. */
  method ProcessError(message: Text, ghost p: Proxy) returns (answer: array<byte>, size: nat)
    requires |message| + 1 < MAX_ERROR_SIZE && p.Valid()
    ensures p.Valid() && p.View() == old(p.View()) && p.Repr() == old(p.Repr())
    ensures fresh(answer) && size < answer.Length == 256 && size <= INT_MAX
    ensures answer[..size] == Tagged(Error(message))
  {
    size := 1 + |message|;
    answer := new byte[MAX_ERROR_SIZE];
    answer[0] := TAG_ERROR;
    Memcpy(answer, 1, message);
    assert answer[..size] == [TAG_ERROR] + message;
  }

  method BigCaseName(s: Text, ghost p: Proxy) returns (name: Text)
    requires p.Valid()
    ensures p.Valid() && p.View() == old(p.View()) && p.Repr() == old(p.Repr())
    ensures name == Upper(s)
  {
    var buffer := new byte[|s|](i requires 0 <= i < |s| => s[i]);
    assert buffer[..] == s;
    ToBigCase(buffer);
    name := buffer[..];
  }

  lemma TaggedBulk(value: Option<Text>)
    ensures Tagged(BulkOrNil(value)) == if value.Some? then [3] + value.value + [0] else [3]
  {
  }

  /** Runs one command: the state and the tagged reply are those of `Execute`. */
  method ProcessRedisToPostgres(p: Proxy, argv: Command) returns (code: int, answer: array<byte>, size: nat)
    requires p.Valid() && Executable(p.regime, p.View().cache.Keys, argv)
    modifies p.Repr()
    ensures p.Valid() && fresh(p.Repr() - old(p.Repr()))
    ensures p.View() == Execute(p.regime, old(p.View()), argv).0
    ensures code == 0 && fresh(answer) && size <= answer.Length && size <= INT_MAX
    ensures answer[..size] == Tagged(Execute(p.regime, old(p.View()), argv).1)
    ensures Execute(p.regime, old(p.View()), argv).1.Error? ==> size < answer.Length
  {
    hide Proxy.Valid;
    hide Proxy.View;
    hide CacheModel.ReqGet;
    hide CacheModel.ReqSet;
    hide DelEach;
    hide Tagged;
    hide Upper;
    hide KeySet;
    hide IsArgument;
    hide QuoteSafe;
    hide Executable;
    CallIsSafe(p.regime, p.View().cache.Keys, argv);
    code := 0;
    var name := BigCaseName(argv[0], p);
    hide Proxy.Repr;
    if name == Ascii("GET") {
      if |argv| < 2 {
        answer, size := ProcessError(SYNTAX_ERROR, p);
      } else {
        code, answer, size := ProcessGet(p, argv[1]);
        TaggedBulk(ReqGet(p.regime, old(p.View()), argv[1]).1);
      }
    } else if name == Ascii("SET") {
      if |argv| != 3 {
        answer, size := ProcessError(SYNTAX_ERROR, p);
      } else {
        code, answer, size := ProcessSet(p, argv[1], argv[2]);
      }
    } else if name == Ascii("DEL") {
      if |argv| < 2 {
        answer, size := ProcessError(SYNTAX_ERROR, p);
      } else {
        assert forall i :: 1 <= i < |argv| ==> argv[i] == argv[1..][i - 1];
        code, answer, size := ProcessDel(p, argv);
      }
    } else if name == Ascii("PING") {
      answer, size := ProcessPing(p);
    } else {
      answer, size := ProcessError(UNKNOWN_COMMAND, p);
    }
  }
}

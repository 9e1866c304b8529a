// The requests as the worker performs them, on its own hash table, log, transaction buffer and
// database connection. Each method is tied to the state machine of CacheModel.
module SendReqPostgres {
  import opened Bytes
  import opened Wrappers
  import opened CacheModel
  import opened Commands
  import opened ProxyHash
  import opened Logger
  import opened Quoting
  import opened Sql
  import opened WorkWithDb

  /** Arguments that can be written between quotes in a statement. */
  predicate PlainText(s: Text) {
    IsArgument(s) && QuoteFree(s)
  }

  /** Values as they come from the database: C strings whose length fits an int with tag and terminator. */
  predicate Storable(v: Text) {
    NulFree(v) && |v| <= INT_MAX - 2
  }

  predicate AllStorable(data: Table) {
    forall k :: k in data ==> Storable(data[k])
  }

  predicate PlainOp(op: Op) {
    PlainText(op.key) && (op.SetOp? ==> PlainText(op.value))
  }

  lemma RenderIsNulFree(table: Text, op: Op)
    requires PlainOp(op) && NulFree(table)
    ensures NulFree(Render(table, op))
  {
    assert NulFree(Ascii("UPDATE ")) && NulFree(Ascii(" SET h"));
    assert NulFree(Head(table));
    assert NulFree(SET_OPEN) && NulFree(SET_MIDDLE) && NulFree(SET_CLOSE) && NulFree(DEL_OPEN) && NulFree(DEL_CLOSE);
  }

  lemma {:induction false} RenderAllIsNulFree(table: Text, ops: seq<Op>)
    requires NulFree(table) && forall i :: 0 <= i < |ops| ==> PlainOp(ops[i])
    ensures NulFree(RenderAll(table, ops))
  {
    if ops != [] {
      RenderAllIsNulFree(table, ops[..|ops| - 1]);
      RenderIsNulFree(table, ops[|ops| - 1]);
    }
  }

  class Proxy {
    const regime: Regime
    const hash: HashTable
    const log: Log
    const transaction: Transaction
    const db: Database

    ghost function Repr(): set<object>
      reads log
    {
      {hash, log, transaction, db} + set n | n in log.nodes
    }

    /** Consistent, with the log possibly just full. */
    ghost predicate Consistent()
      reads Repr()
    {
      && hash.Valid() && log.Valid()
      && log.table == db.table && NulFree(db.table)
      && (forall i :: 0 <= i < |log.ops| ==> PlainOp(log.ops[i]))
      && AllStorable(db.data)
    }

    ghost predicate Valid()
      reads Repr()
    {
      Consistent() && |log.ops| < MAX_COUNT_OPERATION
    }

    /** The state of the proxy as one value. */
    ghost function View(): State
      reads hash, log, db
    {
      State(hash.Contents(), log.ops, db.data)
    }

    constructor (regime: Regime, table: Text, data: Table)
      requires |table| <= KEY_SIZE && NulFree(table)
      requires AllStorable(data)
      ensures Valid() && fresh(Repr()) && this.regime == regime
      ensures View() == Start(data)
    {
      hide HashTable.Valid;
      hide HashTable.Contents;
      hide Log.Valid;
      this.regime := regime;
      hash := new HashTable();
      log := new Log(table);
      transaction := new Transaction();
      db := new Database(table, data);
    }

    method AddOpInTransaction(name: OperationName, paramSize: nat, key: Text, value: Text) returns (code: int)
      requires transaction.Open()
      requires transaction.curPosition + paramSize
               + (if name == SET then UPDATE_REQV_SIZE else DELETE_REQV_SIZE) <= transaction.fullTransactionSize
      modifies transaction, transaction.text
      ensures var op := if name == SET then SetOp(CStr(key), CStr(value)) else DelOp(CStr(key));
        && code == (if |Render(db.table, op)| ==
                       paramSize + (if name == SET then UPDATE_REQV_SIZE else DELETE_REQV_SIZE) then 0 else -1)
        && (code == 0 ==>
              && transaction.Open() && transaction.text == old(transaction.text)
              && transaction.fullTransactionSize == old(transaction.fullTransactionSize)
              && transaction.Built() == old(transaction.Built()) + Render(db.table, op))
    {
      if name == SET {
        code := transaction.AddSet(paramSize, key, value, db.table);
      } else {
        code := transaction.AddDel(paramSize, key, db.table);
      }
    }

    /** One step of the replay loop: the statement of a node fits the room left for it and is appended. */
    method AddNode(node: Operation, i: nat) returns (code: int)
      requires log.Valid() && i < |log.ops| && node == log.nodes[i] && log.table == db.table
      requires transaction.Open() && |transaction.Built()| == BEGIN_REQV_SIZE + SumSize(log.table, log.ops[..i])
      requires transaction.fullTransactionSize == log.sumSizeOperation + TRANSACTION_REQV_SIZE + 1
      modifies transaction, transaction.text
      ensures code == 0
      ensures transaction.Open() && transaction.text == old(transaction.text)
      ensures transaction.fullTransactionSize == old(transaction.fullTransactionSize)
      ensures transaction.Built() == old(transaction.Built()) + Render(log.table, log.ops[i])
      ensures |transaction.Built()| == BEGIN_REQV_SIZE + SumSize(log.table, log.ops[..i + 1])
    {
      hide Log.Linked;
      hide SumSize;
      hide Render;
      ghost var op := log.ops[i];
      var paramSize := node.valueSize + node.keySize + |db.table|;
      assert log.ops[..i + 1] == log.ops[..i] + [op];
      SumSizeOneMore(log.table, log.ops[..i], op);
      SumSizePrefix(log.table, log.ops, i + 1);
      RenderSize(log.table, op);
      assert node.Holds(op);
      code := AddOpInTransaction(node.name, paramSize, node.key, node.value);
    }

    /** Replays the log to the database in one transaction and empties it. */
    method SyncWithDb() returns (code: int)
      requires Consistent()
      modifies log, transaction, db
      ensures code == 0 && Valid()
      ensures log.nodes == old(log.nodes) && hash.records == old(hash.records)
      ensures View() == CacheModel.SyncWithDb(old(View()))
    {
      hide HashTable.Valid;
      hide HashTable.Contents;
      hide Operation.Holds;
      var curOp := log.firstOp;
      SumSizeBounds(log.table, log.ops);
      if curOp == null || log.sumSizeOperation == 0 {
        return 0;
      }
      code := ReplayLog(curOp);
    }

    /** The transaction that replays a log that is not empty. */
    method ReplayLog(firstOp: Operation) returns (code: int)
      requires Consistent() && log.firstOp == firstOp
      modifies log, transaction, db
      ensures code == 0 && Valid()
      ensures log.nodes == old(log.nodes) && hash.records == old(hash.records)
      ensures View() == CacheModel.SyncWithDb(old(View()))
    {
      hide HashTable.Valid;
      hide HashTable.Contents;
      hide Log.Valid;
      hide RenderAll;
      transaction.InitTransaction(log.sumSizeOperation);
      code := AddNodes(firstOp);
      if code != 0 {
        return -1;
      }
      SendTransaction();
      log.ClearLog();
      code := 0;
    }

    /** The replay loop over the nodes. */
    method AddNodes(firstOp: Operation) returns (code: int)
      requires log.Valid() && log.firstOp == firstOp && log.table == db.table
      requires transaction.Open() && transaction.Built() == BEGIN
      requires transaction.fullTransactionSize == log.sumSizeOperation + TRANSACTION_REQV_SIZE + 1
      modifies transaction, transaction.text
      ensures code == 0
      ensures transaction.Open() && transaction.text == old(transaction.text)
      ensures transaction.Built() == BEGIN + RenderAll(log.table, log.ops)
      ensures transaction.curPosition + COMMIT_REQV_SIZE + 1 == transaction.fullTransactionSize
    {
      hide Operation.Holds;
      hide Render;
      var curOp: Operation? := firstOp;
      var i := 0;
      assert RenderAll(log.table, []) == [] && SumSize(log.table, []) == 0 && BEGIN + [] == BEGIN;
      hide RenderAll;
      while i < log.countOperation
        invariant 0 <= i <= log.countOperation
        invariant i < |log.nodes| ==> curOp == log.nodes[i]
        invariant transaction.Open() && transaction.text == old(transaction.text)
        invariant transaction.fullTransactionSize == log.sumSizeOperation + TRANSACTION_REQV_SIZE + 1
        invariant transaction.Built() == BEGIN + RenderAll(log.table, log.ops[..i])
        invariant |transaction.Built()| == BEGIN_REQV_SIZE + SumSize(log.table, log.ops[..i])
        modifies transaction, transaction.text
      {
        code := AddNode(curOp, i);
        if code == -1 {
          return -1;
        }
        RenderAllNext(BEGIN, log.table, log.ops, i);
        curOp := curOp.next;
        i := i + 1;
      }
      assert log.ops[..i] == log.ops;
      code := 0;
    }

    /** Ends, sends and frees the transaction: the database ends as the log replayed over it. */
    method SendTransaction()
      requires Consistent() && transaction.Open()
      requires transaction.Built() == BEGIN + RenderAll(log.table, log.ops)
      requires transaction.curPosition + COMMIT_REQV_SIZE + 1 == transaction.fullTransactionSize
      modifies transaction, transaction.text, db
      ensures db.data == Replay(log.ops, old(db.data))
      ensures AllStorable(db.data)
    {
      hide Log.Valid;
      hide HashTable.Valid;
      hide ExecSql;
      hide RenderAll;
      hide Replay;
      RenderAllIsNulFree(log.table, log.ops);
      assert NulFree(BEGIN);
      TransactionIsReplay(log.table, log.ops, db.data);
      ReplayIsStorable(log.ops, db.data);
      transaction.DoTransaction(db);
      transaction.FreeTransaction();
    }

    static lemma {:induction false} ReplayIsStorable(ops: seq<Op>, data: Table)
      requires AllStorable(data) && forall i :: 0 <= i < |ops| ==> PlainOp(ops[i])
      ensures AllStorable(Replay(ops, data))
    {
      if ops != [] {
        ReplayIsStorable(ops[..|ops| - 1], data);
      }
    }

    method AddLog(name: OperationName, key: Text, value: Option<Text>) returns (code: int)
      requires Valid()
      requires PlainText(key) && KeyFits(key)
      requires value.Some? ==> PlainText(value.value) && ValueFits(value.value)
      requires name == SET <==> value.Some?
      modifies log, log.nodes, transaction, db
      ensures code == 0 && Valid() && fresh(Repr() - old(Repr()))
      ensures hash.records == old(hash.records)
      ensures View() ==
              CacheModel.AddLog(old(View()), if value.Some? then SetOp(key, value.value) else DelOp(key))
    {
      hide HashTable.Valid;
      hide HashTable.Contents;
      hide Log.Linked;
      hide Operation.Holds;
      hide CacheModel.SyncWithDb;
      log.Append(name, key, value);
      assert Consistent();
      if log.countOperation == MAX_COUNT_OPERATION {
        code := SyncWithDb();
      } else {
        code := 0;
      }
    }

    /** A C string together with the memory that follows it, as far as a fixed-size copy reaches. */
    method InMemory(s: Text) returns (mem: Text)
      requires NulFree(s)
      ensures |mem| == |s| + 1 + VALUE_SIZE && mem[|s|] == NUL
      ensures CStr(mem) == s
    {
      var tail := UnspecifiedBytes(VALUE_SIZE);
      mem := s + [NUL] + tail;
      CStrReadsBack(s, tail);
    }

    method ReqGet(key: Text) returns (res: ReqResult, value: Option<Text>)
      requires Valid() && IsArgument(key) && QuoteSafe(regime, View().cache.Keys, Get(key))
      modifies hash
      ensures Valid()
      ensures View() == CacheModel.ReqGet(regime, old(View()), key).0
      ensures value == CacheModel.ReqGet(regime, old(View()), key).1
      ensures res == if value.Some? then Ok else Non
      ensures value.Some? ==> Storable(value.value)
    {
      hide HashTable.Valid;
      hide HashTable.Contents;
      hide Log.Valid;
      if regime != NoCache && KeyFits(key) {
        var found;
        value, found := hash.CheckHashTable(key);
        if value.Some? {
          return Ok, value;
        } else if found {
          return Non, None;
        }
        res, value := db.GetValue(key);
        if res == Non {
          hash.SetHashTable(key, None, STATUS_DELETED);
        } else if ValueFits(value.value) {
          var mem := InMemory(value.value);
          assert mem[..VALUE_SIZE][|value.value|] == NUL;
          hash.SetHashTable(key, Some(mem), STATUS_LIVE);
        }
      } else {
        res, value := db.GetValue(key);
      }
    }

    method ReqSet(key: Text, value: Text) returns (res: ReqResult)
      requires Valid() && IsArgument(key) && IsArgument(value)
      requires QuoteSafe(regime, View().cache.Keys, Set(key, value))
      modifies Repr()
      ensures res == Ok && Valid() && fresh(Repr() - old(Repr()))
      ensures View() == CacheModel.ReqSet(regime, old(View()), key, value)
    {
      hide HashTable.Valid;
      hide HashTable.Contents;
      hide Log.Valid;
      hide CacheModel.AddLog;
      if regime != NoCache && KeyFits(key) && ValueFits(value) {
        if regime == GetCache {
          res := db.SetValue(key, value);
        }
        var mem := InMemory(value);
        assert mem[..VALUE_SIZE][|value|] == NUL;
        hash.SetHashTable(key, Some(mem), STATUS_LIVE);
        if regime == DeferDump {
          var code := AddLog(SET, key, Some(value));
        }
        res := Ok;
      } else {
        res := db.SetValue(key, value);
      }
    }

    method ReqDel(key: Text) returns (res: ReqResult)
      requires Valid() && IsArgument(key) && QuoteSafe(regime, View().cache.Keys, Del(key))
      modifies Repr()
      ensures Valid() && fresh(Repr() - old(Repr()))
      ensures View() == CacheModel.ReqDel(regime, old(View()), key).0
      ensures res == if CacheModel.ReqDel(regime, old(View()), key).1 then Ok else Non
    {
      hide HashTable.Valid;
      hide HashTable.Contents;
      hide Log.Valid;
      hide CacheModel.AddLog;
      if regime == GetCache && KeyFits(key) {
        res := db.DelValue(key);
        hash.SetHashTable(key, None, STATUS_DELETED);
      } else if regime != NoCache && KeyFits(key) {
        var result, found := hash.CheckHashTable(key);
        if result.Some? && found {
          res := Ok;
        } else if result.None? && found {
          res := Non;
        } else {
          res := db.DelValue(key);
        }
        hash.SetHashTable(key, None, STATUS_DELETED);
        if regime == DeferDump {
          var code := AddLog(DEL, key, None);
        }
      } else {
        res := db.DelValue(key);
      }
    }

    /** The timer callback; the timer is armed only in the deferred-dump regime. */
    method OnTimerTimeout()
      requires Valid() && regime == DeferDump
      modifies log, transaction, db
      ensures Valid() && Repr() == old(Repr())
      ensures View() == TimerSync(regime, old(View()))
    {
      var code := SyncWithDb();
    }
  }
}

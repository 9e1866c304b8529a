// The database connection: the direct statements, and the buffer a transaction is built in.
module WorkWithDb {
  import opened Bytes
  import opened Wrappers
  import opened CacheModel
  import opened Quoting
  import opened Sql

  datatype ReqResult = ErrReq | Ok | Non

  const FIND_REQV_SIZE: nat := 26
  const SELCT_REQV_SIZE: nat := 19

  lemma ClosesSelect()
    ensures ClosesQuote(SELECT_CLOSE) && ClosesQuote(FIND_CLOSE)
  {
    assert SELECT_CLOSE[0] == QUOTE && SELECT_CLOSE[1] == ToByte(']');
    assert FIND_CLOSE[0] == QUOTE && FIND_CLOSE[1] == ToByte(')');
  }

  class Database {
    const table: Text
    var data: Table

    constructor (table: Text, data: Table)
      ensures this.table == table && this.data == data
    {
      this.table := table;
      this.data := data;
    }

    /** PQexec of an update text. */
    method Exec(sql: Text)
      modifies this
      ensures data == ExecSql(table, sql, old(data))
    {
      data := ExecSql(table, sql, data);
    }

    /** The answer to the SELECT sent for the key, an empty one counting as absent; the text fits the size
        computed for it, so a request never fails. */
    method GetValue(key: Text) returns (res: ReqResult, value: Option<Text>)
      requires QuoteFree(key)
      ensures value == DbGet(data, key)
      ensures res == if value.Some? then Ok else Non
    {
      var select := QueryText(SELECT_OPEN, SELECT_CLOSE, table, key);
      if |select| != SELCT_REQV_SIZE + |key| + |table| {
        return ErrReq, None;
      }
      ClosesSelect();
      QueryReadsBackIff(SELECT_OPEN, SELECT_CLOSE, table, key);
      var answer := SelectSql(table, select, data);
      if answer == [] {
        return Non, None;
      }
      return Ok, Some(answer);
    }

    method SetValue(key: Text, value: Text) returns (res: ReqResult)
      requires QuoteFree(key) && QuoteFree(value)
      modifies this
      ensures res == Ok
      ensures data == old(data)[key := value]
    {
      var insert := Render(table, SetOp(key, value));
      RenderSize(table, SetOp(key, value));
      if |insert| != UPDATE_REQV_SIZE + |table| + |key| + |value| {
        return ErrReq;
      }
      StatementIsApply(table, SetOp(key, value), data);
      Exec(insert);
      res := Ok;
    }

    method DelValue(key: Text) returns (res: ReqResult)
      requires QuoteFree(key)
      modifies this
      ensures res == if key in old(data) then Ok else Non
      ensures data == old(data) - {key}
    {
      var delete := Render(table, DelOp(key));
      RenderSize(table, DelOp(key));
      if |delete| != DELETE_REQV_SIZE + |key| + |table| {
        return ErrReq;
      }
      var find := QueryText(FIND_OPEN, FIND_CLOSE, table, key);
      if |find| != FIND_REQV_SIZE + |key| + |table| {
        return ErrReq;
      }
      ClosesSelect();
      QueryReadsBackIff(FIND_OPEN, FIND_CLOSE, table, key);
      if !FindSql(table, find, data) {
        return Non;
      }
      StatementIsApply(table, DelOp(key), data);
      Exec(delete);
      res := Ok;
    }
  }

  class Transaction {
    var text: array?<byte>
    var curPosition: nat
    var fullTransactionSize: nat

    ghost predicate Open()
      reads this, text
    {
      text != null && text.Length == fullTransactionSize && curPosition <= fullTransactionSize
    }

    /** The text written so far. */
    ghost function Built(): Text
      reads this, text
      requires Open()
    {
      text[..curPosition]
    }

    constructor ()
      ensures text == null
    {
      text := null;
      curPosition := 0;
    }

    method InitTransaction(transactionSize: nat)
      modifies this
      ensures Open() && fresh(text)
      ensures fullTransactionSize == transactionSize + TRANSACTION_REQV_SIZE + 1
      ensures Built() == BEGIN
    {
      fullTransactionSize := transactionSize + TRANSACTION_REQV_SIZE + 1;
      var buffer := new byte[fullTransactionSize](_ => NUL);
      Memcpy(buffer, 0, BEGIN);
      assert buffer[..BEGIN_REQV_SIZE] == buffer[..][0..0 + |BEGIN|];
      text := buffer;
      curPosition := BEGIN_REQV_SIZE;
    }

    /** Appends the rendered statement, if it has exactly the size computed for it. */
    method AddText(statement: Text, reqvSize: nat) returns (code: int)
      requires Open() && curPosition + reqvSize <= fullTransactionSize
      modifies this, text
      ensures code == if |statement| == reqvSize then 0 else -1
      ensures code == 0 ==> Open() && text == old(text) && Built() == old(Built()) + statement
      ensures code == 0 ==> fullTransactionSize == old(fullTransactionSize)
      ensures code != 0 ==> text == null
    {
      if |statement| != reqvSize {
        FreeTransaction();
        return -1;
      }
      Memcpy(text, curPosition, statement);
      assert text[..curPosition + reqvSize] == text[..][..curPosition] + text[..][curPosition..curPosition + |statement|];
      curPosition := curPosition + reqvSize;
      code := 0;
    }

    method AddSet(paramSize: nat, key: Text, value: Text, table: Text) returns (code: int)
      requires Open() && curPosition + UPDATE_REQV_SIZE + paramSize <= fullTransactionSize
      modifies this, text
      ensures var op := SetOp(CStr(key), CStr(value));
        code == if |Render(table, op)| == UPDATE_REQV_SIZE + paramSize then 0 else -1
      ensures code == 0 ==>
        && Open() && text == old(text) && fullTransactionSize == old(fullTransactionSize)
        && Built() == old(Built()) + Render(table, SetOp(CStr(key), CStr(value)))
    {
      code := AddText(Render(table, SetOp(CStr(key), CStr(value))), UPDATE_REQV_SIZE + paramSize);
    }

    method AddDel(paramSize: nat, key: Text, table: Text) returns (code: int)
      requires Open() && curPosition + DELETE_REQV_SIZE + paramSize <= fullTransactionSize
      modifies this, text
      ensures code == if |Render(table, DelOp(CStr(key)))| == DELETE_REQV_SIZE + paramSize then 0 else -1
      ensures code == 0 ==>
        && Open() && text == old(text) && fullTransactionSize == old(fullTransactionSize)
        && Built() == old(Built()) + Render(table, DelOp(CStr(key)))
    {
      code := AddText(Render(table, DelOp(CStr(key))), DELETE_REQV_SIZE + paramSize);
    }

    /** Ends the text with `COMMIT;`, which must leave exactly the last byte for the terminator, and
        sends it. */
    method DoTransaction(db: Database)
      requires Open() && curPosition + COMMIT_REQV_SIZE + 1 == fullTransactionSize
      requires NulFree(Built())
      modifies text, db
      ensures db.data == ExecSql(db.table, old(Built()) + COMMIT, old(db.data))
      ensures Open()
    {
      Memcpy(text, curPosition, COMMIT);
      ghost var sent := old(Built()) + COMMIT;
      assert text[..fullTransactionSize - 1] == sent by {
        assert text[..fullTransactionSize - 1] == text[..][..curPosition] + text[..][curPosition..curPosition + |COMMIT|];
      }
      text[fullTransactionSize - 1] := NUL;
      assert text[..] == sent + [NUL] + [];
      assert NulFree(sent) by {
        assert NulFree(COMMIT);
      }
      CStrReadsBack(sent, []);
      db.Exec(CStr(text[..]));
    }

    method FreeTransaction()
      modifies this
      ensures text == null && curPosition == 0
    {
      curPosition := 0;
      text := null;
    }
  }
}

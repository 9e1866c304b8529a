// From the tagged buffer to the protocol's frame: each frame is a fresh buffer filled by offset.
module PostgresReqvConverter {
  import opened Bytes
  import opened Decimal
  import opened Commands
  import opened Replies

  method CreateSimplStr(reqv: array<byte>, sizeReqv: nat, ghost text: Text) returns (answer: array<byte>)
    requires sizeReqv <= reqv.Length && reqv[..sizeReqv] == Tagged(Status(text))
    ensures fresh(answer) && answer[..] == Frame(Status(text))
  {
    var sizeReqvData := sizeReqv - 2;
    answer := new byte[sizeReqvData + 3];
    answer[0] := PLUS;
    assert reqv[1..1 + sizeReqvData] == text by {
      assert reqv[1..1 + sizeReqvData] == reqv[..sizeReqv][1..1 + sizeReqvData];
    }
    Memcpy(answer, 1, reqv[1..1 + sizeReqvData]);
    Memcpy(answer, answer.Length - 2, CRLF);
  }

  method CreateStr(reqv: array<byte>, sizeReqv: nat, ghost reply: Reply) returns (answer: array<byte>)
    requires (reply.Bulk? || reply.Nil?) && sizeReqv <= INT_MAX
    requires sizeReqv <= reqv.Length && reqv[..sizeReqv] == Tagged(reply)
    ensures fresh(answer) && answer[..] == Frame(reply)
  {
    hide Print;
    ghost var text := if reply.Bulk? then reply.text else [];
    var sizeReqvData := if sizeReqv == 1 then 0 else sizeReqv - 2;
    assert sizeReqvData == |text|;
    assert sizeReqvData != 0 ==> reqv[1..1 + sizeReqvData] == text by {
      assert sizeReqvData != 0 ==> reqv[1..1 + sizeReqvData] == reqv[..sizeReqv][1..1 + sizeReqvData];
    }
    var buffer := new byte[20];
    var countWriteSym := PrintSize(buffer, sizeReqvData);
    var size := buffer[..countWriteSym];
    var countShellSym := if sizeReqvData == 0 then 1 + countWriteSym + 2 else 1 + countWriteSym + 2 + 2;
    answer := new byte[sizeReqvData + countShellSym];
    FillSizeLine(answer, size);
    if sizeReqvData != 0 {
      BulkFrameFlat(text);
      hide Frame;
      FillPayload(answer, 1 + |size| + 2, reqv[1..1 + sizeReqvData]);
    } else {
      assert answer[..] == [DOLLAR] + size + CRLF + [];
      assert [DOLLAR] + size == Ascii("$-1");
    }
  }

  /** The length of a bulk string, or -1, printed into a 20-byte buffer. */
  method PrintSize(buffer: array<byte>, n: nat) returns (count: nat)
    requires buffer.Length == 20 && n <= INT_MAX
    modifies buffer
    ensures count <= 20 && buffer[..count] == if n == 0 then Ascii("-1") else Print(n)
  {
    if n == 0 {
      buffer[0], buffer[1] := MINUS, 49;
      count := 2;
    } else {
      PrintedIntFits(n);
      count := PrintInto(buffer, n);
    }
  }

  method FillSizeLine(answer: array<byte>, size: Text)
    requires 1 + |size| + 2 <= answer.Length
    modifies answer
    ensures answer[..1 + |size| + 2] == [DOLLAR] + size + CRLF
  {
    answer[0] := DOLLAR;
    Memcpy(answer, 1, size);
    answer[1 + |size|] := CR;
    answer[1 + |size| + 1] := LF;
  }

  method FillPayload(answer: array<byte>, at: nat, data: Text)
    requires at + |data| + 2 == answer.Length
    modifies answer
    ensures answer[..] == old(answer[..at]) + data + CRLF
  {
    Memcpy(answer, at, data);
    Memcpy(answer, answer.Length - 2, CRLF);
  }

  method CreateInt(reqv: array<byte>, sizeReqv: nat, ghost n: nat) returns (answer: array<byte>)
    requires sizeReqv <= reqv.Length && reqv[..sizeReqv] == Tagged(Integer(n))
    ensures fresh(answer) && answer[..] == Frame(Integer(n))
  {
    var sizeReqvData := sizeReqv - 1;
    answer := new byte[sizeReqvData + 3];
    answer[0] := COLON;
    assert reqv[1..1 + sizeReqvData] == Print(n) by {
      assert reqv[1..1 + sizeReqvData] == reqv[..sizeReqv][1..];
    }
    Memcpy(answer, 1, reqv[1..1 + sizeReqvData]);
    Memcpy(answer, answer.Length - 2, CRLF);
  }

  /** Copies one byte more than the message; the line end overwrites it. */
  method CreateErr(reqv: array<byte>, sizeReqv: nat, ghost text: Text) returns (answer: array<byte>)
    requires sizeReqv < reqv.Length && reqv[..sizeReqv] == Tagged(Error(text))
    ensures fresh(answer) && answer[..] == Frame(Error(text))
  {
    answer := new byte[5 + sizeReqv + 2 - 1];
    Memcpy(answer, 0, ERR_PREFIX);
    assert reqv[1..1 + sizeReqv][..sizeReqv - 1] == text by {
      assert reqv[1..1 + sizeReqv][..sizeReqv - 1] == reqv[..sizeReqv][1..];
    }
    Memcpy(answer, 5, reqv[1..1 + sizeReqv]);
    Memcpy(answer, answer.Length - 2, CRLF);
    assert answer[..] == ERR_PREFIX + text + CRLF;
  }

  /** The frame for whatever reply the tagged buffer holds. */
  method DefineTypeReq(reqv: array<byte>, sizeReqv: nat, ghost reply: Reply) returns (answer: array<byte>)
    requires sizeReqv <= reqv.Length && sizeReqv <= INT_MAX && reqv[..sizeReqv] == Tagged(reply)
    requires reply.Error? ==> sizeReqv < reqv.Length
    ensures fresh(answer) && answer[..] == Frame(reply)
  {
    assert reqv[0] == reqv[..sizeReqv][0];
    if reqv[0] == TAG_STATUS {
      answer := CreateSimplStr(reqv, sizeReqv, reply.text);
    } else if reqv[0] == TAG_ERROR {
      answer := CreateErr(reqv, sizeReqv, reply.text);
    } else if reqv[0] == TAG_INTEGER {
      answer := CreateInt(reqv, sizeReqv, reply.n);
    } else {
      answer := CreateStr(reqv, sizeReqv, reply);
    }
  }
}

// Replies: the tagged buffer passed inside the proxy, the frame sent to the client, and how a client
// reads frames.
module Replies {
  import opened Bytes
  import opened Wrappers
  import opened Decimal
  import opened Commands

  const TAG_STATUS: byte := 0
  const TAG_ERROR: byte := 1
  const TAG_INTEGER: byte := 2
  const TAG_BULK: byte := 3

  const ERR_PREFIX: Text := Ascii("-ERR ")
  const NIL_FRAME: Text := Ascii("$-1") + CRLF

  /** The internal form: a tag byte, the text, and for statuses and values a terminator. */
  function Tagged(reply: Reply): Text {
    match reply
    case Status(text) => [0] + text + [0]
    case Error(text) => [1] + text
    case Integer(n) => [2] + Print(n)
    case Bulk(text) => [3] + text + [0]
    case Nil => [3]
  }

  /** The reply in the protocol. An empty value cannot be told from an absent one. */
  function Frame(reply: Reply): Text {
    match reply
    case Status(text) => [PLUS] + (text + CRLF)
    case Error(text) => ERR_PREFIX + (text + CRLF)
    case Integer(n) => [COLON] + (Print(n) + CRLF)
    case Bulk(text) => if text == [] then NIL_FRAME else [DOLLAR] + (Print(|text|) + (CRLF + (text + CRLF)))
    case Nil => NIL_FRAME
  }

  /** The bytes of every frame, character by character. */
  lemma FrameIs(reply: Reply)
    ensures Frame(reply) ==
            match reply
            case Status(text) => Ascii("+") + text + Ascii("\r\n")
            case Error(text) => Ascii("-ERR ") + text + Ascii("\r\n")
            case Integer(n) => Ascii(":") + Print(n) + Ascii("\r\n")
            case Bulk(text) =>
              if text == [] then Ascii("$-1\r\n")
              else Ascii("$") + Print(|text|) + Ascii("\r\n") + text + Ascii("\r\n")
            case Nil => Ascii("$-1\r\n")
  {
    hide Print;
    MarksAre();
    match reply
    case Bulk(text) =>
      if text != [] {
        BulkFrameFlat(text);
      } else {
        NilFrameIs();
      }
    case Nil => NilFrameIs();
    case Status(text) => ConcatAssoc([PLUS], text, CRLF);
    case Error(text) => ConcatAssoc(ERR_PREFIX, text, CRLF);
    case Integer(n) => ConcatAssoc([COLON], Print(n), CRLF);
  }

  lemma NilFrameIs()
    ensures NIL_FRAME == Ascii("$-1\r\n")
  {
    MarksAre();
    assert "$-1\r\n"[..3] == "$-1" && "$-1\r\n"[3..] == "\r\n";
  }

  lemma BulkFrameFlat(text: Text)
    requires text != []
    ensures [DOLLAR] + Print(|text|) + CRLF + text + CRLF == Frame(Bulk(text))
  {
    var size := Print(|text|);
    ConcatAssoc([DOLLAR], size, CRLF);
    ConcatAssoc([DOLLAR], size + CRLF, text);
    ConcatAssoc([DOLLAR], size + CRLF + text, CRLF);
    ConcatAssoc(size + CRLF, text, CRLF);
    ConcatAssoc(size, CRLF, text + CRLF);
  }

  function Frames(replies: seq<Reply>): Text {
    if replies == [] then [] else Frame(replies[0]) + Frames(replies[1..])
  }

  lemma {:induction false} FramesAppend(a: seq<Reply>, b: seq<Reply>)
    ensures Frames(a + b) == Frames(a) + Frames(b)
    decreases |a|
  {
    if a == [] {
      assert a + b == b;
    } else {
      assert (a + b)[1..] == a[1..] + b;
      FramesAppend(a[1..], b);
    }
  }

  // ---------- reading frames ----------

  /** A line up to CRLF, and the text after it. */
  function ReadLine(s: Text): (r: Option<(Text, Text)>)
    ensures r.Some? ==> |r.value.1| < |s|
  {
    if s == [] then None
    else if s[0] == CR then (if |s| > 1 && s[1] == LF then Some(([], s[2..])) else None)
    else match ReadLine(s[1..])
      case None => None
      case Some((line, rest)) => Some(([s[0]] + line, rest))
  }

  function ReadNat(line: Text): Option<nat> {
    if line != [] && forall i :: 0 <= i < |line| ==> IsDigit(line[i]) then Some(Continue(0, line)) else None
  }

  /** The payload of a bulk string whose length line was `line`. */
  function ReadBulk(line: Text, s: Text): (r: Option<(Reply, Text)>)
    ensures r.Some? ==> |r.value.1| <= |s|
  {
    if line == Ascii("-1") then Some((Nil, s))
    else match ReadNat(line)
      case None => None
      case Some(n) =>
        if n + 2 <= |s| && s[n..n + 2] == CRLF then Some((Bulk(s[..n]), s[n + 2..])) else None
  }

  function ReadReply(s: Text): (r: Option<(Reply, Text)>)
    ensures r.Some? ==> |r.value.1| < |s|
  {
    match ReadLine(s)
    case None => None
    case Some((line, rest)) =>
      if line == [] then None
      else if line[0] == PLUS then Some((Status(line[1..]), rest))
      else if ERR_PREFIX <= line then Some((Error(line[|ERR_PREFIX|..]), rest))
      else if line[0] == COLON then
        match ReadNat(line[1..])
        case None => None
        case Some(n) => Some((Integer(n), rest))
      else if line[0] == DOLLAR then ReadBulk(line[1..], rest)
      else None
  }

  function ReadReplies(s: Text): Option<seq<Reply>>
    decreases |s|
  {
    if s == [] then Some([])
    else match ReadReply(s)
      case None => None
      case Some((reply, rest)) =>
        match ReadReplies(rest)
        case None => None
        case Some(replies) => Some([reply] + replies)
  }

  /** Replies that a frame can carry: lines without CR, values that are not empty. */
  predicate Framable(reply: Reply) {
    match reply
    case Status(text) => CR !in text
    case Error(text) => CR !in text
    case Bulk(text) => text != []
    case _ => true
  }

  lemma {:induction false} ReadLineOf(line: Text, rest: Text)
    requires CR !in line
    ensures ReadLine(line + (CRLF + rest)) == Some((line, rest))
    decreases |line|
  {
    var s := line + (CRLF + rest);
    if line == [] {
      assert s == CRLF + rest;
      assert s[2..] == rest;
    } else {
      assert line[0] in line && CR !in line[1..];
      assert s[1..] == line[1..] + (CRLF + rest);
      ReadLineOf(line[1..], rest);
      assert [line[0]] + line[1..] == line;
    }
  }

  lemma PrintIsALine(n: nat)
    ensures CR !in Print(n)
    ensures ReadNat(Print(n)) == Some(n)
  {
    PrintReadsBack(n);
  }

  lemma ReadBulkOf(line: Text, text: Text, rest: Text)
    requires line != Ascii("-1") && ReadNat(line) == Some(|text|)
    ensures ReadBulk(line, text + (CRLF + rest)) == Some((Bulk(text), rest))
  {
    hide ReadNat;
    var s := text + (CRLF + rest);
    assert s[..|text|] == text;
    assert s[|text|..|text| + 2] == CRLF;
    assert s[|text| + 2..] == rest;
  }

  lemma PrintIsNotMinusOne(n: nat)
    ensures Print(n) != Ascii("-1")
  {
    hide Print;
    assert IsDigit(Print(n)[0]);
    assert Ascii("-1")[0] == MINUS;
  }

  lemma ReadTextLine(reply: Reply, rest: Text)
    requires Framable(reply) && (reply.Status? || reply.Error?)
    ensures ReadReply(Frame(reply) + rest) == Some((reply, rest))
  {
    hide ReadLine;
    assert CR !in ERR_PREFIX && ERR_PREFIX[0] == MINUS;
    var line := (if reply.Status? then [PLUS] else ERR_PREFIX) + reply.text;
    ReadLineOf(line, rest);
    assert Frame(reply) + rest == line + (CRLF + rest);
  }

  lemma ReadInteger(n: nat, rest: Text)
    ensures ReadReply(Frame(Integer(n)) + rest) == Some((Integer(n), rest))
  {
    hide ReadLine;
    hide Print;
    hide ReadNat;
    PrintIsALine(n);
    var line := [COLON] + Print(n);
    assert ERR_PREFIX[0] == MINUS;
    ReadLineOf(line, rest);
    assert Frame(Integer(n)) + rest == line + (CRLF + rest);
    assert line[1..] == Print(n);
  }

  lemma BulkFrameIs(text: Text, size: Text, rest: Text)
    requires text != [] && size == Print(|text|)
    ensures Frame(Bulk(text)) + rest == ([DOLLAR] + size) + (CRLF + (text + (CRLF + rest)))
  {
    hide Print;
    var data := text + CRLF;
    ConcatAssoc(text, CRLF, rest);
    ConcatAssoc(CRLF, data, rest);
    ConcatAssoc(size, CRLF + data, rest);
    ConcatAssoc([DOLLAR], size + (CRLF + data), rest);
    ConcatAssoc([DOLLAR], size, CRLF + (data + rest));
  }

  lemma ReadBulkFrame(text: Text, rest: Text)
    requires text != []
    ensures ReadReply(Frame(Bulk(text)) + rest) == Some((Bulk(text), rest))
  {
    hide ReadLine;
    hide ReadBulk;
    hide Print;
    hide ReadNat;
    hide Frame;
    PrintIsALine(|text|);
    PrintIsNotMinusOne(|text|);
    var size, payload := Print(|text|), text + (CRLF + rest);
    var line := [DOLLAR] + size;
    assert ERR_PREFIX[0] == MINUS;
    ReadLineOf(line, payload);
    ReadBulkOf(size, text, rest);
    assert line[1..] == size;
    BulkFrameIs(text, size, rest);
  }

  lemma ReadNil(rest: Text)
    ensures ReadReply(NIL_FRAME + rest) == Some((Nil, rest))
  {
    hide ReadLine;
    var line := Ascii("$-1");
    assert CR !in line && line[0] == DOLLAR && ERR_PREFIX[0] == MINUS;
    ReadLineOf(line, rest);
    assert NIL_FRAME + rest == line + (CRLF + rest);
    assert line[1..] == Ascii("-1");
  }

  /** A frame reads back as the reply it was made of. */
  lemma ReadReplyOf(reply: Reply, rest: Text)
    requires Framable(reply)
    ensures ReadReply(Frame(reply) + rest) == Some((reply, rest))
  {
    hide ReadReply;
    match reply
    case Status(_) => ReadTextLine(reply, rest);
    case Error(_) => ReadTextLine(reply, rest);
    case Integer(n) => ReadInteger(n, rest);
    case Bulk(text) => ReadBulkFrame(text, rest);
    case Nil => ReadNil(rest);
  }

  /** Frames one after another read back as exactly the replies they were made of. */
  lemma {:induction false} FramesReadBack(replies: seq<Reply>)
    requires forall i :: 0 <= i < |replies| ==> Framable(replies[i])
    ensures ReadReplies(Frames(replies)) == Some(replies)
    decreases |replies|
  {
    if replies != [] {
      var rest := Frames(replies[1..]);
      ReadReplyOf(replies[0], rest);
      FramesReadBack(replies[1..]);
      assert [replies[0]] + replies[1..] == replies;
    }
  }
}

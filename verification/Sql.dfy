// The SQL text the proxy sends: how operations are rendered, and how such text reads.
module Sql {
  import opened Bytes
  import opened Wrappers
  import opened CacheModel
  import opened Quoting

  predicate QuoteFreeOp(op: Op) {
    QuoteFree(op.key) && (op.SetOp? ==> QuoteFree(op.value))
  }

  const BEGIN: Text := Ascii("BEGIN;")
  const COMMIT: Text := Ascii("COMMIT;")
  const BEGIN_REQV_SIZE: nat := 6
  const COMMIT_REQV_SIZE: nat := 7
  const TRANSACTION_REQV_SIZE: nat := BEGIN_REQV_SIZE + COMMIT_REQV_SIZE
  const UPDATE_REQV_SIZE: nat := 21
  const DELETE_REQV_SIZE: nat := 30

  const SET_OPEN: Text := Ascii("['")
  const SET_MIDDLE: Text := Ascii("']='")
  const SET_CLOSE: Text := Ascii("';")
  const DEL_OPEN: Text := Ascii(" = delete(h, '")
  const DEL_CLOSE: Text := Ascii("');")

  /** `UPDATE table SET h`, with which both statements begin. */
  function Head(table: Text): Text {
    Ascii("UPDATE ") + table + Ascii(" SET h")
  }

  /** What `snprintf` prints for one operation. */
  function Render(table: Text, op: Op): Text {
    match op
    case SetOp(k, v) => Head(table) + (SET_OPEN + (k + (SET_MIDDLE + (v + SET_CLOSE))))
    case DelOp(k) => Head(table) + (DEL_OPEN + (k + DEL_CLOSE))
  }

  function RenderAll(table: Text, ops: seq<Op>): Text {
    if ops == [] then [] else RenderAll(table, ops[..|ops| - 1]) + Render(table, ops[|ops| - 1])
  }

  lemma RenderAllNext(before: Text, table: Text, ops: seq<Op>, i: nat)
    requires i < |ops|
    ensures before + RenderAll(table, ops[..i]) + Render(table, ops[i]) == before + RenderAll(table, ops[..i + 1])
  {
    hide Render;
    assert ops[..i + 1][..i] == ops[..i];
    ConcatAssoc(before, RenderAll(table, ops[..i]), Render(table, ops[i]));
  }

  /** The text of a whole transaction. */
  function TransactionText(table: Text, ops: seq<Op>): Text {
    BEGIN + RenderAll(table, ops) + COMMIT
  }

  // ---------- the texts, character by character ----------

  lemma RenderIs(table: Text, op: Op)
    ensures Render(table, op) ==
            match op
            case SetOp(k, v) =>
              Ascii("UPDATE ") + table + Ascii(" SET h['") + k + Ascii("']='") + v + Ascii("';")
            case DelOp(k) =>
              Ascii("UPDATE ") + table + Ascii(" SET h = delete(h, '") + k + Ascii("');")
  {
    AsciiConcat(" SET h", "['");
    AsciiConcat(" SET h", " = delete(h, '");
    assert " SET h" + "['" == " SET h['" && " SET h" + " = delete(h, '" == " SET h = delete(h, '";
    var head := Ascii("UPDATE ") + table;
    match op
    case SetOp(k, v) =>
      hide Ascii;
      ConcatAssoc(head, Ascii(" SET h"), SET_OPEN);
      ConcatAssoc(Head(table), SET_OPEN, k + (SET_MIDDLE + (v + SET_CLOSE)));
      ConcatAssoc(Head(table) + SET_OPEN, k, SET_MIDDLE + (v + SET_CLOSE));
      ConcatAssoc(Head(table) + SET_OPEN + k, SET_MIDDLE, v + SET_CLOSE);
      ConcatAssoc(Head(table) + SET_OPEN + k + SET_MIDDLE, v, SET_CLOSE);
    case DelOp(k) =>
      hide Ascii;
      ConcatAssoc(head, Ascii(" SET h"), DEL_OPEN);
      ConcatAssoc(Head(table) + DEL_OPEN, k, DEL_CLOSE);
      ConcatAssoc(Head(table), DEL_OPEN, k + DEL_CLOSE);
  }

  lemma TransactionTextIs(table: Text, ops: seq<Op>)
    ensures TransactionText(table, ops) == Ascii("BEGIN;") + RenderAll(table, ops) + Ascii("COMMIT;")
  {
  }

  // ---------- which requests reach the database as text ----------

  /** Whether a request has its arguments written into a statement, at once or at the next
      synchronization, given the keys cached when it arrives. */
  predicate ReachesSql(r: Regime, cached: set<Text>, req: Request) {
    match req
    case Get(k) => r == NoCache || !KeyFits(k) || k !in cached
    case Set(k, v) => r != OnlyCache || !KeyFits(k) || !ValueFits(v)
    case Del(k) => r != OnlyCache || !KeyFits(k) || k !in cached
  }

  /** The arguments contain no quote, wherever they reach a statement. */
  predicate QuoteSafe(r: Regime, cached: set<Text>, req: Request) {
    ReachesSql(r, cached, req) ==> QuoteFree(req.key) && (req.Set? ==> QuoteFree(req.value))
  }

  /** With this database in place, the request answers as it does now and leaves the database as it is. */
  predicate AloneWith(r: Regime, s: State, req: Request, db: Table) {
    Perform(r, s.(db := db), req) == (Perform(r, s, req).0.(db := db), Perform(r, s, req).1)
  }

  /** Nothing of the database is read or written for the request, now or later. */
  ghost predicate LeavesDatabaseAlone(r: Regime, s: State, req: Request) {
    Perform(r, s, req).0.log == s.log && forall db :: AloneWith(r, s, req, db)
  }

  /** The requests said to reach a statement are exactly those that involve the database. */
  lemma ReachesSqlIff(r: Regime, s: State, req: Request)
    ensures ReachesSql(r, s.cache.Keys, req) <==> !LeavesDatabaseAlone(r, s, req)
  {
    if ReachesSql(r, s.cache.Keys, req) {
      InvolvesDatabase(r, s, req);
    }
  }

  lemma InvolvesDatabase(r: Regime, s: State, req: Request)
    requires ReachesSql(r, s.cache.Keys, req)
    ensures var without, with := map[], map[req.key := [1]];
      Perform(r, s, req).0.log == s.log ==> !(AloneWith(r, s, req, without) && AloneWith(r, s, req, with))
  {
    hide Replay;
    var without: Table, with: Table := map[], map[req.key := [1]];
    assert req.key !in without && req.key in with && req.key !in with - {req.key};
    assert |s.log + [DelOp(req.key)]| == |s.log| + 1;
    if req.Set? {
      assert |s.log + [SetOp(req.key, req.value)]| == |s.log| + 1;
    }
  }

  // ---------- queries ----------

  const SELECT_OPEN: Text := Ascii("SELECT h['")
  const SELECT_CLOSE: Text := Ascii("'] FROM ")
  const FIND_OPEN: Text := Ascii("SELECT exist(h, '")
  const FIND_CLOSE: Text := Ascii("') FROM ")

  /** A query for one key. */
  function QueryText(open: Text, close: Text, table: Text, key: Text): Text {
    open + (key + (close + (table + Ascii(";"))))
  }

  lemma QueriesAre(table: Text, key: Text)
    ensures QueryText(SELECT_OPEN, SELECT_CLOSE, table, key) ==
            Ascii("SELECT h['") + key + Ascii("'] FROM ") + table + Ascii(";")
    ensures QueryText(FIND_OPEN, FIND_CLOSE, table, key) ==
            Ascii("SELECT exist(h, '") + key + Ascii("') FROM ") + table + Ascii(";")
  {
    hide Ascii;
    QueryFlat(SELECT_OPEN, key, SELECT_CLOSE, table, Ascii(";"));
    QueryFlat(FIND_OPEN, key, FIND_CLOSE, table, Ascii(";"));
  }

  lemma QueryFlat(a: Text, b: Text, c: Text, d: Text, e: Text)
    ensures a + (b + (c + (d + e))) == a + b + c + d + e
  {
    ConcatAssoc(a + b + c, d, e);
    ConcatAssoc(a + b, c, d + e);
    ConcatAssoc(a, b, c + (d + e));
  }

  // ---------- sizes ----------

  /** The size the proxy reserves for one operation, counted without rendering it. */
  function OpSize(table: Text, op: Op): nat {
    match op
    case SetOp(k, v) => |k| + |v| + |table| + UPDATE_REQV_SIZE
    case DelOp(k) => |k| + |table| + DELETE_REQV_SIZE
  }

  function SumSize(table: Text, ops: seq<Op>): nat {
    if ops == [] then 0 else SumSize(table, ops[..|ops| - 1]) + OpSize(table, ops[|ops| - 1])
  }

  lemma SumSizeOneMore(table: Text, ops: seq<Op>, op: Op)
    ensures SumSize(table, ops + [op]) == SumSize(table, ops) + OpSize(table, op)
  {
    assert (ops + [op])[..|ops|] == ops;
  }

  lemma RenderSize(table: Text, op: Op)
    ensures |Render(table, op)| == OpSize(table, op)
  {
  }

  /** The running size total is the length of the rendered statements. */
  lemma {:induction false} RenderAllSize(table: Text, ops: seq<Op>)
    ensures |RenderAll(table, ops)| == SumSize(table, ops)
  {
    if ops != [] {
      RenderAllSize(table, ops[..|ops| - 1]);
      RenderSize(table, ops[|ops| - 1]);
    }
  }

  /** "Size total is zero if and only if the count is zero", and no total overflows an int. */
  lemma {:induction false} SumSizeBounds(table: Text, ops: seq<Op>)
    requires |table| <= KEY_SIZE
    requires forall i :: 0 <= i < |ops| ==> OpFits(ops[i])
    ensures UPDATE_REQV_SIZE * |ops| <= SumSize(table, ops) <= 320 * |ops|
    ensures SumSize(table, ops) == 0 <==> ops == []
    ensures |ops| <= MAX_COUNT_OPERATION ==> SumSize(table, ops) + TRANSACTION_REQV_SIZE + 1 <= INT_MAX
  {
    if ops != [] {
      SumSizeBounds(table, ops[..|ops| - 1]);
    }
  }

  lemma {:induction false} SumSizePrefix(table: Text, ops: seq<Op>, n: nat)
    requires n <= |ops|
    ensures SumSize(table, ops[..n]) <= SumSize(table, ops)
  {
    if n < |ops| {
      assert ops[..|ops| - 1][..n] == ops[..n];
      SumSizePrefix(table, ops[..|ops| - 1], n);
    } else {
      assert ops[..n] == ops;
    }
  }

  // ---------- how the server reads, in its own words ----------

  /** The rest of a text after a fixed beginning. */
  function Strip(prefix: Text, s: Text): (rest: Option<Text>)
    ensures rest.Some? ==> |rest.value| == |s| - |prefix|
  {
    if prefix <= s then Some(s[|prefix|..]) else None
  }

  lemma StripConcat(prefix: Text, rest: Text)
    ensures Strip(prefix, prefix + rest) == Some(rest)
  {
  }

  function ReadSetTail(s: Text): (r: Option<(Op, Text)>)
    ensures r.Some? ==> |r.value.1| <= |s|
  {
    match ReadQuoted(s)
    case None => None
    case Some((k, s1)) =>
      match Strip(Ascii("']='"), s1)
      case None => None
      case Some(s2) =>
        match ReadQuoted(s2)
        case None => None
        case Some((v, s3)) =>
          match Strip(Ascii("';"), s3)
          case None => None
          case Some(rest) => Some((SetOp(k, v), rest))
  }

  function ReadDelTail(s: Text): (r: Option<(Op, Text)>)
    ensures r.Some? ==> |r.value.1| <= |s|
  {
    match ReadQuoted(s)
    case None => None
    case Some((k, s1)) =>
      match Strip(Ascii("');"), s1)
      case None => None
      case Some(rest) => Some((DelOp(k), rest))
  }

  /** One statement, and the text after it. */
  function ReadStatement(table: Text, s: Text): (r: Option<(Op, Text)>)
    ensures r.Some? ==> |r.value.1| < |s|
  {
    match Strip(Ascii("UPDATE ") + table + Ascii(" SET h"), s)
    case None => None
    case Some(s1) =>
      match Strip(Ascii("['"), s1)
      case Some(s2) => ReadSetTail(s2)
      case None =>
        match Strip(Ascii(" = delete(h, '"), s1)
        case Some(s2) => ReadDelTail(s2)
        case None => None
  }

  /** Statements up to a given end of the text. */
  function ReadStatements(table: Text, end: Text, s: Text): Option<seq<Op>>
    decreases |s|
  {
    if s == end then Some([])
    else match ReadStatement(table, s)
      case None => None
      case Some((op, rest)) =>
        match ReadStatements(table, end, rest)
        case None => None
        case Some(ops) => Some([op] + ops)
  }

  function ReadTransaction(table: Text, s: Text): Option<seq<Op>> {
    match Strip(Ascii("BEGIN;"), s)
    case None => None
    case Some(body) => ReadStatements(table, Ascii("COMMIT;"), body)
  }

  /** What the database does with a text: the statements it reads in it, in order. A text that does not
      read as statements changes nothing. */
  function ExecSql(table: Text, s: Text, db: Table): Table {
    match ReadTransaction(table, s)
    case Some(ops) => Replay(ops, db)
    case None =>
      match ReadStatements(table, [], s)
      case Some(ops) => Replay(ops, db)
      case None => db
  }

  /** The key a query asks for. */
  function ReadQuery(open: Text, close: Text, table: Text, s: Text): Option<Text> {
    match Strip(open, s)
    case None => None
    case Some(s1) =>
      match ReadQuoted(s1)
      case None => None
      case Some((key, s2)) => if s2 == close + (table + Ascii(";")) then Some(key) else None
  }

  /** What the database answers to a SELECT: the value, or the empty string. */
  function SelectSql(table: Text, s: Text, db: Table): Text {
    match ReadQuery(Ascii("SELECT h['"), Ascii("'] FROM "), table, s)
    case Some(key) => if key in db then db[key] else []
    case None => []
  }

  /** What the database answers to an existence query. */
  function FindSql(table: Text, s: Text, db: Table): bool {
    match ReadQuery(Ascii("SELECT exist(h, '"), Ascii("') FROM "), table, s)
    case Some(key) => key in db
    case None => false
  }

  /** A query asks for the key it was written with if and only if that key contains no quote. */
  lemma QueryReadsBackIff(open: Text, close: Text, table: Text, key: Text)
    requires ClosesQuote(close) && |close| > 1
    ensures ReadQuery(open, close, table, QueryText(open, close, table, key)) == Some(key) <==> QuoteFree(key)
  {
    var rest := close + (table + Ascii(";"));
    StripConcat(open, key + rest);
    if QuoteFree(key) {
      ReadQuotedConcat(key, rest);
    } else {
      QuotedTextIsNotReadBack(key, rest);
    }
  }

  lemma ReadsRenderedSet(table: Text, k: Text, v: Text, rest: Text)
    ensures var r := ReadStatement(table, Render(table, SetOp(k, v)) + rest);
      if QuoteFree(k) && QuoteFree(v) then r == Some((SetOp(k, v), rest))
      else r.Some? ==> r.value.0 != SetOp(k, v)
  {
    var s4 := SET_CLOSE + rest;
    var s3 := v + s4;
    var s2 := SET_MIDDLE + s3;
    var s1 := k + s2;
    var s0 := SET_OPEN + s1;
    assert Render(table, SetOp(k, v)) + rest == Head(table) + s0;
    StripConcat(Head(table), s0);
    StripConcat(SET_OPEN, s1);
    assert SET_MIDDLE[0] == QUOTE && SET_MIDDLE[1] == ToByte(']') && SET_CLOSE[0] == QUOTE && SET_CLOSE[1] == ToByte(';');
    if QuoteFree(k) {
      ReadQuotedConcat(k, s2);
      StripConcat(SET_MIDDLE, s3);
      if QuoteFree(v) {
        ReadQuotedConcat(v, s4);
        StripConcat(SET_CLOSE, rest);
      } else {
        QuotedTextIsNotReadBack(v, s4);
      }
    } else {
      QuotedTextIsNotReadBack(k, s2);
    }
  }

  lemma ReadsRenderedDel(table: Text, k: Text, rest: Text)
    ensures var r := ReadStatement(table, Render(table, DelOp(k)) + rest);
      if QuoteFree(k) then r == Some((DelOp(k), rest)) else r.Some? ==> r.value.0 != DelOp(k)
  {
    var s2 := DEL_CLOSE + rest;
    var s1 := k + s2;
    var s0 := DEL_OPEN + s1;
    assert Render(table, DelOp(k)) + rest == Head(table) + s0;
    StripConcat(Head(table), s0);
    assert s0[0] == ToByte(' ') && SET_OPEN[0] == ToByte('[');
    assert Strip(SET_OPEN, s0) == None;
    StripConcat(DEL_OPEN, s1);
    assert DEL_CLOSE[0] == QUOTE && DEL_CLOSE[1] == ToByte(')');
    if QuoteFree(k) {
      ReadQuotedConcat(k, s2);
      StripConcat(DEL_CLOSE, rest);
    } else {
      QuotedTextIsNotReadBack(k, s2);
    }
  }

  /** A rendered statement is read as the operation it was rendered from if and only if the operation's
      texts contain no quote. */
  lemma ReadsRendered(table: Text, op: Op, rest: Text)
    ensures var r := ReadStatement(table, Render(table, op) + rest);
      if QuoteFreeOp(op) then r == Some((op, rest)) else r.Some? ==> r.value.0 != op
  {
    match op
    case SetOp(k, v) => ReadsRenderedSet(table, k, v, rest);
    case DelOp(k) => ReadsRenderedDel(table, k, rest);
  }

  lemma ReadOneMore(table: Text, op: Op, end: Text, more: seq<Op>, s: Text)
    requires QuoteFreeOp(op) && end in {[], COMMIT}
    requires ReadStatements(table, end, s) == Some(more)
    ensures ReadStatements(table, end, Render(table, op) + s) == Some([op] + more)
  {
    var s' := Render(table, op) + s;
    ReadsRendered(table, op, s);
    assert s' != end by {
      assert s'[0] == ToByte('U') && COMMIT[0] == ToByte('C');
    }
  }

  lemma {:induction false} ReadStatementsRendered(table: Text, ops: seq<Op>, end: Text, more: seq<Op>, s: Text)
    requires forall i :: 0 <= i < |ops| ==> QuoteFreeOp(ops[i])
    requires end in {[], COMMIT}
    requires ReadStatements(table, end, s) == Some(more)
    ensures ReadStatements(table, end, RenderAll(table, ops) + s) == Some(ops + more)
  {
    hide Render;
    hide ReadStatements;
    if ops == [] {
      assert RenderAll(table, ops) + s == s;
      assert ops + more == more;
    } else {
      var init, op := ops[..|ops| - 1], ops[|ops| - 1];
      ReadOneMore(table, op, end, more, s);
      ReadStatementsRendered(table, init, end, [op] + more, Render(table, op) + s);
      assert RenderAll(table, ops) + s == RenderAll(table, init) + (Render(table, op) + s);
      assert ops + more == init + ([op] + more);
    }
  }

  lemma {:induction false} RenderAllFront(table: Text, ops: seq<Op>)
    requires ops != []
    ensures RenderAll(table, ops) == Render(table, ops[0]) + RenderAll(table, ops[1..])
  {
    hide Render;
    if |ops| == 1 {
      assert ops[..0] == [] && ops[1..] == [];
      assert RenderAll(table, ops) == [] + Render(table, ops[0]);
    } else {
      var init, last := ops[..|ops| - 1], ops[|ops| - 1];
      RenderAllFront(table, init);
      assert init[1..] == ops[1..][..|ops| - 2];
      ConcatAssoc(Render(table, ops[0]), RenderAll(table, init[1..]), Render(table, last));
    }
  }

  /** If the text of some statements reads as those statements, none of them contains a quote. */
  lemma {:induction false} OnlyQuoteFreeReadsBack(table: Text, ops: seq<Op>)
    requires ReadStatements(table, COMMIT, RenderAll(table, ops) + COMMIT) == Some(ops)
    ensures forall i :: 0 <= i < |ops| ==> QuoteFreeOp(ops[i])
    decreases |ops|
  {
    hide Render;
    hide ReadStatement;
    if ops != [] {
      var rest := RenderAll(table, ops[1..]) + COMMIT;
      RenderAllFront(table, ops);
      ConcatAssoc(Render(table, ops[0]), RenderAll(table, ops[1..]), COMMIT);
      ReadsRendered(table, ops[0], rest);
      assert ReadStatement(table, RenderAll(table, ops) + COMMIT).Some?;
      OnlyQuoteFreeReadsBack(table, ops[1..]);
    }
  }

  /** The text of a transaction decodes to exactly the operations it was built from, in order, if and
      only if their keys and values contain no quote. */
  lemma TransactionReadsBackIff(table: Text, ops: seq<Op>)
    ensures ReadTransaction(table, TransactionText(table, ops)) == Some(ops)
            <==> forall i :: 0 <= i < |ops| ==> QuoteFreeOp(ops[i])
  {
    hide RenderAll;
    hide ReadStatement;
    var body := RenderAll(table, ops) + COMMIT;
    ConcatAssoc(BEGIN, RenderAll(table, ops), COMMIT);
    StripConcat(BEGIN, body);
    if forall i :: 0 <= i < |ops| ==> QuoteFreeOp(ops[i]) {
      ReadStatementsRendered(table, ops, COMMIT, [], COMMIT);
      assert ops + [] == ops;
    } else if ReadStatements(table, COMMIT, body) == Some(ops) {
      OnlyQuoteFreeReadsBack(table, ops);
    }
  }

  /** Executing the text of a transaction is replaying its operations over the database. */
  lemma TransactionIsReplay(table: Text, ops: seq<Op>, db: Table)
    requires forall i :: 0 <= i < |ops| ==> QuoteFreeOp(ops[i])
    ensures ExecSql(table, TransactionText(table, ops), db) == Replay(ops, db)
  {
    TransactionReadsBackIff(table, ops);
  }

  predicate EndsWith(s: Text, end: Text) {
    |end| <= |s| && s[|s| - |end|..] == end
  }

  lemma ReadQuotedLeavesASuffix(s: Text)
    requires ReadQuoted(s).Some?
    ensures EndsWith(s, ReadQuoted(s).value.1)
    decreases |s|
  {
    ReadQuotedIs(s);
  }

  lemma StripLeavesASuffix(prefix: Text, s: Text)
    ensures var r := Strip(prefix, s); r.Some? ==> EndsWith(s, r.value)
  {
  }

  lemma SuffixOfSuffix(s: Text, t: Text, u: Text)
    requires EndsWith(s, t) && EndsWith(t, u)
    ensures EndsWith(s, u)
  {
    var i, j := |s| - |t|, |t| - |u|;
    assert s[i..][j..] == s[i + j..];
  }

  lemma ReadStatementLeavesASuffix(table: Text, s: Text)
    requires ReadStatement(table, s).Some?
    ensures EndsWith(s, ReadStatement(table, s).value.1)
  {
    hide ReadQuoted;
    hide EndsWith;
    hide Ascii;
    var s1 := Strip(Ascii("UPDATE ") + table + Ascii(" SET h"), s).value;
    StripLeavesASuffix(Ascii("UPDATE ") + table + Ascii(" SET h"), s);
    StripLeavesASuffix(Ascii("['"), s1);
    StripLeavesASuffix(Ascii(" = delete(h, '"), s1);
    var set' := Strip(Ascii("['"), s1).Some?;
    var s2 := if set' then Strip(Ascii("['"), s1).value else Strip(Ascii(" = delete(h, '"), s1).value;
    SuffixOfSuffix(s, s1, s2);
    ReadQuotedLeavesASuffix(s2);
    var s3 := ReadQuoted(s2).value.1;
    SuffixOfSuffix(s, s2, s3);
    if set' {
      StripLeavesASuffix(Ascii("']='"), s3);
      var s4 := Strip(Ascii("']='"), s3).value;
      SuffixOfSuffix(s, s3, s4);
      ReadQuotedLeavesASuffix(s4);
      var s5 := ReadQuoted(s4).value.1;
      SuffixOfSuffix(s, s4, s5);
      StripLeavesASuffix(Ascii("';"), s5);
      SuffixOfSuffix(s, s5, Strip(Ascii("';"), s5).value);
    } else {
      StripLeavesASuffix(Ascii("');"), s3);
      SuffixOfSuffix(s, s3, Strip(Ascii("');"), s3).value);
    }
  }

  lemma {:induction false} ReadStatementsReachTheEnd(table: Text, end: Text, s: Text)
    requires ReadStatements(table, end, s).Some?
    ensures EndsWith(s, end)
    decreases |s|
  {
    hide ReadStatement;
    if s != end {
      var rest := ReadStatement(table, s).value.1;
      ReadStatementLeavesASuffix(table, s);
      ReadStatementsReachTheEnd(table, end, rest);
      SuffixOfSuffix(s, rest, end);
    }
  }

  /** A transaction that is opened and does not end in `COMMIT;` changes nothing. */
  lemma UncommittedChangesNothing(table: Text, body: Text, db: Table)
    requires !EndsWith(body, Ascii("COMMIT;"))
    ensures ExecSql(table, Ascii("BEGIN;") + body, db) == db
  {
    var s := Ascii("BEGIN;") + body;
    StripConcat(Ascii("BEGIN;"), body);
    if ReadStatements(table, Ascii("COMMIT;"), body).Some? {
      ReadStatementsReachTheEnd(table, Ascii("COMMIT;"), body);
    }
    assert s[0] == ToByte('B') && Ascii("UPDATE ")[0] == ToByte('U');
    assert ReadStatement(table, s) == None;
  }

  /** Executing one statement on its own. */
  lemma StatementIsApply(table: Text, op: Op, db: Table)
    requires QuoteFreeOp(op)
    ensures ExecSql(table, Render(table, op), db) == Apply(op, db)
  {
    var s := Render(table, op);
    assert s[0] == ToByte('U') && BEGIN[0] == ToByte('B');
    assert Strip(BEGIN, s) == None;
    assert RenderAll(table, [op]) == s by {
      assert [op][..0] == [];
      assert RenderAll(table, []) == [];
    }
    ReadStatementsRendered(table, [op], [], [], []);
    assert s + [] == s && [op] + [] == [op];
    ReplayAppend([], op, db);
  }

  /** The condition is needed. A value with a doubled quote is stored with one quote, so a proxy without
      a cache answers another value than was set, and one that only caches answers what was set. */
  lemma DoubledQuoteTellsRegimesApart(table: Text, db: Table, s: State)
    ensures var k, v, stored := Ascii("k"), Ascii("x''y"), Ascii("x'y");
      && ExecSql(table, Render(table, SetOp(k, v)), db) == db[k := stored]
      && ReqGet(NoCache, Start(ExecSql(table, Render(table, SetOp(k, v)), db)), k).1 == Some(stored)
      && ReqGet(OnlyCache, ReqSet(OnlyCache, s, k, v), k).1 == Some(v)
      && stored != v
  {
    var k, v, stored := Ascii("k"), Ascii("x''y"), Ascii("x'y");
    hide ExecSql;
    hide Render;
    assert |v| == 4 && |stored| == 3;
    ReadsDoubledQuote();
    SetStatementStores(table, k, v, stored, db);
  }

  /** A SET statement with a quote-free key stores what its value reads as. */
  lemma SetStatementStores(table: Text, k: Text, v: Text, stored: Text, db: Table)
    requires QuoteFree(k) && ReadQuoted(v + SET_CLOSE) == Some((stored, SET_CLOSE))
    ensures ExecSql(table, Render(table, SetOp(k, v)), db) == db[k := stored]
  {
    var text := Render(table, SetOp(k, v));
    ReadsStatementOf(table, k, v, stored);
    assert text[0] == ToByte('U') && BEGIN[0] == ToByte('B');
    assert Strip(BEGIN, text) == None;
    hide ReadStatement;
    hide Render;
    assert ReadStatements(table, [], []) == Some([]);
    assert [SetOp(k, stored)] + [] == [SetOp(k, stored)];
    ReplayAppend([], SetOp(k, stored), db);
    assert [] + [SetOp(k, stored)] == [SetOp(k, stored)];
  }

  lemma ReadsDoubledQuote()
    ensures ReadQuoted(Ascii("x''y") + SET_CLOSE) == Some((Ascii("x'y"), SET_CLOSE))
  {
    var v, stored := Ascii("x''y"), Ascii("x'y");
    var s := v + SET_CLOSE;
    assert s[..1] == stored[..1] && s[3..4] == stored[2..];
    assert SET_CLOSE[1] == ToByte(';');
    assert s[4..] == SET_CLOSE;
    ReadQuotedConcat(stored[2..], SET_CLOSE);
    assert s[3..] == stored[2..] + SET_CLOSE;
    assert s[1..][2..] == s[3..];
    assert ReadQuoted(s[1..]) == Some(([QUOTE] + stored[2..], SET_CLOSE));
    assert [s[0]] + ([QUOTE] + stored[2..]) == stored;
  }

  /** A SET statement with a quote-free key, whose value reads as another one. */
  lemma ReadsStatementOf(table: Text, k: Text, v: Text, stored: Text)
    requires QuoteFree(k) && ReadQuoted(v + SET_CLOSE) == Some((stored, SET_CLOSE))
    ensures ReadStatement(table, Render(table, SetOp(k, v))) == Some((SetOp(k, stored), []))
  {
    var s3 := v + SET_CLOSE;
    var s2 := SET_MIDDLE + s3;
    var s0 := SET_OPEN + (k + s2);
    assert SET_MIDDLE[0] == QUOTE && SET_MIDDLE[1] == ToByte(']');
    StripConcat(Head(table), s0);
    StripConcat(SET_OPEN, k + s2);
    ReadQuotedConcat(k, s2);
    StripConcat(SET_MIDDLE, s3);
    assert SET_CLOSE + [] == SET_CLOSE;
    StripConcat(SET_CLOSE, []);
  }
}

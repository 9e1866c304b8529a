// What a command line from a client means: the call it selects, and the reply that call gives over
// the cache and over one plain map.
module Commands {
  import opened Bytes
  import opened Wrappers
  import opened CacheModel
  import opened Sql

  /** The arguments of a command, its name first. */
  type Command = seq<Text>

  datatype Reply = Status(text: Text) | Error(text: Text) | Integer(n: nat) | Bulk(text: Text) | Nil

  datatype Call =
    | CallGet(key: Text)
    | CallSet(key: Text, value: Text)
    | CallDel(keys: seq<Text>)
    | CallPing
    | CallError(text: Text)

  function UpperByte(c: byte): byte {
    if 97 <= c <= 122 then c - 32 else c
  }

  function Upper(s: Text): (r: Text) {
    seq(|s|, i requires 0 <= i < |s| => UpperByte(s[i]))
  }

  const SYNTAX_ERROR: Text := Ascii("syntax error")
  const UNKNOWN_COMMAND: Text := Ascii("unknown command")

  /** The call a command selects. The COMMAND command is not part of this model, and the parser never
      delivers an empty command. */
  function Classify(argv: Command): Call {
    var name := if argv == [] then [] else Upper(argv[0]);
    if name == Ascii("GET") then
      if |argv| < 2 then CallError(SYNTAX_ERROR) else CallGet(argv[1])
    else if name == Ascii("SET") then
      if |argv| != 3 then CallError(SYNTAX_ERROR) else CallSet(argv[1], argv[2])
    else if name == Ascii("DEL") then
      if |argv| < 2 then CallError(SYNTAX_ERROR) else CallDel(argv[1..])
    else if name == Ascii("PING") then
      CallPing
    else
      CallError(UNKNOWN_COMMAND)
  }

  // ---------- what clients may rely on, apart from the dispatcher ----------

  /** A command name in any mixture of capitals and small letters. */
  predicate IsName(word: Text, capitals: string, smalls: string)
    requires |capitals| == |smalls|
  {
    |word| == |capitals| &&
    forall i :: 0 <= i < |word| ==> word[i] as int == capitals[i] as int || word[i] as int == smalls[i] as int
  }

  /** An argument as the parser delivers it and C code reads it: a non-empty C string, short enough for
      the int that holds its length with a tag and a terminator. */
  predicate IsArgument(s: Text) {
    s != [] && NulFree(s) && |s| <= INT_MAX - 2
  }

  predicate Supported(argv: Command) {
    && 1 <= |argv| <= INT_MAX
    && (forall i :: 0 <= i < |argv| ==> IsArgument(argv[i]))
    && !IsName(argv[0], "COMMAND", "command")
  }

  /** The keys and values that reach a statement, given the keys cached now, contain no quote. */
  predicate SqlSafe(r: Regime, cached: set<Text>, argv: Command)
    requires argv != []
  {
    && (IsName(argv[0], "GET", "get") && |argv| >= 2 ==> QuoteSafe(r, cached, Get(argv[1])))
    && (IsName(argv[0], "SET", "set") && |argv| == 3 ==> QuoteSafe(r, cached, Set(argv[1], argv[2])))
    && (IsName(argv[0], "DEL", "del") ==> forall i :: 1 <= i < |argv| ==> QuoteSafe(r, cached, Del(argv[i])))
  }

  predicate Executable(r: Regime, cached: set<Text>, argv: Command) {
    Supported(argv) && SqlSafe(r, cached, argv)
  }

  predicate AdmissibleCommand(r: Regime, touched: set<Text>, argv: Command) {
    && Executable(r, touched, argv)
    && (IsName(argv[0], "SET", "set") && |argv| == 3 ==> Admissible(r, touched, Set(argv[1], argv[2])))
  }

  function BulkOrNil(value: Option<Text>): Reply {
    match value
    case Some(v) => Bulk(v)
    case None => Nil
  }

  /** The requests a command makes of the cache. */
  function RequestsOf(argv: Command): seq<Request>
    requires argv != []
  {
    if IsName(argv[0], "GET", "get") && |argv| >= 2 then [Get(argv[1])]
    else if IsName(argv[0], "SET", "set") && |argv| == 3 then [Set(argv[1], argv[2])]
    else if IsName(argv[0], "DEL", "del") then seq(|argv| - 1, i requires 0 <= i < |argv| - 1 => Del(argv[i + 1]))
    else []
  }

  /** A command is admissible if and only if all the requests it makes are. */
  lemma AdmissibleCommandIff(r: Regime, touched: set<Text>, argv: Command)
    requires Supported(argv)
    ensures AdmissibleCommand(r, touched, argv) <==>
            forall i :: 0 <= i < |RequestsOf(argv)| ==>
              Admissible(r, touched, RequestsOf(argv)[i]) && QuoteSafe(r, touched, RequestsOf(argv)[i])
  {
    NamesDiffer(argv[0]);
    hide IsName;
    hide QuoteSafe;
    var reqs := RequestsOf(argv);
    if IsName(argv[0], "GET", "get") && |argv| >= 2 {
      assert reqs[0] == Get(argv[1]);
    } else if IsName(argv[0], "SET", "set") && |argv| == 3 {
      assert reqs[0] == Set(argv[1], argv[2]);
    } else if IsName(argv[0], "DEL", "del") {
      assert forall i :: 1 <= i < |argv| ==> reqs[i - 1] == Del(argv[i]);
    }
  }

  // ---------- over the cache ----------

  /** DEL one key at a time, counting the successes. */
  function DelEach(r: Regime, s: State, keys: seq<Text>): (State, nat) {
    if keys == [] then (s, 0)
    else
      var (s', n) := DelEach(r, s, keys[..|keys| - 1]);
      var (s'', success) := ReqDel(r, s', keys[|keys| - 1]);
      (s'', if success then n + 1 else n)
  }

  function Execute(r: Regime, s: State, argv: Command): (State, Reply) {
    match Classify(argv)
    case CallGet(k) => var (s', v) := ReqGet(r, s, k); (s', BulkOrNil(v))
    case CallSet(k, v) => (ReqSet(r, s, k, v), Status(Ascii("OK")))
    case CallDel(ks) => var (s', n) := DelEach(r, s, ks); (s', Integer(n))
    case CallPing => (s, Status(Ascii("PONG")))
    case CallError(text) => (s, Error(text))
  }

  // ---------- over one plain map ----------

  function KeySet(keys: seq<Text>): set<Text> {
    set k | k in keys
  }

  function SpecDel(a: Abstract, keys: seq<Text>): Abstract {
    Abstract(a.data - KeySet(keys), a.touched + set k | k in keys && KeyFits(k))
  }

  /** What a command does to one plain map and what it answers, said of the command as it was sent. */
  function SpecExecute(a: Abstract, argv: Command): (Abstract, Reply) {
    if argv == [] then
      (a, Error(Ascii("unknown command")))
    else if IsName(argv[0], "GET", "get") then
      if |argv| < 2 then (a, Error(Ascii("syntax error")))
      else (a.(touched := a.touched + Touches(a.data, Get(argv[1]))),
            if argv[1] in a.data then Bulk(a.data[argv[1]]) else Nil)
    else if IsName(argv[0], "SET", "set") then
      if |argv| != 3 then (a, Error(Ascii("syntax error")))
      else (Abstract(a.data[argv[1] := argv[2]], a.touched + Touches(a.data, Set(argv[1], argv[2]))),
            Status(Ascii("OK")))
    else if IsName(argv[0], "DEL", "del") then
      if |argv| < 2 then (a, Error(Ascii("syntax error")))
      else (SpecDel(a, argv[1..]), Integer(|KeySet(argv[1..]) * a.data.Keys|))
    else if IsName(argv[0], "PING", "ping") then
      (a, Status(Ascii("PONG")))
    else
      (a, Error(Ascii("unknown command")))
  }

  lemma SpecDelOneMore(a: Abstract, keys: seq<Text>, k: Text)
    ensures SpecDel(a, keys + [k]) == SpecPerform(SpecDel(a, keys), Del(k)).0
    ensures KeySet(keys + [k]) == KeySet(keys) + {k}
  {
    assert KeySet(keys + [k]) == KeySet(keys) + {k};
    assert a.data - KeySet(keys + [k]) == a.data - KeySet(keys) - {k};
    assert a.touched + (set x | x in keys + [k] && KeyFits(x)) == SpecDel(a, keys).touched + Touches(a.data, Del(k));
  }

  lemma SpecDelNothing(a: Abstract)
    ensures SpecDel(a, []) == a
    ensures KeySet([]) * a.data.Keys == {}
  {
    assert a.data - KeySet([]) == a.data;
    assert a.touched + {} == a.touched;
  }

  lemma SpecDelData(a: Abstract, keys: seq<Text>)
    ensures SpecDel(a, keys).data.Keys == a.data.Keys - KeySet(keys)
  {
  }

  /** Deleting a list of keys, repeats and all, counts the distinct keys that were present and leaves
      exactly the other keys, in every regime. */
  lemma {:induction false} MultiKeyDel(r: Regime, s: State, a: Abstract, keys: seq<Text>)
    requires Refines(r, s, a)
    ensures Refines(r, DelEach(r, s, keys).0, SpecDel(a, keys))
    ensures DelEach(r, s, keys).1 == |KeySet(keys) * a.data.Keys|
  {
    hide Refines;
    hide ReqDel;
    hide SpecDel;
    hide KeySet;
    if keys == [] {
      SpecDelNothing(a);
    } else {
      var init, k := keys[..|keys| - 1], keys[|keys| - 1];
      assert keys == init + [k];
      MultiKeyDel(r, s, a, init);
      SpecDelOneMore(a, init, k);
      SpecDelData(a, init);
      DelRefines(r, DelEach(r, s, init).0, SpecDel(a, init), k);
      CountOneMore(KeySet(init), k, a.data.Keys);
    }
  }

  lemma CountOneMore(ks: set<Text>, k: Text, present: set<Text>)
    ensures |(ks + {k}) * present| == |ks * present| + if k in present - ks then 1 else 0
  {
    if k in present - ks {
      assert (ks + {k}) * present == ks * present + {k};
    } else {
      assert (ks + {k}) * present == ks * present;
    }
  }

  lemma UpperIs(word: Text, capitals: string, smalls: string)
    requires |capitals| == |smalls|
    requires forall i :: 0 <= i < |capitals| ==>
               'A' <= capitals[i] <= 'Z' && smalls[i] as int == capitals[i] as int + 32
    ensures Upper(word) == Ascii(capitals) <==> IsName(word, capitals, smalls)
  {
    if |word| == |capitals| {
      forall i | 0 <= i < |word|
        ensures Upper(word)[i] == Ascii(capitals)[i] <==>
                word[i] as int == capitals[i] as int || word[i] as int == smalls[i] as int
      {
        AsciiIs(capitals, i);
      }
    }
  }

  lemma NamesAreUpper(word: Text)
    ensures Upper(word) == Ascii("GET") <==> IsName(word, "GET", "get")
    ensures Upper(word) == Ascii("SET") <==> IsName(word, "SET", "set")
    ensures Upper(word) == Ascii("DEL") <==> IsName(word, "DEL", "del")
    ensures Upper(word) == Ascii("PING") <==> IsName(word, "PING", "ping")
  {
    hide Upper;
    hide Ascii;
    hide IsName;
    UpperIs(word, "GET", "get");
    UpperIs(word, "SET", "set");
    UpperIs(word, "DEL", "del");
    UpperIs(word, "PING", "ping");
  }

  /** Capitals of the small letters a to z; every other byte stays as it is. */
  lemma UpperByteIs(c: byte)
    ensures 'a' as int <= c as int <= 'z' as int ==> UpperByte(c) as int - 'A' as int == c as int - 'a' as int
    ensures !('a' as int <= c as int <= 'z' as int) ==> UpperByte(c) == c
  {
  }

  /** The dispatcher selects for each command the call that command stands for. */
  lemma ClassifyIs(argv: Command)
    requires argv != []
    ensures Classify(argv) ==
            if IsName(argv[0], "GET", "get") then
              if |argv| < 2 then CallError(Ascii("syntax error")) else CallGet(argv[1])
            else if IsName(argv[0], "SET", "set") then
              if |argv| != 3 then CallError(Ascii("syntax error")) else CallSet(argv[1], argv[2])
            else if IsName(argv[0], "DEL", "del") then
              if |argv| < 2 then CallError(Ascii("syntax error")) else CallDel(argv[1..])
            else if IsName(argv[0], "PING", "ping") then CallPing
            else CallError(Ascii("unknown command"))
  {
    hide Upper;
    hide IsName;
    NamesAreUpper(argv[0]);
    hide Ascii;
  }

  /** What the dispatcher may rely on once it has put the name in capitals. */
  lemma CallIsSafe(r: Regime, cached: set<Text>, argv: Command)
    requires Executable(r, cached, argv)
    ensures 1 <= |argv| <= INT_MAX && forall i :: 0 <= i < |argv| ==> IsArgument(argv[i])
    ensures Upper(argv[0]) == Ascii("GET") && |argv| >= 2 ==> QuoteSafe(r, cached, Get(argv[1]))
    ensures Upper(argv[0]) == Ascii("SET") && |argv| == 3 ==> QuoteSafe(r, cached, Set(argv[1], argv[2]))
    ensures Upper(argv[0]) == Ascii("DEL") ==> forall i :: 1 <= i < |argv| ==> QuoteSafe(r, cached, Del(argv[i]))
  {
    NamesAreUpper(argv[0]);
  }

  /** Every command, in every regime, replies as it would over one plain map. */
  lemma ExecuteRefines(r: Regime, s: State, a: Abstract, argv: Command)
    requires Refines(r, s, a) && AdmissibleCommand(r, a.touched, argv)
    ensures Execute(r, s, argv).1 == SpecExecute(a, argv).1
    ensures Refines(r, Execute(r, s, argv).0, SpecExecute(a, argv).0)
  {
    hide Refines;
    hide IsName;
    hide Classify;
    hide Ascii;
    hide KeySet;
    hide SpecDel;
    ClassifyIs(argv);
    match Classify(argv)
    case CallGet(k) => GetRefines(r, s, a, k);
    case CallSet(k, v) => SetRefines(r, s, a, k, v);
    case CallDel(ks) => MultiKeyDel(r, s, a, ks);
    case CallPing =>
    case CallError(_) =>
  }

  /** GET in any regime: the value the client last gave the key, or nil. */
  lemma GetReplies(r: Regime, s: State, a: Abstract, argv: Command)
    requires Refines(r, s, a) && AdmissibleCommand(r, a.touched, argv)
    requires IsName(argv[0], "GET", "get") && |argv| >= 2
    ensures argv[1] in a.data ==> Execute(r, s, argv).1 == Bulk(a.data[argv[1]])
    ensures argv[1] !in a.data ==> Execute(r, s, argv).1 == Nil
    ensures Visible(Execute(r, s, argv).0) == Visible(s) == a.data
  {
    hide Refines;
    hide Execute;
    hide AdmissibleCommand;
    ExecuteRefines(r, s, a, argv);
    RefinesShows(r, s, a);
    RefinesShows(r, Execute(r, s, argv).0, SpecExecute(a, argv).0);
  }

  lemma RefinesShows(r: Regime, s: State, a: Abstract)
    requires Refines(r, s, a)
    ensures Visible(s) == a.data
  {
    ShowsVisible(s, a.data);
  }

  lemma NamesDiffer(word: Text)
    ensures IsName(word, "SET", "set") ==> !IsName(word, "GET", "get")
    ensures IsName(word, "DEL", "del") ==> !IsName(word, "GET", "get") && !IsName(word, "SET", "set")
    ensures IsName(word, "PING", "ping") ==> |word| == 4
  {
    if |word| == 3 {
      assert "GET"[0] == 'G' && "SET"[0] == 'S' && "DEL"[0] == 'D';
      assert "get"[0] == 'g' && "set"[0] == 's' && "del"[0] == 'd';
    }
  }

  /** SET on one plain map. */
  lemma SpecSetIs(a: Abstract, argv: Command)
    requires |argv| == 3 && IsName(argv[0], "SET", "set")
    ensures SpecExecute(a, argv).0.data == a.data[argv[1] := argv[2]]
    ensures SpecExecute(a, argv).1 == Status(Ascii("OK"))
    ensures |argv[1]| <= 98 && |argv[2]| <= 97 ==> argv[1] in SpecExecute(a, argv).0.touched
    ensures a.touched <= SpecExecute(a, argv).0.touched
  {
    hide IsName;
    hide Ascii;
    NamesDiffer(argv[0]);
  }

  /** DEL of a list of keys on one plain map. */
  lemma SpecDelIs(a: Abstract, argv: Command)
    requires |argv| >= 2 && IsName(argv[0], "DEL", "del")
    ensures SpecExecute(a, argv).0.data == a.data - set i | 1 <= i < |argv| :: argv[i]
    ensures SpecExecute(a, argv).1 == Integer(|set k | k in a.data && k in argv[1..]|)
    ensures forall i :: 1 <= i < |argv| && |argv[i]| <= 98 ==> argv[i] in SpecExecute(a, argv).0.touched
    ensures a.touched <= SpecExecute(a, argv).0.touched
  {
    hide IsName;
    hide Ascii;
    NamesDiffer(argv[0]);
    assert forall i :: 1 <= i < |argv| ==> argv[1..][i - 1] == argv[i];
    assert (set i | 1 <= i < |argv| :: argv[i]) == KeySet(argv[1..]);
    assert (set k | k in a.data && k in argv[1..]) == KeySet(argv[1..]) * a.data.Keys;
  }

  /** GET on one plain map. */
  lemma SpecGetIs(a: Abstract, argv: Command)
    requires |argv| >= 2 && IsName(argv[0], "GET", "get")
    ensures argv[1] in a.data ==> SpecExecute(a, argv).1 == Bulk(a.data[argv[1]])
    ensures argv[1] !in a.data ==> SpecExecute(a, argv).1 == Nil
    ensures SpecExecute(a, argv).0.data == a.data
  {
  }

  /** After an admissible SET or DEL of a key, a GET of it is admissible. */
  lemma GetAdmissible(r: Regime, a: Abstract, argv: Command, get: Command)
    requires AdmissibleCommand(r, a.touched, argv) && Supported(get)
    requires |get| >= 2 && IsName(get[0], "GET", "get")
    requires
      || (IsName(argv[0], "SET", "set") && |argv| == 3 && get[1] == argv[1])
      || (IsName(argv[0], "DEL", "del") && exists i :: 1 <= i < |argv| && get[1] == argv[i])
    ensures AdmissibleCommand(r, SpecExecute(a, argv).0.touched, get)
  {
    hide SpecExecute;
    NamesDiffer(get[0]);
    NamesDiffer(argv[0]);
    if IsName(argv[0], "SET", "set") {
      SpecSetIs(a, argv);
    } else {
      SpecDelIs(a, argv);
    }
    hide IsName;
  }

  /** What is set is what is read next, byte for byte, whatever the state was before. */
  lemma SetThenGet(r: Regime, s: State, a: Abstract, argv: Command, get: Command)
    requires Refines(r, s, a) && AdmissibleCommand(r, a.touched, argv) && Supported(get)
    requires |argv| == 3 && IsName(argv[0], "SET", "set")
    requires |get| >= 2 && IsName(get[0], "GET", "get") && get[1] == argv[1]
    ensures Execute(r, s, argv).1 == Status(Ascii("OK"))
    ensures Execute(r, Execute(r, s, argv).0, get).1 == Bulk(argv[2])
  {
    hide Refines;
    hide Execute;
    hide SpecExecute;
    hide AdmissibleCommand;
    hide IsName;
    ExecuteRefines(r, s, a, argv);
    SpecSetIs(a, argv);
    GetAdmissible(r, a, argv, get);
    GetReplies(r, Execute(r, s, argv).0, SpecExecute(a, argv).0, get);
  }

  /** What is deleted is gone, wherever it stands in the list. */
  lemma DelThenGet(r: Regime, s: State, a: Abstract, argv: Command, get: Command, i: nat)
    requires Refines(r, s, a) && AdmissibleCommand(r, a.touched, argv) && Supported(get)
    requires 1 <= i < |argv| && IsName(argv[0], "DEL", "del")
    requires |get| >= 2 && IsName(get[0], "GET", "get") && get[1] == argv[i]
    ensures Execute(r, s, argv).1 == Integer(|set k | k in a.data && k in argv[1..]|)
    ensures Execute(r, Execute(r, s, argv).0, get).1 == Nil
  {
    hide Refines;
    hide Execute;
    hide SpecExecute;
    hide AdmissibleCommand;
    hide IsName;
    ExecuteRefines(r, s, a, argv);
    SpecDelIs(a, argv);
    GetAdmissible(r, a, argv, get);
    GetReplies(r, Execute(r, s, argv).0, SpecExecute(a, argv).0, get);
  }

  // ---------- several commands in a row ----------

  function ExecuteAll(r: Regime, s: State, cmds: seq<Command>): (State, seq<Reply>)
    decreases |cmds|
  {
    if cmds == [] then (s, [])
    else
      var (s', reply) := Execute(r, s, cmds[0]);
      var (s'', replies) := ExecuteAll(r, s', cmds[1..]);
      (s'', [reply] + replies)
  }

  /** Commands that can be run one after another, each given what the ones before it have cached. */
  predicate ExecutableAll(r: Regime, s: State, cmds: seq<Command>)
    decreases |cmds|
  {
    cmds == [] || (Executable(r, s.cache.Keys, cmds[0]) && ExecutableAll(r, Execute(r, s, cmds[0]).0, cmds[1..]))
  }

  /** A key once cached stays cached, so what a DEL may do at first it may do at each of its keys. */
  lemma {:induction false} DelEachKeepsCached(r: Regime, s: State, keys: seq<Text>)
    ensures s.cache.Keys <= DelEach(r, s, keys).0.cache.Keys
  {
    if keys != [] {
      DelEachKeepsCached(r, s, keys[..|keys| - 1]);
    }
  }

  function SpecExecuteAll(a: Abstract, cmds: seq<Command>): (Abstract, seq<Reply>)
    decreases |cmds|
  {
    if cmds == [] then (a, [])
    else
      var (a', reply) := SpecExecute(a, cmds[0]);
      var (a'', replies) := SpecExecuteAll(a', cmds[1..]);
      (a'', [reply] + replies)
  }

  predicate AdmissibleCommands(r: Regime, a: Abstract, cmds: seq<Command>)
    decreases |cmds|
  {
    cmds == [] || (AdmissibleCommand(r, a.touched, cmds[0]) && AdmissibleCommands(r, SpecExecute(a, cmds[0]).0, cmds[1..]))
  }

  lemma {:induction false} ExecuteAllRefines(r: Regime, s: State, a: Abstract, cmds: seq<Command>)
    requires Refines(r, s, a) && AdmissibleCommands(r, a, cmds)
    ensures var (s', replies) := ExecuteAll(r, s, cmds);
      var (a', replies') := SpecExecuteAll(a, cmds);
      Refines(r, s', a') && replies == replies'
    decreases |cmds|
  {
    if cmds != [] {
      ExecuteRefines(r, s, a, cmds[0]);
      ExecuteAllRefines(r, Execute(r, s, cmds[0]).0, SpecExecute(a, cmds[0]).0, cmds[1..]);
    }
  }
}

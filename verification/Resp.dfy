// Commands on the wire, after the Redis serialization protocol: the printer, and a one-shot
// recursive-descent reader of a whole stream, written without the proxy's state machine.
module Resp {
  import opened Bytes
  import opened Decimal
  import opened Commands

  /** What a reader finds at the beginning of a stream: a value and the rest, a value that is not
      complete yet, or something else. */
  datatype Read<+T> = Got(value: T, rest: Text) | More | Bad

  // ---------- printing ----------

  function EncodeArg(arg: Text): Text {
    Ascii("$") + (Print(|arg|) + (Ascii("\r\n") + (arg + Ascii("\r\n"))))
  }

  function EncodeArgs(args: seq<Text>): Text {
    if args == [] then [] else EncodeArg(args[0]) + EncodeArgs(args[1..])
  }

  /** A command as an array of bulk strings. */
  function Encode(cmd: Command): Text {
    Ascii("*") + (Print(|cmd|) + (Ascii("\r\n") + EncodeArgs(cmd)))
  }

  /** Commands separated by noise: `noise[i]` comes before command i, the last noise after them all. */
  function EncodeStream(cmds: seq<Command>, noise: seq<Text>): Text
    requires |noise| == |cmds| + 1
  {
    if cmds == [] then noise[0] else noise[0] + (Encode(cmds[0]) + EncodeStream(cmds[1..], noise[1..]))
  }

  predicate Encodable(cmd: Command) {
    1 <= |cmd| <= INT_MAX && forall i :: 0 <= i < |cmd| ==> 1 <= |cmd[i]| < INT_MAX
  }

  /** The repository's own printer: each part is preceded by the line end of what is before it. */
  function CreateReqParts(parts: seq<Text>): Text {
    if parts == [] then []
    else CreateReqParts(parts[..|parts| - 1])
         + (Ascii("\r\n$") + Print(|parts[|parts| - 1]|) + Ascii("\r\n") + parts[|parts| - 1])
  }

  function CreateReq(parts: seq<Text>): Text {
    Ascii("*") + Print(|parts|) + CreateReqParts(parts) + Ascii("\r\n")
  }

  lemma PartFlat(before: Text, e: Text, d: Text, size: Text, part: Text)
    ensures before + (e + d + size + e + part) + e == (before + e) + (d + (size + (e + (part + e))))
  {
    ConcatAssoc(e + d + size, e, part);
    ConcatAssoc(e + d, size, e + part);
    ConcatAssoc(e, d, size + (e + part));
    ConcatAssoc(before, e, d + (size + (e + part)));
    ConcatAssoc(before + e, d + (size + (e + part)), e);
    ConcatAssoc(d, size + (e + part), e);
    ConcatAssoc(size, e + part, e);
    ConcatAssoc(e, part, e);
  }

  lemma CreateReqPartIs(before: Text, part: Text)
    ensures before + (Ascii("\r\n$") + Print(|part|) + Ascii("\r\n") + part) + CRLF ==
            (before + CRLF) + EncodeArg(part)
  {
    MarksAre();
    assert Ascii("\r\n$") == CRLF + [DOLLAR];
    hide Ascii;
    hide Print;
    PartFlat(before, CRLF, [DOLLAR], Print(|part|), part);
  }

  lemma {:induction false} CreateReqPartsIs(parts: seq<Text>)
    ensures CreateReqParts(parts) + CRLF == CRLF + EncodeArgs(parts)
  {
    hide Print;
    if parts == [] {
      assert CreateReqParts(parts) + CRLF == CRLF;
    } else {
      var init, last := parts[..|parts| - 1], parts[|parts| - 1];
      CreateReqPartsIs(init);
      EncodeArgsAppend(init, last);
      assert parts == init + [last];
      CreateReqPartIs(CreateReqParts(init), last);
      ConcatAssoc(CRLF, EncodeArgs(init), EncodeArg(last));
    }
  }

  lemma {:induction false} EncodeArgsAppend(args: seq<Text>, last: Text)
    ensures EncodeArgs(args + [last]) == EncodeArgs(args) + EncodeArg(last)
    decreases |args|
  {
    if args == [] {
      assert ([] + [last])[1..] == [];
      assert EncodeArgs([last]) == EncodeArg(last) + EncodeArgs([]);
      assert [] + [last] == [last];
    } else {
      assert (args + [last])[1..] == args[1..] + [last];
      EncodeArgsAppend(args[1..], last);
    }
  }

  /** The repository's printer prints the protocol's array of bulk strings. */
  lemma CreateReqIsEncode(parts: Command)
    ensures CreateReq(parts) == Encode(parts)
  {
    MarksAre();
    CreateReqPartsIs(parts);
    assert CreateReq(parts) == [STAR] + (Print(|parts|) + (CreateReqParts(parts) + CRLF));
  }

  // ---------- reading ----------

  /** A number read digit by digit up to CRLF, after `acc`; it must be positive and at most `max`. */
  function ReadDigits(max: nat, acc: nat, s: Text): (r: Read<nat>)
    ensures r.Got? ==> |r.rest| < |s| && 1 <= r.value && (acc <= max ==> r.value <= max)
    decreases |s|
  {
    if s == [] then More
    else if IsDigit(s[0]) then
      var n := acc * 10 + DigitValue(s[0]);
      if n > max then Bad else ReadDigits(max, n, s[1..])
    else if s[0] != CR || acc == 0 then Bad
    else if |s| == 1 then More
    else if s[1] == LF then Got(acc, s[2..])
    else Bad
  }

  function ReadNumber(max: nat, s: Text): (r: Read<nat>)
    ensures r.Got? ==> |r.rest| < |s| && 1 <= r.value <= max
  {
    if s == [] then More else if IsDigit(s[0]) then ReadDigits(max, 0, s) else Bad
  }

  /** CRLF. */
  function ReadEnd(s: Text): (r: Read<()>)
    ensures r.Got? ==> |r.rest| < |s|
  {
    if s == [] then More
    else if s[0] != CR then Bad
    else if |s| == 1 then More
    else if s[1] == LF then Got((), s[2..]) else Bad
  }

  /** A payload of n bytes, whatever they are, and CRLF. */
  function ReadPayload(n: nat, s: Text): (r: Read<Text>)
    ensures r.Got? ==> |r.rest| < |s| && |r.value| == n
  {
    if |s| < n then More
    else match ReadEnd(s[n..])
      case Got(_, rest) => Got(s[..n], rest)
      case More => More
      case Bad => Bad
  }

  function ReadArg(s: Text): (r: Read<Text>)
    ensures r.Got? ==> |r.rest| < |s| && 1 <= |r.value| < INT_MAX
  {
    if s == [] then More
    else if s[0] != DOLLAR then Bad
    else match ReadNumber(INT_MAX - 1, s[1..])
      case Got(n, rest) => ReadPayload(n, rest)
      case More => More
      case Bad => Bad
  }

  function ReadArgs(n: nat, s: Text): (r: Read<seq<Text>>)
    ensures r.Got? ==> |r.rest| <= |s| && |r.value| == n
    decreases n
  {
    if n == 0 then Got([], s)
    else match ReadArg(s)
      case More => More
      case Bad => Bad
      case Got(arg, s1) =>
        match ReadArgs(n - 1, s1)
        case Got(args, rest) => Got([arg] + args, rest)
        case More => More
        case Bad => Bad
  }

  /** A command, after its `*`. */
  function ReadCommand(s: Text): (r: Read<Command>)
    ensures r.Got? ==> |r.rest| <= |s| && r.value != []
  {
    match ReadNumber(INT_MAX, s)
    case Got(n, rest) => ReadArgs(n, rest)
    case More => More
    case Bad => Bad
  }

  /** The commands complete in a stream; anything that is not `*` between commands is noise. */
  datatype Scan = Scanned(cmds: seq<Command>, complete: bool) | Malformed

  function ReadStream(s: Text): Scan
    decreases |s|
  {
    if s == [] then Scanned([], true)
    else if s[0] != STAR then ReadStream(s[1..])
    else match ReadCommand(s[1..])
      case More => Scanned([], false)
      case Bad => Malformed
      case Got(cmd, rest) =>
        match ReadStream(rest)
        case Malformed => Malformed
        case Scanned(cmds, complete) => Scanned([cmd] + cmds, complete)
  }

  // ---------- the reader inverts the printer ----------

  lemma {:induction false} ReadDigitsOf(max: nat, acc: nat, ds: Text, s: Text)
    requires forall i :: 0 <= i < |ds| ==> IsDigit(ds[i])
    requires 1 <= Continue(acc, ds) <= max
    ensures ReadDigits(max, acc, ds + (CRLF + s)) == Got(Continue(acc, ds), s)
    decreases |ds|
  {
    var text := ds + (CRLF + s);
    if ds == [] {
      assert text == CRLF + s;
      assert text[2..] == s;
    } else {
      var n := acc * 10 + DigitValue(ds[0]);
      ContinueGrows(n, ds[1..]);
      assert text[1..] == ds[1..] + (CRLF + s);
      ReadDigitsOf(max, n, ds[1..], s);
    }
  }

  lemma ReadNumberOf(max: nat, n: nat, s: Text)
    requires 1 <= n <= max
    ensures ReadNumber(max, Print(n) + (CRLF + s)) == Got(n, s)
  {
    PrintReadsBack(n);
    ReadDigitsOf(max, 0, Print(n), s);
    assert (Print(n) + (CRLF + s))[0] == Print(n)[0];
  }

  lemma ReadArgOf(arg: Text, s: Text)
    requires 1 <= |arg| < INT_MAX
    ensures ReadArg(EncodeArg(arg) + s) == Got(arg, s)
  {
    var payload := arg + (CRLF + s);
    var text := Print(|arg|) + (CRLF + payload);
    MarksAre();
    assert EncodeArg(arg) + s == [DOLLAR] + text;
    assert ([DOLLAR] + text)[1..] == text;
    ReadNumberOf(INT_MAX - 1, |arg|, payload);
    assert payload[..|arg|] == arg && payload[|arg|..] == CRLF + s;
    assert (CRLF + s)[2..] == s;
  }

  lemma {:induction false} ReadArgsOf(args: seq<Text>, s: Text)
    requires forall i :: 0 <= i < |args| ==> 1 <= |args[i]| < INT_MAX
    ensures ReadArgs(|args|, EncodeArgs(args) + s) == Got(args, s)
    decreases |args|
  {
    hide EncodeArg;
    hide ReadArg;
    if args == [] {
      assert EncodeArgs(args) + s == s;
    } else {
      var rest := EncodeArgs(args[1..]) + s;
      assert EncodeArgs(args) + s == EncodeArg(args[0]) + rest;
      ReadArgOf(args[0], rest);
      ReadArgsOf(args[1..], s);
      assert [args[0]] + args[1..] == args;
    }
  }

  lemma ReadCommandOf(cmd: Command, s: Text)
    requires Encodable(cmd)
    ensures (Encode(cmd) + s)[0] == STAR
    ensures ReadCommand((Encode(cmd) + s)[1..]) == Got(cmd, s)
  {
    MarksAre();
    var args := EncodeArgs(cmd) + s;
    assert (Encode(cmd) + s)[1..] == Print(|cmd|) + (CRLF + args);
    ReadNumberOf(INT_MAX, |cmd|, args);
    ReadArgsOf(cmd, s);
  }

  lemma {:induction false} ReadStreamSkips(noise: Text, s: Text)
    requires ToByte('*') !in noise
    ensures ReadStream(noise + s) == ReadStream(s)
    decreases |noise|
  {
    if noise == [] {
      assert noise + s == s;
    } else {
      assert noise[0] in noise && ToByte('*') !in noise[1..];
      assert (noise + s)[1..] == noise[1..] + s;
      ReadStreamSkips(noise[1..], s);
    }
  }

  /** Printing commands, with noise free of `*` around them, and reading the stream gives exactly those
      commands: payloads may hold any bytes. */
  lemma {:induction false} ReadStreamOf(cmds: seq<Command>, noise: seq<Text>)
    requires |noise| == |cmds| + 1
    requires forall i :: 0 <= i < |cmds| ==> Encodable(cmds[i])
    requires forall i :: 0 <= i < |noise| ==> ToByte('*') !in noise[i]
    ensures ReadStream(EncodeStream(cmds, noise)) == Scanned(cmds, true)
    decreases |cmds|
  {
    if cmds == [] {
      ReadStreamSkips(noise[0], []);
      assert noise[0] + [] == noise[0];
    } else {
      var rest := EncodeStream(cmds[1..], noise[1..]);
      ReadStreamSkips(noise[0], Encode(cmds[0]) + rest);
      ReadCommandOf(cmds[0], rest);
      ReadStreamOf(cmds[1..], noise[1..]);
      assert [cmds[0]] + cmds[1..] == cmds;
    }
  }

  // ---------- prefixes ----------

  /** `r'` is what a reader may find in a prefix of a stream where it finds `r`, not `Bad`. */
  predicate PrefixOf<T(==)>(r': Read<T>, r: Read<T>) {
    r'.More? || (r'.Got? && r.Got? && r'.value == r.value && r'.rest <= r.rest)
  }

  lemma {:induction false} ReadDigitsPrefix(max: nat, acc: nat, s: Text, k: nat)
    requires k <= |s| && !ReadDigits(max, acc, s).Bad?
    ensures PrefixOf(ReadDigits(max, acc, s[..k]), ReadDigits(max, acc, s))
    decreases k
  {
    if k > 0 && IsDigit(s[0]) {
      assert s[..k][1..] == s[1..][..k - 1];
      ReadDigitsPrefix(max, acc * 10 + DigitValue(s[0]), s[1..], k - 1);
    } else if k > 1 {
      assert s[..k][2..] == s[2..][..k - 2];
    }
  }

  lemma ReadArgPrefix(s: Text, k: nat)
    requires k <= |s| && !ReadArg(s).Bad?
    ensures PrefixOf(ReadArg(s[..k]), ReadArg(s))
  {
    if k > 1 {
      var t, t' := s[1..], s[..k][1..];
      assert t' == t[..k - 1];
      ReadDigitsPrefix(INT_MAX - 1, 0, t, k - 1);
      if ReadNumber(INT_MAX - 1, t').Got? {
        assert ReadNumber(INT_MAX - 1, t).rest[..|ReadNumber(INT_MAX - 1, t').rest|] == ReadNumber(INT_MAX - 1, t').rest;
        PayloadPrefix(ReadNumber(INT_MAX - 1, t).value, ReadNumber(INT_MAX - 1, t).rest, |ReadNumber(INT_MAX - 1, t').rest|);
      }
    }
  }

  lemma PayloadPrefix(n: nat, s: Text, k: nat)
    requires k <= |s| && !ReadPayload(n, s).Bad?
    ensures PrefixOf(ReadPayload(n, s[..k]), ReadPayload(n, s))
  {
    if n <= k {
      assert s[..k][n..] == s[n..][..k - n];
      assert s[..k][..n] == s[..n];
      if k >= n + 2 {
        assert s[n..][..k - n][2..] == s[n..][2..][..k - n - 2];
      }
    }
  }

  lemma {:induction false} ReadArgsPrefix(n: nat, s: Text, k: nat)
    requires k <= |s| && !ReadArgs(n, s).Bad?
    ensures PrefixOf(ReadArgs(n, s[..k]), ReadArgs(n, s))
    decreases n
  {
    hide ReadArg;
    if n > 0 {
      ReadArgPrefix(s, k);
      var r', r := ReadArg(s[..k]), ReadArg(s);
      if r'.Got? {
        assert r.rest[..|r'.rest|] == r'.rest;
        ReadArgsPrefix(n - 1, r.rest, |r'.rest|);
      }
    }
  }

  lemma ReadCommandPrefix(s: Text, k: nat)
    requires k <= |s| && !ReadCommand(s).Bad?
    ensures PrefixOf(ReadCommand(s[..k]), ReadCommand(s))
  {
    if k > 0 {
      ReadDigitsPrefix(INT_MAX, 0, s, k);
      var r', r := ReadNumber(INT_MAX, s[..k]), ReadNumber(INT_MAX, s);
      if r'.Got? {
        assert r.rest[..|r'.rest|] == r'.rest;
        ReadArgsPrefix(r.value, r.rest, |r'.rest|);
      }
    }
  }

  /** Every prefix of a well-formed stream is well formed, and the commands complete in it are the
      first commands of the stream. */
  lemma {:induction false} ReadStreamPrefix(s: Text, k: nat)
    requires k <= |s| && ReadStream(s).Scanned?
    ensures ReadStream(s[..k]).Scanned?
    ensures ReadStream(s[..k]).cmds <= ReadStream(s).cmds
    decreases |s|
  {
    if k == 0 {
    } else if s[0] != STAR {
      assert s[..k][1..] == s[1..][..k - 1];
      ReadStreamPrefix(s[1..], k - 1);
    } else {
      assert s[..k][1..] == s[1..][..k - 1];
      ReadCommandPrefix(s[1..], k - 1);
      var r', r := ReadCommand(s[..k][1..]), ReadCommand(s[1..]);
      if r'.Got? {
        assert r.rest[..|r'.rest|] == r'.rest;
        ReadStreamPrefix(r.rest, |r'.rest|);
      }
    }
  }
}

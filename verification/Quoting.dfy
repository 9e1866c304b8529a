// Text between single quotes, as the database reads it: a doubled quote stands for one quote, and a
// quote that is not doubled ends the text.
module Quoting {
  import opened Bytes
  import opened Wrappers

  predicate QuoteFree(s: Text) {
    QUOTE !in s
  }

  /** The text that was quoted, and what follows it, from the closing quote on. */
  function ReadQuoted(s: Text): (r: Option<(Text, Text)>)
    ensures r.Some? ==> |r.value.1| <= |s|
    decreases |s|
  {
    if s == [] then None
    else if s[0] == QUOTE && (|s| == 1 || s[1] != QUOTE) then Some(([], s))
    else match ReadQuoted(s[(if s[0] == QUOTE then 2 else 1)..])
      case None => None
      case Some((content, rest)) => Some(([s[0]] + content, rest))
  }

  /** How a text would have to be written to be read as itself. */
  function Doubled(s: Text): Text {
    if s == [] then [] else (if s[0] == QUOTE then [QUOTE, QUOTE] else [s[0]]) + Doubled(s[1..])
  }

  predicate ClosesQuote(rest: Text) {
    rest != [] && rest[0] == QUOTE && (|rest| == 1 || rest[1] != QUOTE)
  }

  /** A quote-free text between quotes reads back as itself. */
  lemma {:induction false} ReadQuotedConcat(content: Text, rest: Text)
    requires QuoteFree(content) && ClosesQuote(rest)
    ensures ReadQuoted(content + rest) == Some((content, rest))
    decreases |content|
  {
    if content == [] {
      assert content + rest == rest;
    } else {
      assert content[0] in content && QuoteFree(content[1..]);
      assert (content + rest)[1..] == content[1..] + rest;
      ReadQuotedConcat(content[1..], rest);
      assert [content[0]] + content[1..] == content;
    }
  }

  /** Whatever is read was written doubled, and ended by a quote that is not doubled. */
  lemma {:induction false} ReadQuotedIs(s: Text)
    requires ReadQuoted(s).Some?
    ensures var (content, rest) := ReadQuoted(s).value;
      s == Doubled(content) + rest && ClosesQuote(rest)
    decreases |s|
  {
    if !ClosesQuote(s) {
      var n := if s[0] == QUOTE then 2 else 1;
      ReadQuotedIs(s[n..]);
      var (content, rest) := ReadQuoted(s[n..]).value;
      assert ([s[0]] + content)[1..] == content;
      assert s == s[..n] + s[n..];
    }
  }

  function Quotes(n: nat): Text {
    seq(n, _ => QUOTE)
  }

  /** A text written as it stands is not the doubled form of the text after some further quotes. */
  lemma {:induction false} WrittenIsNotDoubled(s: Text, rest: Text, n: nat, rest': Text)
    requires ClosesQuote(rest) && |rest| > 1 && ClosesQuote(rest') && n >= 1
    ensures s + rest != Quotes(n) + (Doubled(s) + rest')
    decreases |s|
  {
    var left, right := s + rest, Quotes(n) + (Doubled(s) + rest');
    assert right[0] == QUOTE;
    if s == [] {
      assert left == rest;
      assert right[1] == if n == 1 then rest'[0] else QUOTE;
    } else if s[0] == QUOTE {
      var more := Doubled(s[1..]) + rest';
      assert left[1..] == s[1..] + rest;
      assert right[1..] == Quotes(n + 1) + more by {
        assert right == Quotes(n) + ([QUOTE, QUOTE] + Doubled(s[1..]) + rest');
        assert right == Quotes(n + 2) + more;
      }
      WrittenIsNotDoubled(s[1..], rest, n + 1, rest');
    } else {
      assert left[0] == s[0];
    }
  }

  /** A text that contains a quote, written as it stands, is not read back as itself. */
  lemma {:induction false} QuotedTextIsNotReadBack(s: Text, rest: Text)
    requires !QuoteFree(s) && ClosesQuote(rest) && |rest| > 1
    ensures var r := ReadQuoted(s + rest); r.Some? ==> r.value.0 != s
    decreases |s|
  {
    var text := s + rest;
    var r := ReadQuoted(text);
    if r.Some? {
      ReadQuotedIs(text);
      NotDoubled(s, rest, r.value.1);
    }
  }

  lemma {:induction false} NotDoubled(s: Text, rest: Text, rest': Text)
    requires !QuoteFree(s) && ClosesQuote(rest) && |rest| > 1 && ClosesQuote(rest')
    ensures s + rest != Doubled(s) + rest'
    decreases |s|
  {
    var left, right := s + rest, Doubled(s) + rest';
    if s[0] == QUOTE {
      assert left[1..] == s[1..] + rest;
      assert right[1..] == Quotes(1) + (Doubled(s[1..]) + rest');
      WrittenIsNotDoubled(s[1..], rest, 1, rest');
    } else {
      assert !QuoteFree(s[1..]);
      assert left[1..] == s[1..] + rest;
      assert right[1..] == Doubled(s[1..]) + rest';
      NotDoubled(s[1..], rest, rest');
    }
  }
}

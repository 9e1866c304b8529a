// The bytes the proxy works on, and the few facts about C strings and C buffers it relies on.
module Bytes {
  newtype byte = x: int | 0 <= x < 256

  /** A run of bytes. When it stands for a C string, the terminating NUL is not part of it. */
  type Text = seq<byte>

  const NUL: byte := 0
  const LF: byte := 10
  const CR: byte := 13
  const DOLLAR: byte := 36
  const QUOTE: byte := 39
  const STAR: byte := 42
  const PLUS: byte := 43
  const MINUS: byte := 45
  const COLON: byte := 58

  /** The largest C int. */
  const INT_MAX: int := 0x7fff_ffff

  lemma IntMaxIs()
    ensures INT_MAX == 2147483647
  {
  }

  const CRLF: Text := [CR, LF]

  function ToByte(c: char): byte {
    if c as int < 256 then c as int as byte else 63
  }

  /** The bytes of a string literal. */
  function Ascii(s: string): (r: Text)
    ensures |r| == |s|
    ensures forall i :: 0 <= i < |s| ==> r[i] == ToByte(s[i])
  {
    seq(|s|, i requires 0 <= i < |s| => ToByte(s[i]))
  }

  /** The bytes of a literal are the codes of its characters. */
  lemma AsciiIs(s: string, i: nat)
    requires i < |s| && s[i] as int < 256
    ensures Ascii(s)[i] as int == s[i] as int
  {
  }

  lemma AsciiConcat(s: string, t: string)
    ensures Ascii(s + t) == Ascii(s) + Ascii(t)
  {
  }

  /** The marks of the protocol are these characters. */
  lemma MarksAre()
    ensures Ascii("*") == [STAR] && Ascii("$") == [DOLLAR] && Ascii("\r\n") == CRLF
    ensures Ascii("+") == [PLUS] && Ascii(":") == [COLON] && Ascii("-") == [MINUS] && Ascii("'") == [QUOTE]
  {
  }

  predicate NulFree(s: Text) {
    NUL !in s
  }

  /** The C string that starts at the beginning of a piece of memory. */
  function CStr(mem: Text): (s: Text)
    ensures |s| <= |mem| && s == mem[..|s|]
    ensures NulFree(s)
    ensures |s| < |mem| ==> mem[|s|] == NUL
  {
    if mem == [] || mem[0] == NUL then [] else [mem[0]] + CStr(mem[1..])
  }

  /** Whatever bytes follow its terminator, a stored C string reads back unchanged. */
  lemma {:induction false} CStrReadsBack(s: Text, tail: Text)
    requires NulFree(s)
    ensures CStr(s + [NUL] + tail) == s
  {
    if s != [] {
      assert s[0] in s && NulFree(s[1..]);
      assert (s + [NUL] + tail)[1..] == s[1..] + [NUL] + tail;
      CStrReadsBack(s[1..], tail);
    }
  }

  lemma ConcatAssoc<T>(a: seq<T>, b: seq<T>, c: seq<T>)
    ensures (a + b) + c == a + (b + c)
  {
  }

  /** `memcpy(buf + at, src, |src|)` on the contents of a buffer. */
  function Overwrite(buf: Text, at: nat, src: Text): (r: Text)
    requires at + |src| <= |buf|
    ensures |r| == |buf|
    ensures r[..at] == buf[..at]
    ensures r[at..at + |src|] == src
    ensures r[at + |src|..] == buf[at + |src|..]
  {
    buf[..at] + src + buf[at + |src|..]
  }

  /** The same write on a C buffer itself. */
  method Memcpy(buf: array<byte>, at: nat, src: Text)
    requires at + |src| <= buf.Length
    modifies buf
    ensures buf[..] == Overwrite(old(buf[..]), at, src)
  {
    forall i | 0 <= i < |src| {
      buf[at + i] := src[i];
    }
  }

  /** Memory whose contents the program knows nothing about. */
  method UnspecifiedBytes(n: nat) returns (mem: Text)
    ensures |mem| == n
  {
    mem := seq(n, _ => NUL);
  }
}

// Optional values.
module Wrappers {
  datatype Option<+T> = None | Some(value: T)

  function Lookup<K, V>(m: map<K, V>, k: K): (r: Option<V>) {
    if k in m then Some(m[k]) else None
  }

  lemma SameLookups<K, V>(m: map<K, V>, n: map<K, V>)
    requires forall k :: Lookup(m, k) == Lookup(n, k)
    ensures m == n
  {
    forall k
      ensures k in m <==> k in n
      ensures k in m ==> m[k] == n[k]
    {
      assert Lookup(m, k) == Lookup(n, k);
    }
  }
}

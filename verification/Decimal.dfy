// Decimal numerals: what `%d` and `%ld` print and what the parsers read back.
module Decimal {
  import opened Bytes

  predicate IsDigit(c: byte) {
    48 <= c <= 57
  }

  function DigitValue(c: byte): nat
    requires IsDigit(c)
  {
    (c - 48) as nat
  }

  function Print(n: nat): (ds: Text)
    ensures ds != [] && forall i :: 0 <= i < |ds| ==> IsDigit(ds[i])
  {
    var last := (48 + n % 10) as byte;
    if n < 10 then [last] else Print(n / 10) + [last]
  }

  lemma DigitIs(d: nat)
    requires d < 10
    ensures var c := Ascii("0123456789")[d]; IsDigit(c) && DigitValue(c) == d && Print(d) == [c]
  {
  }

  /** A number is printed digit by digit in base ten, the digits being the ten characters. */
  lemma PrintIs(n: nat)
    ensures n < 10 ==> Print(n) == [Ascii("0123456789")[n]]
    ensures n >= 10 ==> Print(n) == Print(n / 10) + [Ascii("0123456789")[n % 10]]
    ensures forall i :: 0 <= i < |Print(n)| ==> '0' as int <= Print(n)[i] as int <= '9' as int
  {
    DigitIs(n % 10);
  }

  /** The number read so far, after more digits. */
  function Continue(acc: nat, ds: Text): nat
    requires forall i :: 0 <= i < |ds| ==> IsDigit(ds[i])
    decreases |ds|
  {
    if ds == [] then acc else Continue(acc * 10 + DigitValue(ds[0]), ds[1..])
  }

  lemma {:induction false} ContinueAppend(acc: nat, ds: Text, d: byte)
    requires forall i :: 0 <= i < |ds| ==> IsDigit(ds[i])
    requires IsDigit(d)
    ensures Continue(acc, ds + [d]) == Continue(acc, ds) * 10 + DigitValue(d)
    decreases |ds|
  {
    if ds == [] {
      assert [d][1..] == [];
      assert Continue(acc, [d]) == Continue(acc * 10 + DigitValue(d), []);
      assert ds + [d] == [d];
    } else {
      assert (ds + [d])[1..] == ds[1..] + [d];
      ContinueAppend(acc * 10 + DigitValue(ds[0]), ds[1..], d);
    }
  }

  /** Reading a printed number gives the number back. */
  lemma {:induction false} PrintReadsBack(n: nat)
    ensures Continue(0, Print(n)) == n
  {
    var last := (48 + n % 10) as byte;
    if n < 10 {
      ContinueAppend(0, [], last);
      assert [] + [last] == Print(n);
    } else {
      PrintReadsBack(n / 10);
      ContinueAppend(0, Print(n / 10), last);
    }
  }

  lemma {:induction false} ContinueGrows(acc: nat, ds: Text)
    requires forall i :: 0 <= i < |ds| ==> IsDigit(ds[i])
    ensures acc <= Continue(acc, ds)
    decreases |ds|
  {
    if ds != [] {
      ContinueGrows(acc * 10 + DigitValue(ds[0]), ds[1..]);
    }
  }

  function Power10(k: nat): nat {
    if k == 0 then 1 else 10 * Power10(k - 1)
  }

  /** A number below ten to the k prints in at most k digits, so a printed int fits a 20-byte buffer. */
  lemma {:induction false} PrintLength(n: nat, k: nat)
    requires 1 <= k && n < Power10(k)
    ensures |Print(n)| <= k
  {
    if n >= 10 {
      assert Power10(k) == 10 * Power10(k - 1);
      PrintLength(n / 10, k - 1);
    }
  }

  /** A printed int fits the 20-byte buffers the proxy prints into, with its terminator. */
  lemma PrintedIntFits(n: nat)
    requires n <= INT_MAX
    ensures |Print(n)| <= 10
  {
    assert Power10(3) == 1000;
    assert Power10(6) == 1000 * Power10(3);
    assert Power10(9) == 1000 * Power10(6);
    PrintLength(n, 10);
  }

  /** `snprintf(buf, size, "%d", n)` where the number fits; the result is the number of digits. */
  method PrintInto(buf: array<byte>, n: nat) returns (count: nat)
    requires |Print(n)| < buf.Length
    modifies buf
    ensures count == |Print(n)| && buf[..count] == Print(n)
  {
    var digits := Print(n);
    Memcpy(buf, 0, digits + [NUL]);
    count := |digits|;
    assert buf[..count + 1] == digits + [NUL];
    assert buf[..count] == buf[..count + 1][..count];
  }
}

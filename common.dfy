/** Shared vocabulary of the serial terminal model: bytes, optional
    values, and flattening of a list of packets into one stream. */
module Common {

  /** One octet as read from or written to the UART. */
  type Byte = b: int | 0 <= b < 256

  datatype Option<+T> = None | Some(value: T)

  /** The bytes of all packets, in order, with no separator (the
      concatenation `b''.join(packets)`). Defined from the end so that
      appending one packet unfolds in one step. */
  function Concat(packets: seq<seq<Byte>>): seq<Byte>
  {
    if packets == [] then []
    else Concat(packets[..|packets| - 1]) + packets[|packets| - 1]
  }

  lemma {:induction false} ConcatAppend(a: seq<seq<Byte>>, b: seq<seq<Byte>>)
    ensures Concat(a + b) == Concat(a) + Concat(b)
    decreases |b|
  {
    if b == [] {
      assert a + b == a;
    } else {
      var b' := b[..|b| - 1];
      assert (a + b)[..|a + b| - 1] == a + b';
      ConcatAppend(a, b');
    }
  }

  lemma ConcatCons(p: seq<Byte>, rest: seq<seq<Byte>>)
    ensures Concat([p] + rest) == p + Concat(rest)
  {
    ConcatAppend([p], rest);
    assert Concat([p]) == Concat([]) + p;
  }

  /** The number a string of decimal digits denotes, read left to right. */
  function DigitsValue(s: string): int
    decreases |s|
  {
    if s == [] then 0 else 10 * DigitsValue(s[..|s| - 1]) + (s[|s| - 1] as int - '0' as int)
  }

  /** Decimal digits of `n`, as Python's `str(n)` prints a non-negative int:
      the digits denote `n` and there is no leading zero. */
  function DecimalString(n: nat): (s: string)
    ensures |s| >= 1
    ensures forall i :: 0 <= i < |s| ==> '0' <= s[i] <= '9'
    ensures DigitsValue(s) == n
    ensures s[0] == '0' ==> s == "0"
    ensures n < 10 <==> |s| == 1
    decreases n
  {
    if n < 10 then ["0123456789"[n]]
    else
      var p := DecimalString(n / 10);
      var c := "0123456789"[n % 10];
      assert (p + [c])[..|p|] == p;
      p + [c]
  }
}

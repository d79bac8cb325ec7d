/** What the driver models share: bytes, and optional values. Bit operations of the sources are
    written as division and remainder by powers of two. */
module Bytes {
  type Byte = b: int | 0 <= b < 256
  type Nibble = n: int | 0 <= n < 16

  datatype Option<+T> = None | Some(value: T)

  function Min(a: nat, b: nat): nat {
    if a <= b then a else b
  }

  lemma Regrouped<T>(a: seq<T>, b: seq<T>, c: seq<T>)
    ensures a + (b + c) == a + b + c
  {}

  /** The four bits in reverse order. */
  function Reversed(n: Nibble): Nibble {
    var table: seq<Nibble> := [0, 8, 4, 12, 2, 10, 6, 14, 1, 9, 5, 13, 3, 11, 7, 15];
    table[n]
  }

  lemma BitsReversed(n: Nibble)
    ensures Reversed(n) == n % 2 * 8 + n / 2 % 2 * 4 + n / 4 % 2 * 2 + n / 8
  {
    if n == 0 {} else if n == 1 {} else if n == 2 {} else if n == 3 {} else if n == 4 {} else if n == 5 {}
    else if n == 6 {} else if n == 7 {} else if n == 8 {} else if n == 9 {} else if n == 10 {} else if n == 11 {}
    else if n == 12 {} else if n == 13 {} else if n == 14 {} else {}
  }

  /** The eight bits in reverse order, each complemented: how a card of inverse convention sends a
      byte. */
  function Inverted(b: Byte): Byte {
    16 * (15 - Reversed(b % 16)) + (15 - Reversed(b / 16))
  }

  lemma ReversedTwice(n: Nibble)
    ensures Reversed(15 - Reversed(n)) == 15 - n
  {}

  lemma Nibbles(high: Nibble, low: Nibble)
    ensures var b := 16 * high + low; b / 16 == high && b % 16 == low
  {}

  lemma InvertedNibbles(high: Nibble, low: Nibble, b: Byte)
    requires b / 16 == high && b % 16 == low
    ensures Inverted(b) == 16 * (15 - Reversed(low)) + (15 - Reversed(high))
  {}

  /** Inverting twice gives the byte back. */
  lemma InvertedTwice(b: Byte)
    ensures Inverted(Inverted(b)) == b
  {
    var high, low := 15 - Reversed(b % 16), 15 - Reversed(b / 16);
    Nibbles(high, low);
    InvertedNibbles(high, low, Inverted(b));
    ReversedTwice(b % 16);
    ReversedTwice(b / 16);
  }

  function InvertedAll(s: seq<Byte>): (r: seq<Byte>)
    ensures |r| == |s|
  {
    seq(|s|, k requires 0 <= k < |s| => Inverted(s[k]))
  }

  lemma InvertedAllAt(s: seq<Byte>, k: nat)
    requires k < |s|
    ensures InvertedAll(s)[k] == Inverted(s[k])
  {}

  lemma InvertedAllAppend(a: seq<Byte>, b: seq<Byte>)
    ensures InvertedAll(a + b) == InvertedAll(a) + InvertedAll(b)
  {
    forall k | 0 <= k < |a + b|
      ensures InvertedAll(a + b)[k] == (InvertedAll(a) + InvertedAll(b))[k]
    {
      InvertedAllAt(a + b, k);
      if k < |a| {
        InvertedAllAt(a, k);
      } else {
        InvertedAllAt(b, k - |a|);
      }
    }
  }

  lemma InvertedAllTwice(s: seq<Byte>)
    ensures InvertedAll(InvertedAll(s)) == s
  {
    forall k | 0 <= k < |s|
      ensures InvertedAll(InvertedAll(s))[k] == s[k]
    {
      InvertedAllAt(s, k);
      InvertedAllAt(InvertedAll(s), k);
      InvertedTwice(s[k]);
    }
  }
}

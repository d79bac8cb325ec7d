/** Packets as the transport stream merger of pti/pti_main.c delivers them: six bytes of header, the first
    of which carries a tag between two bits above and two below it, and a payload of 188 bytes. */
module PtiPackets {
  import opened Bytes

  datatype Parts = Parts(high: nat, tag: nat, low: nat, rest: seq<Byte>, payload: seq<Byte>)

  type Packet = p: Parts | p.high < 4 && p.tag < 16 && p.low < 4 && |p.rest| == 5 && |p.payload| == 188
    witness Parts(0, 0, 0, [0, 0, 0, 0, 0], seq(188, _ => 0))

  function Assembled(p: Packet): (bytes: seq<Byte>)
    ensures |bytes| == 194
  {
    [64 * p.high + 4 * p.tag + p.low] + p.rest + p.payload
  }

  /** The packets one behind the other. */
  function Flat(packets: seq<Packet>): (bytes: seq<Byte>)
    ensures |bytes| == 194 * |packets|
  {
    if packets == [] then [] else Flat(packets[..|packets| - 1]) + Assembled(packets[|packets| - 1])
  }

  /** The payloads sent under a tag, in order. */
  function SentUnder(packets: seq<Packet>, tag: nat): (bytes: seq<Byte>) {
    if packets == [] then []
    else
      var most, last := packets[..|packets| - 1], packets[|packets| - 1];
      if last.tag == tag then SentUnder(most, tag) + last.payload else SentUnder(most, tag)
  }

  lemma {:induction false} FlatAt(packets: seq<Packet>, k: nat)
    ensures k < |packets| ==> Flat(packets)[194 * k..194 * (k + 1)] == Assembled(packets[k])
    decreases |packets|
  {
    if k < |packets| {
      var most, last := packets[..|packets| - 1], packets[|packets| - 1];
      if k < |packets| - 1 {
        FlatAt(most, k);
        assert Flat(packets)[194 * k..194 * (k + 1)] == Flat(most)[194 * k..194 * (k + 1)];
      }
    }
  }
}

/** Memory as seen through a first-in first-out store buffer: total store order on one channel's shared bytes. */
module StoreBuffer {
  import opened MachineInts

  /** The shared bytes of a channel: byte 0 of each dataspace is the flag, the rest is the payload window. */
  datatype Loc = InFlag | In(i: nat) | OutFlag | Out(i: nat)

  /** Dataspaces start zeroed: a location never written reads as 0. */
  type Memory = map<Loc, byte>

  datatype Store = Store(loc: Loc, value: byte)

  function Get(mem: Memory, l: Loc): byte {
    if l in mem then mem[l] else 0
  }

  /** What the owner of the buffer reads: its own newest pending store to the location, else memory. */
  function View(buf: seq<Store>, mem: Memory, l: Loc): byte {
    if buf == [] then Get(mem, l)
    else if buf[|buf| - 1].loc == l then buf[|buf| - 1].value
    else View(buf[..|buf| - 1], mem, l)
  }

  predicate Misses(buf: seq<Store>, l: Loc) {
    forall k :: 0 <= k < |buf| ==> buf[k].loc != l
  }

  lemma ViewPush(buf: seq<Store>, mem: Memory, s: Store)
    ensures forall l :: View(buf + [s], mem, l) == if l == s.loc then s.value else View(buf, mem, l)
  {
    assert (buf + [s])[..|buf|] == buf;
  }

  /** Draining the oldest store does not change what its owner reads. */
  lemma {:induction false} ViewDrain(buf: seq<Store>, mem: Memory, l: Loc)
    requires buf != []
    ensures View(buf[1..], mem[buf[0].loc := buf[0].value], l) == View(buf, mem, l)
  {
    var n := |buf| - 1;
    if n > 0 {
      assert buf[1..][..n - 1] == buf[..n][1..];
      ViewDrain(buf[..n], mem, l);
    }
  }

  lemma {:induction false} ViewMiss(buf: seq<Store>, mem: Memory, l: Loc)
    requires Misses(buf, l)
    ensures View(buf, mem, l) == Get(mem, l)
  {
    if buf != [] {
      ViewMiss(buf[..|buf| - 1], mem, l);
    }
  }
}

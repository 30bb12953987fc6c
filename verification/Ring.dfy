/** The 2048-slot byte ring between the PN532 UART and the frame parsers. */
module Pn532Ring {
  import opened Words

  const SLOTS := 2048
  const CAPACITY := SLOTS - 1

  class Ring {
    const slots: array<byte>
    var head: nat
    var tail: nat
    ghost var contents: seq<byte>   // the bytes held, oldest first

    ghost predicate Valid()
      reads this, slots
    {
      && slots.Length == SLOTS && head < SLOTS && tail < SLOTS
      && contents == (if tail <= head then slots[tail..head] else slots[tail..] + slots[..head])
      && |contents| <= CAPACITY
    }

    constructor ()
      ensures Valid() && fresh(slots) && contents == []
    {
      slots := new byte[SLOTS](_ => 0);
      head, tail, contents := 0, 0, [];
    }

    function Next(position: nat): nat {
      (position + 1) % SLOTS
    }

    method Clear()
      requires Valid()
      modifies this
      ensures Valid() && contents == []
    {
      head, tail, contents := 0, 0, [];
    }

    /** One slot always stays free, so a push is refused exactly at 2047 bytes. */
    method Push(value: byte) returns (accepted: bool)
      requires Valid()
      modifies this, slots
      ensures Valid()
      ensures accepted <==> |old(contents)| < 2047
      ensures contents == if accepted then old(contents) + [value] else old(contents)
    {
      var next := Next(head);
      if next == tail {
        return false;
      }
      slots[head] := value;
      head := next;
      contents := contents + [value];
      return true;
    }

    method Pop() returns (popped: bool, value: byte)
      requires Valid()
      modifies this`tail, this`contents
      ensures Valid()
      ensures popped <==> old(contents) != []
      ensures popped ==> old(contents) == [value] + contents
      ensures !popped ==> contents == []
    {
      if head == tail {
        return false, 0;
      }
      value := slots[tail];
      assert contents == [value] + contents[1..];
      tail := Next(tail);
      contents := contents[1..];
      return true, value;
    }
  }

  // ----- The FIFO that the ring implements -----

  datatype Op = Push(value: byte) | Pop

  /** What a sequence of operations leaves in the queue and what went in and came out. */
  datatype Traffic = Traffic(held: seq<byte>, accepted: seq<byte>, popped: seq<byte>)

  function Offer(held: seq<byte>, value: byte): seq<byte> {
    if |held| < CAPACITY then held + [value] else held
  }

  /** The bytes a drain leaves behind: pushes past the capacity are lost. */
  function OfferAll(held: seq<byte>, values: seq<byte>): seq<byte>
    decreases |values|
  {
    if values == [] then held else OfferAll(Offer(held, values[0]), values[1..])
  }

  function Apply(t: Traffic, op: Op): Traffic {
    match op
    case Push(v) =>
      if |t.held| < CAPACITY then Traffic(t.held + [v], t.accepted + [v], t.popped) else t
    case Pop =>
      if t.held == [] then t else Traffic(t.held[1..], t.accepted, t.popped + [t.held[0]])
  }

  function Operate(t: Traffic, ops: seq<Op>): Traffic
    decreases |ops|
  {
    if ops == [] then t else Operate(Apply(t, ops[0]), ops[1..])
  }

  /** Over every sequence of pushes and pops the bytes come out in the order in which they
      were accepted, none lost and none repeated, and never more than 2047 are held. */
  lemma {:induction false} FirstInFirstOut(t: Traffic, ops: seq<Op>)
    requires |t.held| <= CAPACITY
    requires t.accepted == t.popped + t.held
    ensures var u := Operate(t, ops);
            u.accepted == u.popped + u.held && |u.held| <= CAPACITY
            && t.popped <= u.popped && t.accepted <= u.accepted
    decreases |ops|
  {
    if ops != [] {
      FirstInFirstOut(Apply(t, ops[0]), ops[1..]);
    }
  }

  /** A chunk that fits is held whole; one that does not keeps exactly the prefix that fits. */
  lemma {:induction false} OfferAllKeepsPrefix(held: seq<byte>, values: seq<byte>)
    requires |held| <= CAPACITY
    ensures OfferAll(held, values) == held + values[..Min(|values|, CAPACITY - |held|)]
    decreases |values|
  {
    if values == [] {
    } else {
      OfferAllKeepsPrefix(Offer(held, values[0]), values[1..]);
      if |held| < CAPACITY {
        var n := Min(|values|, CAPACITY - |held|);
        assert values[..n] == [values[0]] + values[1..][..n - 1];
      }
    }
  }
}

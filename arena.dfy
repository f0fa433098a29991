/**
 * The allocator the packer writes through, single-threaded: a growable byte arena whose
 * allocate(n) hands out the current end as a stable offset and grows the arena by n bytes.
 * Reserved bytes start out zero; the packer then fills them through WriteBytes, which stands
 * for the slice view and the raw copies into it.
 */
module Arena {
  import opened Common

  class Allocator {
    /** Backing store; only buf[..top] has been handed out. */
    var buf: array<Byte>
    /** The next free offset. */
    var top: nat

    ghost predicate Valid()
      reads this, buf
    {
      top <= buf.Length && forall i :: top <= i < buf.Length ==> buf[i] == 0
    }

    /** The bytes handed out so far, in offset order. */
    ghost function Memory(): seq<Byte>
      reads this, buf
      requires Valid()
    {
      buf[..top]
    }

    constructor ()
      ensures Valid() && fresh(buf)
      ensures Memory() == []
    {
      buf := new Byte[0];
      top := 0;
    }

    /** Reserves `length` zero bytes at the end of the arena and returns where they start. */
    method Allocate(length: nat) returns (offset: nat)
      requires Valid()
      modifies this
      ensures Valid()
      ensures buf == old(buf) || fresh(buf)
      ensures offset == |old(Memory())|
      ensures Memory() == old(Memory()) + Zeros(length)
    {
      if top + length > buf.Length {
        var capacity := if 2 * buf.Length >= top + length then 2 * buf.Length else top + length;
        var grown := new Byte[capacity](_ => 0);
        forall i | 0 <= i < top {
          grown[i] := buf[i];
        }
        buf := grown;
      }
      offset := top;
      top := top + length;
      assert Memory() == old(Memory()) + Zeros(length);
    }

    /** Copies `bytes` into already reserved space starting at `pos`. */
    method WriteBytes(pos: nat, bytes: seq<Byte>)
      requires Valid()
      requires pos + |bytes| <= |Memory()|
      modifies buf
      ensures Valid()
      ensures Memory() == old(Memory())[..pos] + bytes + old(Memory())[pos + |bytes|..]
    {
      forall i | 0 <= i < |bytes| {
        buf[pos + i] := bytes[i];
      }
      assert Memory() == old(Memory())[..pos] + bytes + old(Memory())[pos + |bytes|..];
    }
  }
}

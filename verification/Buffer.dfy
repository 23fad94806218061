// The growing byte buffer: contents behind a hidden NUL sentinel, and a read position.
module Buffers {
  import opened Bytes
  import opened Wrappers

  const PIECE_SIZE := 2048

  // Appending to a buffer grows the allocation when the stored bytes plus the
  // new ones exceed it; that test does not count the sentinel a first append adds.
  predicate Overruns(used: nat, size: nat, length: nat) {
    used == 0 < length && length == size
  }

  // The next multiple of PIECE_SIZE above n.
  function RoundedUp(n: nat): (r: nat)
    ensures n < r
  {
    n + (PIECE_SIZE - n % PIECE_SIZE)
  }

  // The allocation after an append of `length` bytes.
  function Allocated(used: nat, size: nat, length: nat): (r: nat)
    ensures size <= r
  {
    if length == 0 || used + length <= size then size
    else RoundedUp(used + length)
  }

  // The allocation is `mem[..size]`. The cell mem[size] stands for the byte of
  // memory right behind the allocation, which an overrunning append writes.
  class Buffer {
    var mem: array<byte>
    var rpos: nat
    var used: nat
    var size: nat

    // Whether a sentinel has ever been written behind the allocation.
    ghost var overran: bool

    ghost predicate Valid()
      reads this, mem
    {
      && mem.Length == size + 1
      && rpos <= used <= size + 1
      && (used > 0 ==> mem[used - 1] == 0)
    }

    // The sentinel, and so everything in use, lies inside the allocation.
    ghost predicate InBounds()
      reads this
    {
      used <= size
    }

    // What is stored, without the sentinel.
    ghost function Content(): seq<byte>
      requires Valid()
      reads this, mem
    {
      if used == 0 then [] else mem[..used - 1]
    }

    // What is stored from the read position on.
    ghost function Unread(): seq<byte>
      requires Valid()
      reads this, mem
    {
      if rpos < used then mem[rpos..used - 1] else []
    }

    lemma UnreadIs()
      requires Valid() && rpos <= |Content()|
      ensures Unread() == Content()[rpos..]
    {
    }

    lemma UnreadSlice(lo: nat, hi: nat)
      requires Valid() && lo <= hi <= |Unread()|
      ensures rpos + hi <= used
      ensures Unread()[lo..hi] == mem[rpos + lo..rpos + hi]
    {
    }

    constructor (size: nat)
      ensures Valid() && InBounds() && Content() == [] && rpos == 0
      ensures this.size == size && used == 0 && fresh(mem) && !overran
    {
      this.size := size;
      this.overran := false;
      this.used := 0;
      this.rpos := 0;
      new;
      mem := new byte[size + 1](_ => 0);
    }

    // Reallocates to the next multiple of PIECE_SIZE above `wanted`.
    method Grow(wanted: nat)
      requires mem.Length == size + 1 && size < wanted
      modifies this`mem, this`size
      ensures fresh(mem) && mem.Length == size + 1
      ensures size == RoundedUp(wanted)
      ensures mem[..old(size)] == old(mem[..size])
    {
      var newSize := wanted + (PIECE_SIZE - wanted % PIECE_SIZE);
      var newMem := new byte[newSize + 1];
      forall i | 0 <= i < size {
        newMem[i] := mem[i];
      }
      size := newSize;
      mem := newMem;
    }

    method Append(str: seq<byte>)
      requires Valid()
      modifies this, mem
      ensures Valid() && (mem == old(mem) || fresh(mem))
      ensures Content() == old(Content()) + str
      ensures rpos == old(rpos)
      ensures old(rpos) <= |old(Content())| ==> Unread() == old(Unread()) + str
      ensures InBounds() <==>
              if str == [] then old(InBounds()) else !Overruns(old(used), old(size), |str|)
      ensures size == Allocated(old(used), old(size), |str|)
      ensures overran <==> old(overran) || Overruns(old(used), old(size), |str|)
      ensures used == if str == [] then old(used) else |Content()| + 1
    {
      if |str| == 0 {
        return;
      }
      MakeRoom(|str|);
      ghost var content := mem[..used - 1];
      Store(str);
      assert Content() == content + str;
      overran := overran || used > size;
    }

    // Sees to it that `length` more bytes fit, and counts a first sentinel.
    method MakeRoom(length: nat)
      requires Valid() && length > 0
      modifies this`mem, this`size, this`used
      ensures (mem == old(mem) || fresh(mem)) && mem.Length == size + 1
      ensures size == Allocated(old(used), old(size), length)
      ensures used == (if old(used) == 0 then 1 else old(used)) && used + length <= size + 1
      ensures used + length <= size <==> !Overruns(old(used), old(size), length)
      ensures mem[..used - 1] == old(Content())
    {
      hide RoundedUp;
      if used + length > size {
        Grow(used + length);
      }
      if used == 0 {
        used := 1;
      }
    }

    // Copies str over the sentinel and puts a new one behind it.
    method Store(str: seq<byte>)
      requires mem.Length == size + 1 && 0 < used
      requires used + |str| <= size + 1
      modifies this`used, mem
      ensures used == old(used) + |str|
      ensures mem[..used - 1] == old(mem[..used - 1]) + str
      ensures mem[used - 1] == 0
    {
      var at := used - 1;
      forall i | 0 <= i < |str| {
        mem[at + i] := str[i];
      }
      used := used + |str|;
      mem[used - 1] := 0;
      assert mem[..at] == old(mem[..at]);
      assert mem[at..used - 1] == str;
    }

    method TrimLeft()
      requires Valid()
      modifies this, mem
      ensures Valid() && mem == old(mem) && size == old(size) && overran == old(overran)
      ensures Unread() == old(Unread())
      ensures old(rpos) <= |old(Content())| ==> rpos == 0 && Content() == old(Unread())
      ensures old(rpos) > |old(Content())| ==>
                rpos == old(rpos) && used == old(used) && Content() == old(Content())
      ensures old(InBounds()) ==> InBounds()
    {
      if rpos == 0 {
        return;
      }
      if used - rpos <= 0 {
        return;
      }
      var count := used - rpos;
      var from := rpos;
      forall i | 0 <= i < count {
        mem[i] := mem[from + i];
      }
      rpos := 0;
      used := count;
      assert Content() == old(Unread());
    }

    method Clear()
      requires Valid()
      modifies this`used, this`rpos
      ensures Valid() && Content() == [] && rpos == 0
      ensures used == 0 && mem == old(mem) && size == old(size) && InBounds()
    {
      used := 0;
      rpos := 0;
    }

    // A copy without the sentinel, or None when nothing was ever appended.
    method CopyWithoutSentinel() returns (copy: Option<seq<byte>>)
      requires Valid()
      ensures copy == if used == 0 then None else Some(Content())
    {
      if used < 1 {
        return None;
      }
      return Some(mem[..used - 1]);
    }

    // A read through a pointer. Past what is in use, memory holds anything.
    method Peek(i: nat) returns (b: byte)
      requires Valid()
      ensures i < used ==> b == mem[i]
    {
      if i < used {
        b := mem[i];
      } else {
        b := *;
      }
    }
  }
}

// How much memory the fragment buffer of a client takes, and whether its sentinel
// ever leaves it, as a function of the frames.
module Storages {
  import opened Bytes
  import opened Buffers
  import opened Wire
  import opened Frames
  import opened Sessions

  // The allocation, and whether a sentinel has been written behind it.
  datatype Storage = Storage(size: nat, overran: bool)

  function Pending(s: Session): seq<byte> {
    if s.Inside? then s.data else []
  }

  // Data is stored behind what is pending. The sentinel of the first data stored is
  // not counted when room is made for it.
  function Keep(g: Storage, pending: seq<byte>, data: seq<byte>): Storage {
    var used := if pending == [] then 0 else |pending| + 1;
    Storage(Allocated(used, g.size, |data|), g.overran || Overruns(used, g.size, |data|))
  }

  function KeepFrame(g: Storage, s: Session, f: Parsed): Storage {
    if !Breaches(s, f) && (!f.fin || f.opcode == CONT) then Keep(g, Pending(s), f.data) else g
  }

  // What a call keeps of the frames it handles.
  function KeepAll(g: Storage, s: Session, u: seq<byte>): Storage
    decreases |u|
  {
    if s.Dropped? then g
    else
      match Parse(u, Carry(s))
      case Done(f, n) =>
        ParseConsumes(u, Carry(s));
        if f.masked then KeepAll(KeepFrame(g, s, f), Handle(s, f).next, u[n..]) else g
      case _ => g
  }

  // One round of a call.
  lemma KeepRound(g: Storage, s: Session, u: seq<byte>)
    requires !s.Dropped?
    ensures var o := Parse(u, Carry(s));
            KeepAll(g, s, u) ==
              if o.Done? && o.frame.masked then KeepAll(KeepFrame(g, s, o.frame), Handle(s, o.frame).next, u[o.consumed..])
              else g
  {
    hide Parse, Handle, KeepFrame;
  }

  // A dropped client keeps nothing more.
  lemma KeepsNoMore(g: Storage, u: seq<byte>)
    ensures KeepAll(g, Dropped, u) == g
  {
  }
}

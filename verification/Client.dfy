// The client object and the server's reaction to bytes from it.
module Clients {
  import opened Bytes
  import opened Wrappers
  import opened Buffers
  import opened Wire
  import opened Frames
  import opened Sessions
  import opened Storages
  import opened Murmur

  const BUFFER_SIZE := 4096

  datatype State = Connecting | Opened | Closing | Closed

  datatype DataState = AwaitingHandshake | AwaitingFrame | AwaitingFragment

  class Client {
    var state: State
    var dataState: DataState
    var bufferIn: Buffer
    var fragmentedFrame: Frame?
    var fragmentedData: Buffer

    // The number under which the reader files this client.
    var id: word

    // Whether the event loop still listens to this client.
    var watched: bool

    // What the server has done on behalf of this client, in order.
    var events: seq<Event>

    // Everything that holds also while a frame is being handled.
    ghost predicate Shape()
      reads this, bufferIn, bufferIn.mem, fragmentedData, fragmentedData.mem, fragmentedFrame
    {
      && bufferIn != fragmentedData && bufferIn.mem != fragmentedData.mem
      && bufferIn.Valid() && bufferIn.rpos <= |bufferIn.Content()|
      && fragmentedData.Valid() && fragmentedData.used != 1
      && (watched ==> state == if dataState.AwaitingHandshake? then Connecting else Opened)
      && (watched && dataState.AwaitingHandshake? ==> bufferIn.rpos == 0)
      && (if fragmentedFrame == null then fragmentedData.Content() == []
          else fragmentedFrame.opcode == TEXT || fragmentedFrame.opcode == BIN)
    }

    // A fragmented message is pending exactly in the state that awaits its next frame.
    ghost predicate Valid()
      reads this, bufferIn, bufferIn.mem, fragmentedData, fragmentedData.mem, fragmentedFrame
    {
      Shape() && (dataState.AwaitingFragment? <==> fragmentedFrame != null)
    }

    // The session this client is in, once its handshake is done.
    ghost function Session(): Session
      requires Shape()
      reads this, bufferIn, bufferIn.mem, fragmentedData, fragmentedData.mem, fragmentedFrame
    {
      if !watched then Dropped
      else if fragmentedFrame == null then Between
      else Inside(fragmentedFrame.opcode, fragmentedFrame.utf8State, fragmentedData.Content())
    }

    // The memory of the fragment buffer.
    ghost function Room(): Storage
      reads this`fragmentedData, fragmentedData`size, fragmentedData`overran
    {
      Storage(fragmentedData.size, fragmentedData.overran)
    }

    constructor ()
      ensures Room() == Storage(BUFFER_SIZE, false)
      ensures Valid() && dataState == AwaitingHandshake && watched && events == []
      ensures bufferIn.Content() == [] && bufferIn.InBounds() && bufferIn.size == BUFFER_SIZE
      ensures fragmentedFrame == null && fragmentedData.used == 0 && fragmentedData.size == BUFFER_SIZE
      ensures fresh(bufferIn) && fresh(bufferIn.mem) && fresh(fragmentedData) && fresh(fragmentedData.mem)
    {
      state, dataState, id := Connecting, AwaitingHandshake, 0;
      var input := new Buffer(BUFFER_SIZE);
      var fragments := new Buffer(BUFFER_SIZE);
      bufferIn, fragmentedData := input, fragments;
      fragmentedFrame := null;
      watched, events := true, [];
    }

    // The fragment buffer stays within its allocation unless this data, the first in
    // an empty buffer, has exactly the allocated size.
    twostate predicate FragmentFits(data: seq<byte>)
      reads this, fragmentedData
    {
      fragmentedData.InBounds() <==>
        if data == [] then old(fragmentedData.InBounds())
        else !Overruns(old(fragmentedData.used), old(fragmentedData.size), |data|)
    }

    // Appends the data of a frame to the message that is pending, or begins one.
    method AddFragment(frame: Frame)
      requires Shape() && watched && dataState == AwaitingFragment && frame != fragmentedFrame
      requires fragmentedFrame == null ==> frame.opcode == TEXT || frame.opcode == BIN
      modifies this`fragmentedFrame, fragmentedFrame, fragmentedData, fragmentedData.mem
      ensures Valid()
      ensures fragmentedFrame == old(fragmentedFrame) || fresh(fragmentedFrame)
      ensures fragmentedData.mem == old(fragmentedData.mem) || fresh(fragmentedData.mem)
      ensures Session() == Sessions.AddFragment(old(Session()), frame.Value())
      ensures FragmentFits(frame.Data()) && Room() == Keep(old(Room()), Pending(old(Session())), frame.Data())
    {
      hide Overruns, Keep;
      ghost var f := frame.Value();
      KeepFirst(frame);
      assert frame.Data() == f.data;
      StoreData(frame.Data());
    }

    // Appends to the fragment buffer.
    method StoreData(data: seq<byte>)
      requires Shape() && fragmentedFrame != null
      modifies fragmentedData, fragmentedData.mem
      ensures Shape() && (fragmentedData.mem == old(fragmentedData.mem) || fresh(fragmentedData.mem))
      ensures fragmentedData.Content() == old(fragmentedData.Content()) + data
      ensures FragmentFits(data) && Room() == Keep(old(Room()), old(fragmentedData.Content()), data)
    {
      hide Overruns, Allocated;
      fragmentedData.Append(data);
    }

    // Remembers the first frame of a message, and how far its text has been checked.
    method KeepFirst(frame: Frame)
      requires Shape() && watched && frame != fragmentedFrame
      requires fragmentedFrame == null ==> frame.opcode == TEXT || frame.opcode == BIN
      modifies this`fragmentedFrame, fragmentedFrame
      ensures Shape() && fragmentedFrame != null && frame.Value() == old(frame.Value())
      ensures fragmentedFrame == old(fragmentedFrame) || fresh(fragmentedFrame)
      ensures fragmentedFrame.utf8State == frame.utf8State
      ensures fragmentedFrame.opcode == if old(fragmentedFrame) == null then frame.opcode
                                        else old(fragmentedFrame.opcode)
    {
      if fragmentedFrame == null {
        fragmentedFrame := CopyFrame(frame);
      }
      fragmentedFrame.utf8State := frame.utf8State;
    }

    // The first frame of a message is kept without its data.
    method CopyFrame(frame: Frame) returns (copy: Frame)
      ensures fresh(copy) && copy.opcode == frame.opcode && copy.data == None && copy.dataLength == 0
    {
      copy := new Frame();
      copy.isFin, copy.rsv, copy.opcode, copy.isMasked := frame.isFin, frame.rsv, frame.opcode, frame.isMasked;
      copy.payloadLen, copy.mask, copy.utf8State := frame.payloadLen, frame.mask, frame.utf8State;
    }

    // Takes the pending message as one frame and leaves none behind.
    method CompileFragments() returns (frame: Frame)
      requires Shape() && watched && fragmentedFrame != null
      modifies this`fragmentedFrame, fragmentedData
      ensures Shape() && Session() == Between
      ensures fresh(frame) && frame.opcode == old(Session()).opcode && frame.Data() == old(Session()).data
      ensures frame.dataLength == |frame.Data()|
      ensures fragmentedData.mem == old(fragmentedData.mem) && Room() == old(Room())
    {
      frame := CopyFrame(fragmentedFrame);
      frame.data := fragmentedData.CopyWithoutSentinel();
      if frame.data.Some? {
        frame.dataLength := |frame.data.value|;
      }
      fragmentedFrame := null;
      fragmentedData.Clear();
    }

    // Stops listening to this client.
    method DropClient()
      requires watched
      modifies this`watched, this`state, this`events
      ensures old(Valid()) ==> Valid() && Session() == Dropped
      ensures !watched && events == old(events) + [Drop]
    {
      watched := false;
      if state != Closed && state != Closing {
        state := Closing;
      }
      events := events + [Drop];
    }

    method HandleDataFrame(frame: Frame)
      requires frame.dataLength == |frame.Data()|
      modifies this`events
      ensures events == old(events) + [Message(frame.opcode, frame.Data())]
    {
      events := events + [Message(frame.opcode, frame.Data())];
    }

    method HandlePingFrame(frame: Frame)
      requires frame.dataLength == |frame.Data()|
      modifies this`events
      ensures events == if state == Opened then old(events) + [Pong(frame.Data())] else old(events)
    {
      if state != Opened {
        return;
      }
      events := events + [Pong(frame.Data())];
    }

    // The protocol checks on a masked frame, in the order they are made.
    method BreaksProtocol(frame: Frame) returns (breaks: bool)
      requires Valid() && watched && dataState != AwaitingHandshake
      ensures breaks <==> Breaches(Session(), frame.Value())
    {
      if frame.rsv > 0 {
        return true;
      } else if IsControl(frame.opcode) && !frame.isFin {
        return true;
      } else if frame.opcode == CONT && dataState == AwaitingFrame {
        return true;
      } else if dataState == AwaitingFragment && frame.opcode != CONT && !IsControl(frame.opcode) {
        return true;
      }
      return false;
    }

    // The last fragment: the whole message, as one frame under the first opcode.
    method LastFragment(parsed: Frame) returns (frame: Frame)
      requires Valid() && watched && dataState == AwaitingFragment && parsed != fragmentedFrame
      modifies this`dataState, this`fragmentedFrame, fragmentedFrame, fragmentedData, fragmentedData.mem
      ensures Valid() && dataState == AwaitingFrame && Session() == Between
      ensures fragmentedData.mem == old(fragmentedData.mem) || fresh(fragmentedData.mem)
      ensures var whole := Sessions.AddFragment(old(Session()), old(parsed.Value()));
              fresh(frame) && frame.opcode == whole.opcode && frame.Data() == whole.data
      ensures frame.dataLength == |frame.Data()|
      ensures Room() == Keep(old(Room()), Pending(old(Session())), old(parsed.Data()))
    {
      AddFragment(parsed);
      frame := CompileFragments();
      dataState := AwaitingFrame;
    }

    // The session has moved on, and acted, as the reply says.
    twostate predicate Reacts(r: Reply, goOn: bool)
      requires Shape()
      reads this, bufferIn, bufferIn.mem, fragmentedData, fragmentedData.mem, fragmentedFrame
    {
      Session() == r.next && events == old(events) + r.events && goOn == !r.next.Dropped?
    }

    // Acts on a final frame by its opcode. The loop goes on unless the client is dropped.
    method ActOn(frame: Frame) returns (goOn: bool)
      requires Valid() && watched && dataState != AwaitingHandshake && frame.dataLength == |frame.Data()|
      modifies this`state, this`watched, this`events
      ensures Valid()
      ensures Reacts(Act(old(Session()), frame.opcode, frame.Data()), goOn)
    {
      if frame.opcode == TEXT || frame.opcode == BIN {
        HandleDataFrame(frame);
      } else if frame.opcode == PING {
        HandlePingFrame(frame);
      } else if frame.opcode == CLOSE {
        DropClient();
        return false;
      }
      return true;
    }

    method HandleFinalFrame(parsed: Frame, ghost f: Parsed) returns (goOn: bool)
      requires Valid() && watched && dataState != AwaitingHandshake && parsed != fragmentedFrame
      requires KnownOpcode(f.opcode) && f == parsed.Value() && parsed.dataLength == |f.data|
      requires !Breaches(Session(), f) && f.fin
      modifies this`state, this`dataState, this`fragmentedFrame, this`watched, this`events
      modifies fragmentedFrame, fragmentedData, fragmentedData.mem
      ensures Valid() && (watched ==> dataState != AwaitingHandshake)
      ensures fragmentedFrame == null || fragmentedFrame == old(fragmentedFrame) || fresh(fragmentedFrame)
      ensures fragmentedData.mem == old(fragmentedData.mem) || fresh(fragmentedData.mem)
      ensures Reacts(Handle(old(Session()), f), goOn)
      ensures Room() == KeepFrame(old(Room()), old(Session()), f)
    {
      assert parsed.opcode == CONT ==> fragmentedFrame != null;
      hide Breaches;
      var frame := parsed;
      if frame.opcode == CONT {
        frame := LastFragment(parsed);
      }
      goOn := ActOn(frame);
    }

    // A fragment that more are to follow.
    method HandleFragment(parsed: Frame, ghost f: Parsed) returns (goOn: bool)
      requires Valid() && watched && dataState != AwaitingHandshake && parsed != fragmentedFrame
      requires f == parsed.Value() && !Breaches(Session(), f) && !f.fin && KnownOpcode(f.opcode)
      modifies this`dataState, this`fragmentedFrame, fragmentedFrame, fragmentedData, fragmentedData.mem
      ensures Valid() && dataState != AwaitingHandshake
      ensures fragmentedFrame == old(fragmentedFrame) || fresh(fragmentedFrame)
      ensures fragmentedData.mem == old(fragmentedData.mem) || fresh(fragmentedData.mem)
      ensures Reacts(Handle(old(Session()), f), goOn)
      ensures Room() == KeepFrame(old(Room()), old(Session()), f)
      ensures FragmentFits(f.data)
    {
      assert fragmentedFrame == null ==> parsed.opcode == TEXT || parsed.opcode == BIN;
      hide Breaches;
      dataState := AwaitingFragment;
      AddFragment(parsed);
      goOn := true;
    }

    method HandleProperFrame(parsed: Frame, ghost f: Parsed) returns (goOn: bool)
      requires Valid() && watched && dataState != AwaitingHandshake && parsed != fragmentedFrame
      requires KnownOpcode(f.opcode) && f == parsed.Value() && parsed.dataLength == |f.data|
      requires !Breaches(Session(), f)
      modifies this`state, this`dataState, this`fragmentedFrame, this`watched, this`events
      modifies fragmentedFrame, fragmentedData, fragmentedData.mem
      ensures Valid() && (watched ==> dataState != AwaitingHandshake)
      ensures fragmentedFrame == null || fragmentedFrame == old(fragmentedFrame) || fresh(fragmentedFrame)
      ensures fragmentedData.mem == old(fragmentedData.mem) || fresh(fragmentedData.mem)
      ensures Reacts(Handle(old(Session()), f), goOn)
      ensures Room() == KeepFrame(old(Room()), old(Session()), f)
    {
      hide Breaches, Handle;
      if parsed.isFin {
        goOn := HandleFinalFrame(parsed, f);
      } else {
        goOn := HandleFragment(parsed, f);
      }
    }

    // What a parsed, masked frame does. The loop goes on unless the client is dropped.
    method HandleFrame(parsed: Frame, ghost f: Parsed) returns (goOn: bool)
      requires Valid() && watched && dataState != AwaitingHandshake && parsed != fragmentedFrame
      requires KnownOpcode(f.opcode) && f == parsed.Value() && parsed.dataLength == |f.data|
      modifies this`state, this`dataState, this`fragmentedFrame, this`watched, this`events
      modifies fragmentedFrame, fragmentedData, fragmentedData.mem
      ensures Valid() && (watched ==> dataState != AwaitingHandshake)
      ensures fragmentedFrame == null || fragmentedFrame == old(fragmentedFrame) || fresh(fragmentedFrame)
      ensures fragmentedData.mem == old(fragmentedData.mem) || fresh(fragmentedData.mem)
      ensures Reacts(Handle(old(Session()), f), goOn)
      ensures Room() == KeepFrame(old(Room()), old(Session()), f)
    {
      var breaks := BreaksProtocol(parsed);
      if breaks {
        DropClient();
        return false;
      }
      goOn := HandleProperFrame(parsed, f);
    }

    // How one round of the loop shows: it ends as the whole call does, or hands
    // over to the rounds still to come.
    twostate predicate Advances(p: Progress, goOn: bool)
      requires Shape()
      reads this, bufferIn, bufferIn.mem, fragmentedData, fragmentedData.mem, fragmentedFrame
    {
      && old(events) <= events
      && var done := events[|old(events)|..];
         if goOn then p == Before(done, OnData(Session(), bufferIn.Unread()))
         else p.session == Session() && p.events == done && (watched ==> p.rest == bufferIn.Unread())
    }

    // Parses one frame into a new object, its automaton resuming a pending message.
    method ReadFrame() returns (frame: Frame, code: Code)
      requires Valid() && watched && dataState != AwaitingHandshake
      modifies bufferIn`rpos, bufferIn.mem
      ensures Valid() && fresh(frame) && Session() == old(Session())
      ensures var u, o := old(bufferIn.Unread()), Parse(old(bufferIn.Unread()), Carry(old(Session())));
              && code == CodeOf(o)
              && (o.Incomplete? ==> bufferIn.Unread() == u)
              && (o.Done? ==>
                    && o.consumed <= |u| && bufferIn.Unread() == u[o.consumed..]
                    && bufferIn.rpos == old(bufferIn.rpos) + o.consumed
                    && frame.Value() == o.frame && frame.dataLength == |o.frame.data|)
    {
      hide Parse, InPlace, SameOutside;
      frame := new Frame();
      if dataState == AwaitingFragment {
        frame.utf8State := fragmentedFrame.utf8State;
      }
      assert frame.utf8State == Carry(Session());
      code := frame.ParseBuffer(bufferIn);
    }

    // Parses one frame and handles it.
    method ParseFrame() returns (goOn: bool)
      requires Valid() && watched && dataState != AwaitingHandshake
      modifies this`state, this`dataState, this`fragmentedFrame, this`watched, this`events
      modifies fragmentedFrame, fragmentedData, fragmentedData.mem, bufferIn`rpos, bufferIn.mem
      ensures Valid() && (watched ==> dataState != AwaitingHandshake)
      ensures fragmentedFrame == null || fragmentedFrame == old(fragmentedFrame) || fresh(fragmentedFrame)
      ensures fragmentedData.mem == old(fragmentedData.mem) || fresh(fragmentedData.mem)
      ensures Advances(OnData(old(Session()), old(bufferIn.Unread())), goOn)
      ensures (if goOn then KeepAll(Room(), Session(), bufferIn.Unread()) else Room())
           == KeepAll(old(Room()), old(Session()), old(bufferIn.Unread()))
      ensures goOn ==> watched && bufferIn.rpos > old(bufferIn.rpos)
    {
      hide Parse, Handle, OnData, KeepAll, KeepFrame;
      ghost var s, u := Session(), bufferIn.Unread();
      ghost var o := Parse(u, Carry(s));
      OneRound(s, u);
      KeepRound(Room(), s, u);
      var frame, code := ReadFrame();
      match code {
        case ParseIncomplete =>
          return false;
        case ErrorInvalidOpcode | ErrorCritical =>
          DropClient();
          return false;
        case ParseDone =>
          goOn := OnParsed(frame, o.frame, u[o.consumed..]);
      }
    }

    // Handles a frame if it came masked; otherwise the loop ends.
    method OnParsed(frame: Frame, ghost f: Parsed, ghost more: seq<byte>) returns (goOn: bool)
      requires Valid() && watched && dataState != AwaitingHandshake && frame != fragmentedFrame
      requires KnownOpcode(f.opcode) && f == frame.Value() && frame.dataLength == |f.data|
      modifies this`state, this`dataState, this`fragmentedFrame, this`watched, this`events
      modifies fragmentedFrame, fragmentedData, fragmentedData.mem
      ensures Valid() && (watched ==> dataState != AwaitingHandshake)
      ensures fragmentedFrame == null || fragmentedFrame == old(fragmentedFrame) || fresh(fragmentedFrame)
      ensures fragmentedData.mem == old(fragmentedData.mem) || fresh(fragmentedData.mem)
      ensures if f.masked then Reacts(Handle(old(Session()), f), goOn)
              else !goOn && Session() == old(Session()) && events == old(events)
      ensures (if goOn then KeepAll(Room(), Session(), more) else Room())
           == if f.masked then KeepAll(KeepFrame(old(Room()), old(Session()), f), Handle(old(Session()), f).next, more)
              else old(Room())
    {
      hide Handle, KeepAll, KeepFrame;
      if !frame.isMasked {
        return false;
      }
      goOn := HandleFrame(frame, f);
      if !goOn {
        KeepsNoMore(Room(), more);
      }
    }

    // Parses and handles frames until one is missing bytes, came unmasked, or
    // made the server drop the client.
    method OnFrameData()
      requires Valid() && watched && dataState != AwaitingHandshake
      modifies this`state, this`dataState, this`fragmentedFrame, this`watched, this`events
      modifies fragmentedFrame, fragmentedData, fragmentedData.mem, bufferIn`rpos, bufferIn.mem
      ensures Valid() && (watched ==> dataState != AwaitingHandshake)
      ensures fragmentedFrame == null || fragmentedFrame == old(fragmentedFrame) || fresh(fragmentedFrame)
      ensures fragmentedData.mem == old(fragmentedData.mem) || fresh(fragmentedData.mem)
      ensures Advances(OnData(old(Session()), old(bufferIn.Unread())), false)
      ensures Room() == KeepAll(old(Room()), old(Session()), old(bufferIn.Unread()))
    {
      hide OnData, KeepAll;
      ghost var before := events;
      ghost var whole := OnData(Session(), bufferIn.Unread());
      assert Before([], whole) == whole;
      var goOn := true;
      while goOn
        invariant Valid() && (watched ==> dataState != AwaitingHandshake) && (goOn ==> watched)
        invariant fragmentedFrame == null || fragmentedFrame == old(fragmentedFrame) || fresh(fragmentedFrame)
        invariant fragmentedData.mem == old(fragmentedData.mem) || fresh(fragmentedData.mem)
        invariant Advances(whole, goOn)
        invariant (if goOn then KeepAll(Room(), Session(), bufferIn.Unread()) else Room())
               == KeepAll(old(Room()), old(Session()), old(bufferIn.Unread()))
        decreases goOn, bufferIn.used - bufferIn.rpos
      {
        ghost var mid := events;
        goOn := ParseFrame();
        Joins(before, mid, events);
        BeforeBefore(mid[|before|..], events[|mid|..], OnData(Session(), bufferIn.Unread()));
      }
    }
  }

  lemma Joins(before: seq<Event>, mid: seq<Event>, after: seq<Event>)
    requires before <= mid <= after
    ensures after[|before|..] == mid[|before|..] + after[|mid|..]
  {
  }
}

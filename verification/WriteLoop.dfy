// Sending a payload over a socket that may take any part of it at a time.
module WriteLoop {
  import opened Bytes

  // What one call of write returns: a number of bytes taken, a failure that may
  // be retried, or any other failure.
  datatype Result = Took(count: nat) | TryAgain | Failed

  // A socket. `script` is what its next writes return; behind its end every
  // write fails. `taken` is everything it has accepted.
  class Socket {
    var script: seq<Result>
    var taken: seq<byte>

    constructor (script: seq<Result>)
      ensures this.script == script && taken == []
    {
      this.script := script;
      taken := [];
    }

    // A write of data never takes more than all of it.
    method Write(data: seq<byte>) returns (r: Result)
      modifies this
      ensures r == Capped(First(old(script)), |data|) && script == Later(old(script))
      ensures taken == old(taken) + data[..Count(r)]
    {
      if script == [] {
        r := Failed;
        assert data[..0] == [];
        return;
      }
      r := Capped(script[0], |data|);
      script := script[1..];
      taken := taken + data[..Count(r)];
    }
  }

  function First(script: seq<Result>): Result {
    if script == [] then Failed else script[0]
  }

  function Later(script: seq<Result>): (r: seq<Result>)
    ensures |r| <= |script|
  {
    if script == [] then [] else script[1..]
  }

  function Capped(r: Result, n: nat): (c: Result)
    ensures Count(c) <= n
  {
    if r.Took? && r.count > n then Took(n) else r
  }

  // How many bytes a write took.
  function Count(r: Result): nat {
    if r.Took? then r.count else 0
  }

  // ---- What a run of writes comes to ----

  // How many bytes were taken, whether the last write took all that was left, and
  // what the writes after that return.
  datatype Sent = Sent(bytes: nat, complete: bool, left: seq<Result>)

  function Nothing(script: seq<Result>): Sent {
    Sent(0, false, Later(script))
  }

  // The writes that follow a partial one, with n bytes left: a failure that may be
  // retried is.
  function Follow(script: seq<Result>, n: nat): (r: Sent)
    ensures r.bytes <= n
  {
    if script == [] then Nothing(script)
    else match script[0]
      case TryAgain => Follow(script[1..], n)
      case Failed => Nothing(script)
      case Took(count) =>
        if count >= n then Sent(n, true, script[1..])
        else if count == 0 then Nothing(script)
        else
          var later := Follow(script[1..], n - count);
          Sent(count + later.bytes, later.complete, later.left)
  }

  // All writes of an n-byte payload. The first one is not retried.
  function Send(script: seq<Result>, n: nat): (r: Sent)
    ensures r.bytes <= n
  {
    if script == [] || !script[0].Took? then Nothing(script) else Follow(script, n)
  }

  // The first k writes all got on, or were to be retried.
  ghost predicate GetsOn(script: seq<Result>, k: nat) {
    k <= |script| && forall i | 0 <= i < k :: script[i].TryAgain? || (script[i].Took? && script[i].count > 0)
  }

  function Sum(script: seq<Result>): nat {
    if script == [] then 0 else Count(script[0]) + Sum(script[1..])
  }

  lemma {:induction false} FollowCompletesExactly(script: seq<Result>, n: nat)
    requires n > 0
    ensures Follow(script, n).complete <==> exists k: nat :: GetsOn(script, k) && Sum(script[..k]) >= n
    decreases |script|
  {
    if script == [] {
      assert forall k: nat | GetsOn(script, k) :: script[..k] == [];
    } else {
      var count := Count(script[0]);
      forall k: nat | 0 < k <= |script|
        ensures Sum(script[..k]) == count + Sum(script[1..][..k - 1])
      {
        assert script[..k][1..] == script[1..][..k - 1];
      }
      if script[0].TryAgain? || 0 < count < n {
        FollowCompletesExactly(script[1..], n - count);
        if k: nat :| GetsOn(script[1..], k) && Sum(script[1..][..k]) >= n - count {
          assert GetsOn(script, k + 1);
        }
        if k: nat :| GetsOn(script, k) && Sum(script[..k]) >= n {
          assert k > 0 && GetsOn(script[1..], k - 1);
        }
      } else if count >= n {
        assert GetsOn(script, 1);
        assert script[1..][..0] == [];
      } else {
        assert forall k: nat | GetsOn(script, k) :: k == 0;
      }
    }
  }

  // A payload goes whole exactly when its first write takes some of it and the
  // writes from there on get on, retried ones not counting, until they add up.
  lemma SendCompletesExactly(script: seq<Result>, n: nat)
    requires n > 0
    ensures Send(script, n).complete <==>
              First(script).Took? && exists k: nat :: GetsOn(script, k) && Sum(script[..k]) >= n
  {
    FollowCompletesExactly(script, n);
  }

  // As much is sent, and completed or not alike.
  predicate SendsAlike(a: Sent, b: Sent) {
    a.bytes == b.bytes && a.complete == b.complete
  }

  function Disturbed(script: seq<Result>, k: nat): seq<Result>
    requires k <= |script|
  {
    script[..k] + [TryAgain] + script[k..]
  }

  lemma {:induction false} FollowRetries(script: seq<Result>, k: nat, n: nat)
    requires k <= |script|
    ensures SendsAlike(Follow(Disturbed(script, k), n), Follow(script, n))
    decreases k
  {
    var d := Disturbed(script, k);
    if k == 0 {
      assert d[0] == TryAgain && d[1..] == script;
    } else {
      assert d[0] == script[0] && d[1..] == Disturbed(script[1..], k - 1);
      match script[0]
      case TryAgain => FollowRetries(script[1..], k - 1, n);
      case Took(count) => if 0 < count < n { FollowRetries(script[1..], k - 1, n - count); }
      case Failed =>
    }
  }

  // One more retryable failure, wherever it comes, makes no difference to what is
  // sent, except in front of everything when something would have been sent.
  lemma OnlyLaterWritesAreRetried(script: seq<Result>, k: nat, n: nat)
    requires k <= |script|
    ensures SendsAlike(Send(Disturbed(script, k), n), Send(script, n)) <==>
              k > 0 || (Send(script, n).bytes == 0 && !Send(script, n).complete)
  {
    var d := Disturbed(script, k);
    if k == 0 {
      assert d[0] == TryAgain;
    } else {
      assert d[0] == script[0];
      FollowRetries(script, k, n);
    }
  }

  // A retryable failure in front of a write that would have taken everything.
  lemma FirstRetryStops(n: nat)
    requires n > 0
    ensures Send([Took(n)], n).complete && Send([TryAgain, Took(n)], n).bytes == 0
  {
    assert Disturbed([Took(n)], 0) == [TryAgain, Took(n)];
    OnlyLaterWritesAreRetried([Took(n)], 0, n);
  }

  // ---- The loops ----

  // Sends the payload as the reader does: goes on behind what was taken until a
  // write takes all that is left, takes nothing, or fails for good. What was taken
  // is always a beginning of the payload, without gap or repetition.
  method SendPayload(socket: Socket, payload: seq<byte>) returns (complete: bool, ghost sent: nat)
    modifies socket
    ensures Sent(sent, complete, socket.script) == Send(old(socket.script), |payload|)
    ensures socket.taken == old(socket.taken) + payload[..sent]
    ensures complete ==> sent == |payload|
    ensures sent == |payload| > 0 ==> complete
  {
    var offset, size := 0, |payload|;
    var r := socket.Write(payload);
    ghost var whole := Send(old(socket.script), |payload|);
    sent := Count(r);
    while r.Took? && 0 < r.count < size
      invariant 0 <= offset && offset + size == |payload| && Count(r) <= size
      invariant sent == offset + Count(r)
      invariant socket.taken == old(socket.taken) + payload[..sent]
      invariant size > 0 || offset == 0
      invariant whole == Goes(sent, r, size, socket.script)
      decreases size
    {
      offset := offset + r.count;
      size := size - r.count;
      r := SendRest(socket, payload, offset);
      assert payload[..offset] + payload[offset..offset + Count(r)] == payload[..offset + Count(r)];
      sent := offset + Count(r);
    }
    complete := r.Took? && r.count == size;
  }

  // What is sent in all when `sent` bytes went with a last write of result r, of
  // `size` bytes left before it.
  function Goes(sent: nat, r: Result, size: nat, script: seq<Result>): Sent
    requires Count(r) <= size
  {
    if r.Took? && 0 < r.count < size then
      var later := Follow(script, size - r.count);
      Sent(sent + later.bytes, later.complete, later.left)
    else Sent(sent, r.Took? && r.count == size, script)
  }

  lemma FollowStep(script: seq<Result>, n: nat)
    requires n > 0
    ensures var r := Capped(First(script), n);
            && Follow(script, n) == (if r.TryAgain? then Follow(Later(script), n) else Goes(Count(r), r, n, Later(script)))
            && (r.TryAgain? ==> |Later(script)| < |script|)
  {
  }

  // Writes what lies behind offset, again as long as the failure is retryable.
  method SendRest(socket: Socket, payload: seq<byte>, offset: nat) returns (r: Result)
    requires offset < |payload|
    modifies socket
    ensures !r.TryAgain? && Count(r) <= |payload| - offset
    ensures socket.taken == old(socket.taken) + payload[offset..offset + Count(r)]
    ensures Follow(old(socket.script), |payload| - offset) == Goes(Count(r), r, |payload| - offset, socket.script)
  {
    hide Follow, Goes, Capped, First, Later;
    ghost var n := |payload| - offset;
    FollowStep(socket.script, n);
    r := socket.Write(payload[offset..]);
    while r.TryAgain?
      invariant Count(r) <= n
      invariant socket.taken == old(socket.taken) + payload[offset..offset + Count(r)]
      invariant Follow(old(socket.script), n)
             == if r.TryAgain? then Follow(socket.script, n) else Goes(Count(r), r, n, socket.script)
      decreases |socket.script| + if r.TryAgain? then 1 else 0
    {
      FollowStep(socket.script, n);
      r := socket.Write(payload[offset..]);
    }
  }

  // ---- Frames ----

  // A socket as it is seen from outside: what it has taken, and what its next writes
  // return.
  datatype Line = Line(taken: seq<byte>, script: seq<Result>)

  ghost function LineOf(socket: Socket): Line
    reads socket
  {
    Line(socket.taken, socket.script)
  }

  // What a socket takes of a frame: of the head what one write takes, whose result
  // is not looked at, and then what the loop sends of the payload.
  function Delivery(script: seq<Result>, head: seq<byte>, payload: seq<byte>): seq<byte> {
    head[..Count(Capped(First(script), |head|))] + payload[..Send(Later(script), |payload|).bytes]
  }

  // The socket after a frame.
  function Framed(line: Line, head: seq<byte>, payload: seq<byte>): Line {
    Line(line.taken + Delivery(line.script, head, payload), Send(Later(line.script), |payload|).left)
  }

  method SendFrame(socket: Socket, head: seq<byte>, payload: seq<byte>) returns (complete: bool)
    modifies socket
    ensures LineOf(socket) == Framed(old(LineOf(socket)), head, payload)
    ensures complete == Send(Later(old(socket.script)), |payload|).complete
  {
    ghost var before := socket.taken;
    var r := socket.Write(head);
    ghost var sent;
    complete, sent := SendPayload(socket, payload);
    assert before + head[..Count(r)] + payload[..sent] == before + (head[..Count(r)] + payload[..sent]);
  }

  // The other side gets the frame exactly when the head went whole and the payload did.
  lemma DeliveredExactly(script: seq<Result>, head: seq<byte>, payload: seq<byte>)
    ensures Delivery(script, head, payload) == head + payload <==>
              Count(Capped(First(script), |head|)) == |head| && Send(Later(script), |payload|).bytes == |payload|
  {
    var h, n := Count(Capped(First(script), |head|)), Send(Later(script), |payload|).bytes;
    assert |Delivery(script, head, payload)| == h + n;
    if h == |head| && n == |payload| {
      assert head[..h] == head && payload[..n] == payload;
    }
  }

  // A socket that takes everything it is offered.
  lemma TakesEverything(script: seq<Result>, head: seq<byte>, payload: seq<byte>)
    requires |script| >= 2 && script[0].Took? && script[0].count >= |head|
    requires script[1].Took? && script[1].count >= |payload|
    ensures Delivery(script, head, payload) == head + payload
  {
    DeliveredExactly(script, head, payload);
  }
}

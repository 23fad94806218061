// Insertion by any number of threads at once. A step of the machine is one read
// or one compare-and-swap of shared memory; everything else a thread does in
// between is private to it.
module ConcurrentInserts {
  import opened Wrappers
  import opened Murmur
  import opened HashTable

  // Where a call of the insertion stands. `at` is the item it looks at.
  datatype Pc =
    | ReadHead
    | CasHead
    | ReadHeadAgain
    | Compare(at: nat)
    | IsNextNull(at: nat)
    | IsNextLarger(at: nat)
    | IsThereNext(at: nat)
    | GoOn(at: nat)
    | ReadNext(at: nat)
    | CasNext(at: nat)
    | Linked
    | Duplicate(at: nat)
    | Crashed

  // Call t inserts item t, with key keys[t]. Until the item is linked, next[t] is
  // private to the call; it is also the value its compare-and-swap expects.
  datatype State = State(heads: seq<Option<nat>>, keys: seq<word>, next: seq<Option<nat>>, pcs: seq<Pc>) {
    ghost predicate WellFormed() {
      && |heads| > 0 && |next| == |pcs| == |keys|
      && (forall c | 0 <= c < |heads| :: IsItem(heads[c])) && (forall x | 0 <= x < |next| :: IsItem(next[x]))
      && forall t | 0 <= t < |pcs| :: IsItem(Looks(pcs[t]))
    }

    predicate IsItem(p: Option<nat>) {
      p.Some? ==> p.value < |keys|
    }

    function Bucket(t: nat): (c: nat)
      requires t < |keys| && |heads| > 0
      ensures c < |heads|
    {
      Col(keys[t], |heads|)
    }

    // The call goes on at pc.
    function Go(t: nat, pc: Pc): (r: State)
      requires WellFormed() && t < |pcs| && IsItem(Looks(pc))
      ensures r.WellFormed()
    {
      this.(pcs := pcs[t := pc])
    }

    // The call notes the link it expects in its own item.
    function Expect(t: nat, p: Option<nat>): (r: State)
      requires WellFormed() && t < |next| && IsItem(p)
      ensures r.WellFormed()
    {
      this.(next := next[t := p])
    }

    function LinkFirst(c: nat, t: nat): (r: State)
      requires WellFormed() && c < |heads| && t < |keys|
      ensures r.WellFormed()
    {
      this.(heads := heads[c := Some(t)])
    }

    function LinkAfter(at: nat, t: nat): (r: State)
      requires WellFormed() && at < |keys| && t < |keys|
      ensures r.WellFormed()
    {
      this.(next := next[at := Some(t)])
    }
  }

  function Looks(pc: Pc): Option<nat> {
    match pc
    case Compare(at) => Some(at)
    case IsNextNull(at) => Some(at)
    case IsNextLarger(at) => Some(at)
    case IsThereNext(at) => Some(at)
    case GoOn(at) => Some(at)
    case ReadNext(at) => Some(at)
    case CasNext(at) => Some(at)
    case Duplicate(at) => Some(at)
    case _ => None
  }

  // One step of call t.
  function Step(s: State, t: nat): (r: State)
    requires s.WellFormed() && t < |s.keys|
    ensures r.WellFormed() && r.keys == s.keys && |r.heads| == |s.heads|
  {
    var key, c := s.keys[t], s.Bucket(t);
    match s.pcs[t]
    case ReadHead =>
      var head := s.heads[c];
      if head.None? || s.keys[head.value] > key then s.Expect(t, head).Go(t, CasHead) else s.Go(t, ReadHeadAgain)
    case CasHead =>
      if s.heads[c] == s.next[t] then s.LinkFirst(c, t).Go(t, Linked) else s.Go(t, ReadHead)
    case ReadHeadAgain =>
      if s.heads[c].None? then s.Go(t, Crashed) else s.Go(t, Compare(s.heads[c].value))
    case Compare(at) =>
      if s.keys[at] == key then s.Go(t, Duplicate(at)) else s.Go(t, IsNextNull(at))
    case IsNextNull(at) =>
      if s.next[at].None? then s.Go(t, IsThereNext(at)) else s.Go(t, IsNextLarger(at))
    case IsNextLarger(at) =>
      if s.next[at].None? then s.Go(t, Crashed)
      else if s.keys[s.next[at].value] > key then s.Go(t, ReadNext(at))
      else s.Go(t, IsThereNext(at))
    case IsThereNext(at) =>
      if s.next[at].None? then s.Go(t, ReadNext(at)) else s.Go(t, GoOn(at))
    case GoOn(at) =>
      if s.next[at].None? then s.Go(t, Crashed) else s.Go(t, Compare(s.next[at].value))
    case ReadNext(at) =>
      s.Expect(t, s.next[at]).Go(t, CasNext(at))
    case CasNext(at) =>
      if s.next[at] == s.next[t] then s.LinkAfter(at, t).Go(t, Linked) else s.Go(t, ReadHeadAgain)
    case _ => s
  }

  predicate Schedules(s: State, schedule: seq<nat>) {
    forall i | 0 <= i < |schedule| :: schedule[i] < |s.keys|
  }

  // A run: which call makes a step, time and again.
  function Run(s: State, schedule: seq<nat>): (r: State)
    requires s.WellFormed() && Schedules(s, schedule)
    ensures r.WellFormed() && r.keys == s.keys && |r.heads| == |s.heads|
    decreases |schedule|
  {
    if schedule == [] then s
    else Run(Step(s, schedule[0]), schedule[1..])
  }

  // All calls of an empty table, before their first step.
  function Initial(scale: nat, keys: seq<word>): (s: State)
    requires scale > 0
    ensures s.WellFormed() && s.keys == keys && |s.heads| == scale
  {
    State(seq(scale, _ => None), keys, seq(|keys|, _ => None), seq(|keys|, _ => ReadHead))
  }

  // ---- The invariant ----

  predicate Chained(head: Option<nat>, next: seq<Option<nat>>, s: seq<nat>) {
    && (forall i | 0 <= i < |s| :: s[i] < |next|)
    && head == (if s == [] then None else Some(s[0]))
    && forall i {:trigger next[s[i]]} | 0 <= i < |s| :: next[s[i]] == if i + 1 < |s| then Some(s[i + 1]) else None
  }

  // What a call knows, whatever the others do meanwhile: the item it looks at is
  // in its bucket, and a link once seen to lead somewhere still does.
  ghost predicate Knows(s: State, chains: seq<seq<nat>>, t: nat)
    requires s.WellFormed() && |chains| == |s.heads| && t < |s.keys|
  {
    var c, pc := s.Bucket(t), s.pcs[t];
    && (pc.Linked? <==> t in chains[c])
    && (Looks(pc).Some? ==> Looks(pc).value in chains[c])
    && (pc.ReadHeadAgain? ==> s.heads[c].Some?)
    && (pc.IsNextLarger? || pc.GoOn? ==> s.next[pc.at].Some?)
    && (pc.CasHead? && s.next[t].Some? ==> s.keys[t] < s.keys[s.next[t].value])
    && (pc.Duplicate? ==> s.keys[pc.at] == s.keys[t])
    && !pc.Crashed?
  }

  // The chains of the buckets, as they are linked.
  ghost predicate Inv(s: State, chains: seq<seq<nat>>) {
    && s.WellFormed() && |chains| == |s.heads|
    && (forall c | 0 <= c < |chains| :: Chained(s.heads[c], s.next, chains[c]) && Distinct(chains[c]))
    && (forall c, i | 0 <= c < |chains| && 0 <= i < |chains[c]| :: s.Bucket(chains[c][i]) == c)
    && forall t | 0 <= t < |s.keys| :: Knows(s, chains, t)
  }

  lemma InitialInv(scale: nat, keys: seq<word>)
    requires scale > 0
    ensures Inv(Initial(scale, keys), seq(scale, _ => []))
  {
  }

  // ---- One step keeps the invariant ----

  // The step makes the compare-and-swap that links the item.
  predicate Links(s: State, t: nat)
    requires s.WellFormed() && t < |s.keys|
  {
    match s.pcs[t]
    case CasHead => s.heads[s.Bucket(t)] == s.next[t]
    case CasNext(at) => s.next[at] == s.next[t]
    case _ => false
  }

  lemma ChainedInsert(head: Option<nat>, next: seq<Option<nat>>, s: seq<nat>, p: nat, t: nat,
                      head': Option<nat>, next': seq<Option<nat>>)
    requires Chained(head, next, s) && Distinct(s) && p <= |s| && t < |next| && t !in s
    requires next[t] == if p < |s| then Some(s[p]) else None
    requires p == 0 ==> head' == Some(t) && next' == next
    requires p > 0 ==> head' == head && next' == next[s[p - 1] := Some(t)]
    ensures Chained(head', next', InsertAt(s, p, t)) && Distinct(InsertAt(s, p, t))
  {
    var r := InsertAt(s, p, t);
    assert forall i | 0 <= i < |r| :: r[i] == if i < p then s[i] else if i == p then t else s[i - 1];
  }

  // From an item of a chain a link leads to an item of the chain.
  lemma NextInChain(head: Option<nat>, next: seq<Option<nat>>, s: seq<nat>, x: nat)
    requires Chained(head, next, s) && x in s
    ensures x < |next| && (next[x].Some? ==> next[x].value in s)
    ensures head.Some? && head.value in s
  {
    var i :| 0 <= i < |s| && s[i] == x;
    assert next[s[i]] == next[x];
    if i + 1 < |s| {
      assert s[i + 1] in s;
    }
  }

  // A step of call t that changes no shared memory.
  ghost predicate Silent(s: State, r: State, t: nat)
    requires s.WellFormed() && r.WellFormed() && t < |s.keys|
  {
    && r.keys == s.keys && r.heads == s.heads
    && (forall x | 0 <= x < |s.keys| && x != t :: r.next[x] == s.next[x] && r.pcs[x] == s.pcs[x])
    && (s.pcs[t].Linked? ==> r.next[t] == s.next[t])
  }

  lemma SilentKeeps(s: State, r: State, chains: seq<seq<nat>>, t: nat)
    requires Inv(s, chains) && r.WellFormed() && t < |s.keys| && Silent(s, r, t) && Knows(r, chains, t)
    ensures Inv(r, chains)
  {
    hide Col;
    assert Knows(s, chains, t);
    forall c, i | 0 <= c < |chains| && 0 <= i < |chains[c]|
      ensures r.next[chains[c][i]] == s.next[chains[c][i]]
    {
      assert chains[c][i] in chains[c];
      assert s.Bucket(chains[c][i]) == c;
    }
    forall u | 0 <= u < |s.keys| && u != t
      ensures Knows(r, chains, u)
    {
      assert Knows(s, chains, u);
      var pc := s.pcs[u];
      if Looks(pc).Some? {
        var c := s.Bucket(u);
        var i :| 0 <= i < |chains[c]| && chains[c][i] == pc.at;
      }
    }
  }

  // A step that links nothing changes no chain.
  lemma StepWithin(s: State, chains: seq<seq<nat>>, t: nat)
    requires Inv(s, chains) && t < |s.keys| && !Links(s, t)
    ensures Inv(Step(s, t), chains)
  {
    hide Col;
    var r, c := Step(s, t), s.Bucket(t);
    assert Knows(s, chains, t) && Chained(s.heads[c], s.next, chains[c]);
    if Looks(s.pcs[t]).Some? {
      NextInChain(s.heads[c], s.next, chains[c], s.pcs[t].at);
    }
    assert Knows(r, chains, t);
    SilentKeeps(s, r, chains, t);
  }

  // The item can be linked in at position p of its bucket: behind the item looked
  // at, or at the front, with the expected link leading to what follows.
  ghost predicate Fits(s: State, chain: seq<nat>, t: nat, p: nat)
    requires s.WellFormed() && t < |s.keys|
  {
    && p <= |chain|
    && (if p == 0 then s.pcs[t].CasHead? else s.pcs[t].CasNext? && s.pcs[t].at == chain[p - 1])
    && s.next[t] == if p < |chain| then Some(chain[p]) else None
  }

  lemma LinkFits(s: State, chains: seq<seq<nat>>, t: nat) returns (p: nat)
    requires Inv(s, chains) && t < |s.keys| && Links(s, t)
    ensures Fits(s, chains[s.Bucket(t)], t, p)
  {
    hide Col;
    var c := s.Bucket(t);
    assert Knows(s, chains, t) && Chained(s.heads[c], s.next, chains[c]);
    if s.pcs[t].CasHead? {
      p := 0;
    } else {
      var i :| 0 <= i < |chains[c]| && chains[c][i] == s.pcs[t].at;
      assert s.next[chains[c][i]] == s.next[t];
      p := i + 1;
    }
  }

  // Linking puts the item into its bucket, in one place.
  lemma StepLinks(s: State, chains: seq<seq<nat>>, t: nat, p: nat)
    requires Inv(s, chains) && t < |s.keys| && Links(s, t) && Fits(s, chains[s.Bucket(t)], t, p)
    ensures var c := s.Bucket(t); Inv(Step(s, t), chains[c := InsertAt(chains[c], p, t)])
  {
    hide Col, InsertAt;
    var r, c := Step(s, t), s.Bucket(t);
    var chain := chains[c];
    var after := chains[c := InsertAt(chain, p, t)];
    assert Knows(s, chains, t) && t !in chain;
    ChainedInsert(s.heads[c], s.next, chain, p, t, r.heads[c], r.next);
    MembersSpliceIn(chain, p, t);
    forall d | 0 <= d < |chains| && d != c
      ensures Chained(r.heads[d], r.next, chains[d])
    {
      OtherChain(s, chains, c, d, p, r);
    }
    forall d, i | 0 <= d < |after| && 0 <= i < |after[d]|
      ensures r.Bucket(after[d][i]) == d
    {
      assert after[d][i] in after[d];
      if d == c && after[d][i] != t {
        assert after[d][i] in chain;
      }
    }
    forall u | 0 <= u < |s.keys|
      ensures Knows(r, after, u)
    {
      KnowsStill(s, chains, after, t, u);
    }
  }

  lemma KnowsStill(s: State, chains: seq<seq<nat>>, after: seq<seq<nat>>, t: nat, u: nat)
    requires Inv(s, chains) && t < |s.keys| && u < |s.keys| && Links(s, t) && |after| == |chains|
    requires forall d | 0 <= d < |chains| && d != s.Bucket(t) :: after[d] == chains[d]
    requires forall x :: x in after[s.Bucket(t)] <==> x in chains[s.Bucket(t)] || x == t
    ensures Knows(Step(s, t), after, u)
  {
    hide Col, Chained, Distinct;
    assert Knows(s, chains, u) && Knows(s, chains, t);
    if s.pcs[t].CasNext? && s.pcs[t].at == u {
      var c := s.Bucket(t);
      var i :| 0 <= i < |chains[c]| && chains[c][i] == u;
      assert s.Bucket(chains[c][i]) == c;
    }
  }

  lemma OtherChain(s: State, chains: seq<seq<nat>>, c: nat, d: nat, p: nat, r: State)
    requires Inv(s, chains) && c < |chains| && d < |chains| && d != c && p <= |chains[c]|
    requires |r.heads| == |s.heads| && |r.next| == |s.next| && r.heads[d] == s.heads[d]
    requires forall x | 0 <= x < |s.next| && (p > 0 ==> x != chains[c][p - 1]) :: r.next[x] == s.next[x]
    ensures Chained(r.heads[d], r.next, chains[d])
  {
    hide Col;
    forall i | 0 <= i < |chains[d]|
      ensures r.next[chains[d][i]] == s.next[chains[d][i]]
    {
      assert s.Bucket(chains[d][i]) == d;
      if p > 0 {
        assert s.Bucket(chains[c][p - 1]) == c;
      }
    }
  }

  // ---- What holds over every run ----

  // The item x comes before y in a chain.
  ghost predicate Before(s: seq<nat>, x: nat, y: nat) {
    exists i, j :: 0 <= i < j < |s| && s[i] == x && s[j] == y
  }

  // Everything in a chain stays there, in the same order.
  ghost predicate Grows(chains: seq<seq<nat>>, after: seq<seq<nat>>) {
    && |after| == |chains|
    && (forall c, x | 0 <= c < |chains| && x in chains[c] :: x in after[c])
    && forall c, x, y | 0 <= c < |chains| && Before(chains[c], x, y) :: Before(after[c], x, y)
  }

  lemma InsertGrows(chains: seq<seq<nat>>, c: nat, p: nat, t: nat)
    requires c < |chains| && p <= |chains[c]|
    ensures Grows(chains, chains[c := InsertAt(chains[c], p, t)])
  {
    var s, r := chains[c], InsertAt(chains[c], p, t);
    assert forall i | 0 <= i < |s| :: s[i] == r[if i < p then i else i + 1];
    forall x, y | Before(s, x, y)
      ensures Before(r, x, y)
    {
      var i, j :| 0 <= i < j < |s| && s[i] == x && s[j] == y;
      assert r[if i < p then i else i + 1] == x && r[if j < p then j else j + 1] == y;
    }
  }

  lemma GrowsOn(a: seq<seq<nat>>, b: seq<seq<nat>>, c: seq<seq<nat>>)
    requires Grows(a, b) && Grows(b, c)
    ensures Grows(a, c)
  {
    hide Before;
  }

  lemma {:induction false} RunInv(s: State, chains: seq<seq<nat>>, schedule: seq<nat>) returns (after: seq<seq<nat>>)
    requires Inv(s, chains) && Schedules(s, schedule)
    ensures Inv(Run(s, schedule), after) && Grows(chains, after)
    decreases |schedule|
  {
    hide Knows, Chained, Distinct, Step, Before, InsertAt, Col;
    if schedule == [] {
      return chains;
    }
    var t := schedule[0];
    var mid := chains;
    if Links(s, t) {
      var p := LinkFits(s, chains, t);
      StepLinks(s, chains, t, p);
      InsertGrows(chains, s.Bucket(t), p, t);
      mid := chains[s.Bucket(t) := InsertAt(chains[s.Bucket(t)], p, t)];
    } else {
      StepWithin(s, chains, t);
    }
    after := RunInv(Step(s, t), mid, schedule[1..]);
    GrowsOn(chains, mid, after);
  }

  lemma {:induction false} RunOn(s: State, schedule: seq<nat>, more: seq<nat>)
    requires s.WellFormed() && Schedules(s, schedule) && Schedules(s, more)
    ensures Run(s, schedule + more) == Run(Run(s, schedule), more)
    decreases |schedule|
  {
    hide Step;
    if schedule == [] {
      assert schedule + more == more;
    } else {
      RunOn(Step(s, schedule[0]), schedule[1..], more);
      assert (schedule + more)[1..] == schedule[1..] + more;
    }
  }

  // The item n links after p.
  function Hop(s: State, p: Option<nat>, n: nat): (r: Option<nat>)
    requires s.WellFormed() && s.IsItem(p)
    ensures s.IsItem(r)
  {
    if n == 0 then p else
      var q := Hop(s, p, n - 1);
      if q.None? then None else s.next[q.value]
  }

  ghost predicate Reachable(s: State, c: nat, x: nat)
    requires s.WellFormed() && c < |s.heads|
  {
    exists n: nat :: Hop(s, s.heads[c], n) == Some(x)
  }

  lemma {:induction false} HopsAlong(s: State, head: Option<nat>, chain: seq<nat>, n: nat)
    requires s.WellFormed() && s.IsItem(head) && Chained(head, s.next, chain)
    ensures Hop(s, head, n) == if n < |chain| then Some(chain[n]) else None
  {
    if n > 0 {
      HopsAlong(s, head, chain, n - 1);
    }
  }

  lemma ReachableInChain(s: State, chains: seq<seq<nat>>, c: nat, x: nat)
    requires Inv(s, chains) && c < |s.heads|
    ensures Reachable(s, c, x) <==> x in chains[c]
  {
    hide Knows, Col, Distinct;
    if Reachable(s, c, x) {
      var n: nat :| Hop(s, s.heads[c], n) == Some(x);
      HopsAlong(s, s.heads[c], chains[c], n);
    }
    if x in chains[c] {
      var n :| 0 <= n < |chains[c]| && chains[c][n] == x;
      HopsAlong(s, s.heads[c], chains[c], n);
    }
  }

  // Every run keeps every chain finite, with no item in it twice.
  lemma ChainsStayFinite(scale: nat, keys: seq<word>, schedule: seq<nat>, c: nat)
    requires c < scale && Schedules(Initial(scale, keys), schedule)
    ensures var s := Run(Initial(scale, keys), schedule);
            && (exists n: nat :: Hop(s, s.heads[c], n) == None)
            && forall m: nat, n: nat | m != n ::
                 Hop(s, s.heads[c], m) == Hop(s, s.heads[c], n) ==> Hop(s, s.heads[c], m) == None
  {
    hide Knows, Step, Run, Initial, Col;
    var start := Initial(scale, keys);
    InitialInv(scale, keys);
    var chains := RunInv(start, seq(scale, _ => []), schedule);
    var s := Run(start, schedule);
    forall n: nat
      ensures Hop(s, s.heads[c], n) == if n < |chains[c]| then Some(chains[c][n]) else None
    {
      HopsAlong(s, s.heads[c], chains[c], n);
    }
    assert Hop(s, s.heads[c], |chains[c]|) == None;
  }

  // In every run, the items in the table are those of the calls that have linked
  // theirs, each in the bucket of its key only. A call that gave up its item found
  // its key in the table. No call follows a null link.
  lemma EveryCallAccountedFor(scale: nat, keys: seq<word>, schedule: seq<nat>, t: nat)
    requires scale > 0 && t < |keys| && Schedules(Initial(scale, keys), schedule)
    ensures var s := Run(Initial(scale, keys), schedule);
            && (forall c | 0 <= c < scale :: Reachable(s, c, t) <==> s.pcs[t].Linked? && c == s.Bucket(t))
            && (s.pcs[t].Duplicate? ==>
                  Reachable(s, s.Bucket(t), s.pcs[t].at) && keys[s.pcs[t].at] == keys[t])
            && !s.pcs[t].Crashed?
  {
    hide Step, Run, Initial, Col, Chained, Distinct, Reachable;
    var start := Initial(scale, keys);
    InitialInv(scale, keys);
    var chains := RunInv(start, seq(scale, _ => []), schedule);
    var s := Run(start, schedule);
    assert Knows(s, chains, t);
    forall c | 0 <= c < scale
      ensures Reachable(s, c, t) <==> t in chains[c]
    {
      ReachableInChain(s, chains, c, t);
    }
    if s.pcs[t].Duplicate? {
      ReachableInChain(s, chains, s.Bucket(t), s.pcs[t].at);
    }
  }

  // Whatever the calls do next, an item that can be reached stays reachable.
  lemma StaysReachable(scale: nat, keys: seq<word>, schedule: seq<nat>, more: seq<nat>, c: nat, x: nat)
    requires c < scale && Schedules(Initial(scale, keys), schedule) && Schedules(Initial(scale, keys), more)
    requires Reachable(Run(Initial(scale, keys), schedule), c, x)
    ensures Reachable(Run(Initial(scale, keys), schedule + more), c, x)
  {
    hide Knows, Step, Run, Initial, Col, Chained, Distinct, Reachable, Before;
    var start := Initial(scale, keys);
    InitialInv(scale, keys);
    var chains := RunInv(start, seq(scale, _ => []), schedule);
    var s := Run(start, schedule);
    var after := RunInv(s, chains, more);
    RunOn(start, schedule, more);
    ReachableInChain(s, chains, c, x);
    ReachableInChain(Run(s, more), after, c, x);
  }
}

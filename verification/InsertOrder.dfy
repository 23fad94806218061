// What interleaved insertions keep of the order in a chain, and of first-wins.
module InsertOrders {
  import opened Murmur
  import opened HashTable
  import opened ConcurrentInserts

  // ---- Order ----

  ghost predicate Sorted(keys: seq<word>, chain: seq<nat>) {
    && (forall i | 0 <= i < |chain| :: chain[i] < |keys|)
    && forall i, j | 0 <= i < j < |chain| :: keys[chain[i]] < keys[chain[j]]
  }

  ghost predicate AllSorted(keys: seq<word>, chains: seq<seq<nat>>) {
    forall c | 0 <= c < |chains| :: Sorted(keys, chains[c])
  }

  // The search for a key, which stops at the first larger one.
  function Search(keys: seq<word>, chain: seq<nat>, key: word): bool
    requires forall i | 0 <= i < |chain| :: chain[i] < |keys|
  {
    chain != [] && keys[chain[0]] <= key && (keys[chain[0]] == key || Search(keys, chain[1..], key))
  }

  // In a sorted chain the search finds every key there is.
  lemma {:induction false} SearchIsSound(keys: seq<word>, chain: seq<nat>, key: word)
    requires Sorted(keys, chain)
    ensures Search(keys, chain, key) <==> exists i :: 0 <= i < |chain| && keys[chain[i]] == key
  {
    if chain != [] {
      var rest := chain[1..];
      SearchIsSound(keys, rest, key);
      assert forall i | 0 <= i < |rest| :: rest[i] == chain[i + 1];
    }
  }

  // When an item is linked in, its neighbours have the keys they had when the
  // call last compared them with its own: smaller before it, larger behind it.
  predicate InPlace(s: State, t: nat)
    requires s.WellFormed() && t < |s.keys|
  {
    s.pcs[t].CasNext? ==>
      && s.keys[s.pcs[t].at] < s.keys[t]
      && (s.next[t].Some? ==> s.keys[t] < s.keys[s.next[t].value])
  }

  predicate AlwaysInPlace(s: State, schedule: seq<nat>)
    requires s.WellFormed() && Schedules(s, schedule)
    decreases |schedule|
  {
    schedule == [] ||
    ((Links(s, schedule[0]) ==> InPlace(s, schedule[0])) && AlwaysInPlace(Step(s, schedule[0]), schedule[1..]))
  }

  // A chain that is sorted stays sorted exactly if the item is put in place.
  lemma InsertSorted(keys: seq<word>, s: seq<nat>, p: nat, t: nat)
    requires p <= |s| && t < |keys| && Sorted(keys, s)
    ensures Sorted(keys, InsertAt(s, p, t))
       <==> (p > 0 ==> keys[s[p - 1]] < keys[t]) && (p < |s| ==> keys[t] < keys[s[p]])
  {
    var r := InsertAt(s, p, t);
    assert forall i | 0 <= i < |r| :: r[i] == if i < p then s[i] else if i == p then t else s[i - 1];
    if Sorted(keys, r) {
      assert p > 0 ==> keys[r[p - 1]] < keys[r[p]];
      assert p < |s| ==> keys[r[p]] < keys[r[p + 1]];
    }
    if (p > 0 ==> keys[s[p - 1]] < keys[t]) && (p < |s| ==> keys[t] < keys[s[p]]) {
      forall i | 0 <= i < |s|
        ensures if i < p then keys[s[i]] < keys[t] else keys[t] < keys[s[i]]
      {
        assert i + 1 < p ==> keys[s[i]] < keys[s[p - 1]];
        assert i > p ==> keys[s[p]] < keys[s[i]];
      }
    }
  }

  lemma StepSorted(s: State, chains: seq<seq<nat>>, t: nat, p: nat)
    requires Inv(s, chains) && t < |s.keys| && Links(s, t) && Fits(s, chains[s.Bucket(t)], t, p)
    requires AllSorted(s.keys, chains)
    ensures var c := s.Bucket(t); AllSorted(s.keys, chains[c := InsertAt(chains[c], p, t)]) <==> InPlace(s, t)
  {
    hide Col, Sorted, InsertAt;
    var c := s.Bucket(t);
    var after := chains[c := InsertAt(chains[c], p, t)];
    assert Knows(s, chains, t);
    InsertSorted(s.keys, chains[c], p, t);
    assert AllSorted(s.keys, after) <==> Sorted(s.keys, after[c]);
  }

  // Once out of order, always out of order.
  lemma StaysUnsorted(keys: seq<word>, chains: seq<seq<nat>>, after: seq<seq<nat>>)
    requires Grows(chains, after) && AllSorted(keys, after)
    ensures AllSorted(keys, chains)
  {
    forall c, i, j | 0 <= c < |chains| && 0 <= i < j < |chains[c]|
      ensures chains[c][i] < |keys| && chains[c][j] < |keys| && keys[chains[c][i]] < keys[chains[c][j]]
    {
      assert Before(chains[c], chains[c][i], chains[c][j]);
      assert Sorted(keys, after[c]);
    }
    forall c, i | 0 <= c < |chains| && 0 <= i < |chains[c]|
      ensures chains[c][i] < |keys|
    {
      assert chains[c][i] in after[c] && Sorted(keys, after[c]);
    }
  }

  // A run leaves all chains sorted exactly if every item was put in place.
  lemma {:induction false} SortedExactly(s: State, chains: seq<seq<nat>>, schedule: seq<nat>)
    returns (after: seq<seq<nat>>)
    requires Inv(s, chains) && AllSorted(s.keys, chains) && Schedules(s, schedule)
    ensures Inv(Run(s, schedule), after)
    ensures AllSorted(s.keys, after) <==> AlwaysInPlace(s, schedule)
    decreases |schedule|
  {
    hide Knows, Chained, Distinct, Step, Before, InsertAt, Col, InPlace, Sorted, AllSorted;
    if schedule == [] {
      return chains;
    }
    var t := schedule[0];
    if !Links(s, t) {
      StepWithin(s, chains, t);
      after := SortedExactly(Step(s, t), chains, schedule[1..]);
      return;
    }
    var p := LinkFits(s, chains, t);
    StepLinks(s, chains, t, p);
    StepSorted(s, chains, t, p);
    var mid := chains[s.Bucket(t) := InsertAt(chains[s.Bucket(t)], p, t)];
    if InPlace(s, t) {
      after := SortedExactly(Step(s, t), mid, schedule[1..]);
    } else {
      after := RunInv(Step(s, t), mid, schedule[1..]);
      if AllSorted(s.keys, after) {
        StaysUnsorted(s.keys, mid, after);
      }
    }
  }

  // ---- Equal keys ----

  ghost predicate NoKeyTwice(keys: seq<word>, chain: seq<nat>) {
    && (forall i | 0 <= i < |chain| :: chain[i] < |keys|)
    && forall i, j | 0 <= i < j < |chain| :: keys[chain[i]] != keys[chain[j]]
  }

  ghost predicate AllOnce(keys: seq<word>, chains: seq<seq<nat>>) {
    forall c | 0 <= c < |chains| :: NoKeyTwice(keys, chains[c])
  }

  // When an item is linked in, no other with its key is in the table.
  ghost predicate IsNew(s: State, t: nat)
    requires s.WellFormed() && t < |s.keys|
  {
    forall x | 0 <= x < |s.keys| && Reachable(s, s.Bucket(t), x) :: s.keys[x] != s.keys[t]
  }

  ghost predicate AlwaysNew(s: State, schedule: seq<nat>)
    requires s.WellFormed() && Schedules(s, schedule)
    decreases |schedule|
  {
    schedule == [] ||
    ((Links(s, schedule[0]) ==> IsNew(s, schedule[0])) && AlwaysNew(Step(s, schedule[0]), schedule[1..]))
  }

  lemma InsertOnce(keys: seq<word>, s: seq<nat>, p: nat, t: nat)
    requires p <= |s| && t < |keys| && NoKeyTwice(keys, s)
    ensures NoKeyTwice(keys, InsertAt(s, p, t)) <==> forall i | 0 <= i < |s| :: keys[s[i]] != keys[t]
  {
    var r := InsertAt(s, p, t);
    assert forall i | 0 <= i < |r| :: r[i] == if i < p then s[i] else if i == p then t else s[i - 1];
    if NoKeyTwice(keys, r) {
      forall i | 0 <= i < |s|
        ensures keys[s[i]] != keys[t]
      {
        assert r[if i < p then i else i + 1] == s[i] && r[p] == t;
      }
    }
  }

  lemma StepOnce(s: State, chains: seq<seq<nat>>, t: nat, p: nat)
    requires Inv(s, chains) && t < |s.keys| && Links(s, t) && p <= |chains[s.Bucket(t)]|
    requires AllOnce(s.keys, chains)
    ensures var c := s.Bucket(t); AllOnce(s.keys, chains[c := InsertAt(chains[c], p, t)]) <==> IsNew(s, t)
  {
    hide Col, InsertAt, Knows, Chained, Distinct, Reachable;
    var c := s.Bucket(t);
    var chain := chains[c];
    var after := chains[c := InsertAt(chain, p, t)];
    InsertOnce(s.keys, chain, p, t);
    forall x
      ensures Reachable(s, c, x) <==> x in chain
    {
      ReachableInChain(s, chains, c, x);
    }
    assert (forall i | 0 <= i < |chain| :: s.keys[chain[i]] != s.keys[t]) <==> IsNew(s, t) by {
      assert forall i | 0 <= i < |chain| :: chain[i] in chain;
    }
    hide NoKeyTwice;
    assert AllOnce(s.keys, after) <==> NoKeyTwice(s.keys, after[c]);
  }

  // Once a key is there twice, it stays there twice.
  lemma StaysTwice(keys: seq<word>, chains: seq<seq<nat>>, after: seq<seq<nat>>)
    requires Grows(chains, after) && AllOnce(keys, after)
    ensures AllOnce(keys, chains)
  {
    forall c, i | 0 <= c < |chains| && 0 <= i < |chains[c]|
      ensures chains[c][i] < |keys|
    {
      assert chains[c][i] in after[c] && NoKeyTwice(keys, after[c]);
    }
    forall c, i, j | 0 <= c < |chains| && 0 <= i < j < |chains[c]|
      ensures keys[chains[c][i]] != keys[chains[c][j]]
    {
      assert Before(chains[c], chains[c][i], chains[c][j]);
      assert NoKeyTwice(keys, after[c]);
    }
  }

  // A run leaves no key in the table twice exactly if no item was linked in while
  // another one with its key was there already.
  lemma {:induction false} FirstWinsExactly(s: State, chains: seq<seq<nat>>, schedule: seq<nat>)
    returns (after: seq<seq<nat>>)
    requires Inv(s, chains) && AllOnce(s.keys, chains) && Schedules(s, schedule)
    ensures Inv(Run(s, schedule), after)
    ensures AllOnce(s.keys, after) <==> AlwaysNew(s, schedule)
    decreases |schedule|
  {
    hide Knows, Chained, Distinct, Step, Before, InsertAt, Col, IsNew, AllOnce;
    if schedule == [] {
      return chains;
    }
    var t := schedule[0];
    if !Links(s, t) {
      StepWithin(s, chains, t);
      after := FirstWinsExactly(Step(s, t), chains, schedule[1..]);
      return;
    }
    var p := LinkFits(s, chains, t);
    StepLinks(s, chains, t, p);
    StepOnce(s, chains, t, p);
    var mid := chains[s.Bucket(t) := InsertAt(chains[s.Bucket(t)], p, t)];
    if IsNew(s, t) {
      after := FirstWinsExactly(Step(s, t), mid, schedule[1..]);
    } else {
      after := RunInv(Step(s, t), mid, schedule[1..]);
      if AllOnce(s.keys, after) {
        StaysTwice(s.keys, mid, after);
      }
    }
  }

  // ---- Calls that do not overlap ----

  // Whatever can be seen from outside: no two calls on the same bucket take turns.
  // One of them makes all its steps before the other makes any.
  predicate TakeTurns(keys: seq<word>, scale: nat, schedule: seq<nat>, i: nat, j: nat, k: nat)
    requires scale > 0 && i < j < k < |schedule| && forall n | 0 <= n < |schedule| :: schedule[n] < |keys|
  {
    && schedule[i] == schedule[k] != schedule[j]
    && Col(keys[schedule[i]], scale) == Col(keys[schedule[j]], scale)
  }

  predicate Serial(keys: seq<word>, scale: nat, schedule: seq<nat>)
    requires scale > 0 && forall n | 0 <= n < |schedule| :: schedule[n] < |keys|
  {
    forall i, j, k | 0 <= i < j < k < |schedule| :: !TakeTurns(keys, scale, schedule, i, j, k)
  }

  // What a call knows of its bucket if nobody else works on it.
  predicate Undisturbed(s: State, t: nat)
    requires s.WellFormed() && t < |s.keys|
  {
    var key, pc, c := s.keys[t], s.pcs[t], s.Bucket(t);
    match pc
    case ReadHeadAgain => s.heads[c].Some? ==> s.keys[s.heads[c].value] <= key
    case Compare(at) => s.keys[at] <= key
    case IsNextNull(at) => s.keys[at] < key
    case IsNextLarger(at) => s.keys[at] < key
    case IsThereNext(at) => s.keys[at] < key && (s.next[at].Some? ==> s.keys[s.next[at].value] <= key)
    case GoOn(at) => s.keys[at] < key && (s.next[at].Some? ==> s.keys[s.next[at].value] <= key)
    case ReadNext(at) => s.keys[at] < key && (s.next[at].Some? ==> key < s.keys[s.next[at].value])
    case CasNext(at) =>
      s.keys[at] < key && s.next[at] == s.next[t] && (s.next[t].Some? ==> key < s.keys[s.next[t].value])
    case _ => true
  }

  lemma StepUndisturbed(s: State, chains: seq<seq<nat>>, t: nat)
    requires Inv(s, chains) && t < |s.keys| && Undisturbed(s, t)
    ensures Undisturbed(Step(s, t), t)
    ensures Links(s, t) ==> InPlace(s, t)
  {
    hide Col, Chained, Distinct;
    assert Knows(s, chains, t);
  }

  // The steps of a call do not disturb a call on another bucket.
  lemma OthersUndisturbed(s: State, chains: seq<seq<nat>>, t: nat, u: nat)
    requires Inv(s, chains) && t < |s.keys| && u < |s.keys| && s.Bucket(t) != s.Bucket(u)
    requires Undisturbed(s, u)
    ensures Undisturbed(Step(s, t), u)
  {
    hide Col, Chained, Distinct;
    assert Knows(s, chains, t) && Knows(s, chains, u);
    var r := Step(s, t);
    assert r.pcs[u] == s.pcs[u] && r.heads[s.Bucket(u)] == s.heads[s.Bucket(u)];
    forall x | x in chains[s.Bucket(u)] || x == u
      ensures x < |s.keys| && r.next[x] == s.next[x]
    {
      InBucket(s, chains, s.Bucket(u), x, u);
      if s.pcs[t].CasNext? {
        InBucket(s, chains, s.Bucket(t), s.pcs[t].at, t);
      }
    }
  }

  lemma InBucket(s: State, chains: seq<seq<nat>>, c: nat, x: nat, u: nat)
    requires Inv(s, chains) && c < |chains| && u < |s.keys| && s.Bucket(u) == c && (x in chains[c] || x == u)
    ensures x < |s.keys| && s.Bucket(x) == c
  {
    hide Col, Knows, Distinct;
    if x in chains[c] {
      var i :| 0 <= i < |chains[c]| && chains[c][i] == x;
      assert Chained(s.heads[c], s.next, chains[c]);
    }
  }

  // `done` is behind the run, `schedule` ahead of it.
  lemma {:induction false} SerialInPlace(s: State, chains: seq<seq<nat>>, done: seq<nat>, schedule: seq<nat>)
    requires Inv(s, chains) && Schedules(s, schedule) && Schedules(s, done + schedule)
    requires Serial(s.keys, |s.heads|, done + schedule)
    requires forall t | 0 <= t < |s.keys| && t !in done :: s.pcs[t] == ReadHead
    requires forall t | t in schedule :: t < |s.keys| && Undisturbed(s, t)
    ensures AlwaysInPlace(s, schedule)
    decreases |schedule|
  {
    hide Knows, Chained, Distinct, Step, InPlace, Col, Serial, Undisturbed;
    if schedule != [] {
      var t, rest := schedule[0], schedule[1..];
      var r := Step(s, t);
      assert t in schedule;
      assert schedule == [t] + rest && done + schedule == (done + [t]) + rest;
      OthersStay(s, t);
      StepUndisturbed(s, chains, t);
      forall u | u in rest
        ensures u < |s.keys| && Undisturbed(r, u)
      {
        assert u in schedule;
        if s.Bucket(u) != s.Bucket(t) {
          OthersUndisturbed(s, chains, t, u);
        } else if u != t {
          if u in done {
            TurnTaken(s.keys, |s.heads|, done, t, rest, u);
          }
          NotBegun(r, u);
        }
      }
      var after := Onward(s, chains, t);
      SerialInPlace(r, after, done + [t], rest);
    }
  }

  lemma NotBegun(s: State, u: nat)
    requires s.WellFormed() && u < |s.keys| && s.pcs[u] == ReadHead
    ensures Undisturbed(s, u)
  {
  }

  lemma OthersStay(s: State, t: nat)
    requires s.WellFormed() && t < |s.keys|
    ensures forall u | 0 <= u < |s.keys| && u != t :: Step(s, t).pcs[u] == s.pcs[u]
  {
    hide Col;
  }

  lemma Onward(s: State, chains: seq<seq<nat>>, t: nat) returns (after: seq<seq<nat>>)
    requires Inv(s, chains) && t < |s.keys|
    ensures Inv(Step(s, t), after)
  {
    hide Knows, Chained, Distinct, Step, Col, InsertAt;
    if Links(s, t) {
      var p := LinkFits(s, chains, t);
      StepLinks(s, chains, t, p);
      after := chains[s.Bucket(t) := InsertAt(chains[s.Bucket(t)], p, t)];
    } else {
      StepWithin(s, chains, t);
      after := chains;
    }
  }

  // A call on the same bucket that has made steps before and makes steps again.
  lemma TurnTaken(keys: seq<word>, scale: nat, done: seq<nat>, t: nat, rest: seq<nat>, u: nat)
    requires scale > 0 && u in done && u in rest && u != t
    requires forall n | 0 <= n < |done + ([t] + rest)| :: (done + ([t] + rest))[n] < |keys|
    requires t < |keys| && u < |keys| && Col(keys[u], scale) == Col(keys[t], scale)
    ensures !Serial(keys, scale, done + ([t] + rest))
  {
    hide Col;
    var all := done + ([t] + rest);
    var i :| 0 <= i < |done| && done[i] == u;
    var k :| 0 <= k < |rest| && rest[k] == u;
    assert all[i] == u && all[|done|] == t && all[|done| + 1 + k] == u;
    assert TakeTurns(keys, scale, all, i, |done|, |done| + 1 + k);
  }

  // When the calls on each bucket follow one another, a run leaves all chains
  // sorted, and so no key in them twice: the first call of a key wins.
  lemma SerialCallsKeepOrder(scale: nat, keys: seq<word>, schedule: seq<nat>) returns (chains: seq<seq<nat>>)
    requires scale > 0 && Schedules(Initial(scale, keys), schedule) && Serial(keys, scale, schedule)
    ensures Inv(Run(Initial(scale, keys), schedule), chains)
    ensures AllSorted(keys, chains) && AllOnce(keys, chains)
  {
    hide Knows, Chained, Distinct, Run, Col;
    var start, none := Initial(scale, keys), seq(scale, _ => []);
    InitialInv(scale, keys);
    assert [] + schedule == schedule;
    SerialInPlace(start, none, [], schedule);
    chains := SortedExactly(start, none, schedule);
    SortedHasNoKeyTwice(keys, chains);
  }

  lemma SortedHasNoKeyTwice(keys: seq<word>, chains: seq<seq<nat>>)
    requires AllSorted(keys, chains)
    ensures AllOnce(keys, chains)
  {
    forall c | 0 <= c < |chains|
      ensures NoKeyTwice(keys, chains[c])
    {
      assert Sorted(keys, chains[c]);
    }
  }
}

// Which keys can be inserted at once: when every run of the calls leaves the
// chains sorted, no key twice, and every key to be found. What decides is the
// keys alone, and only those above the smallest one of their bucket.
module InsertKeys {
  import opened Wrappers
  import opened Murmur
  import opened HashTable
  import opened ConcurrentInserts
  import opened InsertOrders
  import opened InsertRaces

  // ---- The smallest key of a bucket ----

  predicate Least(scale: nat, keys: seq<word>, t: nat)
    requires scale > 0 && t < |keys|
  {
    forall u | 0 <= u < |keys| && Col(keys[u], scale) == Col(keys[t], scale) :: keys[t] <= keys[u]
  }

  // Where a call with the smallest key can be: it never walks along the chain.
  predicate StaysAtHead(s: State, t: nat)
    requires s.WellFormed() && t < |s.keys|
  {
    match s.pcs[t]
    case ReadHead => true
    case CasHead => true
    case ReadHeadAgain => s.heads[s.Bucket(t)].Some? && s.keys[s.heads[s.Bucket(t)].value] == s.keys[t]
    case Compare(at) => s.keys[at] == s.keys[t]
    case Linked => true
    case Duplicate(_) => true
    case _ => false
  }

  // Items with the smallest key of their bucket are in front only.
  ghost predicate LeastInFront(scale: nat, keys: seq<word>, chain: seq<nat>)
    requires scale > 0
  {
    && (forall i | 0 <= i < |chain| :: chain[i] < |keys|)
    && forall i | 0 < i < |chain| :: !Least(scale, keys, chain[i])
  }

  ghost predicate Floor(s: State, chains: seq<seq<nat>>)
    requires Inv(s, chains)
  {
    && (forall t | 0 <= t < |s.keys| && Least(|s.heads|, s.keys, t) :: StaysAtHead(s, t))
    && forall c | 0 <= c < |chains| :: LeastInFront(|s.heads|, s.keys, chains[c])
  }

  lemma FloorAtFirst(scale: nat, keys: seq<word>)
    requires scale > 0
    ensures Inv(Initial(scale, keys), seq(scale, _ => [])) && Floor(Initial(scale, keys), seq(scale, _ => []))
  {
    InitialInv(scale, keys);
  }

  // The head of a bucket is an item of it.
  lemma HeadInBucket(s: State, chains: seq<seq<nat>>, c: nat)
    requires Inv(s, chains) && c < |chains| && s.heads[c].Some?
    ensures chains[c] != [] && chains[c][0] == s.heads[c].value && s.Bucket(s.heads[c].value) == c
  {
    hide Knows, Distinct, Col;
    assert Chained(s.heads[c], s.next, chains[c]);
  }

  // The call's own step keeps it at the head.
  lemma OwnStep(s: State, chains: seq<seq<nat>>, t: nat)
    requires Inv(s, chains) && t < |s.keys| && Least(|s.heads|, s.keys, t) && StaysAtHead(s, t)
    ensures StaysAtHead(Step(s, t), t)
  {
    hide Knows, Distinct, Col, Chained;
    var c := s.Bucket(t);
    if s.heads[c].Some? {
      HeadInBucket(s, chains, c);
    }
  }

  // A call with the smallest key is not disturbed by others: nobody replaces a head
  // with the smallest key.
  lemma OtherStep(s: State, chains: seq<seq<nat>>, t: nat, u: nat)
    requires Inv(s, chains) && t < |s.keys| && u < |s.keys| && u != t
    requires Least(|s.heads|, s.keys, t) && StaysAtHead(s, t)
    ensures StaysAtHead(Step(s, u), t)
  {
    hide Distinct, Chained;
    assert Knows(s, chains, u);
  }

  lemma FloorWithin(s: State, chains: seq<seq<nat>>, u: nat)
    requires Inv(s, chains) && Floor(s, chains) && u < |s.keys| && Inv(Step(s, u), chains)
    ensures Floor(Step(s, u), chains)
  {
    hide Knows, Chained, Distinct, Step, LeastInFront, StaysAtHead, Least;
    forall t | 0 <= t < |s.keys| && Least(|s.heads|, s.keys, t)
      ensures StaysAtHead(Step(s, u), t)
    {
      if t == u { OwnStep(s, chains, t); } else { OtherStep(s, chains, t, u); }
    }
  }

  // An item linked in at the front has a smaller key than the old head; one linked
  // in elsewhere does not have the smallest key.
  lemma FrontKept(s: State, chains: seq<seq<nat>>, t: nat, p: nat)
    requires Inv(s, chains) && Floor(s, chains) && t < |s.keys| && Links(s, t)
    requires Fits(s, chains[s.Bucket(t)], t, p)
    ensures LeastInFront(|s.heads|, s.keys, InsertAt(chains[s.Bucket(t)], p, t))
  {
    hide Distinct, Chained;
    var c := s.Bucket(t);
    var chain, after := chains[c], InsertAt(chains[c], p, t);
    assert Knows(s, chains, t) && LeastInFront(|s.heads|, s.keys, chain);
    assert forall i | 0 <= i < |after| :: after[i] == if i < p then chain[i] else if i == p then t else chain[i - 1];
    if p == 0 && chain != [] {
      assert s.keys[t] < s.keys[chain[0]] && s.Bucket(chain[0]) == c;
      assert !Least(|s.heads|, s.keys, chain[0]);
    } else if p > 0 {
      assert !StaysAtHead(s, t);
    }
  }

  lemma {:induction false} RunFloor(s: State, chains: seq<seq<nat>>, schedule: seq<nat>) returns (after: seq<seq<nat>>)
    requires Inv(s, chains) && Floor(s, chains) && Schedules(s, schedule)
    ensures Inv(Run(s, schedule), after) && Floor(Run(s, schedule), after)
    decreases |schedule|
  {
    hide Knows, Chained, Distinct, Step, InsertAt, Col, Least, StaysAtHead, LeastInFront;
    if schedule == [] {
      return chains;
    }
    var t := schedule[0];
    if !Links(s, t) {
      StepWithin(s, chains, t);
      FloorWithin(s, chains, t);
      after := RunFloor(Step(s, t), chains, schedule[1..]);
    } else {
      var mid := LinkFloor(s, chains, t);
      after := RunFloor(Step(s, t), mid, schedule[1..]);
    }
  }

  lemma LinkFloor(s: State, chains: seq<seq<nat>>, t: nat) returns (after: seq<seq<nat>>)
    requires Inv(s, chains) && Floor(s, chains) && t < |s.keys| && Links(s, t)
    ensures Inv(Step(s, t), after) && Floor(Step(s, t), after)
  {
    hide Knows, Chained, Distinct, Step, InsertAt, Col, Least, StaysAtHead, LeastInFront;
    var p := LinkFits(s, chains, t);
    StepLinks(s, chains, t, p);
    FrontKept(s, chains, t, p);
    after := chains[s.Bucket(t) := InsertAt(chains[s.Bucket(t)], p, t)];
    forall u | 0 <= u < |s.keys| && Least(|s.heads|, s.keys, u)
      ensures StaysAtHead(Step(s, t), u)
    {
      if t == u { OwnStep(s, chains, u); } else { OtherStep(s, chains, u, t); }
    }
  }

  // ---- The chains of a state ----

  lemma {:induction false} SameChain(head: Option<nat>, next: seq<Option<nat>>, a: seq<nat>, b: seq<nat>)
    requires Chained(head, next, a) && Chained(head, next, b)
    ensures a == b
    decreases |a|
  {
    if a != [] && b != [] {
      SameTail(head, next, a);
      SameTail(head, next, b);
      SameChain(next[a[0]], next, a[1..], b[1..]);
    }
  }

  lemma SameTail(head: Option<nat>, next: seq<Option<nat>>, a: seq<nat>)
    requires Chained(head, next, a) && a != []
    ensures a[0] < |next| && Chained(next[a[0]], next, a[1..]) && a == [a[0]] + a[1..]
  {
    var rest := a[1..];
    assert forall i | 0 <= i < |rest| :: rest[i] == a[i + 1];
  }

  // A state has its chains in one way only.
  lemma SameChains(s: State, a: seq<seq<nat>>, b: seq<seq<nat>>)
    requires Inv(s, a) && Inv(s, b)
    ensures a == b
  {
    hide Knows, Chained, Distinct, Col;
    forall c | 0 <= c < |a|
      ensures a[c] == b[c]
    {
      SameChain(s.heads[c], s.next, a[c], b[c]);
    }
  }

  // Whatever run, the smallest keys are in front.
  lemma EveryRun(scale: nat, keys: seq<word>, schedule: seq<nat>, chains: seq<seq<nat>>)
    requires scale > 0 && Schedules(Initial(scale, keys), schedule)
    requires Inv(Run(Initial(scale, keys), schedule), chains)
    ensures |chains| == scale && forall c | 0 <= c < scale :: LeastInFront(scale, keys, chains[c])
  {
    hide Knows, Chained, Distinct, Run, Initial, Col, Least, StaysAtHead, LeastInFront;
    FloorAtFirst(scale, keys);
    var after := RunFloor(Initial(scale, keys), seq(scale, _ => []), schedule);
    SameChains(Run(Initial(scale, keys), schedule), after, chains);
  }

  // ---- What every run keeps, told by the keys ----

  // After whatever run, the chains are sorted.
  ghost predicate AlwaysSorted(scale: nat, keys: seq<word>)
    requires scale > 0
  {
    forall schedule, chains |
      Schedules(Initial(scale, keys), schedule) && Inv(Run(Initial(scale, keys), schedule), chains) ::
      AllSorted(keys, chains)
  }

  // No key is in the table twice.
  ghost predicate AlwaysOnce(scale: nat, keys: seq<word>)
    requires scale > 0
  {
    forall schedule, chains |
      Schedules(Initial(scale, keys), schedule) && Inv(Run(Initial(scale, keys), schedule), chains) ::
      AllOnce(keys, chains)
  }

  // The search finds every key that is in a chain.
  ghost predicate Finds(keys: seq<word>, chain: seq<nat>) {
    && (forall i | 0 <= i < |chain| :: chain[i] < |keys|)
    && forall i | 0 <= i < |chain| :: Search(keys, chain, keys[chain[i]])
  }

  ghost predicate AllFound(keys: seq<word>, chains: seq<seq<nat>>) {
    forall c | 0 <= c < |chains| :: Finds(keys, chains[c])
  }

  ghost predicate AlwaysFound(scale: nat, keys: seq<word>)
    requires scale > 0
  {
    forall schedule, chains |
      Schedules(Initial(scale, keys), schedule) && Inv(Run(Initial(scale, keys), schedule), chains) ::
      AllFound(keys, chains)
  }

  // In each bucket at most one call has a key above the smallest one.
  predicate OneAbove(scale: nat, keys: seq<word>)
    requires scale > 0
  {
    forall x, a, b | 0 <= x < |keys| && 0 <= a < |keys| && 0 <= b < |keys| :: !Overtakable(scale, keys, x, a, b)
  }

  // No two calls share a key that is not the smallest one of its bucket.
  predicate NoneShared(scale: nat, keys: seq<word>)
    requires scale > 0
  {
    forall x, a, b | 0 <= x < |keys| && 0 <= a < |keys| && 0 <= b < |keys| && Overtakable(scale, keys, x, a, b) ::
      keys[a] != keys[b]
  }

  // In each bucket all keys above the smallest one are equal.
  predicate OneKeyAbove(scale: nat, keys: seq<word>)
    requires scale > 0
  {
    forall x, a, b | 0 <= x < |keys| && 0 <= a < |keys| && 0 <= b < |keys| && Overtakable(scale, keys, x, a, b) ::
      keys[a] == keys[b]
  }

  // Two items of a chain, not both in front of it.
  lemma TwoInChain(scale: nat, keys: seq<word>, chain: seq<nat>, c: nat, i: nat, j: nat) returns (x: nat)
    requires scale > 0 && i < j < |chain| && Distinct(chain) && LeastInFront(scale, keys, chain)
    requires forall k | 0 <= k < |chain| :: chain[k] < |keys| && Col(keys[chain[k]], scale) == c
    ensures x < |keys| && Col(keys[x], scale) == c && keys[x] < keys[chain[j]]
    ensures keys[chain[i]] == keys[x] || Overtakable(scale, keys, x, chain[i], chain[j])
    ensures keys[x] <= keys[chain[i]]
  {
    assert !Least(scale, keys, chain[j]);
    var u :| 0 <= u < |keys| && Col(keys[u], scale) == Col(keys[chain[j]], scale) && keys[u] < keys[chain[j]];
    x := if keys[u] <= keys[chain[i]] then u else chain[i];
  }

  lemma BucketOf(s: State, chains: seq<seq<nat>>, c: nat)
    requires Inv(s, chains) && c < |chains|
    ensures Distinct(chains[c])
    ensures forall k | 0 <= k < |chains[c]| :: chains[c][k] < |s.keys| && Col(s.keys[chains[c][k]], |s.heads|) == c
  {
    hide Knows, Col;
    assert Chained(s.heads[c], s.next, chains[c]);
    assert forall k | 0 <= k < |chains[c]| :: s.Bucket(chains[c][k]) == c;
  }

  // Every run leaves all chains sorted if and only if in each bucket at most one
  // call has a key above the smallest one.
  lemma SortedForKeys(scale: nat, keys: seq<word>)
    requires scale > 0
    ensures AlwaysSorted(scale, keys) <==> OneAbove(scale, keys)
  {
    hide Run, Initial, Inv, LeastInFront, Distinct, Col, Overtaking;
    if OneAbove(scale, keys) {
      forall schedule, chains |
        Schedules(Initial(scale, keys), schedule) && Inv(Run(Initial(scale, keys), schedule), chains)
        ensures AllSorted(keys, chains)
      {
        EveryRun(scale, keys, schedule, chains);
        forall c, i, j | 0 <= c < |chains| && 0 <= i < j < |chains[c]|
          ensures chains[c][i] < |keys| && chains[c][j] < |keys| && keys[chains[c][i]] < keys[chains[c][j]]
        {
          BucketOf(Run(Initial(scale, keys), schedule), chains, c);
          var x := TwoInChain(scale, keys, chains[c], c, i, j);
        }
        forall c | 0 <= c < |chains|
          ensures forall i | 0 <= i < |chains[c]| :: chains[c][i] < |keys|
        {
          BucketOf(Run(Initial(scale, keys), schedule), chains, c);
        }
      }
    }
    if AlwaysSorted(scale, keys) {
      forall x, a, b | 0 <= x < |keys| && 0 <= a < |keys| && 0 <= b < |keys|
        ensures !Overtakable(scale, keys, x, a, b)
      {
        if Overtakable(scale, keys, x, a, b) {
          if keys[b] <= keys[a] { Unsorted(scale, keys, x, a, b); } else { Unsorted(scale, keys, x, b, a); }
        }
      }
    }
  }

  lemma Unsorted(scale: nat, keys: seq<word>, x: nat, a: nat, b: nat)
    requires scale > 0 && Overtakable(scale, keys, x, a, b) && keys[b] <= keys[a]
    ensures !AlwaysSorted(scale, keys)
  {
    hide Run, Initial, Inv, Distinct, Col, Overtaking;
    var chains := OvertakenChain(scale, keys, x, a, b);
    var chain := chains[Col(keys[x], scale)];
    assert chain[1] == a && chain[2] == b;
    assert !Sorted(keys, chain);
    assert !AllSorted(keys, chains);
  }

  // Every run leaves no key in the table twice if and only if no two calls share a
  // key that is not the smallest one of its bucket.
  lemma FirstWinsForKeys(scale: nat, keys: seq<word>)
    requires scale > 0
    ensures AlwaysOnce(scale, keys) <==> NoneShared(scale, keys)
  {
    hide Run, Initial, Inv, LeastInFront, Distinct, Col, Overtaking;
    if NoneShared(scale, keys) {
      forall schedule, chains |
        Schedules(Initial(scale, keys), schedule) && Inv(Run(Initial(scale, keys), schedule), chains)
        ensures AllOnce(keys, chains)
      {
        EveryRun(scale, keys, schedule, chains);
        forall c | 0 <= c < |chains|
          ensures NoKeyTwice(keys, chains[c])
        {
          BucketOf(Run(Initial(scale, keys), schedule), chains, c);
          forall i, j | 0 <= i < j < |chains[c]|
            ensures keys[chains[c][i]] != keys[chains[c][j]]
          {
            var x := TwoInChain(scale, keys, chains[c], c, i, j);
          }
        }
      }
    }
    if AlwaysOnce(scale, keys) {
      forall x, a, b | 0 <= x < |keys| && 0 <= a < |keys| && 0 <= b < |keys| && Overtakable(scale, keys, x, a, b)
        ensures keys[a] != keys[b]
      {
        var chains := OvertakenChain(scale, keys, x, a, b);
        assert AllOnce(keys, chains);
        assert NoKeyTwice(keys, chains[Col(keys[x], scale)]);
        assert [x, a, b][1] == a && [x, a, b][2] == b;
      }
    }
  }

  // In a chain whose keys do not descend the search finds every key.
  lemma {:induction false} SearchAscends(keys: seq<word>, chain: seq<nat>, k: nat)
    requires forall i | 0 <= i < |chain| :: chain[i] < |keys|
    requires k < |chain| && forall i, j | 0 <= i < j < |chain| :: keys[chain[i]] <= keys[chain[j]]
    ensures Search(keys, chain, keys[chain[k]])
    decreases k
  {
    if k > 0 {
      var rest := chain[1..];
      assert forall i | 0 <= i < |rest| :: rest[i] == chain[i + 1];
      SearchAscends(keys, rest, k - 1);
    }
  }

  // After every run every key in the table is found if and only if in each bucket
  // all keys above the smallest one are equal.
  lemma SearchForKeys(scale: nat, keys: seq<word>)
    requires scale > 0
    ensures AlwaysFound(scale, keys) <==> OneKeyAbove(scale, keys)
  {
    hide Run, Initial, Inv, LeastInFront, Distinct, Col, Overtaking;
    if OneKeyAbove(scale, keys) {
      forall schedule, chains |
        Schedules(Initial(scale, keys), schedule) && Inv(Run(Initial(scale, keys), schedule), chains)
        ensures AllFound(keys, chains)
      {
        EveryRun(scale, keys, schedule, chains);
        forall c | 0 <= c < |chains|
          ensures Finds(keys, chains[c])
        {
          BucketOf(Run(Initial(scale, keys), schedule), chains, c);
          forall i, j | 0 <= i < j < |chains[c]|
            ensures keys[chains[c][i]] <= keys[chains[c][j]]
          {
            var x := TwoInChain(scale, keys, chains[c], c, i, j);
          }
          forall k | 0 <= k < |chains[c]|
            ensures Search(keys, chains[c], keys[chains[c][k]])
          {
            SearchAscends(keys, chains[c], k);
          }
        }
      }
    }
    if AlwaysFound(scale, keys) {
      forall x, a, b | 0 <= x < |keys| && 0 <= a < |keys| && 0 <= b < |keys| && Overtakable(scale, keys, x, a, b)
        ensures keys[a] == keys[b]
      {
        if keys[b] < keys[a] { Missed(scale, keys, x, a, b); }
        if keys[a] < keys[b] { Missed(scale, keys, x, b, a); }
      }
    }
  }

  lemma Missed(scale: nat, keys: seq<word>, x: nat, a: nat, b: nat)
    requires scale > 0 && Overtakable(scale, keys, x, a, b) && keys[b] < keys[a]
    ensures !AlwaysFound(scale, keys)
  {
    hide Run, Initial, Inv, Distinct, Col, Overtaking;
    var chains := OvertakenChain(scale, keys, x, a, b);
    var chain := chains[Col(keys[x], scale)];
    assert chain[2] == b && chain[1..] == [a, b];
    assert !Search(keys, chain, keys[chain[2]]);
    assert !Finds(keys, chain);
    assert !AllFound(keys, chains);
  }
}

// A run of interleaved insertions in which one call overtakes another, and so
// loses a key or keeps one twice.
module InsertRaces {
  import opened Wrappers
  import opened Murmur
  import opened HashTable
  import opened ConcurrentInserts
  import opened InsertOrders

  // Three calls with keys of one bucket, that of x being below the other two.
  predicate Overtakable(scale: nat, keys: seq<word>, x: nat, a: nat, b: nat)
    requires scale > 0
  {
    && x < |keys| && a < |keys| && b < |keys| && a != b
    && Col(keys[x], scale) == Col(keys[a], scale) == Col(keys[b], scale)
    && keys[x] < keys[a] && keys[x] < keys[b]
  }

  // The item of x is in the table. Call a has found its place behind it; then b
  // links its own there; then a reads the link anew, and links its own in front.
  function Overtaking(x: nat, a: nat, b: nat): seq<nat> {
    [x, x] + [a, a, a, a, a] + [b, b, b, b, b] + [b, b] + [a, a]
  }

  lemma RunStep(s: State, t: nat, rest: seq<nat>)
    requires s.WellFormed() && t < |s.keys| && Schedules(s, rest)
    ensures Schedules(s, [t] + rest) && Run(s, [t] + rest) == Run(Step(s, t), rest)
  {
    assert ([t] + rest)[1..] == rest;
  }

  lemma TwoSteps(s: State, t: nat)
    requires s.WellFormed() && t < |s.keys|
    ensures Schedules(s, [t, t]) && Run(s, [t, t]) == Step(Step(s, t), t)
  {
    hide Step, Run;
    RunNone(Step(Step(s, t), t));
    RunStep(Step(s, t), t, []);
    RunStep(s, t, [t]);
    Spelled(t);
  }

  lemma RunNone(s: State)
    requires s.WellFormed()
    ensures Run(s, []) == s
  {
  }

  lemma FiveSteps(s: State, t: nat)
    requires s.WellFormed() && t < |s.keys|
    ensures Schedules(s, [t, t, t, t, t])
    ensures Run(s, [t, t, t, t, t]) == Step(Step(Step(Step(Step(s, t), t), t), t), t)
  {
    hide Step, Run;
    var s2 := Step(Step(s, t), t);
    var s3 := Step(s2, t);
    TwoSteps(s3, t);
    RunStep(s2, t, [t, t]);
    RunStep(Step(s, t), t, [t, t, t]);
    RunStep(s, t, [t, t, t, t]);
    Spelled(t);
  }

  lemma Spelled(t: nat)
    ensures [t] + [] == [t] && [t] + [t] == [t, t] && [t] + [t, t] == [t, t, t]
    ensures [t] + [t, t, t] == [t, t, t, t] && [t] + [t, t, t, t] == [t, t, t, t, t]
  {
  }

  // Undisturbed, the first call puts its item into its empty bucket.
  lemma GoesFirst(s: State, t: nat)
    requires s.WellFormed() && t < |s.keys| && s.pcs[t] == ReadHead && s.heads[s.Bucket(t)] == None
    ensures Schedules(s, [t, t])
    ensures Run(s, [t, t]) == s.Expect(t, None).LinkFirst(s.Bucket(t), t).Go(t, Linked)
  {
    hide Col, Run;
    TwoSteps(s, t);
    var mid := s.Expect(t, None).Go(t, CasHead);
    assert Step(s, t) == mid;
    assert mid.pcs[t := Linked] == s.pcs[t := Linked];
  }

  // Undisturbed, a call comes to the last item of a chain of one smaller item.
  lemma FindsPlace(s: State, t: nat, first: nat)
    requires s.WellFormed() && t < |s.keys| && first < |s.keys| && s.pcs[t] == ReadHead
    requires s.heads[s.Bucket(t)] == Some(first) && s.next[first] == None && s.keys[first] < s.keys[t]
    ensures Schedules(s, [t, t, t, t, t]) && Run(s, [t, t, t, t, t]) == s.Go(t, ReadNext(first))
  {
    hide Col, Run;
    FiveSteps(s, t);
    assert Step(s, t) == s.Go(t, ReadHeadAgain);
    assert Step(s.Go(t, ReadHeadAgain), t) == s.Go(t, Compare(first));
    assert Step(s.Go(t, Compare(first)), t) == s.Go(t, IsNextNull(first));
    assert Step(s.Go(t, IsNextNull(first)), t) == s.Go(t, IsThereNext(first));
    assert Step(s.Go(t, IsThereNext(first)), t) == s.Go(t, ReadNext(first));
  }

  // Call t links its item behind the first one.
  lemma LinksBehind(s: State, t: nat, first: nat)
    requires s.WellFormed() && t < |s.keys| && first < |s.keys| && first != t && s.pcs[t] == ReadNext(first)
    ensures Schedules(s, [t, t])
    ensures Run(s, [t, t]) == s.Expect(t, s.next[first]).LinkAfter(first, t).Go(t, Linked)
  {
    hide Col, Run, Step;
    TwoSteps(s, t);
    ReadsNow(s, t, first);
    LinksNow(s.Expect(t, s.next[first]), t, first);
  }

  lemma ReadsNow(s: State, t: nat, first: nat)
    requires s.WellFormed() && t < |s.keys| && first < |s.keys| && s.pcs[t] == ReadNext(first)
    ensures Step(s, t) == s.Expect(t, s.next[first]).Go(t, CasNext(first))
  {
    hide Col;
  }

  lemma LinksNow(s: State, t: nat, first: nat)
    requires s.WellFormed() && t < |s.keys| && first < |s.keys| && first != t && s.next[first] == s.next[t]
    ensures Step(s.Go(t, CasNext(first)), t) == s.LinkAfter(first, t).Go(t, Linked)
  {
    hide Col;
    var r := s.Go(t, CasNext(first));
    assert r.pcs[t := Linked] == s.pcs[t := Linked];
  }

  lemma ThreePieces(s: State, p: seq<nat>, q: seq<nat>, r: seq<nat>)
    requires s.WellFormed() && Schedules(s, p) && Schedules(s, q) && Schedules(s, r)
    ensures Schedules(s, p + q + r) && Run(s, p + q + r) == Run(Run(Run(s, p), q), r)
  {
    hide Run;
    RunOn(s, p, q);
    RunOn(s, p + q, r);
  }

  // The item of x is first in its bucket, and calls a and b have come to it.
  predicate BothWait(s: State, x: nat, a: nat, b: nat)
    requires s.WellFormed()
  {
    && x < |s.keys| && a < |s.keys| && b < |s.keys| && x != a && x != b && a != b
    && s.heads[s.Bucket(x)] == Some(x) && s.next[x] == None && s.pcs[x] == Linked
    && s.pcs[a] == ReadNext(x) && s.pcs[b] == ReadNext(x)
  }

  lemma ComeToWait(scale: nat, keys: seq<word>, x: nat, a: nat, b: nat)
    requires scale > 0 && Overtakable(scale, keys, x, a, b)
    ensures Schedules(Initial(scale, keys), [x, x] + [a, a, a, a, a] + [b, b, b, b, b])
    ensures BothWait(Run(Initial(scale, keys), [x, x] + [a, a, a, a, a] + [b, b, b, b, b]), x, a, b)
  {
    hide Run, Step, Col;
    var s0 := Initial(scale, keys);
    GoesFirst(s0, x);
    var s1 := s0.Expect(x, None).LinkFirst(s0.Bucket(x), x).Go(x, Linked);
    FindsPlace(s1, a, x);
    FindsPlace(s1.Go(a, ReadNext(x)), b, x);
    ThreePieces(s0, [x, x], [a, a, a, a, a], [b, b, b, b, b]);
  }

  lemma LinkBoth(s: State, x: nat, a: nat, b: nat)
    requires s.WellFormed() && BothWait(s, x, a, b)
    ensures Schedules(s, [b, b] + [a, a])
    ensures var r := Run(s, [b, b] + [a, a]);
            && r.heads == s.heads && r.next[x] == Some(a) && r.next[a] == Some(b) && r.next[b] == None
            && r.pcs[x] == r.pcs[a] == r.pcs[b] == Linked
  {
    hide Run, Step, Col;
    LinksBehind(s, b, x);
    LinksBehind(s.Expect(b, None).LinkAfter(x, b).Go(b, Linked), a, x);
    RunOn(s, [b, b], [a, a]);
  }

  // Where the run gets to.
  lemma Overtakes(scale: nat, keys: seq<word>, x: nat, a: nat, b: nat)
    requires scale > 0 && Overtakable(scale, keys, x, a, b)
    ensures Schedules(Initial(scale, keys), Overtaking(x, a, b))
    ensures var s := Run(Initial(scale, keys), Overtaking(x, a, b));
            && s.heads[Col(keys[x], scale)] == Some(x)
            && s.next[x] == Some(a) && s.next[a] == Some(b) && s.next[b] == None
            && s.pcs[x] == s.pcs[a] == s.pcs[b] == Linked
  {
    hide Run, Col, Initial;
    var start := [x, x] + [a, a, a, a, a] + [b, b, b, b, b];
    ComeToWait(scale, keys, x, a, b);
    LinkBoth(Run(Initial(scale, keys), start), x, a, b);
    RunOn(Initial(scale, keys), start, [b, b] + [a, a]);
    assert start + ([b, b] + [a, a]) == Overtaking(x, a, b);
  }

  // The chain then is x, a, b, whatever the keys of a and b.
  lemma OvertakenChain(scale: nat, keys: seq<word>, x: nat, a: nat, b: nat) returns (chains: seq<seq<nat>>)
    requires scale > 0 && Overtakable(scale, keys, x, a, b)
    ensures Schedules(Initial(scale, keys), Overtaking(x, a, b))
    ensures var s := Run(Initial(scale, keys), Overtaking(x, a, b));
            Inv(s, chains) && |chains| == scale && |s.pcs| == |keys|
    ensures chains[Col(keys[x], scale)] == [x, a, b]
    ensures var s := Run(Initial(scale, keys), Overtaking(x, a, b)); s.pcs[x] == s.pcs[a] == s.pcs[b] == Linked
  {
    hide Run, Col, Knows, Distinct, Overtaking, Initial, Overtakable;
    Overtakes(scale, keys, x, a, b);
    InitialInv(scale, keys);
    chains := RunInv(Initial(scale, keys), seq(scale, _ => []), Overtaking(x, a, b));
    var s, c := Run(Initial(scale, keys), Overtaking(x, a, b)), Col(keys[x], scale);
    var chain := chains[c];
    assert Chained(s.heads[c], s.next, chain);
    assert chain[0] == x;
    assert s.next[chain[0]] == Some(a) && chain[1] == a;
    assert s.next[chain[1]] == Some(b) && chain[2] == b;
    assert s.next[chain[2]] == None && |chain| == 3;
  }

  // ---- Runs that lose a key, or keep one twice ----

  function Keys(last: word): seq<word> {
    [1, 5, last]
  }

  lemma OvertakenByLast(last: word)
    requires last > 1
    ensures Schedules(Initial(1, Keys(last)), Overtaking(0, 1, 2))
    ensures var s := Run(Initial(1, Keys(last)), Overtaking(0, 1, 2));
            && s.pcs == [Linked, Linked, Linked] && Inv(s, [[0, 1, 2]])
            && Reachable(s, 0, 1) && Reachable(s, 0, 2)
  {
    hide *;
    OneBucket(last);
    var chains := OvertakenChain(1, Keys(last), 0, 1, 2);
    assert chains == [[0, 1, 2]];
    var s := Run(Initial(1, Keys(last)), Overtaking(0, 1, 2));
    ReachableInChain(s, chains, 0, 1);
    ReachableInChain(s, chains, 0, 2);
  }

  lemma OneBucket(last: word)
    requires last > 1
    ensures |Keys(last)| == 3 && Keys(last)[0] == 1 && Overtakable(1, Keys(last), 0, 1, 2) && Col(1, 1) == 0
  {
  }

  // With 3 as the last key: it is in the table, behind 5, where no search finds it.
  lemma LosesAKey()
    ensures Schedules(Initial(1, Keys(3)), Overtaking(0, 1, 2))
    ensures var s := Run(Initial(1, Keys(3)), Overtaking(0, 1, 2));
            && s.pcs == [Linked, Linked, Linked] && Inv(s, [[0, 1, 2]])
            && Reachable(s, 0, 2) && s.keys[2] == 3 && !Search(s.keys, [0, 1, 2], 3)
  {
    hide Run, Initial, Inv, Reachable, Overtaking;
    OvertakenByLast(3);
    assert [0, 1, 2][1..] == [1, 2];
  }

  // With 5 as the last key: both calls have linked it, and it is in the table twice.
  lemma KeepsAKeyTwice()
    ensures Schedules(Initial(1, Keys(5)), Overtaking(0, 1, 2))
    ensures var s := Run(Initial(1, Keys(5)), Overtaking(0, 1, 2));
            && s.pcs == [Linked, Linked, Linked]
            && Reachable(s, 0, 1) && Reachable(s, 0, 2) && s.keys[1] == s.keys[2] == 5
  {
    hide Run, Initial, Inv, Reachable, Overtaking;
    OvertakenByLast(5);
  }
}

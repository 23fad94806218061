// Walking over a table with a cursor, which holds a reference to the item it
// will return next, and taking items out of the table on the way.
module Cursors {
  import opened Bytes
  import opened Wrappers
  import opened HashTable
  import opened Murmur

  // All items in the order of the buckets, and in the order of its chain in each.
  ghost function Flatten<T>(chains: seq<seq<T>>): seq<T> {
    if chains == [] then [] else chains[0] + Flatten(chains[1..])
  }

  // The chain from x on.
  ghost function From<T>(s: seq<T>, x: T): seq<T> {
    if s == [] || s[0] == x then s else From(s[1..], x)
  }

  ghost function Onward<T>(s: seq<Item<T>>, row: Item?<T>): seq<Item<T>> {
    if row == null then [] else var x: Item<T> := row; From(s, x)
  }

  // What a cursor at this place has yet to return.
  ghost function Rest<T>(chains: seq<seq<Item<T>>>, col: nat, row: Item?<T>): seq<Item<T>>
    requires col < |chains|
  {
    Onward(chains[col], row) + Flatten(chains[col + 1..])
  }

  lemma DistinctTail<T>(x: T, s: seq<T>)
    requires Distinct([x] + s)
    ensures x !in s && Distinct(s)
  {
    var t := [x] + s;
    forall i | 0 <= i < |s|
      ensures s[i] != x
      ensures forall j | i < j < |s| :: s[i] != s[j]
    {
      assert t[i + 1] == s[i] && t[0] == x;
      assert forall j | i < j < |s| :: t[j + 1] == s[j];
    }
  }

  lemma {:induction false} FromAt<T>(s: seq<T>, i: nat)
    requires i < |s| && Distinct(s)
    ensures From(s, s[i]) == s[i..]
  {
    if i > 0 {
      var rest := s[1..];
      assert s[i] == rest[i - 1];
      FromAt(rest, i - 1);
      assert s[i..] == rest[i - 1..];
    }
  }

  lemma {:induction false} FromKeepsOut<T>(s: seq<T>, p: nat, x: T)
    requires p < |s| && s[p] !in From(s, x)
    ensures From(RemoveAt(s, p), x) == From(s, x)
  {
    var t, rest := RemoveAt(s, p), s[1..];
    assert s[0] != x;
    if p == 0 {
      assert t == rest;
    } else {
      assert s[p] == rest[p - 1];
      FromKeepsOut(rest, p - 1, x);
      assert t[1..] == RemoveAt(rest, p - 1);
    }
  }

  lemma {:induction false} FlattenHas<T>(chains: seq<seq<T>>, c: nat, x: T)
    requires c < |chains| && x in chains[c]
    ensures x in Flatten(chains)
  {
    if c > 0 {
      FlattenHas(chains[1..], c - 1, x);
    }
  }

  lemma {:induction false} FlattenFrom<T>(chains: seq<seq<T>>, x: T) returns (c: nat)
    requires x in Flatten(chains)
    ensures c < |chains| && x in chains[c]
  {
    if x in chains[0] {
      return 0;
    }
    c := FlattenFrom(chains[1..], x);
    c := c + 1;
  }

  // A cursor is not disturbed when an item that it has returned already is removed.
  lemma SurvivesRemoval<T>(chains: seq<seq<Item<T>>>, col: nat, row: Item?<T>, c: nat, p: nat)
    requires col < |chains| && c < |chains| && p < |chains[c]|
    requires chains[c][p] !in Rest(chains, col, row)
    ensures Rest(chains[c := RemoveAt(chains[c], p)], col, row) == Rest(chains, col, row)
    ensures row != null && Has(chains[col], row) ==>
              row != chains[c][p] && Has(chains[c := RemoveAt(chains[c], p)][col], row)
  {
    var after := chains[c := RemoveAt(chains[c], p)];
    var x := chains[c][p];
    if row != null && Has(chains[col], row) {
      var next: Item<T> := row;
      FromHas(chains[col], next);
      assert row in Rest(chains, col, row);
    }
    if c > col {
      assert x in chains[col + 1..][c - col - 1];
      FlattenHas(chains[col + 1..], c - col - 1, x);
      assert false;
    }
    assert after[col + 1..] == chains[col + 1..];
    if row != null && c == col {
      var next: Item<T> := row;
      FromKeepsOut(chains[c], p, next);
      if Has(chains[col], row) {
        var i :| 0 <= i < |chains[c]| && chains[c][i] == row;
        assert after[c][if i < p then i else i - 1] == row;
      }
    }
  }

  lemma {:induction false} FromHas<T>(s: seq<T>, x: T)
    requires x in s
    ensures x in From(s, x)
  {
    if s[0] != x {
      FromHas(s[1..], x);
    }
  }

  lemma RestStart<T>(chains: seq<seq<Item<T>>>, head: Item?<T>)
    requires chains != [] && Linked(head, chains[0])
    ensures Rest(chains, 0, head) == Flatten(chains)
    ensures head != null ==> Has(chains[0], head)
  {
  }

  // From the end of a chain the cursor gets to the head of the next one.
  lemma RestEnters<T>(chains: seq<seq<Item<T>>>, col: nat, head: Item?<T>)
    requires col + 1 < |chains| && Linked(head, chains[col + 1])
    ensures Rest(chains, col, null) == Rest(chains, col + 1, head)
    ensures head != null ==> Has(chains[col + 1], head)
  {
    RestStart(chains[col + 1..], head);
    assert chains[col + 1..][1..] == chains[col + 2..];
  }

  lemma RestEnds<T>(chains: seq<seq<Item<T>>>, col: nat)
    requires |chains| == col + 1
    ensures Rest(chains, col, null) == []
  {
  }

  // The item behind x in its chain is the one x links to.
  lemma ChainSteps<T>(head: Item?<T>, s: seq<Item<T>>, x: Item<T>)
    requires Linked(head, s) && Ascending(s) && Has(s, x)
    ensures Onward(s, x) == [x] + Onward(s, x.next)
    ensures x.next != null ==> Has(s, x.next)
  {
    assert Distinct(s) by {
      assert forall i, j | 0 <= i < j < |s| :: s[i].key < s[j].key;
    }
    hide Ascending, Distinct;
    var i :| 0 <= i < |s| && s[i] == x;
    FromAt(s, i);
    assert s[i].next == if i + 1 < |s| then s[i + 1] else null;
    if i + 1 < |s| {
      FromAt(s, i + 1);
      assert s[i..] == [x] + s[i + 1..];
    } else {
      assert s[i..] == [x];
    }
  }

  lemma RestSteps<T>(chains: seq<seq<Item<T>>>, col: nat, head: Item?<T>, x: Item<T>)
    requires col < |chains| && Linked(head, chains[col]) && Ascending(chains[col]) && Has(chains[col], x)
    ensures Rest(chains, col, x) == [x] + Rest(chains, col, x.next)
    ensures x.next != null ==> Has(chains[col], x.next)
  {
    hide Linked, Ascending, Onward, Flatten;
    ChainSteps(head, chains[col], x);
  }

  // ---- All items of a table ----

  ghost predicate Separate<T>(chains: seq<seq<T>>) {
    && (forall c | 0 <= c < |chains| :: Distinct(chains[c]))
    && forall c, d, i, j | 0 <= c < d < |chains| && 0 <= i < |chains[c]| && 0 <= j < |chains[d]| ::
         chains[c][i] != chains[d][j]
  }

  lemma {:induction false} FlattenDistinct<T>(chains: seq<seq<T>>)
    requires Separate(chains)
    ensures Distinct(Flatten(chains))
  {
    if chains != [] {
      var rest := Flatten(chains[1..]);
      assert Separate(chains[1..]);
      FlattenDistinct(chains[1..]);
      forall i, j | 0 <= i < |chains[0]| && 0 <= j < |rest|
        ensures chains[0][i] != rest[j]
      {
        assert rest[j] in rest;
        var c := FlattenFrom(chains[1..], rest[j]);
        assert chains[1..][c] == chains[c + 1];
      }
    }
  }

  lemma KeptApart<T>(table: Table<T>)
    requires table.Valid()
    ensures Separate(table.chains)
    ensures forall c, i | 0 <= c < |table.chains| && 0 <= i < |table.chains[c]| :: table.chains[c][i] in table.filed
  {
    hide Col, Linked, Represents, Counted;
    var chains: seq<seq<Item<T>>> := table.chains;
    forall c | 0 <= c < |chains|
      ensures Distinct(chains[c])
      ensures forall i | 0 <= i < |chains[c]| :: Col(chains[c][i].key, |chains|) == c && chains[c][i] in table.filed
    {
      table.RowOf(c);
      assert forall i, j | 0 <= i < j < |chains[c]| :: chains[c][i].key < chains[c][j].key;
    }
  }

  // The order of the buckets and chains has every item of the table exactly once.
  lemma EachOnce<T>(table: Table<T>)
    requires table.Valid()
    ensures Distinct(Flatten(table.chains))
    ensures forall x: Item<T> | x in Flatten(table.chains) :: x in table.filed
    ensures forall x: Item<T> | x in table.filed :: x in Flatten(table.chains)
  {
    hide Col, Counted, Ascending, Linked, Represents, Separate, Distinct;
    var chains: seq<seq<Item<T>>> := table.chains;
    KeptApart(table);
    FlattenDistinct(chains);
    forall x: Item<T> | x in table.filed
      ensures x in Flatten(chains)
    {
      assert Has(chains[Col(x.key, |chains|)], x);
      FlattenHas(chains, Col(x.key, |chains|), x);
    }
    forall x: Item<T> | x in Flatten(chains)
      ensures x in table.filed
    {
      var c := FlattenFrom(chains, x);
    }
  }

  // ---- The order of keys ----

  // First come the lower buckets, and in a bucket the lower keys.
  predicate Precedes(k: word, l: word, scale: nat)
    requires scale > 0
  {
    Col(k, scale) < Col(l, scale) || (Col(k, scale) == Col(l, scale) && k < l)
  }

  // The bucket at `base` and those behind it.
  ghost predicate Buckets<T>(chains: seq<seq<Item<T>>>, base: nat, scale: nat)
    requires scale > 0
    reads set c: nat, i: nat | c < |chains| && i < |chains[c]| :: chains[c][i]
  {
    forall c | 0 <= c < |chains| :: Ascending(chains[c]) && forall x: Item<T> | x in chains[c] :: Col(x.key, scale) == base + c
  }

  lemma {:induction false} FlattenOrder<T>(chains: seq<seq<Item<T>>>, base: nat, scale: nat)
    requires scale > 0 && Buckets(chains, base, scale)
    ensures var items: seq<Item<T>> := Flatten(chains);
            && (forall x: Item<T> | x in items :: Col(x.key, scale) >= base)
            && forall i, j | 0 <= i < j < |items| :: Precedes(items[i].key, items[j].key, scale)
  {
    hide Col;
    if chains != [] {
      var first: seq<Item<T>>, rest: seq<Item<T>> := chains[0], Flatten(chains[1..]);
      assert forall c | 0 <= c < |chains| - 1 :: chains[1..][c] == chains[c + 1];
      FlattenOrder(chains[1..], base + 1, scale);
      forall i, j | 0 <= i < j < |first + rest|
        ensures Precedes((first + rest)[i].key, (first + rest)[j].key, scale)
      {
        if j < |first| {
          assert Ascending(first) && first[i] in first && first[j] in first;
        } else if i < |first| {
          assert first[i] in first && rest[j - |first|] in rest;
        } else {
          assert Precedes(rest[i - |first|].key, rest[j - |first|].key, scale);
        }
      }
    }
  }

  // Items come in the order of their buckets, and in a bucket in that of their keys.
  lemma InOrderOfKeys<T>(table: Table<T>)
    requires table.Valid()
    ensures var items: seq<Item<T>> := Flatten(table.chains);
            forall i, j | 0 <= i < j < |items| :: Precedes(items[i].key, items[j].key, |table.chains|)
  {
    hide Col, Linked, Represents, Counted, Ascending, Precedes, Flatten;
    var chains: seq<seq<Item<T>>> := table.chains;
    forall c | 0 <= c < |chains|
      ensures Ascending(chains[c]) && forall x: Item<T> | x in chains[c] :: Col(x.key, |chains|) == c
    {
      table.RowOf(c);
    }
    FlattenOrder(chains, 0, |chains|);
  }

  // ---- What is left when an item is taken out ----

  function Without<T(==)>(s: seq<T>, x: T): seq<T> {
    if s == [] then [] else if s[0] == x then s[1..] else [s[0]] + Without(s[1..], x)
  }

  lemma {:induction false} WithoutAbsent<T>(s: seq<T>, x: T)
    requires x !in s
    ensures Without(s, x) == s
  {
    if s != [] {
      WithoutAbsent(s[1..], x);
    }
  }

  lemma {:induction false} WithoutConcat<T>(a: seq<T>, b: seq<T>, x: T)
    ensures Without(a + b, x) == if x in a then Without(a, x) + b else a + Without(b, x)
  {
    if a == [] {
      assert a + b == b;
    } else {
      assert (a + b)[1..] == a[1..] + b;
      if a[0] != x {
        WithoutConcat(a[1..], b, x);
        assert x in a <==> x in a[1..];
      }
    }
  }

  lemma {:induction false} WithoutAt<T>(s: seq<T>, p: nat)
    requires p < |s| && Distinct(s)
    ensures Without(s, s[p]) == RemoveAt(s, p)
  {
    if p > 0 {
      var rest := s[1..];
      assert s[p] == rest[p - 1] && s[0] != s[p];
      assert Distinct(rest);
      WithoutAt(rest, p - 1);
    }
  }

  lemma {:induction false} FromWithout<T>(s: seq<T>, p: nat, y: T)
    requires p < |s| && Distinct(s) && y in s && y != s[p]
    ensures From(RemoveAt(s, p), y) == Without(From(s, y), s[p])
  {
    var rest := s[1..];
    if s[0] == y {
      WithoutAt(s, p);
      assert p > 0 && RemoveAt(s, p)[0] == s[0];
    } else if p == 0 {
      assert RemoveAt(s, 0) == rest && s[0] !in rest;
      FromWithin(rest, y);
      WithoutAbsent(From(rest, y), s[0]);
    } else {
      assert Distinct(rest) && rest[p - 1] == s[p];
      FromWithout(rest, p - 1, y);
      assert RemoveAt(s, p)[0] == s[0] && RemoveAt(s, p)[1..] == RemoveAt(rest, p - 1);
    }
  }

  lemma {:induction false} FromWithin<T>(s: seq<T>, y: T)
    ensures forall x | x in From(s, y) :: x in s
  {
    if s != [] && s[0] != y {
      FromWithin(s[1..], y);
    }
  }

  lemma {:induction false} FlattenWithout<T>(chains: seq<seq<T>>, c: nat, p: nat)
    requires Separate(chains) && c < |chains| && p < |chains[c]|
    ensures Flatten(chains[c := RemoveAt(chains[c], p)]) == Without(Flatten(chains), chains[c][p])
  {
    var x, more := chains[c][p], chains[1..];
    WithoutConcat(chains[0], Flatten(more), x);
    if c == 0 {
      WithoutAt(chains[0], p);
      assert chains[0 := RemoveAt(chains[0], p)][1..] == more;
    } else {
      assert more[c - 1] == chains[c];
      assert Separate(more);
      FlattenWithout(more, c - 1, p);
      assert chains[c := RemoveAt(chains[c], p)][1..] == more[c - 1 := RemoveAt(more[c - 1], p)];
      assert x !in chains[0];
    }
  }

  lemma SeparateTail<T>(chains: seq<seq<T>>, n: nat)
    requires Separate(chains) && n <= |chains|
    ensures Separate(chains[n..])
  {
  }

  // Of what a cursor has before it, only the item taken out is missing.
  lemma RestWithout<T>(chains: seq<seq<Item<T>>>, col: nat, row: Item?<T>, c: nat, p: nat)
    requires Separate(chains) && col < |chains| && c < |chains| && p < |chains[c]|
    requires row != null ==> Has(chains[col], row) && row != chains[c][p]
    ensures Rest(chains[c := RemoveAt(chains[c], p)], col, row) == Without(Rest(chains, col, row), chains[c][p])
    ensures row != null ==> Has(chains[c := RemoveAt(chains[c], p)][col], row)
  {
    hide Flatten, From, RemoveAt, Without;
    var after, x := chains[c := RemoveAt(chains[c], p)], chains[c][p];
    var front, back := Onward(chains[col], row), Flatten(chains[col + 1..]);
    WithoutConcat(front, back, x);
    OnwardWithin(chains[col], row);
    if c <= col {
      NotBehind(chains, col, c, p);
      WithoutAbsent(back, x);
      assert after[col + 1..] == chains[col + 1..];
      if c == col && row != null {
        var next: Item<T> := row;
        FromWithout(chains[c], p, next);
        StillHas(chains[c], p, row);
        if x !in front { WithoutAbsent(front, x); }
      } else {
        assert x !in front;
      }
    } else {
      SeparateTail(chains, col + 1);
      FlattenWithout(chains[col + 1..], c - col - 1, p);
      assert after[col + 1..] == chains[col + 1..][c - col - 1 := RemoveAt(chains[c], p)];
      assert x !in front;
    }
  }

  lemma OnwardWithin<T>(s: seq<Item<T>>, row: Item?<T>)
    ensures forall x | x in Onward(s, row) :: x in s
  {
    if row != null {
      var next: Item<T> := row;
      FromWithin(s, next);
    }
  }

  lemma StillHas<T>(s: seq<Item<T>>, p: nat, row: Item<T>)
    requires p < |s| && Has(s, row) && row != s[p]
    ensures Has(RemoveAt(s, p), row)
  {
    var i :| 0 <= i < |s| && s[i] == row;
    assert RemoveAt(s, p)[if i < p then i else i - 1] == row;
  }

  lemma NotBehind<T>(chains: seq<seq<T>>, col: nat, c: nat, p: nat)
    requires Separate(chains) && col < |chains| && c <= col && p < |chains[c]|
    ensures chains[c][p] !in Flatten(chains[col + 1..])
  {
    if chains[c][p] in Flatten(chains[col + 1..]) {
      var d := FlattenFrom(chains[col + 1..], chains[c][p]);
      assert false;
    }
  }

  // The data in that order.
  ghost predicate Lists<T>(items: seq<Item<T>>, data: seq<T>)
    reads items`data
  {
    |data| == |items| && forall i | 0 <= i < |items| :: items[i].data == Some(data[i])
  }

  lemma ListsNext<T>(items: seq<Item<T>>, data: seq<T>, next: T)
    requires |data| < |items| && Lists(items[..|data|], data) && items[|data|].data == Some(next)
    ensures Lists(items[..|data| + 1], data + [next])
  {
  }

  // What a cursor has before it is the end of that order.
  lemma {:induction false} RestIsEnd<T>(chains: seq<seq<Item<T>>>, col: nat, row: Item?<T>) returns (k: nat)
    requires col < |chains| && (row != null ==> Has(chains[col], row))
    ensures k <= |Flatten(chains)| && Flatten(chains)[k..] == Rest(chains, col, row)
    decreases col
  {
    if col == 0 {
      if row == null {
        k := |chains[0]|;
      } else {
        var next: Item<T> := row;
        k := FromIsEnd(chains[0], next);
        assert chains[0][k..] + Flatten(chains[1..]) == Flatten(chains)[k..];
      }
    } else {
      assert chains[1..][col - 1] == chains[col] && chains[1..][col..] == chains[col + 1..];
      k := RestIsEnd(chains[1..], col - 1, row);
      assert Flatten(chains)[|chains[0]| + k..] == Flatten(chains[1..])[k..];
      k := |chains[0]| + k;
    }
  }

  lemma {:induction false} FromIsEnd<T>(s: seq<T>, x: T) returns (k: nat)
    requires x in s
    ensures k <= |s| && s[k..] == From(s, x)
  {
    if s[0] == x {
      k := 0;
    } else {
      k := FromIsEnd(s[1..], x);
      k := k + 1;
    }
  }

  lemma RestDistinct<T>(table: Table<T>, col: nat, row: Item?<T>)
    requires table.Valid() && col < |table.chains| && (row != null ==> Has(table.chains[col], row))
    ensures Distinct(Rest(table.chains, col, row))
  {
    hide Rest, Flatten, Table.Valid, Has;
    EachOnce(table);
    var k := RestIsEnd(table.chains, col, row);
  }

  // An item is the only one with its key, and has the data of that key.
  lemma KeyedOnce<T>(table: Table<T>, x: Item<T>)
    requires table.Valid() && x in table.filed
    ensures x.key in table.contents && x.data == Some(table.contents[x.key])
    ensures forall y: Item<T> | y in table.filed && y.key == x.key :: y == x
  {
    hide Col, Linked, Represents, Counted;
    var col := Col(x.key, |table.chains|);
    var s := table.chains[col];
    table.RowOf(col);
    assert Has(s, x);
    forall y: Item<T> | y in table.filed && y.key == x.key
      ensures y == x
    {
      assert Has(s, y);
      assert forall i, j | 0 <= i < j < |s| :: s[i].key < s[j].key;
    }
  }

  // Every key of the map has an item.
  lemma ItemOf<T>(table: Table<T>, key: word) returns (x: Item<T>)
    requires table.Valid() && key in table.contents
    ensures x in table.filed && x.key == key
  {
    hide Linked, Ascending, Represents, Counted, Table.Chained;
    var col := Col(key, |table.chains|);
    var s := table.chains[col];
    table.RowOf(col);
    if forall i | 0 <= i < |s| :: s[i].key != key {
      table.MissingKey(key);
      assert false;
    }
    var i :| 0 <= i < |s| && s[i].key == key;
    x := s[i];
  }

  // ---- A cursor's place, and an item taken out ----

  ghost predicate Leads<T>(filed: set<Item<T>>, s: seq<Item<T>>, next: Item?<T>) {
    next != null ==> next in filed && Has(s, next)
  }

  // The item held is in its column, or out of the table; then the one behind it, if
  // any, is in that column.
  ghost predicate Placed<T>(chains: seq<seq<Item<T>>>, filed: set<Item<T>>, col: nat, row: Item?<T>, next: Item?<T>)
    requires col < |chains|
  {
    row != null ==>
      && (row in filed ==> Has(chains[col], row))
      && (row !in filed ==> Leads(filed, chains[col], next))
  }

  ghost function Coming<T>(chains: seq<seq<Item<T>>>, filed: set<Item<T>>, col: nat, row: Item?<T>, next: Item?<T>):
    seq<Item<T>>
    requires col < |chains|
  {
    if row != null && row !in filed then [row] + Rest(chains, col, next) else Rest(chains, col, row)
  }

  // Another item goes: it is missing from what is coming, and that is all.
  lemma OtherGoes<T>(chains: seq<seq<Item<T>>>, filed: set<Item<T>>, col: nat, row: Item?<T>, next: Item?<T>,
                     c: nat, p: nat)
    requires Separate(chains) && col < |chains| && c < |chains| && p < |chains[c]| && chains[c][p] in filed
    requires Placed(chains, filed, col, row, next) && chains[c][p] != row
    requires row != null && row !in filed ==> chains[c][p] != next
    ensures var after, x := chains[c := RemoveAt(chains[c], p)], chains[c][p];
            && Placed(after, filed - {x}, col, row, next)
            && Coming(after, filed - {x}, col, row, next) == Without(Coming(chains, filed, col, row, next), x)
  {
    hide Rest, RemoveAt, Separate, Has;
    var x := chains[c][p];
    if row == null || row in filed {
      RestWithout(chains, col, row, c, p);
    } else {
      RestWithout(chains, col, next, c, p);
      var held: Item<T> := row;
      WithoutConcat([held], Rest(chains, col, next), x);
    }
  }

  lemma NowhereToGo<T>(chains: seq<seq<Item<T>>>, filed: set<Item<T>>, col: nat, row: Item<T>, next: Item<T>)
    requires col < |chains| && row !in filed && next !in filed
    ensures !Placed(chains, filed, col, row, next)
  {
  }

  // The item held goes: all is coming as before.
  lemma HeldGoes<T>(chains: seq<seq<Item<T>>>, filed: set<Item<T>>, col: nat, row: Item<T>, next: Item?<T>,
                    c: nat, p: nat)
    requires col < |chains| && c < |chains| && p < |chains[c]| && chains[c][p] == row && row in filed
    requires Distinct(Rest(chains, col, row)) && Rest(chains, col, row) == [row] + Rest(chains, col, next)
    requires Leads(filed, chains[col], next)
    ensures var after := chains[c := RemoveAt(chains[c], p)];
            && Placed(after, filed - {row}, col, row, next)
            && Coming(after, filed - {row}, col, row, next) == Coming(chains, filed, col, row, next)
  {
    DistinctTail(row, Rest(chains, col, next));
    hide Rest, RemoveAt, Has, Distinct;
    SurvivesRemoval(chains, col, next, c, p);
  }

  // What is coming once the item at this place has gone; nothing certain if it was
  // where the item held, out of the table itself, leads.
  lemma OneGoes<T>(chains: seq<seq<Item<T>>>, filed: set<Item<T>>, col: nat, row: Item?<T>, next: Item?<T>,
                   c: nat, p: nat)
    requires Separate(chains) && col < |chains| && c < |chains| && p < |chains[c]| && chains[c][p] in filed
    requires Placed(chains, filed, col, row, next)
    requires row != null && row in filed ==> Distinct(Rest(chains, col, row))
    requires row != null && row in filed ==> Rest(chains, col, row) == [row] + Rest(chains, col, next)
    requires row != null && row in filed ==> Leads(filed, chains[col], next)
    ensures var after, x := chains[c := RemoveAt(chains[c], p)], chains[c][p];
            var coming := Coming(chains, filed, col, row, next);
            var cut := row != null && row !in filed && next == x;
            && (Placed(after, filed - {x}, col, row, next) <==> !cut)
            && (!cut ==>
                  Coming(after, filed - {x}, col, row, next) == if x == row then coming else Without(coming, x))
  {
    hide Rest, RemoveAt, Separate, Has, Distinct, Coming, Without, Placed, Leads;
    var x := chains[c][p];
    if x == row {
      HeldGoes(chains, filed, col, x, next, c, p);
    } else if row != null && row !in filed && next == x {
      NowhereToGo(chains[c := RemoveAt(chains[c], p)], filed - {x}, col, row, x);
    } else {
      OtherGoes(chains, filed, col, row, next, c, p);
    }
  }

  // ---- References held by cursors ----

  // The references of one cursor change from `given` to `taken`; all others stay.
  ghost predicate Exchanged<T>(before: multiset<T>, given: multiset<T>, after: multiset<T>, taken: multiset<T>) {
    after + given == before + taken
  }

  lemma ExchangedNot<T>(holds: multiset<T>, held: multiset<T>)
    ensures Exchanged(holds, held, holds, held)
  {
  }

  lemma ExchangedOne<T>(holds: multiset<T>, give: T, taken: multiset<T>)
    requires give in holds
    ensures Exchanged(holds, multiset{give}, holds + taken - multiset{give}, taken)
  {
    assert (holds + taken - multiset{give}) + multiset{give} == holds + taken;
  }

  lemma ExchangedTwice<T>(h0: multiset<T>, c0: multiset<T>, h1: multiset<T>, c1: multiset<T>, h2: multiset<T>,
                          c2: multiset<T>)
    requires Exchanged(h0, c0, h1, c1) && Exchanged(h1, c1, h2, c2)
    ensures Exchanged(h0, c0, h2, c2)
  {
    var left, right := h2 + c0, h0 + c2;
    assert left + c1 == (h2 + c1) + c0 == (h1 + c2) + c0 == (h1 + c0) + c2;
    assert right + c1 == (h0 + c1) + c2;
    assert left == (left + c1) - c1;
    assert right == (right + c1) - c1;
  }

  lemma ExchangedBack<T>(others: multiset<T>, held: multiset<T>, after: multiset<T>)
    requires Exchanged(others + held, held, after, multiset{})
    ensures after == others
  {
    assert after == (after + held) - held;
    assert others == (others + held) - held;
  }

  class Cursor<T> {
    const hash: Table<T>
    var col: byte
    var row: Item?<T>

    // The item held is in this column or has been taken out of the table since the
    // cursor took it; then the one behind it, if any, is still in this column.
    ghost predicate Valid()
      reads this, hash, hash.items, hash.filed`next, hash.filed`key, hash.filed`data
      reads hash.live`ref, hash.live`next, hash.live`data
    {
      && hash.Valid() && |hash.chains| <= TWO_TO_8 && col < |hash.chains|
      && (row != null ==>
            && row in hash.holds
            && (row in hash.filed ==> Has(hash.chains[col], row))
            && (row !in hash.filed ==> row.data.Some? && Leads(hash.filed, hash.chains[col], row.next)))
    }

    // No item has been taken out of the table while this cursor held it.
    ghost predicate Steady()
      reads this`row, hash`filed
    {
      row != null ==> row in hash.filed
    }

    ghost function Remaining(): seq<Item<T>>
      reads this, hash, (if row == null then {} else {row})`next
    {
      if col >= |hash.chains| then []
      else if row != null && row !in hash.filed then [row] + Rest(hash.chains, col, row.next)
      else Rest(hash.chains, col, row)
    }

    // The references this cursor has on items.
    ghost function Held(): multiset<Item<T>>
      reads this
    {
      if row == null then multiset{} else multiset{row}
    }

    constructor (hash: Table<T>)
      requires hash.Valid() && |hash.chains| <= TWO_TO_8
      modifies hash`holds, hash.filed`ref
      ensures Valid() && Steady() && this.hash == hash && Remaining() == Flatten(hash.chains)
      ensures hash.holds == old(hash.holds) + Held() && col == 0 && row == hash.items[0]
    {
      hide Linked, Ascending, Rest, Table.Chained, Counted;
      this.hash, col := hash, 0;
      row := hash.items[0];
      new;
      hash.RowOf(0);
      RestStart(hash.chains, row);
      if row != null {
        hash.Hold(row);
      }
    }

    // What giving up `item` does to the items not yet freed.
    twostate predicate Frees(item: Item<T>)
      reads this, hash
    {
      if item in hash.filed || old(hash.holds)[item] > 1 then
        hash.live == old(hash.live) && hash.freed == old(hash.freed)
      else hash.live == old(hash.live) - {item} && hash.freed == old(hash.freed) + {item}
    }

    // Moves from the item held to the one behind it.
    method Pass() returns (data: Option<T>)
      requires Valid() && row != null
      modifies this`row, hash`holds, hash`live, hash`freed, row, hash.filed`ref
      ensures Valid() && Steady() && Exchanged(old(hash.holds), old(Held()), hash.holds, Held())
      ensures Frees(old(row))
      ensures data == old(row.data) && data.Some?
      ensures old(row) in hash.filed ==> old(row).data == old(row.data) && old(row).key == old(row.key)
      ensures old(Remaining()) == [old(row)] + Remaining()
    {
      hide Linked, Ascending, Rest, Table.Chained, Counted;
      Behind();
      hide Has, Exchanged, Onward;
      data := row.data;
      var tmp := row.next;
      ExchangedOne(hash.holds, row, if tmp == null then multiset{} else multiset{tmp});
      hash.Trade(row, tmp);
      row := tmp;
    }

    // The item behind the one held, wherever that one is, is in this column.
    lemma Behind()
      requires Valid() && row != null
      ensures row.data.Some? && Leads(hash.filed, hash.chains[col], row.next)
      ensures Remaining() == [row] + Rest(hash.chains, col, row.next)
    {
      hide Linked, Ascending, Rest, Table.Chained, Counted;
      hash.RowOf(col);
      if row in hash.filed {
        RestSteps(hash.chains, col, hash.items[col], row);
      }
    }

    // Moves to the first item of the chain in this column and holds the one behind it.
    method Enter() returns (data: Option<T>)
      requires hash.Valid() && |hash.chains| <= TWO_TO_8 && col < |hash.chains|
      requires row != null && row == hash.items[col] && row in hash.filed
      modifies this`row, hash`holds, hash.filed`ref
      ensures Valid() && Steady() && Exchanged(old(hash.holds), multiset{}, hash.holds, Held())
      ensures data == old(row.data) && data.Some?
      ensures old(Remaining()) == [old(row)] + Remaining()
    {
      hide Linked, Ascending, Rest, Table.Chained, Counted;
      hash.RowOf(col);
      RestStart(hash.chains[col..], row);
      RestSteps(hash.chains, col, row, row);
      if row.next != null {
        hash.Hold(row.next);
      }
      var tmp := row.next;
      data := row.data;
      row := tmp;
    }

    // The data of the next item. The reference moves on to the item after it.
    method Next() returns (data: Option<T>, ghost item: Item?<T>)
      requires Valid()
      modifies this`col, this`row, hash`holds, hash`live, hash`freed, hash.filed, row
      ensures Valid() && Steady() && Exchanged(old(hash.holds), old(Held()), hash.holds, Held())
      ensures if old(row) == null then hash.live == old(hash.live) && hash.freed == old(hash.freed)
              else Frees(old(row))
      ensures forall x | x in hash.filed :: x.key == old(x.key) && x.data == old(x.data)
      ensures old(Remaining()) == [] ==> data == None && Remaining() == []
      ensures old(Remaining()) != [] ==>
                && item == old(Remaining())[0] && data.Some? && (item in hash.filed ==> data == item.data)
                && Remaining() == old(Remaining())[1..]
      ensures old(row) != null ==> data == old(row.data)
    {
      hide Linked, Ascending, Rest, Table.Chained, Counted, Exchanged;
      item := row;
      if row != null {
        data := Pass();
        return;
      }
      while col < hash.items.Length - 1
        invariant Valid() && row == null && Remaining() == old(Remaining())
        invariant unchanged(hash) && unchanged(hash.filed)
        decreases hash.items.Length - col
      {
        hash.RowOf(col + 1);
        RestEnters(hash.chains, col, hash.items[col + 1]);
        col := col + 1;
        row := hash.items[col];
        if row != null {
          item := row;
          data := Enter();
          return;
        }
      }
      RestEnds(hash.chains, col);
      ExchangedNot(hash.holds, Held());
      data := None;
    }

    // Gives up the item that would have been next.
    method Free()
      requires Valid()
      modifies this`row, hash`holds, hash`live, hash`freed, hash.filed, row
      ensures hash.Valid() && row == null && Exchanged(old(hash.holds), old(Held()), hash.holds, Held())
      ensures if old(row) == null then hash.live == old(hash.live) && hash.freed == old(hash.freed)
              else Frees(old(row))
      ensures forall x | x in hash.filed :: x.key == old(x.key) && x.data == old(x.data)
    {
      hide Linked, Ascending, Table.Chained, Counted;
      if row != null {
        hash.RowOf(col);
        hash.Release(row);
        row := null;
      }
    }

    // Takes an item out of the table while this cursor is on its way. The cursor stays
    // in order unless the item it holds has been taken out before and the one behind
    // that goes now. Then it has just the items it had before it but this one; the
    // item held is not freed, but returned next all the same.
    method RemoveUnderway(key: word) returns (data: Option<T>, ghost item: Item?<T>)
      requires Valid()
      modifies hash, hash.items, hash.filed
      ensures hash.Valid() && hash.holds == old(hash.holds) && hash.contents == old(hash.contents) - {key}
      ensures data == if key in old(hash.contents) then Some(old(hash.contents)[key]) else None
      ensures data.None? ==> item == null && Valid() && Remaining() == old(Remaining())
      ensures data.Some? ==> item != null && hash.filed == old(hash.filed) - {item} && item in old(hash.filed)
      ensures data.Some? ==> var gone: Item<T> := item; old(gone.key) == key
      ensures Valid() <==> !CutsOff(item)
      ensures Valid() && data.Some? ==>
                var gone: Item<T> := item;
                Remaining() == if gone == row then old(Remaining()) else Without(old(Remaining()), gone)
      ensures row != null ==> row in hash.live && (row !in hash.filed ==> row.next == old(row.next))
      ensures row != null && item == row ==> row.data == data
      ensures data.Some? ==> item in if item in hash.holds then hash.live else hash.freed
    {
      ghost var chains, filed := hash.chains, hash.filed;
      ghost var next := if row == null then null else row.next;
      BeforeRemoval(next);
      hide Valid, Table.Valid, Placed, Coming, Separate, Rest, Distinct, Leads, RemoveAt, Without, Remaining, Has;
      ghost var c, p;
      data, c, p := RemoveBeside(key);
      item := null;
      if data.Some? {
        item := chains[c][p];
        OneGoes(chains, filed, col, row, next, c, p);
      }
      AfterRemoval(next);
    }

    // The removal, as it shows at the item held.
    method RemoveBeside(key: word) returns (data: Option<T>, ghost c: nat, ghost p: nat)
      requires hash.Valid() && (row != null ==> row in hash.holds && row in hash.live)
      requires row != null ==> row.data.Some?
      requires row != null && row in hash.filed ==>
                 row.key in hash.contents && row.data == Some(hash.contents[row.key])
      modifies hash, hash.items, hash.filed
      ensures hash.Valid() && hash.holds == old(hash.holds) && hash.contents == old(hash.contents) - {key}
      ensures data == if key in old(hash.contents) then Some(old(hash.contents)[key]) else None
      ensures data.None? ==> hash.chains == old(hash.chains) && hash.filed == old(hash.filed)
      ensures data.Some? ==>
                && c < |old(hash.chains)| && p < |old(hash.chains)[c]|
                && hash.chains == old(hash.chains)[c := RemoveAt(old(hash.chains)[c], p)]
                && var x := old(hash.chains)[c][p];
                   && x in old(hash.filed) && old(x.key) == key && hash.filed == old(hash.filed) - {x}
                   && x in (if x in hash.holds then hash.live else hash.freed)
      ensures row != null ==> row in hash.live
      ensures row != null && row !in hash.filed ==> row.next == old(row.next) && row.data.Some?
      ensures data.Some? && row != null && old(hash.chains)[c][p] == row ==> row.data == data
    {
      hide Table.Chained, RemoveAt, Col;
      c := Col(key, |hash.chains|);
      data, p := hash.Remove(key);
    }

    // A cursor is in order where it is placed.
    lemma AfterRemoval(next: Item?<T>)
      requires hash.Valid() && |hash.chains| <= TWO_TO_8 && col < |hash.chains|
      requires row != null ==> row in hash.holds && (row !in hash.filed ==> row.data.Some? && row.next == next)
      ensures Valid() <==> Placed(hash.chains, hash.filed, col, row, next)
      ensures Remaining() == Coming(hash.chains, hash.filed, col, row, next)
    {
      hide Rest, Table.Valid, Has;
    }

    // Where a cursor in order is.
    lemma BeforeRemoval(next: Item?<T>)
      requires Valid() && next == if row == null then null else row.next
      ensures hash.Valid() && Separate(hash.chains) && col < |hash.chains| <= TWO_TO_8
      ensures Placed(hash.chains, hash.filed, col, row, next)
      ensures Remaining() == Coming(hash.chains, hash.filed, col, row, next)
      ensures row != null && row in hash.filed ==>
                && Distinct(Rest(hash.chains, col, row))
                && Rest(hash.chains, col, row) == [row] + Rest(hash.chains, col, next)
                && Leads(hash.filed, hash.chains[col], next)
      ensures row != null ==>
                && row in hash.holds && row in hash.live
                && row.data.Some?
      ensures row != null && row in hash.filed ==>
                row.key in hash.contents && row.data == Some(hash.contents[row.key])
    {
      assert row != null ==> row in hash.live;
      hide Linked, Ascending, Rest, Table.Chained, Counted, Has, Separate, Distinct;
      KeptApart(hash);
      if row != null {
        Behind();
        if row in hash.filed {
          KeyedOnce(hash, row);
          RestDistinct(hash, col, row);
        }
      }
    }

    // The item is the one behind the item held, which is out of the table already:
    // the link the cursor goes on by then leads to an item that is not filed.
    twostate predicate CutsOff(item: Item?<T>)
      reads this, hash
    {
      item != null && row != null && row !in old(hash.filed) && old(if row == null then null else row.next) == item
    }
  }

  lemma TwoInOneBucket<T>(table: Table<T>)
    requires table.Valid() && |table.chains| == 1 && table.contents.Keys == {1, 2}
    ensures var head := table.items[0];
            && head != null && head in table.filed && head.key == 1
            && head.next != null && head.next in table.filed && head.next.key == 2
  {
    hide Counted, Represents, Table.Chained;
    var x := ItemOf(table, 1);
    var y := ItemOf(table, 2);
    var s: seq<Item<T>> := table.chains[0];
    table.RowOf(0);
    assert x in s && y in s by {
      InOnlyBucket(table, x);
      InOnlyBucket(table, y);
    }
    var i :| 0 <= i < |s| && s[i] == x;
    var j :| 0 <= j < |s| && s[j] == y;
    forall k | 0 <= k < |s|
      ensures s[k].key == 1 || s[k].key == 2
    {
      assert s[k].key in table.contents.Keys;
    }
    assert i == 0 && s[0].key < s[1].key;
    assert s[0].next == s[1];
  }

  lemma InOnlyBucket<T>(table: Table<T>, x: Item<T>)
    requires table.Valid() && |table.chains| == 1 && x in table.filed
    ensures x in table.chains[0]
  {
    hide Counted, Represents, Linked, Ascending;
    assert Has(table.chains[Col(x.key, 1)], x);
  }

  // In such a table a new cursor holds the first item. It is taken out, and then the
  // second one. The link the cursor goes on by now leads to an item that was freed.
  method TwoRemovals<T>(hash: Table<T>) returns (cursor: Cursor<T>)
    requires hash.Valid() && |hash.chains| == 1 && hash.contents.Keys == {1, 2} && hash.holds == multiset{}
    modifies hash, hash.items, hash.filed
    ensures cursor.hash == hash && hash.Valid() && !cursor.Valid()
    ensures cursor.row != null && cursor.row in hash.live
    ensures cursor.row.next != null && cursor.row.next in hash.freed
  {
    TwoInOneBucket(hash);
    hide Table.Valid, Cursor.Valid, Cursor.Remaining, Cursor.Steady, Without, Flatten;
    cursor := new Cursor(hash);
    ghost var first, second := cursor.row, cursor.row.next;
    KeyedOnce(hash, first);
    var x, gone := cursor.RemoveUnderway(1);
    assert gone == first;
    KeyedOnce(hash, second);
    var y, cut := cursor.RemoveUnderway(2);
    assert cut == second;
  }
}

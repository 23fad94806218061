// The chained hash table: sorted chains of reference-counted items, and cursors
// that hold on to the item they will return next.
module HashTable {
  import opened Wrappers
  import opened Murmur

  class Item<T> {
    var next: Item?<T>
    var key: word
    var data: Option<T>
    var ref: int

    constructor (key: word, data: T)
      ensures this.key == key && this.data == Some(data) && next == null && ref == 1
    {
      this.key, this.data := key, Some(data);
      next, ref := null, 1;
    }
  }

  // The bucket of a key.
  function Col(key: word, scale: nat): (c: nat)
    requires scale > 0
    ensures c < scale
  {
    key % scale
  }

  // The links from `head` run through exactly the items of s.
  ghost predicate Linked<T>(head: Item?<T>, s: seq<Item<T>>)
    reads s`next
  {
    && head == (if s == [] then null else s[0])
    && forall i {:trigger s[i].next} | 0 <= i < |s| :: s[i].next == if i + 1 < |s| then s[i + 1] else null
  }

  ghost predicate Ascending<T>(s: seq<Item<T>>)
    reads s`key
  {
    forall i, j | 0 <= i < j < |s| :: s[i].key < s[j].key
  }

  // The entries of one bucket are those of the map that belong there.
  ghost predicate Represents<T>(s: seq<Item<T>>, contents: map<word, T>, col: nat, scale: nat)
    requires scale > 0
    reads s`key, s`data
  {
    && (forall i | 0 <= i < |s| :: s[i].key in contents && s[i].data == Some(contents[s[i].key]))
    && (forall k | k in contents && Col(k, scale) == col :: HasKey(s, k))
  }

  ghost predicate HasKey<T>(s: seq<Item<T>>, k: word)
    reads s`key
  {
    exists i :: 0 <= i < |s| && s[i].key == k
  }

  // ---- Splicing ----

  function InsertAt<T>(s: seq<T>, p: nat, x: T): seq<T>
    requires p <= |s|
  {
    s[..p] + [x] + s[p..]
  }

  function RemoveAt<T>(s: seq<T>, p: nat): seq<T>
    requires p < |s|
  {
    s[..p] + s[p + 1..]
  }

  ghost predicate Distinct<T>(s: seq<T>) {
    forall i, j | 0 <= i < j < |s| :: s[i] != s[j]
  }

  // The item in front of position p, or the head for the first one, points to `to`;
  // all other links of s are as they should be.
  ghost predicate LinkedBut<T>(head: Item?<T>, s: seq<Item<T>>, p: nat, to: Item?<T>)
    requires p <= |s|
    reads s`next
  {
    && head == (if p == 0 then to else s[0])
    && (p > 0 ==> s[p - 1].next == to)
    && forall i {:trigger s[i].next} | 0 <= i < |s| && i + 1 != p :: s[i].next == if i + 1 < |s| then s[i + 1] else null
  }

  lemma LinksSpliceIn<T>(head: Item?<T>, s: seq<Item<T>>, p: nat, x: Item<T>)
    requires p <= |s| && LinkedBut(head, s, p, x)
    requires x.next == if p < |s| then s[p] else null
    ensures Linked(head, InsertAt(s, p, x))
  {
    var t := InsertAt(s, p, x);
    forall i | 0 <= i < |t|
      ensures t[i].next == if i + 1 < |t| then t[i + 1] else null
    {
      if i < p {
        assert t[i] == s[i];
      } else if i > p {
        assert t[i] == s[i - 1];
      }
    }
  }

  lemma LinksSpliceOut<T>(head: Item?<T>, s: seq<Item<T>>, p: nat)
    requires p < |s| && LinkedBut(head, s, p, if p + 1 < |s| then s[p + 1] else null)
    ensures Linked(head, RemoveAt(s, p))
  {
    var t := RemoveAt(s, p);
    forall i | 0 <= i < |t|
      ensures t[i].next == if i + 1 < |t| then t[i + 1] else null
    {
      if i < p {
        assert t[i] == s[i];
      } else {
        assert t[i] == s[i + 1];
      }
    }
  }

  lemma MembersSpliceIn<T>(s: seq<T>, p: nat, x: T)
    requires p <= |s|
    ensures forall y :: y in InsertAt(s, p, x) <==> y in s || y == x
  {
    assert s == s[..p] + s[p..];
  }

  lemma AscendingSpliceIn<T>(s: seq<Item<T>>, p: nat, x: Item<T>)
    requires Ascending(s) && p <= |s|
    requires p > 0 ==> s[p - 1].key < x.key
    requires p < |s| ==> x.key < s[p].key
    ensures Ascending(InsertAt(s, p, x))
    ensures forall i | 0 <= i < |s| :: s[i].key != x.key
  {
    var t := InsertAt(s, p, x);
    forall i | 0 <= i < |s|
      ensures if i < p then s[i].key < x.key else x.key < s[i].key
    {
      assert i < p ==> s[i].key <= s[p - 1].key;
      assert i >= p ==> s[p].key <= s[i].key;
    }
    forall i, j | 0 <= i < j < |t|
      ensures t[i].key < t[j].key
    {
      assert t[i] == if i < p then s[i] else if i == p then x else s[i - 1];
      assert t[j] == if j < p then s[j] else if j == p then x else s[j - 1];
    }
  }

  lemma EntriesSpliceIn<T>(s: seq<Item<T>>, p: nat, x: Item<T>, contents: map<word, T>, col: nat, scale: nat)
    requires scale > 0 && p <= |s| && x.data.Some? && Col(x.key, scale) == col
    requires forall i | 0 <= i < |s| :: Col(s[i].key, scale) == col && s[i].data.Some? && s[i].key != x.key
    requires Represents(s, contents, col, scale)
    ensures var t := InsertAt(s, p, x);
            && (forall i | 0 <= i < |t| :: Col(t[i].key, scale) == col && t[i].data.Some?)
            && Represents(t, contents[x.key := x.data.value], col, scale)
    ensures x.key !in contents
  {
    var t, after := InsertAt(s, p, x), contents[x.key := x.data.value];
    assert !HasKey(s, x.key);
    forall i | 0 <= i < |t|
      ensures Col(t[i].key, scale) == col && t[i].data.Some?
      ensures t[i].key in after && t[i].data == Some(after[t[i].key])
    {
      assert t[i] == if i < p then s[i] else if i == p then x else s[i - 1];
    }
    forall k | k in after && Col(k, scale) == col
      ensures HasKey(t, k)
    {
      if k == x.key {
        assert t[p].key == k;
      } else {
        assert HasKey(s, k);
        var i :| 0 <= i < |s| && s[i].key == k;
        assert t[if i < p then i else i + 1] == s[i];
      }
    }
  }

  // A bucket does not represent the entries of other buckets.
  lemma OtherEntries<T>(s: seq<Item<T>>, contents: map<word, T>, after: map<word, T>, key: word, col: nat, scale: nat)
    requires scale > 0 && Col(key, scale) != col && Represents(s, contents, col, scale)
    requires forall i | 0 <= i < |s| :: Col(s[i].key, scale) == col
    requires DifferOnlyAt(contents, after, key)
    ensures Represents(s, after, col, scale)
  {
    hide Col, HasKey;
  }

  lemma UpdateDiffers<T>(a: map<word, T>, key: word, data: T)
    ensures DifferOnlyAt(a, a[key := data], key)
    ensures DifferOnlyAt(a, a - {key}, key)
  {
  }

  ghost predicate DifferOnlyAt<T>(a: map<word, T>, b: map<word, T>, key: word) {
    forall k: word | k != key :: (k in a <==> k in b) && (k in a ==> a[k] == b[k])
  }

  lemma EntriesSpliceOut<T>(s: seq<Item<T>>, p: nat, key: word, contents: map<word, T>, col: nat, scale: nat)
    requires scale > 0 && p < |s|
    requires Ascending(s) && (forall i | 0 <= i < |s| :: Col(s[i].key, scale) == col && s[i].data.Some?)
    requires Represents(s, contents, col, scale) && s[p].key == key
    ensures var t := RemoveAt(s, p);
            && Ascending(t) && (forall i | 0 <= i < |t| :: Col(t[i].key, scale) == col && t[i].data.Some?)
            && Represents(t, contents - {key}, col, scale)
  {
    var t := RemoveAt(s, p);
    assert forall i | 0 <= i < |t| :: t[i] == s[if i < p then i else i + 1];
    forall k | k in contents - {key} && Col(k, scale) == col
      ensures HasKey(t, k)
    {
      var i :| 0 <= i < |s| && s[i].key == k;
      assert t[if i < p then i else i - 1].key == k;
    }
  }

  // ---- Walking a chain ----

  // Looks for key in a chain, stopping at the first larger one.
  method Find<T>(head: Item?<T>, ghost s: seq<Item<T>>, key: word) returns (found: Item?<T>)
    requires Linked(head, s) && Ascending(s)
    ensures found != null ==> found in s && found.key == key
    ensures found == null ==> forall i | 0 <= i < |s| :: s[i].key != key
  {
    var tmp := head;
    if tmp == null || tmp.key > key {
      return null;
    }
    ghost var i := 0;
    while true
      invariant 0 <= i < |s| && tmp == s[i] && tmp.key <= key
      decreases |s| - i
    {
      if tmp.key == key {
        return tmp;
      }
      if tmp.next == null || tmp.next.key > key {
        return null;
      }
      tmp := tmp.next;
      i := i + 1;
    }
  }

  // The last item whose key is below `key`, or an item with just that key.
  // The chain begins with an item that is not larger.
  method Predecessor<T>(head: Item<T>, ghost s: seq<Item<T>>, key: word) returns (at: Item<T>, ghost i: nat)
    requires Linked(head, s) && Ascending(s) && s != [] && s[0].key <= key
    ensures i < |s| && at == s[i] && at.key <= key
    ensures i + 1 < |s| ==> s[i + 1].key > key || at.key == key
  {
    at := head;
    i := 0;
    while at.key != key && at.next != null && at.next.key <= key
      invariant i < |s| && at == s[i] && at.key <= key
      decreases |s| - i
    {
      at := at.next;
      i := i + 1;
    }
  }

  // ---- All chains together ----

  ghost predicate Within<T>(chains: seq<seq<Item<T>>>, filed: set<Item<T>>) {
    forall c, i | 0 <= c < |chains| && 0 <= i < |chains[c]| :: chains[c][i] in filed
  }

  ghost predicate Has<T>(s: seq<Item<T>>, x: Item<T>) {
    exists i :: 0 <= i < |s| && s[i] == x
  }

  // Every filed item is in the bucket of its key.
  ghost predicate Covers<T>(chains: seq<seq<Item<T>>>, filed: set<Item<T>>)
    requires |chains| > 0
    reads filed`key
  {
    forall x | x in filed :: Has(chains[Col(x.key, |chains|)], x)
  }

  // Everything that holds of a bucket but the links between its items.
  ghost predicate Entries<T>(s: seq<Item<T>>, contents: map<word, T>, col: nat, scale: nat)
    requires scale > 0
    reads s`key, s`data
  {
    && Ascending(s) && (forall i | 0 <= i < |s| :: Col(s[i].key, scale) == col && s[i].data.Some?)
    && Represents(s, contents, col, scale)
  }

  ghost predicate Row<T>(head: Item?<T>, s: seq<Item<T>>, contents: map<word, T>, col: nat, scale: nat)
    requires scale > 0
    reads s`next, s`key, s`data
  {
    Linked(head, s) && Entries(s, contents, col, scale)
  }

  // All buckets, or all of them except one, are linked and sorted and agree with the map.
  ghost predicate Rows<T>(heads: seq<Item?<T>>, chains: seq<seq<Item<T>>>, filed: set<Item<T>>,
                          contents: map<word, T>, except: int)
    requires |heads| == |chains| > 0 && Within(chains, filed)
    reads filed`next, filed`key, filed`data
  {
    forall c | 0 <= c < |chains| && c != except :: Row(heads[c], chains[c], contents, c, |chains|)
  }

  // The item is linked in at position p of the bucket s, where its key fits.
  ghost predicate Joined<T>(head: Item?<T>, s: seq<Item<T>>, p: nat, item: Item<T>)
    reads s`next, s`key, item
  {
    && item.data.Some? && p <= |s|
    && LinkedBut(head, s, p, item) && item.next == (if p < |s| then s[p] else null)
    && (p > 0 ==> s[p - 1].key < item.key) && (p < |s| ==> item.key < s[p].key)
  }

  lemma RowJoined<T>(head: Item?<T>, s: seq<Item<T>>, contents: map<word, T>, col: nat, scale: nat,
                     p: nat, item: Item<T>)
    requires scale > 0 && Col(item.key, scale) == col
    requires Entries(s, contents, col, scale) && Joined(head, s, p, item)
    ensures item.key !in contents
    ensures Row(head, InsertAt(s, p, item), contents[item.key := item.data.value], col, scale)
  {
    hide Col;
    LinksSpliceIn(head, s, p, item);
    AscendingSpliceIn(s, p, item);
    EntriesSpliceIn(s, p, item, contents, col, scale);
  }

  lemma RowElsewhere<T>(head: Item?<T>, s: seq<Item<T>>, contents: map<word, T>, after: map<word, T>, key: word,
                        col: nat, scale: nat)
    requires scale > 0 && Col(key, scale) != col && Row(head, s, contents, col, scale)
    requires DifferOnlyAt(contents, after, key)
    ensures Row(head, s, after, col, scale)
  {
    hide Col, HasKey, Linked, Ascending;
    OtherEntries(s, contents, after, key, col, scale);
  }

  lemma HasSpliceIn<T>(s: seq<Item<T>>, p: nat, item: Item<T>, x: Item<T>)
    requires p <= |s|
    ensures Has(InsertAt(s, p, item), x) <==> Has(s, x) || x == item
  {
    var t := InsertAt(s, p, item);
    assert t[p] == item;
    if Has(s, x) {
      var i :| 0 <= i < |s| && s[i] == x;
      assert t[if i < p then i else i + 1] == x;
    }
    if Has(t, x) && x != item {
      var i :| 0 <= i < |t| && t[i] == x;
      assert s[if i < p then i else i - 1] == x;
    }
  }

  lemma FiledAfterInsert<T>(chains: seq<seq<Item<T>>>, filed: set<Item<T>>, p: nat, item: Item<T>)
    requires |chains| > 0 && p <= |chains[Col(item.key, |chains|)]|
    requires Within(chains, filed) && Covers(chains, filed)
    ensures var col := Col(item.key, |chains|);
            var after := chains[col := InsertAt(chains[col], p, item)];
            Within(after, filed + {item}) && Covers(after, filed + {item})
  {
    hide Col, InsertAt;
    var col := Col(item.key, |chains|);
    var s := chains[col];
    var after := chains[col := InsertAt(s, p, item)];
    forall c, i | 0 <= c < |after| && 0 <= i < |after[c]|
      ensures after[c][i] in filed + {item}
    {
      if c == col {
        HasSpliceIn(s, p, item, after[c][i]);
      }
    }
    forall x | x in filed + {item}
      ensures Has(after[Col(x.key, |after|)], x)
    {
      HasSpliceIn(s, p, item, x);
    }
  }

  lemma RowsAfterInsert<T>(heads: seq<Item?<T>>, chains: seq<seq<Item<T>>>, filed: set<Item<T>>,
                           contents: map<word, T>, p: nat, item: Item<T>)
    requires |heads| == |chains| > 0 && Within(chains, filed)
    requires item.data.Some? && Rows(heads, chains, filed, contents, Col(item.key, |chains|))
    requires var col := Col(item.key, |chains|);
             Entries(chains[col], contents, col, |chains|) && Joined(heads[col], chains[col], p, item)
    requires var col := Col(item.key, |chains|);
             Within(chains[col := InsertAt(chains[col], p, item)], filed + {item})
    ensures item.key !in contents
    ensures var col := Col(item.key, |chains|);
            Rows(heads, chains[col := InsertAt(chains[col], p, item)], filed + {item},
                 contents[item.key := item.data.value], -1)
  {
    hide Col, InsertAt, Row, Entries, Joined, DifferOnlyAt;
    var col := Col(item.key, |chains|);
    var after := contents[item.key := item.data.value];
    RowJoined(heads[col], chains[col], contents, col, |chains|, p, item);
    UpdateDiffers(contents, item.key, item.data.value);
    forall c | 0 <= c < |chains| && c != col
      ensures Row(heads[c], chains[c], after, c, |chains|)
    {
      RowElsewhere(heads[c], chains[c], contents, after, item.key, c, |chains|);
    }
  }

  // The head, or the item in front, of position p of the bucket s skips that position.
  ghost predicate Parted<T>(head: Item?<T>, s: seq<Item<T>>, p: nat)
    reads s`next
  {
    p < |s| && LinkedBut(head, s, p, if p + 1 < |s| then s[p + 1] else null)
  }

  lemma RowParted<T>(head: Item?<T>, s: seq<Item<T>>, contents: map<word, T>, col: nat, scale: nat, p: nat)
    requires scale > 0 && Entries(s, contents, col, scale) && Parted(head, s, p)
    ensures Row(head, RemoveAt(s, p), contents - {s[p].key}, col, scale)
  {
    hide Col;
    LinksSpliceOut(head, s, p);
    EntriesSpliceOut(s, p, s[p].key, contents, col, scale);
  }

  lemma HasSpliceOut<T>(s: seq<Item<T>>, p: nat, x: Item<T>)
    requires p < |s| && Ascending(s)
    ensures Has(RemoveAt(s, p), x) <==> Has(s, x) && x != s[p]
  {
    var t := RemoveAt(s, p);
    if Has(s, x) && x != s[p] {
      var i :| 0 <= i < |s| && s[i] == x;
      assert t[if i < p then i else i - 1] == x;
    }
    if Has(t, x) {
      var i :| 0 <= i < |t| && t[i] == x;
      assert s[if i < p then i else i + 1] == x;
    }
  }

  lemma FiledAfterRemove<T>(heads: seq<Item?<T>>, chains: seq<seq<Item<T>>>, filed: set<Item<T>>,
                            contents: map<word, T>, col: nat, p: nat)
    requires |heads| == |chains| > col && Within(chains, filed) && Covers(chains, filed)
    requires Rows(heads, chains, filed, contents, col) && Entries(chains[col], contents, col, |chains|)
    requires p < |chains[col]|
    ensures var after, rest := chains[col := RemoveAt(chains[col], p)], filed - {chains[col][p]};
            Within(after, rest) && Covers(after, rest)
  {
    hide Col, RemoveAt, Linked, Represents;
    var s := chains[col];
    var item := s[p];
    var after, rest := chains[col := RemoveAt(s, p)], filed - {item};
    forall c, i | 0 <= c < |after| && 0 <= i < |after[c]|
      ensures after[c][i] in rest
    {
      if c == col {
        HasSpliceOut(s, p, after[c][i]);
        assert Has(after[c], after[c][i]);
      } else {
        assert Row(heads[c], chains[c], contents, c, |chains|);
        assert Col(chains[c][i].key, |chains|) == c;
        assert Col(item.key, |chains|) == col;
      }
    }
    forall x | x in rest
      ensures Has(after[Col(x.key, |after|)], x)
    {
      HasSpliceOut(s, p, x);
    }
  }

  lemma RowsAfterRemove<T>(heads: seq<Item?<T>>, chains: seq<seq<Item<T>>>, filed: set<Item<T>>,
                           contents: map<word, T>, col: nat, p: nat)
    requires |heads| == |chains| > col && Within(chains, filed)
    requires Rows(heads, chains, filed, contents, col) && Entries(chains[col], contents, col, |chains|)
    requires Parted(heads[col], chains[col], p)
    requires Within(chains[col := RemoveAt(chains[col], p)], filed - {chains[col][p]})
    ensures Rows(heads, chains[col := RemoveAt(chains[col], p)], filed - {chains[col][p]},
                 contents - {chains[col][p].key}, -1)
  {
    hide Col, RemoveAt, Row, DifferOnlyAt, Ascending, Represents, LinkedBut;
    var key := chains[col][p].key;
    var after := contents - {key};
    RowParted(heads[col], chains[col], contents, col, |chains|, p);
    if p < |chains[col]| {
      var data := chains[col][p].data;
      assert Col(key, |chains|) == col && data.Some?;
      UpdateDiffers(contents, key, data.value);
    }
    forall c | 0 <= c < |chains| && c != col
      ensures Row(heads[c], chains[c], after, c, |chains|)
    {
      RowElsewhere(heads[c], chains[c], contents, after, key, c, |chains|);
    }
  }

  // ---- Reference counts ----

  // Every item not yet freed is referenced once by the table, if it is filed, and
  // once by every cursor that holds it, and there is at least one such reference.
  ghost predicate Counted<T>(filed: set<Item<T>>, live: set<Item<T>>, freed: set<Item<T>>, holds: multiset<Item<T>>)
    reads live`ref
  {
    && filed <= live && (forall x | x in freed :: x !in live) && (forall x | x in holds :: x in live)
    && forall x | x in live :: x.ref == (if x in filed then 1 else 0) + holds[x] && x.ref > 0
  }

  lemma NewItemCounts<T>(filed: set<Item<T>>, live: set<Item<T>>, freed: set<Item<T>>, holds: multiset<Item<T>>,
                         item: Item<T>)
    requires Counted(filed, live, freed, holds) && item !in live && item !in freed && item.ref == 1
    ensures item !in filed && Counted(filed + {item}, live + {item}, freed, holds)
    ensures Counted(filed, live, freed + {item}, holds)
  {
  }

  // ---- The table ----

  class Table<T> {
    const items: array<Item?<T>>

    // The items of every bucket, in order, and all of them together.
    ghost var chains: seq<seq<Item<T>>>
    ghost var filed: set<Item<T>>

    // The table as a map from hashes to data.
    ghost var contents: map<word, T>

    // Items not yet freed, items freed, and how often cursors hold each item.
    ghost var live: set<Item<T>>
    ghost var freed: set<Item<T>>
    ghost var holds: multiset<Item<T>>

    ghost predicate Chained()
      reads this`chains, this`filed, this`contents, items, filed`next, filed`key, filed`data
    {
      && items.Length == |chains| > 0
      && Within(chains, filed) && Covers(chains, filed) && Rows(items[..], chains, filed, contents, -1)
    }

    ghost predicate Valid()
      reads this`chains, this`filed, this`contents, this`live, this`freed, this`holds
      reads items, filed`next, filed`key, filed`data, live`ref
    {
      items.Length == |chains| > 0 && Chained() && Counted(filed, live, freed, holds)
    }

    constructor (scale: nat)
      requires scale > 0
      ensures Valid() && contents == map[] && holds == multiset{} && live == {} && freed == {}
      ensures fresh(items) && chains == seq(scale, _ => []) && filed == {}
    {
      items := new Item?<T>[scale](_ => null);
      chains := seq(scale, _ => []);
      contents, filed, live, freed, holds := map[], {}, {}, {}, multiset{};
    }

    // Everything is in order but the links of one bucket.
    ghost predicate ChainedBut(col: nat)
      reads this`chains, this`filed, this`contents, items, filed`next, filed`key, filed`data
    {
      && items.Length == |chains| > col && Within(chains, filed) && Covers(chains, filed)
      && Rows(items[..], chains, filed, contents, col) && Entries(chains[col], contents, col, |chains|)
    }

    // Files an item that has been linked in at position p of its bucket.
    ghost method RecordInsert(item: Item<T>, p: nat)
      requires |chains| > 0 && ChainedBut(Col(item.key, |chains|)) && item.data.Some?
      requires Joined(items[Col(item.key, |chains|)], chains[Col(item.key, |chains|)], p, item)
      modifies this`chains, this`filed, this`contents
      ensures Chained() && item.key !in old(contents) && contents == old(contents)[item.key := item.data.value]
      ensures chains == old(var col := Col(item.key, |chains|); chains[col := InsertAt(chains[col], p, item)])
      ensures filed == old(filed) + {item} && |chains| == old(|chains|)
    {
      hide Col, InsertAt, Rows, Entries, Within, Covers, LinkedBut;
      var col := Col(item.key, |chains|);
      FiledAfterInsert(chains, filed, p, item);
      RowsAfterInsert(items[..], chains, filed, contents, p, item);
      chains, contents, filed :=
        chains[col := InsertAt(chains[col], p, item)], contents[item.key := item.data.value], filed + {item};
    }

    // Takes the item at position p of a bucket, which has been unlinked, off the books.
    ghost method RecordRemove(col: nat, p: nat)
      requires ChainedBut(col) && Parted(items[col], chains[col], p)
      modifies this`chains, this`filed, this`contents
      ensures Chained() && contents == old(contents) - {old(chains[col][p].key)}
      ensures chains == old(chains[col := RemoveAt(chains[col], p)])
      ensures filed == old(filed) - {old(chains[col][p])}
    {
      hide Col, RemoveAt, Rows, Entries, Within, Covers, LinkedBut;
      FiledAfterRemove(items[..], chains, filed, contents, col, p);
      RowsAfterRemove(items[..], chains, filed, contents, col, p);
      chains, contents, filed :=
        chains[col := RemoveAt(chains[col], p)], contents - {chains[col][p].key}, filed - {chains[col][p]};
    }

    lemma RowOf(col: nat)
      requires Chained() && col < |chains|
      ensures Linked(items[col], chains[col]) && Ascending(chains[col])
      ensures forall i | 0 <= i < |chains[col]| ::
                chains[col][i] in filed && chains[col][i].data.Some? && Col(chains[col][i].key, |chains|) == col
      ensures forall i | 0 <= i < |chains[col]| ::
                chains[col][i].key in contents && chains[col][i].data == Some(contents[chains[col][i].key])
    {
      hide Col;
      assert Row(items[..][col], chains[col], contents, col, |chains|);
    }

    lemma OnlyInOwnBucket(x: Item<T>)
      requires Chained()
      ensures forall c, i | 0 <= c < |chains| && c != Col(x.key, |chains|) && 0 <= i < |chains[c]| :: chains[c][i] != x
    {
      hide Chained, Ascending, Linked;
      forall c | 0 <= c < |chains|
        ensures forall i | 0 <= i < |chains[c]| :: Col(chains[c][i].key, |chains|) == c
      {
        RowOf(c);
      }
    }

    // Links an item in at the front of its bucket.
    method PutFirst(item: Item<T>)
      requires Chained() && item !in filed && item.data.Some?
      requires var s := chains[Col(item.key, |chains|)]; s == [] || item.key < s[0].key
      modifies items, item`next, this`chains, this`filed, this`contents
      ensures Chained() && item.key !in old(contents) && contents == old(contents)[item.key := item.data.value]
      ensures filed == old(filed) + {item} && |chains| == old(|chains|)
    {
      hide Col, InsertAt, Entries, Covers;
      var col := Col(item.key, items.Length);
      ghost var s, heads := chains[col], items[..];
      assert Row(heads[col], s, contents, col, |chains|);
      RowOf(col);
      item.next := items[col];
      items[col] := item;
      assert items[..] == heads[col := item];
      assert Covers(chains, filed);
      forall c | 0 <= c < |chains| && c != col
        ensures Row(items[c], chains[c], contents, c, |chains|)
      {
        assert old(Row(heads[c], chains[c], contents, c, |chains|));
      }
      assert Rows(items[..], chains, filed, contents, col);
      RecordInsert(item, 0);
    }

    // Links an item in behind the item at position i of its bucket.
    method PutAfter(at: Item<T>, item: Item<T>, ghost i: nat)
      requires Chained() && item !in filed && item.data.Some?
      requires var s := chains[Col(item.key, |chains|)];
               i < |s| && s[i] == at && at.key < item.key && (i + 1 < |s| ==> item.key < s[i + 1].key)
      modifies at`next, item`next, this`chains, this`filed, this`contents
      ensures Chained() && item.key !in old(contents) && contents == old(contents)[item.key := item.data.value]
      ensures filed == old(filed) + {item} && |chains| == old(|chains|)
    {
      hide Col, InsertAt, Entries, Covers;
      ghost var col := Col(item.key, |chains|);
      ghost var s := chains[col];
      assert Row(items[col], s, contents, col, |chains|);
      RowOf(col);
      OnlyInOwnBucket(at);
      item.next := at.next;
      at.next := item;
      forall c | 0 <= c < |chains| && c != col
        ensures Row(items[c], chains[c], contents, c, |chains|)
      {
        assert old(Row(items[c], chains[c], contents, c, |chains|));
      }
      assert Rows(items[..], chains, filed, contents, col);
      assert Joined(items[col], s, i + 1, item);
      assert Entries(s, contents, col, |chains|);
      assert ChainedBut(col);
      RecordInsert(item, i + 1);
    }

    // Links an item in where its key belongs, unless the key is taken already.
    // The item that holds the key afterwards is returned.
    method Place(item: Item<T>) returns (holder: Item<T>)
      requires items.Length == |chains| > 0 && Chained() && item !in filed && item.data.Some?
      modifies items, filed`next, item`next, this`chains, this`filed, this`contents
      ensures Chained() && |chains| == old(|chains|)
      ensures item.key in old(contents) ==>
                && holder in filed && holder != item && holder.key == item.key
                && contents == old(contents) && filed == old(filed)
      ensures item.key !in old(contents) ==>
                && holder == item
                && contents == old(contents)[item.key := item.data.value] && filed == old(filed) + {item}
      ensures holder.data == Some(contents[item.key])
    {
      hide Col, Chained, Ascending, HasKey, Represents;
      var col := Col(item.key, items.Length);
      var tmp := items[col];
      RowOf(col);
      if tmp == null || tmp.key > item.key {
        PutFirst(item);
      } else {
        ghost var i;
        holder, i := Predecessor(tmp, chains[col], item.key);
        if holder.key == item.key {
          return;
        }
        PutAfter(holder, item, i);
      }
      holder := item;
    }

    lemma MissingKey(key: word)
      requires Chained() && |chains| > 0
      requires var s := chains[Col(key, |chains|)]; forall i | 0 <= i < |s| :: s[i].key != key
      ensures key !in contents
    {
      hide Col;
      var col := Col(key, |chains|);
      assert Row(items[..][col], chains[col], contents, col, |chains|);
      assert !HasKey(chains[col], key);
    }

    // Unlinks the first item of a bucket.
    method TakeFirst(col: nat) returns (found: Item<T>)
      requires Chained() && col < items.Length == |chains| && chains[col] != []
      modifies items, this`chains, this`filed, this`contents
      ensures Chained() && found == old(chains[col][0]) && contents == old(contents) - {found.key}
      ensures found in old(filed)
      ensures filed == old(filed) - {found} && chains == old(chains[col := RemoveAt(chains[col], 0)])
    {
      hide Col, RemoveAt, Entries, Covers;
      ghost var s, heads := chains[col], items[..];
      assert Row(heads[col], s, contents, col, |chains|);
      RowOf(col);
      found := items[col];
      items[col] := found.next;
      assert items[..] == heads[col := found.next];
      forall c | 0 <= c < |chains| && c != col
        ensures Row(items[c], chains[c], contents, c, |chains|)
      {
        assert old(Row(heads[c], chains[c], contents, c, |chains|));
      }
      assert Rows(items[..], chains, filed, contents, col);
      assert Parted(items[col], s, 0);
      RecordRemove(col, 0);
    }

    // Unlinks the item behind the item at position i of a bucket.
    method TakeAfter(at: Item<T>, ghost col: nat, ghost i: nat) returns (found: Item<T>)
      requires Chained() && col < items.Length == |chains| && i + 1 < |chains[col]| && chains[col][i] == at
      modifies at`next, this`chains, this`filed, this`contents
      ensures Chained() && found == old(chains[col][i + 1]) && contents == old(contents) - {found.key}
      ensures found in old(filed) && found.next == old(found.next)
      ensures filed == old(filed) - {found} && chains == old(chains[col := RemoveAt(chains[col], i + 1)])
    {
      hide Col, RemoveAt, Entries, Covers;
      ghost var s := chains[col];
      assert Row(items[..][col], s, contents, col, |chains|);
      RowOf(col);
      assert s[i].next == s[i + 1] && Col(at.key, |chains|) == col;
      OnlyInOwnBucket(at);
      found := at.next;
      at.next := found.next;
      forall c | 0 <= c < |chains| && c != col
        ensures Row(items[c], chains[c], contents, c, |chains|)
      {
        assert old(Row(items[c], chains[c], contents, c, |chains|));
      }
      assert Rows(items[..], chains, filed, contents, col);
      assert Parted(items[col], s, i + 1);
      RecordRemove(col, i + 1);
    }

    // Unlinks the item with the key, which was at position p of its bucket.
    method Detach(key: word) returns (found: Item?<T>, ghost p: nat)
      requires items.Length == |chains| > 0 && Chained()
      modifies items, filed`next, this`chains, this`filed, this`contents
      ensures Chained() && |chains| == old(|chains|)
      ensures found == null ==>
                key !in old(contents) && contents == old(contents) && filed == old(filed) && chains == old(chains)
      ensures found != null ==>
                && key in old(contents) && found in old(filed)
                && found.key == key && found.data == Some(old(contents)[key])
                && contents == old(contents) - {key} && filed == old(filed) - {found}
                && found.next == old(found.next)
      ensures found != null ==> var col := Col(key, |chains|); var s := old(chains)[col];
                p < |s| && s[p] == found && chains == old(chains)[col := RemoveAt(s, p)]
    {
      hide Col, Chained, Represents, RemoveAt;
      var col := Col(key, items.Length);
      var tmp := items[col];
      ghost var s := chains[col];
      p := 0;
      RowOf(col);
      if tmp == null || tmp.key > key {
        MissingKey(key);
        return null, p;
      } else if tmp.key == key {
        found := TakeFirst(col);
        return;
      }
      ghost var i := 0;
      while tmp.next != null && tmp.next.key < key
        invariant 0 <= i < |s| && tmp == s[i] && tmp.key < key
        decreases |s| - i
      {
        tmp := tmp.next;
        i := i + 1;
      }
      assert s[i].next == tmp.next;
      if tmp.next != null && tmp.next.key == key {
        p := i + 1;
        found := TakeAfter(tmp, col, i);
      } else {
        forall j | 0 <= j < |s|
          ensures s[j].key != key
        {
          assert j <= i ==> s[j].key <= s[i].key;
          assert j > i + 1 ==> s[i + 1].key < s[j].key;
        }
        MissingKey(key);
        found := null;
      }
    }

    // ---- References ----

    method Free(item: Item<T>)
      requires item !in freed
      modifies item, this`live, this`freed
      ensures live == old(live) - {item} && freed == old(freed) + {item}
    {
      item.next, item.data, item.key := null, None, 0;
      live, freed := live - {item}, freed + {item};
    }

    method Unref(item: Item<T>)
      requires item !in freed
      modifies item, this`live, this`freed
      ensures old(item.ref) != 1 ==>
                && item.ref == old(item.ref) - 1 && live == old(live) && freed == old(freed)
                && item.next == old(item.next) && item.key == old(item.key) && item.data == old(item.data)
      ensures old(item.ref) == 1 ==> live == old(live) - {item} && freed == old(freed) + {item}
    {
      item.ref := item.ref - 1;
      if item.ref == 0 {
        Free(item);
      }
    }

    // ---- Operations ----

    // Adds an item of its own to the table; without a place for it, it is freed.
    method Add(item: Item<T>) returns (kept: T)
      requires Valid() && item !in live && item !in freed && item.ref == 1 && item.data.Some?
      modifies items, filed, item, this`chains, this`filed, this`contents, this`live, this`freed
      ensures Valid() && |chains| == old(|chains|)
      ensures filed == old(filed) + (if old(item.key) in old(contents) then {} else {item})
      ensures old(item.key) in old(contents) ==>
                contents == old(contents) && kept == contents[old(item.key)]
                && live == old(live) && freed == old(freed) + {item}
      ensures old(item.key) !in old(contents) ==>
                contents == old(contents)[old(item.key) := old(item.data.value)] && kept == old(item.data.value)
                && live == old(live) + {item} && freed == old(freed)
    {
      hide Chained;
      NewItemCounts(filed, live, freed, holds, item);
      hide Counted;
      var holder := Place(item);
      kept := holder.data.value;
      if holder == item {
        live := live + {item};
      } else {
        Free(item);
        assert live == old(live);
      }
    }

    // First insertion wins: the data filed under the key afterwards is returned.
    method Insert(key: word, data: T) returns (kept: T)
      requires Valid()
      modifies this, items, filed
      ensures Valid() && holds == old(holds) && |chains| == old(|chains|)
      ensures old(filed) <= filed && fresh(filed - old(filed))
      ensures key in old(contents) ==>
                contents == old(contents) && kept == contents[key] && live == old(live) && old(freed) < freed
      ensures key !in old(contents) ==>
                contents == old(contents)[key := data] && kept == data && freed == old(freed)
    {
      hide Chained, Counted;
      var item := new Item(key, data);
      kept := Add(item);
    }

    // The data filed under the key is returned; its item is freed unless a cursor
    // holds it. The item was at position p of its bucket.
    method Remove(key: word) returns (data: Option<T>, ghost p: nat)
      requires Valid()
      modifies this, items, filed
      ensures Valid() && holds == old(holds) && |chains| == old(|chains|)
      ensures contents == old(contents) - {key} && live + freed == old(live + freed)
      ensures data == if key in old(contents) then Some(old(contents)[key]) else None
      ensures data.None? ==>
                chains == old(chains) && filed == old(filed) && live == old(live) && freed == old(freed)
      ensures data.Some? ==> var col := Col(key, |chains|); var s := old(chains)[col];
                && p < |s| && s[p] in old(filed) && old(s[p].key) == key && chains == old(chains)[col := RemoveAt(s, p)]
                && filed == old(filed) - {s[p]}
                && (if s[p] in holds then
                      && live == old(live) && freed == old(freed)
                      && s[p].next == old(s[p].next) && s[p].data == old(s[p].data)
                    else live == old(live) - {s[p]} && freed == old(freed) + {s[p]})
    {
      hide Chained, Col, RemoveAt;
      var found;
      found, p := Detach(key);
      data := None;
      if found != null {
        data := found.data;
        Unref(found);
      }
    }

    // A cursor takes a reference to an item of the table.
    method Hold(item: Item<T>)
      requires Valid() && item in filed
      modifies item`ref, this`holds
      ensures Valid() && holds == old(holds) + multiset{item}
    {
      hide Chained, Col;
      item.ref := item.ref + 1;
      holds := holds + multiset{item};
    }

    // A cursor gives a reference back. If the item is not in the table any more and
    // nobody else holds it, it is freed.
    method Release(item: Item<T>)
      requires Valid() && item in holds
      modifies item, this`holds, this`live, this`freed
      ensures Valid() && holds == old(holds) - multiset{item}
      ensures item in filed || old(holds)[item] > 1 ==>
                && live == old(live) && freed == old(freed)
                && item.next == old(item.next) && item.key == old(item.key) && item.data == old(item.data)
      ensures item !in filed && old(holds)[item] == 1 ==> live == old(live) - {item} && freed == old(freed) + {item}
    {
      hide Chained, Col;
      Unref(item);
      holds := holds - multiset{item};
      assert items.Length == |chains| > 0 && Chained();
    }

    // A cursor takes a reference to the item that is next and gives back the one it had.
    method Trade(give: Item<T>, take: Item?<T>)
      requires Valid() && give in holds && (take != null ==> take in filed)
      modifies give, filed`ref, this`holds, this`live, this`freed
      ensures Valid() && holds == old(holds) + (if take == null then multiset{} else multiset{take}) - multiset{give}
      ensures give in filed || old(holds)[give] > 1 ==>
                && live == old(live) && freed == old(freed)
                && give.next == old(give.next) && give.key == old(give.key) && give.data == old(give.data)
      ensures give !in filed && old(holds)[give] == 1 ==> live == old(live) - {give} && freed == old(freed) + {give}
    {
      hide Chained, Counted, Col;
      if take != null {
        Hold(take);
      }
      Release(give);
    }

    method ExistsKey(key: word) returns (data: Option<T>)
      requires Valid()
      ensures data == if key in contents then Some(contents[key]) else None
    {
      hide Col, Chained, Counted;
      var col := Col(key, items.Length);
      RowOf(col);
      var found := Find(items[col], chains[col], key);
      if found == null {
        MissingKey(key);
        return None;
      }
      return found.data;
    }
  }
}

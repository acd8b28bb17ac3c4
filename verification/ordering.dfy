/** The in-memory ordering the dashboard applies to every sibling list after
    a load (`fetchData`, app/admin/page.tsx lines 83-89): topics by
    `order_index` (missing read as 0), activities by `order_index` and then
    by `id`. JavaScript's `Array.prototype.sort` is stable, so the model sorts
    with a stable insertion sort over a two-part key. */
module Ordering {
  import opened Records
  import opened Sequences

  /** A sort key compared lexicographically: `primary`, then `secondary`. */
  datatype Key = Key(primary: int, secondary: int)

  predicate KeyLe(a: Key, b: Key)
  {
    a.primary < b.primary || (a.primary == b.primary && a.secondary <= b.secondary)
  }

  predicate KeyLt(a: Key, b: Key)
  {
    KeyLe(a, b) && a != b
  }

  /** Every pair of positions is in key order. */
  predicate SortedBy<T>(s: seq<T>, key: T -> Key)
  {
    forall i, j :: 0 <= i < j < |s| ==> KeyLe(key(s[i]), key(s[j]))
  }

  /** Every pair of positions is in strictly increasing key order. */
  predicate StrictlySortedBy<T>(s: seq<T>, key: T -> Key)
  {
    forall i, j :: 0 <= i < j < |s| ==> KeyLt(key(s[i]), key(s[j]))
  }

  /** Inserts `x` before the first element whose key is not below `x`'s. */
  function InsertBy<T>(x: T, s: seq<T>, key: T -> Key): (r: seq<T>)
    ensures |r| == |s| + 1
    ensures multiset(r) == multiset(s) + multiset{x}
    ensures SortedBy(s, key) ==> SortedBy(r, key)
    ensures r[0] == x || (|s| > 0 && r[0] == s[0])
  {
    if |s| == 0 then [x]
    else if KeyLe(key(x), key(s[0])) then [x] + s
    else
      var rest := InsertBy(x, s[1..], key);
      assert s == [s[0]] + s[1..];
      var r := [s[0]] + rest;
      assert SortedBy(s, key) ==> SortedBy(r, key) by {
        if SortedBy(s, key) {
          assert KeyLe(key(s[0]), key(rest[0]));
          forall i, j | 0 <= i < j < |r| ensures KeyLe(key(r[i]), key(r[j])) {
            if i == 0 && j > 1 {
              assert KeyLe(key(rest[0]), key(rest[j - 1]));
            }
          }
        }
      }
      r
  }

  /** The elements of `s` whose key is `k`, in their order in `s`. */
  function KeyFilter<T>(s: seq<T>, key: T -> Key, k: Key): seq<T>
    decreases |s|
  {
    if |s| == 0 then []
    else (if key(s[0]) == k then [s[0]] else []) + KeyFilter(s[1..], key, k)
  }

  lemma KeyFilterCons<T>(x: T, s: seq<T>, key: T -> Key, k: Key)
    ensures KeyFilter([x] + s, key, k) == (if key(x) == k then [x] else []) + KeyFilter(s, key, k)
  {
    assert ([x] + s)[1..] == s;
  }

  /** A map that keeps every key maps the elements of each key group in
      their order. */
  lemma {:induction false} KeyFilterMap<T>(s: seq<T>, key: T -> Key, f: T -> T, k: Key)
    requires forall x :: key(f(x)) == key(x)
    ensures KeyFilter(MapSeq(s, f), key, k) == MapSeq(KeyFilter(s, key, k), f)
    decreases |s|
  {
    if |s| > 0 {
      var mapped := MapSeq(s, f);
      assert mapped == [f(s[0])] + MapSeq(s[1..], f);
      KeyFilterCons(f(s[0]), MapSeq(s[1..], f), key, k);
      KeyFilterMap(s[1..], key, f, k);
      var head := if key(s[0]) == k then [s[0]] else [];
      MapConcat(head, KeyFilter(s[1..], key, k), f);
    }
  }

  /** Mapping a concatenation maps each part. */
  lemma MapConcat<T>(a: seq<T>, b: seq<T>, f: T -> T)
    ensures MapSeq(a + b, f) == MapSeq(a, f) + MapSeq(b, f)
  {
    assert |MapSeq(a + b, f)| == |MapSeq(a, f) + MapSeq(b, f)|;
    forall i | 0 <= i < |a| + |b|
      ensures MapSeq(a + b, f)[i] == (MapSeq(a, f) + MapSeq(b, f))[i]
    {
      if i >= |a| {
        assert (a + b)[i] == b[i - |a|];
      }
    }
  }

  /** Inserting `x` puts it ahead of every element with the same key. */
  lemma {:induction false} InsertByKeepsTies<T>(x: T, s: seq<T>, key: T -> Key, k: Key)
    ensures KeyFilter(InsertBy(x, s, key), key, k) == (if key(x) == k then [x] else []) + KeyFilter(s, key, k)
    decreases |s|, 1
  {
    if |s| == 0 {
      assert InsertBy(x, s, key) == [x] + [];
      KeyFilterCons(x, [], key, k);
    } else if KeyLe(key(x), key(s[0])) {
      assert InsertBy(x, s, key) == [x] + s;
      KeyFilterCons(x, s, key, k);
    } else {
      InsertPastHeadKeepsTies(x, s, key, k);
    }
  }

  /** The case where `x` goes past the head of `s`. */
  lemma {:induction false} InsertPastHeadKeepsTies<T>(x: T, s: seq<T>, key: T -> Key, k: Key)
    requires |s| > 0 && !KeyLe(key(x), key(s[0]))
    ensures KeyFilter(InsertBy(x, s, key), key, k) == (if key(x) == k then [x] else []) + KeyFilter(s, key, k)
    decreases |s|, 0
  {
    var rest := InsertBy(x, s[1..], key);
    InsertByKeepsTies(x, s[1..], key, k);
    assert InsertBy(x, s, key) == [s[0]] + rest;
    TiesPassOver(x, s, rest, key, k);
  }

  /** Putting the head of `s`, whose key differs from `x`'s, ahead of `rest`
      keeps `x` ahead of its ties. */
  lemma TiesPassOver<T>(x: T, s: seq<T>, rest: seq<T>, key: T -> Key, k: Key)
    requires |s| > 0 && key(x) != key(s[0])
    requires KeyFilter(rest, key, k) == (if key(x) == k then [x] else []) + KeyFilter(s[1..], key, k)
    ensures KeyFilter([s[0]] + rest, key, k) == (if key(x) == k then [x] else []) + KeyFilter(s, key, k)
  {
    KeyFilterCons(s[0], rest, key, k);
    if key(x) == k {
      assert KeyFilter(s, key, k) == KeyFilter(s[1..], key, k);
    } else {
      assert KeyFilter(rest, key, k) == KeyFilter(s[1..], key, k);
    }
  }

  /** Stable insertion sort: among equal keys the input order is kept. */
  function SortBy<T>(s: seq<T>, key: T -> Key): (r: seq<T>)
    ensures |r| == |s|
    ensures multiset(r) == multiset(s)
    ensures SortedBy(r, key)
    ensures forall k :: KeyFilter(r, key, k) == KeyFilter(s, key, k)
  {
    if |s| == 0 then []
    else
      assert s == [s[0]] + s[1..];
      var rest := SortBy(s[1..], key);
      assert forall k :: KeyFilter(InsertBy(s[0], rest, key), key, k) == KeyFilter(s, key, k) by {
        forall k
          ensures KeyFilter(InsertBy(s[0], rest, key), key, k) == KeyFilter(s, key, k)
        {
          InsertByKeepsTies(s[0], rest, key, k);
          KeyFilterCons(s[0], s[1..], key, k);
        }
      }
      InsertBy(s[0], rest, key)
  }

  /** A list whose keys strictly increase is the only sorted arrangement of
      its elements. */
  lemma {:induction false} SortedPermutationUnique<T>(a: seq<T>, b: seq<T>, key: T -> Key)
    requires StrictlySortedBy(a, key)
    requires SortedBy(b, key)
    requires multiset(a) == multiset(b)
    ensures a == b
  {
    if |a| == 0 {
      assert |multiset(b)| == 0;
    } else {
      HeadsAgree(a, b, key);
      DropHead(a, b);
      SortedPermutationUnique(a[1..], b[1..], key);
      assert a == [a[0]] + a[1..];
      assert b == [b[0]] + b[1..];
    }
  }

  /** The least element of both arrangements comes first in each. */
  lemma HeadsAgree<T>(a: seq<T>, b: seq<T>, key: T -> Key)
    requires StrictlySortedBy(a, key)
    requires SortedBy(b, key)
    requires multiset(a) == multiset(b)
    requires |a| > 0
    ensures |b| > 0 && a[0] == b[0]
  {
    assert b[0] in multiset(a);
    var m :| 0 <= m < |a| && a[m] == b[0];
    assert KeyLe(key(a[0]), key(b[0])) by {
      if m > 0 { assert KeyLt(key(a[0]), key(a[m])); }
    }
    assert a[0] in multiset(b);
    var k :| 0 <= k < |b| && b[k] == a[0];
    assert KeyLe(key(b[0]), key(a[0])) by {
      if k > 0 { assert KeyLe(key(b[0]), key(b[k])); }
    }
    assert key(a[m]) == key(a[0]);
    assert m == 0;
  }

  /** Removing an equal first element keeps two arrangements permutations of
      each other. */
  lemma DropHead<T>(a: seq<T>, b: seq<T>)
    requires multiset(a) == multiset(b)
    requires |a| > 0 && |b| > 0 && a[0] == b[0]
    ensures multiset(a[1..]) == multiset(b[1..])
  {
    assert a == [a[0]] + a[1..];
    assert b == [b[0]] + b[1..];
    assert multiset(a) == multiset{a[0]} + multiset(a[1..]);
    assert multiset(b) == multiset{a[0]} + multiset(b[1..]);
    assert multiset(a[1..]) == multiset(a) - multiset{a[0]};
  }

  /** Sorting a list whose keys already strictly increase leaves it as it is:
      a reload never reshuffles a list the dashboard itself numbered. */
  lemma StrictlySortedIsFixed<T>(s: seq<T>, key: T -> Key)
    requires StrictlySortedBy(s, key)
    ensures SortBy(s, key) == s
  {
    SortedPermutationUnique(s, SortBy(s, key), key);
  }

  /** Sorting depends only on which elements are present, not on the order
      the backend happened to return them in, once keys are distinct. */
  lemma SortIgnoresArrival<T>(a: seq<T>, b: seq<T>, key: T -> Key)
    requires multiset(a) == multiset(b)
    requires StrictlySortedBy(SortBy(a, key), key)
    ensures SortBy(a, key) == SortBy(b, key)
  {
    SortedPermutationUnique(SortBy(a, key), SortBy(b, key), key);
  }

  /** The positions read 1..N in list order. */
  predicate Dense<T>(s: seq<T>, pos: T -> Option<int>)
  {
    forall i :: 0 <= i < |s| ==> pos(s[i]) == Some(i + 1)
  }

  function ActivityPosition(a: Activity): Option<int>
  {
    a.order
  }

  function TopicPosition(t: Topic): Option<int>
  {
    t.order
  }

  /** `(x.order_index || 0)`: a missing position sorts as 0. */
  function OrderOrZero(o: Option<int>): (n: int)
    ensures o.None? ==> n == 0
    ensures o.Some? ==> n == o.value
  {
    match o
    case Some(n) => n
    case None => 0
  }

  function TopicKey(t: Topic): Key
  {
    Key(OrderOrZero(t.order), 0)
  }

  function ActivityKey(a: Activity): Key
  {
    Key(OrderOrZero(a.order), a.id)
  }

  /** The topic comparator, `(a.order_index || 0) - (b.order_index || 0)`:
      it puts `a` first or keeps a tie exactly when the keys do. */
  function CompareTopics(a: Topic, b: Topic): (c: int)
    ensures c <= 0 <==> KeyLe(TopicKey(a), TopicKey(b))
    ensures c == 0 <==> TopicKey(a) == TopicKey(b)
  {
    OrderOrZero(a.order) - OrderOrZero(b.order)
  }

  /** The activity comparator: the position difference, or the id difference
      when the positions agree. It puts `a` first or keeps a tie exactly
      when the keys do. */
  function CompareActivities(a: Activity, b: Activity): (c: int)
    ensures c <= 0 <==> KeyLe(ActivityKey(a), ActivityKey(b))
    ensures c == 0 <==> ActivityKey(a) == ActivityKey(b)
  {
    var orderDiff := OrderOrZero(a.order) - OrderOrZero(b.order);
    if orderDiff != 0 then orderDiff else a.id - b.id
  }

  /** The topic sort of `fetchData`: by position alone, ties kept in
      arrival order (the topics at any one position come out in the order
      they came in). */
  function SortTopics(ts: seq<Topic>): (r: seq<Topic>)
    ensures multiset(r) == multiset(ts)
    ensures forall i, j :: 0 <= i < j < |r| ==> OrderOrZero(r[i].order) <= OrderOrZero(r[j].order)
    ensures forall p :: KeyFilter(r, TopicKey, Key(p, 0)) == KeyFilter(ts, TopicKey, Key(p, 0))
  {
    var r := SortBy(ts, TopicKey);
    assert forall i, j :: 0 <= i < j < |r| ==> KeyLe(TopicKey(r[i]), TopicKey(r[j]));
    r
  }

  /** The activity sort of `fetchData`: by position, then by id, ties (rows
      sharing both) kept in arrival order. */
  function SortActivities(acts: seq<Activity>): (r: seq<Activity>)
    ensures multiset(r) == multiset(acts)
    ensures forall i, j :: 0 <= i < j < |r| ==>
              OrderOrZero(r[i].order) < OrderOrZero(r[j].order) ||
              (OrderOrZero(r[i].order) == OrderOrZero(r[j].order) && r[i].id <= r[j].id)
    ensures forall k :: KeyFilter(r, ActivityKey, k) == KeyFilter(acts, ActivityKey, k)
  {
    var r := SortBy(acts, ActivityKey);
    assert forall i, j :: 0 <= i < j < |r| ==> KeyLe(ActivityKey(r[i]), ActivityKey(r[j]));
    r
  }

  /** With distinct ids the activity order is total, so the loaded order
      does not depend on the order the backend returned the rows in. */
  lemma ActivityOrderIsDeterministic(a: seq<Activity>, b: seq<Activity>)
    requires DistinctIds(a)
    requires multiset(a) == multiset(b)
    ensures SortActivities(a) == SortActivities(b)
  {
    var r := SortBy(a, ActivityKey);
    assert DistinctIds(r) by {
      forall i, j | 0 <= i < |r| && 0 <= j < |r| && i != j
        ensures r[i].id != r[j].id
      {
        DistinctIdsKeepUnderPermutation(a, r, i, j);
      }
    }
    assert StrictlySortedBy(r, ActivityKey) by {
      forall i, j | 0 <= i < j < |r|
        ensures KeyLt(ActivityKey(r[i]), ActivityKey(r[j]))
      {
        assert KeyLe(ActivityKey(r[i]), ActivityKey(r[j]));
        assert r[i].id != r[j].id;
      }
    }
    SortIgnoresArrival(a, b, ActivityKey);
  }

  /** Two positions of a permutation of a list with distinct ids hold
      different ids. */
  lemma DistinctIdsKeepUnderPermutation(a: seq<Activity>, r: seq<Activity>, i: int, j: int)
    requires DistinctIds(a)
    requires multiset(r) == multiset(a)
    requires 0 <= i < |r| && 0 <= j < |r| && i != j
    ensures r[i].id != r[j].id
  {
    assert r[i] in multiset(a);
    var p :| 0 <= p < |a| && a[p] == r[i];
    assert r[j] in multiset(a);
    var q :| 0 <= q < |a| && a[q] == r[j];
    if r[i] == r[j] {
      // The same element would sit twice in r but only once in a.
      MultiplicityAtLeastTwo(r, i, j);
      MultiplicityAtMostOne(a, p);
    } else {
      assert p != q;
    }
  }

  lemma {:induction false} MultiplicityAtLeastTwo<T>(s: seq<T>, i: int, j: int)
    requires 0 <= i < |s| && 0 <= j < |s| && i != j && s[i] == s[j]
    ensures multiset(s)[s[i]] >= 2
  {
    var lo, hi := if i < j then i else j, if i < j then j else i;
    assert s == s[..lo] + [s[lo]] + s[lo+1..hi] + [s[hi]] + s[hi+1..];
  }

  /** In a list with distinct ids each element occurs once. */
  lemma {:induction false} MultiplicityAtMostOne(a: seq<Activity>, p: int)
    requires DistinctIds(a)
    requires 0 <= p < |a|
    ensures multiset(a)[a[p]] <= 1
  {
    assert a == a[..p] + [a[p]] + a[p+1..];
    assert forall q :: 0 <= q < p ==> a[..p][q].id != a[p].id;
    assert a[p] !in a[..p];
    var tail := a[p+1..];
    assert forall q :: 0 <= q < |tail| ==> tail[q] == a[p+1+q];
    assert a[p] !in tail;
  }

  /** `fetchData`'s shaping of one indicator's topics: sort the topics, then
      sort each topic's activities; an absent list becomes empty. */
  function ShapeTopics(topics: Option<seq<Topic>>): (r: seq<Topic>)
    ensures |r| == |ListOrEmpty(topics)|
    ensures multiset(r) == multiset(MapSeq(ListOrEmpty(topics), WithSortedActivities))
    ensures forall i, j :: 0 <= i < j < |r| ==> OrderOrZero(r[i].order) <= OrderOrZero(r[j].order)
    ensures forall i :: 0 <= i < |r| ==> r[i].activities.Some? && SortedBy(r[i].activities.value, ActivityKey)
    ensures forall p :: KeyFilter(r, TopicKey, Key(p, 0)) == MapSeq(KeyFilter(ListOrEmpty(topics), TopicKey, Key(p, 0)), WithSortedActivities)
  {
    var ts := ListOrEmpty(topics);
    var sorted := SortTopics(ts);
    assert |sorted| == |multiset(sorted)| == |ts|;
    MapKeepsPermutation(sorted, ts, WithSortedActivities);
    assert forall p :: KeyFilter(MapSeq(sorted, WithSortedActivities), TopicKey, Key(p, 0)) == MapSeq(KeyFilter(ts, TopicKey, Key(p, 0)), WithSortedActivities) by {
      forall p: int
        ensures KeyFilter(MapSeq(sorted, WithSortedActivities), TopicKey, Key(p, 0)) == MapSeq(KeyFilter(ts, TopicKey, Key(p, 0)), WithSortedActivities)
      {
        KeyFilterMap(sorted, TopicKey, WithSortedActivities, Key(p, 0));
      }
    }
    MapSeq(sorted, WithSortedActivities)
  }

  /** A topic with its activity list sorted (`activities?.sort(...) || []`). */
  function WithSortedActivities(t: Topic): (r: Topic)
    ensures r.id == t.id && r.title == t.title && r.order == t.order
    ensures r.activities.Some? && multiset(r.activities.value) == multiset(ListOrEmpty(t.activities))
    ensures SortedBy(r.activities.value, ActivityKey)
  {
    t.(activities := Some(SortBy(ListOrEmpty(t.activities), ActivityKey)))
  }
}

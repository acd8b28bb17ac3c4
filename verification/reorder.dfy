/** Moving an activity one place up or down among its siblings
    (`handleMoveActivity`, app/admin/page.tsx lines 166-176): swap it with
    its neighbour in a copy of the displayed list, then write a fresh 1-based
    `order_index` to every row of the copy, in list order. */
module Reorder {
  import opened Records
  import opened Ordering
  import opened Sequences

  datatype Direction = Up | Down

  /** `update({ order_index: position }).eq('id', id)` on table `activities`. */
  datatype OrderWrite = SetOrder(id: int, position: int)

  /** The list the handler builds and the writes it issues, in order. */
  datatype MoveResult = MoveResult(list: seq<Activity>, writes: seq<OrderWrite>)

  /** `findIndex(a => a.id === id)`: the first position holding `id`. */
  function FindIndex(s: seq<Activity>, id: int): (r: Option<nat>)
    ensures r.Some? ==> r.value < |s| && s[r.value].id == id
    ensures r.Some? ==> forall k :: 0 <= k < r.value ==> s[k].id != id
    ensures r.None? <==> forall k :: 0 <= k < |s| ==> s[k].id != id
  {
    if |s| == 0 then None
    else if s[0].id == id then Some(0)
    else
      match FindIndex(s[1..], id)
      case Some(k) => Some(k + 1)
      case None => None
  }

  /** The neighbour to swap with, or None at the end the move points past. */
  function Neighbour(idx: nat, n: nat, dir: Direction): (r: Option<nat>)
    ensures dir == Up ==> (r.Some? <==> idx > 0) && (r.Some? ==> r.value == idx - 1)
    ensures dir == Down ==> (r.Some? <==> idx + 1 < n) && (r.Some? ==> r.value == idx + 1)
  {
    if dir == Up && idx > 0 then Some(idx - 1)
    else if dir == Down && idx + 1 < n then Some(idx + 1)
    else None
  }

  /** Exchanges positions `i` and `j`. */
  function Swap<T>(s: seq<T>, i: nat, j: nat): (r: seq<T>)
    requires i < |s| && j < |s|
    ensures |r| == |s|
    ensures r[i] == s[j] && r[j] == s[i]
    ensures forall k :: 0 <= k < |s| && k != i && k != j ==> r[k] == s[k]
    ensures multiset(r) == multiset(s)
  {
    s[i := s[j]][j := s[i]]
  }

  /** One position write per row, `order_index = i + 1` for the row at `i`. */
  function RenumberWrites(list: seq<Activity>): (w: seq<OrderWrite>)
    ensures |w| == |list|
    ensures forall i :: 0 <= i < |w| ==> w[i].id == list[i].id && w[i].position == i + 1
  {
    seq(|list|, i requires 0 <= i < |list| => SetOrder(list[i].id, i + 1))
  }

  /** Exchanging neighbours `i` and `i + 1`, written as slices. */
  lemma SwapAdjacent<T>(s: seq<T>, i: nat)
    requires i + 1 < |s|
    ensures Swap(s, i, i + 1) == s[..i] + [s[i + 1], s[i]] + s[i + 2..]
    ensures Swap(s, i + 1, i) == s[..i] + [s[i + 1], s[i]] + s[i + 2..]
  {
    var r := s[..i] + [s[i + 1], s[i]] + s[i + 2..];
    assert |r| == |s|;
    forall k | 0 <= k < |s|
      ensures Swap(s, i, i + 1)[k] == r[k] && Swap(s, i + 1, i)[k] == r[k]
    {
      if k < i {
        assert r[k] == s[..i][k];
      } else if k >= i + 2 {
        assert r[k] == s[i + 2..][k - i - 2];
      }
    }
  }

  /** The handler: a no-op without writes when the id is absent or the move
      points past either end; otherwise the swapped list and its renumbering. */
  function Move(s: seq<Activity>, id: int, dir: Direction): (m: MoveResult)
    ensures FindIndex(s, id).None? ==> m == MoveResult(s, [])
    ensures FindIndex(s, id) == Some(0) && dir == Up ==> m == MoveResult(s, [])
    ensures FindIndex(s, id) == Some(|s| - 1) && dir == Down ==> m == MoveResult(s, [])
    ensures |m.list| == |s| && multiset(m.list) == multiset(s)
    ensures m.writes == [] <==>
              FindIndex(s, id).None? ||
              (FindIndex(s, id) == Some(0) && dir == Up) ||
              (FindIndex(s, id) == Some(|s| - 1) && dir == Down)
    ensures m.writes != [] ==>
              (|m.writes| == |m.list| &&
               forall i :: 0 <= i < |m.writes| ==> m.writes[i].id == m.list[i].id && m.writes[i].position == i + 1)
  {
    match FindIndex(s, id)
    case None => MoveResult(s, [])
    case Some(idx) =>
      match Neighbour(idx, |s|, dir)
      case None => MoveResult(s, [])
      case Some(target) =>
        var list := Swap(s, idx, target);
        MoveResult(list, RenumberWrites(list))
  }

  /** A move that happens exchanges the activity with its neighbour and
      leaves every other place as it was. */
  lemma MoveSwapsNeighbours(s: seq<Activity>, id: int, dir: Direction)
    ensures FindIndex(s, id).Some? && dir == Up && FindIndex(s, id).value > 0 ==>
              var idx := FindIndex(s, id).value;
              Move(s, id, dir).list == s[..idx - 1] + [s[idx], s[idx - 1]] + s[idx + 1..]
    ensures FindIndex(s, id).Some? && dir == Down && FindIndex(s, id).value + 1 < |s| ==>
              var idx := FindIndex(s, id).value;
              Move(s, id, dir).list == s[..idx] + [s[idx + 1], s[idx]] + s[idx + 2..]
  {
    match FindIndex(s, id)
    case None =>
    case Some(idx) =>
      if dir == Up && idx > 0 {
        MovedUp(s, id, idx);
      } else if dir == Down && idx + 1 < |s| {
        MovedDown(s, id, idx);
      }
  }

  /** Moving up exchanges the activity with the one before it. */
  lemma MovedUp(s: seq<Activity>, id: int, idx: nat)
    requires FindIndex(s, id) == Some(idx) && 0 < idx < |s|
    ensures Move(s, id, Up).list == s[..idx - 1] + [s[idx], s[idx - 1]] + s[idx + 1..]
  {
    var list := Move(s, id, Up).list;
    assert list == Swap(s, idx, idx - 1);
    SwapAdjacent(s, idx - 1);
  }

  /** Moving down exchanges the activity with the one after it. */
  lemma MovedDown(s: seq<Activity>, id: int, idx: nat)
    requires FindIndex(s, id) == Some(idx) && idx + 1 < |s|
    ensures Move(s, id, Down).list == s[..idx] + [s[idx + 1], s[idx]] + s[idx + 2..]
  {
    var list := Move(s, id, Down).list;
    assert list == Swap(s, idx, idx + 1);
    SwapAdjacent(s, idx);
  }

  /** The rows of `l` carrying the positions 1..N in list order. */
  function Renumbered(l: seq<Activity>): (r: seq<Activity>)
    ensures |r| == |l|
    ensures forall i :: 0 <= i < |l| ==> r[i].id == l[i].id && r[i].title == l[i].title
    ensures Dense(r, ActivityPosition)
    ensures StrictlySortedBy(r, ActivityKey)
  {
    seq(|l|, i requires 0 <= i < |l| => l[i].(order := Some(i + 1)))
  }

  /** The stored row after the writes `ws` ran in order: every write
      addressed to its id overwrites its `order_index`, so the row ends as it
      was or with the position of an addressed write (the last one, by
      `LastAddressedDecides`). */
  function ApplyToRow(r: Activity, ws: seq<OrderWrite>): (r': Activity)
    ensures r'.id == r.id && r'.title == r.title
    ensures r'.order == r.order || exists n :: 0 <= n < |ws| && ws[n].id == r.id && r'.order == Some(ws[n].position)
    decreases |ws|
  {
    if |ws| == 0 then r
    else
      var next := if ws[0].id == r.id then r.(order := Some(ws[0].position)) else r;
      var r' := ApplyToRow(next, ws[1..]);
      assert r'.order == next.order || exists n :: 0 <= n < |ws| && ws[n].id == r.id && r'.order == Some(ws[n].position) by {
        if r'.order != next.order {
          var n :| 0 <= n < |ws[1..]| && ws[1..][n].id == r.id && r'.order == Some(ws[1..][n].position);
          assert ws[n + 1] == ws[1..][n];
        }
      }
      r'
  }

  /** The stored sibling rows after the writes: each row keeps its place,
      id and title, and a row no write addresses is left as it was. */
  function ApplyOrderWrites(rows: seq<Activity>, ws: seq<OrderWrite>): (r: seq<Activity>)
    ensures |r| == |rows|
    ensures forall k :: 0 <= k < |rows| ==> r[k].id == rows[k].id && r[k].title == rows[k].title
    ensures forall k :: 0 <= k < |rows| && (forall n :: 0 <= n < |ws| ==> ws[n].id != rows[k].id) ==> r[k] == rows[k]
  {
    var r := seq(|rows|, k requires 0 <= k < |rows| => ApplyToRow(rows[k], ws));
    assert forall k :: 0 <= k < |rows| && (forall n :: 0 <= n < |ws| ==> ws[n].id != rows[k].id) ==> r[k] == rows[k] by {
      forall k | 0 <= k < |rows| && (forall n :: 0 <= n < |ws| ==> ws[n].id != rows[k].id)
        ensures r[k] == rows[k]
      {
        ApplyNoneAddressed(rows[k], ws);
      }
    }
    r
  }

  lemma {:induction false} ApplyNoneAddressed(r: Activity, ws: seq<OrderWrite>)
    requires forall n :: 0 <= n < |ws| ==> ws[n].id != r.id
    ensures ApplyToRow(r, ws) == r
    decreases |ws|
  {
    if |ws| > 0 {
      ApplyNoneAddressed(r, ws[1..]);
    }
  }

  /** A row addressed by exactly one write ends with that write's position. */
  lemma {:induction false} ApplyOneAddressed(r: Activity, ws: seq<OrderWrite>, m: nat)
    requires m < |ws| && ws[m].id == r.id
    requires forall n :: 0 <= n < |ws| && n != m ==> ws[n].id != r.id
    ensures ApplyToRow(r, ws) == r.(order := Some(ws[m].position))
    decreases |ws|
  {
    if m == 0 {
      ApplyNoneAddressed(r.(order := Some(ws[0].position)), ws[1..]);
    } else {
      ApplyOneAddressed(r, ws[1..], m - 1);
    }
  }

  /** Later writes overwrite earlier ones: a row ends with the position of
      the last write addressed to it, whatever the earlier ones said. */
  lemma {:induction false} LastAddressedDecides(r: Activity, ws: seq<OrderWrite>, m: nat)
    requires m < |ws| && ws[m].id == r.id
    requires forall n :: m < n < |ws| ==> ws[n].id != r.id
    ensures ApplyToRow(r, ws) == r.(order := Some(ws[m].position))
    decreases |ws|
  {
    var next := if ws[0].id == r.id then r.(order := Some(ws[0].position)) else r;
    if m == 0 {
      assert forall n :: 0 <= n < |ws[1..]| ==> ws[1..][n] == ws[n + 1];
      ApplyNoneAddressed(next, ws[1..]);
    } else {
      LastAddressedDecides(next, ws[1..], m - 1);
    }
  }

  /** After a move, the stored rows are the renumbered new list, read in the
      old arrangement: each row got the position of its place in the new list. */
  lemma StoredAfterMove(s: seq<Activity>, idx: nat, target: nat)
    requires DistinctIds(s)
    requires idx < |s| && target < |s|
    ensures ApplyOrderWrites(s, RenumberWrites(Swap(s, idx, target))) ==
            Swap(Renumbered(Swap(s, idx, target)), idx, target)
  {
    var t := Swap(s, idx, target);
    var ws := RenumberWrites(t);
    var applied := ApplyOrderWrites(s, ws);
    var expected := Swap(Renumbered(t), idx, target);
    forall k | 0 <= k < |s|
      ensures applied[k] == expected[k]
    {
      assert applied[k] == ApplyToRow(s[k], ws);
      StoredRowAfterMove(s, idx, target, k);
    }
  }

  /** Where a swap of `i` and `j` sends position `k`. */
  function SwapPartner(i: nat, j: nat, k: nat): nat
  {
    if k == i then j else if k == j then i else k
  }

  /** One stored row after a move's writes. */
  lemma StoredRowAfterMove(s: seq<Activity>, idx: nat, target: nat, k: nat)
    requires DistinctIds(s)
    requires idx < |s| && target < |s| && k < |s|
    ensures ApplyToRow(s[k], RenumberWrites(Swap(s, idx, target))) == Swap(Renumbered(Swap(s, idx, target)), idx, target)[k]
  {
    WrittenRowAfterMove(s, idx, target, k);
    RenumberedRowAfterMove(s, idx, target, k);
  }

  /** The writes of a move give each stored row the position of its place in the new list. */
  lemma WrittenRowAfterMove(s: seq<Activity>, idx: nat, target: nat, k: nat)
    requires DistinctIds(s)
    requires idx < |s| && target < |s| && k < |s|
    ensures ApplyToRow(s[k], RenumberWrites(Swap(s, idx, target))) == s[k].(order := Some(SwapPartner(idx, target, k) + 1))
  {
    var t := Swap(s, idx, target);
    var ws := RenumberWrites(t);
    var p := SwapPartner(idx, target, k);
    assert t[p] == s[k];
    forall n | 0 <= n < |ws| && n != p
      ensures ws[n].id != s[k].id
    {
      assert t[n] == s[SwapPartner(idx, target, n)];
    }
    ApplyOneAddressed(s[k], ws, p);
  }

  /** The renumbered new list, read in the old arrangement. */
  lemma RenumberedRowAfterMove(s: seq<Activity>, idx: nat, target: nat, k: nat)
    requires idx < |s| && target < |s| && k < |s|
    ensures Swap(Renumbered(Swap(s, idx, target)), idx, target)[k] == s[k].(order := Some(SwapPartner(idx, target, k) + 1))
  {
    var t := Swap(s, idx, target);
    var p := SwapPartner(idx, target, k);
    var renumbered := Renumbered(t);
    assert Swap(renumbered, idx, target)[k] == renumbered[p];
    RenumberedAt(t, p);
  }

  /** The row at `i` of a renumbered list. */
  lemma RenumberedAt(l: seq<Activity>, i: nat)
    requires i < |l|
    ensures Renumbered(l)[i] == l[i].(order := Some(i + 1))
  {
  }

  /** Whatever arrangement the rows are stored in, the writes turn the same
      rows into the same rows. */
  lemma ApplyKeepsPermutation(a: seq<Activity>, b: seq<Activity>, ws: seq<OrderWrite>)
    requires multiset(a) == multiset(b)
    ensures multiset(ApplyOrderWrites(a, ws)) == multiset(ApplyOrderWrites(b, ws))
  {
    var f := (r: Activity) => ApplyToRow(r, ws);
    assert ApplyOrderWrites(a, ws) == MapSeq(a, f);
    assert ApplyOrderWrites(b, ws) == MapSeq(b, f);
    MapKeepsPermutation(a, b, f);
  }

  /** The point of the full rewrite: once the writes have run on the stored
      rows (in whatever arrangement the backend keeps them), the next load
      (`fetchData`'s sort) shows exactly the new list, numbered 1..N. */
  lemma MoveThenReload(stored: seq<Activity>, s: seq<Activity>, id: int, dir: Direction)
    requires DistinctIds(s)
    requires multiset(stored) == multiset(s)
    ensures Move(s, id, dir).writes != [] ==>
              SortActivities(ApplyOrderWrites(stored, Move(s, id, dir).writes)) == Renumbered(Move(s, id, dir).list)
  {
    var m := Move(s, id, dir);
    if m.writes != [] {
      var idx := FindIndex(s, id).value;
      var target := Neighbour(idx, |s|, dir).value;
      var t := Swap(s, idx, target);
      assert m.list == t;
      StoredAfterMove(s, idx, target);
      ApplyKeepsPermutation(stored, s, m.writes);
      var applied := ApplyOrderWrites(stored, m.writes);
      assert multiset(applied) == multiset(Renumbered(t));
      SortedPermutationUnique(Renumbered(t), SortBy(applied, ActivityKey), ActivityKey);
    }
  }
}

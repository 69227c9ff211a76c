/** The `navigation_items` table as a sequence of rows in insertion order, and
    the relational operations the navigation handlers issue against it: insert,
    select by id, select with `is_visible`, order by `order_index` ascending,
    update-where-id with a partial row, and the delete that closes the gap it
    leaves in the menu order. */
module NavTable {
  import opened Rows
  import opened InputSchema

  /** What the store guarantees of the navigation table: `serial` ids handed
      out in increasing order and no timestamp ahead of the clock. Nothing
      constrains `order_index` or `slug`. */
  ghost predicate WellFormed(items: seq<NavigationItem>, nextId: int, clock: nat)
  {
    && (forall i :: 0 <= i < |items| ==> 1 <= items[i].id < nextId)
    && (forall i, j :: 0 <= i < j < |items| ==> items[i].id < items[j].id)
    && (forall i :: 0 <= i < |items| ==> items[i].created_at <= items[i].updated_at <= clock)
  }

  /** A stored item holds exactly the client-supplied fields of `input`. */
  predicate Carries(x: NavigationItem, input: CreateNavigationItemInput)
  {
    && x.caption == input.caption && x.slug == input.slug
    && x.order_index == input.order_index && x.is_visible == input.is_visible
  }

  /** The row an insert of `input` produces. */
  function NewNavigationItem(input: CreateNavigationItemInput, id: int, now: nat): (x: NavigationItem)
    ensures Carries(x, input) && x.id == id
    ensures x.created_at == now && x.updated_at == now
  {
    NavigationItem(id, input.caption, input.slug, input.order_index, input.is_visible, now, now)
  }

  /** Position of the first row with this id. */
  function IndexOfId(items: seq<NavigationItem>, id: int): (r: Option<nat>)
    ensures r.Some? ==> r.value < |items| && items[r.value].id == id
    ensures r.None? <==> forall j :: 0 <= j < |items| ==> items[j].id != id
  {
    if |items| == 0 then None
    else if items[0].id == id then Some(0)
    else match IndexOfId(items[1..], id)
      case None => None
      case Some(k) => Some(k + 1)
  }

  /** The row `update navigation_items set … where id = ?` leaves. */
  function MergeNavigationItem(x: NavigationItem, u: UpdateNavigationItemInput, now: nat): (r: NavigationItem)
    ensures r.id == x.id && r.created_at == x.created_at && r.updated_at == now
    ensures u.order_index.None? ==> r.order_index == x.order_index
    ensures u.order_index.Some? ==> r.order_index == u.order_index.value
  {
    NavigationItem(x.id,
                   if u.caption.Some? then u.caption.value else x.caption,
                   if u.slug.Some? then u.slug.value else x.slug,
                   if u.order_index.Some? then u.order_index.value else x.order_index,
                   if u.is_visible.Some? then u.is_visible.value else x.is_visible,
                   x.created_at, now)
  }

  /** The create-item rules, read as a property of a stored row. */
  predicate MeetsSchema(x: NavigationItem)
  {
    |x.caption| > 0 && |x.slug| > 0 && x.order_index >= 0
  }

  /** For an item that meets the create-item rules, a request passes the
      update-item schema exactly when the merged item still meets them. */
  lemma MergeKeepsSchema(x: NavigationItem, u: UpdateNavigationItemInput, now: nat)
    requires MeetsSchema(x)
    ensures UpdateNavigationItemInputValid(u) <==> MeetsSchema(MergeNavigationItem(x, u, now))
  {
  }

  /** Supplied fields win, absent ones keep the stored value; a supplied `0` or
      `false` is a value like any other. Identity and creation time stay. */
  lemma MergeNavigationItemFields(x: NavigationItem, u: UpdateNavigationItemInput, now: nat)
    ensures var r := MergeNavigationItem(x, u, now);
      && r.id == x.id && r.created_at == x.created_at && r.updated_at == now
      && r.caption == (if u.caption.Some? then u.caption.value else x.caption)
      && r.slug == (if u.slug.Some? then u.slug.value else x.slug)
      && r.order_index == (if u.order_index.Some? then u.order_index.value else x.order_index)
      && r.is_visible == (if u.is_visible.Some? then u.is_visible.value else x.is_visible)
    ensures u.order_index == Some(0) ==> MergeNavigationItem(x, u, now).order_index == 0
    ensures u.is_visible == Some(false) ==> !MergeNavigationItem(x, u, now).is_visible
  {
  }

  /** Re-sending the same update is the same as sending it once (up to the
      update time). */
  lemma MergeNavigationItemIdempotent(x: NavigationItem, u: UpdateNavigationItemInput, t1: nat, t2: nat)
    ensures MergeNavigationItem(MergeNavigationItem(x, u, t1), u, t2) == MergeNavigationItem(x, u, t2)
  {
  }

  /** Rows with `is_visible = true`, in table order. */
  function Visible(items: seq<NavigationItem>): (r: seq<NavigationItem>)
    ensures forall x {:trigger multiset(r)[x]} ::
      multiset(r)[x] == if x.is_visible then multiset(items)[x] else 0
    ensures forall x :: x in r ==> x.is_visible
  {
    if |items| == 0 then []
    else
      assert items == [items[0]] + items[1..];
      if items[0].is_visible then [items[0]] + Visible(items[1..])
      else Visible(items[1..])
  }

  /** `orderBy(asc(order_index))`; the order among equal indices is free. */
  ghost predicate OrderedByIndex(items: seq<NavigationItem>)
  {
    forall i, j :: 0 <= i < j < |items| ==> items[i].order_index <= items[j].order_index
  }

  function InsertByIndex(x: NavigationItem, items: seq<NavigationItem>): (r: seq<NavigationItem>)
    requires OrderedByIndex(items)
    ensures OrderedByIndex(r)
    ensures multiset(r) == multiset(items) + multiset{x}
    ensures r[0] == x || (|items| > 0 && r[0] == items[0])
  {
    if |items| == 0 then [x]
    else if x.order_index <= items[0].order_index then [x] + items
    else
      assert items == [items[0]] + items[1..];
      [items[0]] + InsertByIndex(x, items[1..])
  }

  /** One way of ordering the rows by `order_index`: any result that is
      ordered and a permutation of the table is a valid answer of the query. */
  function SortByIndex(items: seq<NavigationItem>): (r: seq<NavigationItem>)
    ensures OrderedByIndex(r)
    ensures multiset(r) == multiset(items)
  {
    if |items| == 0 then []
    else
      assert items == [items[0]] + items[1..];
      InsertByIndex(items[0], SortByIndex(items[1..]))
  }

  /** The visible menu lists, by id, a subset of the full menu. */
  lemma VisibleIdsAreSubset(items: seq<NavigationItem>, id: int)
    requires exists x :: x in SortByIndex(Visible(items)) && x.id == id
    ensures exists x :: x in SortByIndex(items) && x.id == id && x.is_visible
  {
    var x :| x in SortByIndex(Visible(items)) && x.id == id;
    assert x in multiset(SortByIndex(Visible(items)));
    assert x in multiset(SortByIndex(items));
  }

  /** The bulk update after a delete: `set order_index = order_index - 1,
      updated_at = now where order_index > d`. */
  function Shift(x: NavigationItem, d: int, now: nat): (r: NavigationItem)
    ensures r.(order_index := x.order_index, updated_at := x.updated_at) == x
    ensures x.order_index > d ==> r.order_index == x.order_index - 1 >= d && r.updated_at == now
    ensures x.order_index <= d ==> r == x
  {
    if x.order_index > d then x.(order_index := x.order_index - 1, updated_at := now) else x
  }

  /** The renumbering applied to a whole table: the same rows in the same
      order, each with its index moved down by one if it lay above `d`. */
  function Compact(items: seq<NavigationItem>, d: int, now: nat): (r: seq<NavigationItem>)
    ensures |r| == |items|
    ensures forall i :: 0 <= i < |items| ==> r[i].id == items[i].id
    ensures forall i :: 0 <= i < |items| ==>
      r[i].order_index == if items[i].order_index > d then items[i].order_index - 1 else items[i].order_index
  {
    seq(|items|, i requires 0 <= i < |items| => Shift(items[i], d, now))
  }

  /** Row by row, compaction decrements exactly the indices above `d` by one
      and refreshes their update time; rows at or below `d` are untouched, and
      no row changes id, caption, slug, visibility or creation time. */
  lemma CompactRows(items: seq<NavigationItem>, d: int, now: nat)
    ensures var r := Compact(items, d, now);
      && |r| == |items|
      && forall i :: 0 <= i < |items| ==>
        && r[i].id == items[i].id && r[i].caption == items[i].caption
        && r[i].slug == items[i].slug && r[i].is_visible == items[i].is_visible
        && r[i].created_at == items[i].created_at
        && (items[i].order_index > d ==>
              r[i].order_index == items[i].order_index - 1 && r[i].updated_at == now)
        && (items[i].order_index <= d ==> r[i] == items[i])
  {
  }

  /** Compaction keeps the weak relative order of any two rows, and never moves
      an index below `d`, so non-negative indices stay non-negative. */
  lemma CompactKeepsOrder(items: seq<NavigationItem>, d: int, now: nat)
    ensures var r := Compact(items, d, now);
      forall i, j :: (0 <= i < |items| && 0 <= j < |items| &&
                      items[i].order_index <= items[j].order_index) ==>
        r[i].order_index <= r[j].order_index
    ensures forall i :: 0 <= i < |items| && items[i].order_index > d ==>
      Compact(items, d, now)[i].order_index >= d
    ensures d >= 0 && (forall i :: 0 <= i < |items| ==> items[i].order_index >= 0) ==>
      forall i :: 0 <= i < |items| ==> Compact(items, d, now)[i].order_index >= 0
  {
  }

  ghost predicate DistinctIndices(items: seq<NavigationItem>)
  {
    forall i, j :: 0 <= i < j < |items| ==> items[i].order_index != items[j].order_index
  }

  function IndexSet(items: seq<NavigationItem>): set<int>
  {
    set i | 0 <= i < |items| :: items[i].order_index
  }

  /** The window m, m+1, ..., m+n-1. */
  function Range(m: int, n: nat): (w: set<int>)
    ensures forall v :: v in w <==> m <= v < m + n
  {
    if n == 0 then {} else Range(m, n - 1) + {m + n - 1}
  }

  /** The menu order is dense from `m`: the indices are distinct and are
      exactly m, m+1, ..., m+n-1. */
  ghost predicate Dense(items: seq<NavigationItem>, m: int)
  {
    DistinctIndices(items) && IndexSet(items) == Range(m, |items|)
  }

  lemma {:induction false} RangeSize(m: int, n: nat)
    ensures |Range(m, n)| == n
  {
    if n > 0 {
      RangeSize(m, n - 1);
      var w, top := Range(m, n - 1), m + n - 1;
      assert top !in w;
      assert w * {top} == {};
    }
  }

  lemma {:induction false} DistinctIndexSetSize(items: seq<NavigationItem>)
    requires DistinctIndices(items)
    ensures |IndexSet(items)| == |items|
  {
    if |items| > 0 {
      var n := |items| - 1;
      var front := items[..n];
      DistinctIndexSetSize(front);
      assert IndexSet(items) == IndexSet(front) + {items[n].order_index} by {
        forall v | v in IndexSet(items) ensures v in IndexSet(front) + {items[n].order_index} {
          var i :| 0 <= i < |items| && items[i].order_index == v;
          if i < n { assert front[i] == items[i]; }
        }
      }
      assert items[n].order_index !in IndexSet(front);
    }
  }

  /** Distinct indices that all lie in a window as wide as the table fill the
      window: this is the pigeonhole step behind density. */
  lemma DenseFromWindow(items: seq<NavigationItem>, m: int)
    requires DistinctIndices(items)
    requires forall i :: 0 <= i < |items| ==> m <= items[i].order_index < m + |items|
    ensures Dense(items, m)
  {
    var s, w := IndexSet(items), Range(m, |items|);
    DistinctIndexSetSize(items);
    RangeSize(m, |items|);
    assert s <= w;
    assert w == s + (w - s) && s * (w - s) == {};
    assert |w - s| == 0;
    assert s == w;
  }

  /** THE reorder invariant. If the indices were exactly m..m+n-1 before
      deleting the row at position `k`, then after the delete and the bulk
      decrement the n-1 survivors hold exactly m..m+n-2. */
  lemma DeleteKeepsDense(items: seq<NavigationItem>, m: int, k: nat, now: nat)
    requires Dense(items, m)
    requires k < |items|
    ensures Dense(Compact(RemoveAt(items, k), items[k].order_index, now), m)
  {
    var d := items[k].order_index;
    var t := RemoveAt(items, k);
    var r := Compact(t, d, now);
    forall i | 0 <= i < |items| ensures m <= items[i].order_index < m + |items| {
      assert items[i].order_index in IndexSet(items);
    }
    forall i | 0 <= i < |t| ensures t[i].order_index != d {
      if i < k { assert items[i].order_index != items[k].order_index; }
      else { assert items[k].order_index != items[i + 1].order_index; }
    }
    forall i, j | 0 <= i < j < |t| ensures t[i].order_index != t[j].order_index {
      if j < k { } else if i < k { assert t[j] == items[j + 1]; } else { }
    }
    forall i, j | 0 <= i < j < |r| ensures r[i].order_index != r[j].order_index {
      assert t[i].order_index != t[j].order_index;
    }
    DenseFromWindow(r, m);
  }

  /** Replacing a row by its merge keeps the table well formed. */
  lemma MergeKeepsWellFormed(items: seq<NavigationItem>, nextId: int, clock: nat, k: nat,
                             u: UpdateNavigationItemInput, now: nat)
    requires WellFormed(items, nextId, clock)
    requires k < |items| && now > clock
    ensures WellFormed(items[k := MergeNavigationItem(items[k], u, now)], nextId, now)
  {
  }

  /** Deleting a row and compacting the rest keeps the table well formed, and
      no survivor carries the deleted row's id. */
  lemma DeleteKeepsWellFormed(items: seq<NavigationItem>, nextId: int, clock: nat, k: nat, now: nat)
    requires WellFormed(items, nextId, clock)
    requires k < |items| && now > clock
    ensures WellFormed(Compact(RemoveAt(items, k), items[k].order_index, now), nextId, now)
    ensures forall x :: x in Compact(RemoveAt(items, k), items[k].order_index, now) ==> x.id != items[k].id
  {
    var t := RemoveAt(items, k);
    RemoveKeepsWellFormed(items, nextId, clock, k);
    CompactKeepsWellFormed(t, nextId, clock, items[k].order_index, now);
  }

  /** Deleting one row keeps the table well formed, and no survivor has the
      deleted id. */
  lemma RemoveKeepsWellFormed(items: seq<NavigationItem>, nextId: int, clock: nat, k: nat)
    requires WellFormed(items, nextId, clock) && k < |items|
    ensures WellFormed(RemoveAt(items, k), nextId, clock)
    ensures forall i :: 0 <= i < |items| - 1 ==> RemoveAt(items, k)[i].id != items[k].id
  {
    var t := RemoveAt(items, k);
    forall i | 0 <= i < |t| ensures t[i].id != items[k].id {
      var i' := if i < k then i else i + 1;
      assert t[i] == items[i'] && i' != k;
    }
    forall i, j | 0 <= i < j < |t| ensures t[i].id < t[j].id {
      var i', j' := if i < k then i else i + 1, if j < k then j else j + 1;
      assert t[i] == items[i'] && t[j] == items[j'] && i' < j';
    }
  }

  /** Renumbering at a later time keeps the table well formed: ids stay as
      they were and refreshed rows are stamped with the new time. */
  lemma CompactKeepsWellFormed(items: seq<NavigationItem>, nextId: int, clock: nat, d: int, now: nat)
    requires WellFormed(items, nextId, clock) && now >= clock
    ensures WellFormed(Compact(items, d, now), nextId, now)
    ensures forall i :: 0 <= i < |items| ==> Compact(items, d, now)[i].id == items[i].id
  {
    CompactRows(items, d, now);
  }

  /** Advancing the clock keeps the table well formed. */
  lemma WellFormedLater(items: seq<NavigationItem>, nextId: int, clock: nat, later: nat)
    requires WellFormed(items, nextId, clock) && clock <= later
    ensures WellFormed(items, nextId, later)
  {
  }
}

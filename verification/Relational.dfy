/** The meaning of ORDER BY and LIMIT on the table: the one strictly sorted listing of a set of rows. */
module Relational {
  import opened Domain

  predicate Precedes(direction: Direction, a: int, b: int) {
    match direction
    case ASC => a < b
    case DESC => a > b
  }

  /** `a` comes strictly before `b` under ORDER BY created_at, id. */
  predicate Before(order: Order, a: Bound, b: Bound) {
    if a.createdAt != b.createdAt then Precedes(order.createdAt, a.createdAt, b.createdAt)
    else Precedes(order.id, a.id, b.id)
  }

  ghost predicate Sorted(order: Order, rows: seq<Row>) {
    forall i, j | 0 <= i < j < |rows| :: Before(order, KeyOf(rows[i]), KeyOf(rows[j]))
  }

  predicate IsFirst(order: Order, rows: set<Row>, first: Row) {
    && first in rows
    && forall other | other in rows && other != first :: Before(order, KeyOf(first), KeyOf(other))
  }

  lemma BeforeTransitive(order: Order, a: Bound, b: Bound, c: Bound)
    requires Before(order, a, b) && Before(order, b, c)
    ensures Before(order, a, c)
  {
  }

  lemma FirstExists(order: Order, rows: Table)
    requires rows != {}
    ensures exists first :: IsFirst(order, rows, first)
  {
    var row :| row in rows;
    var rest := rows - {row};
    if rest == {} {
      assert rows == {row};
      assert IsFirst(order, rows, row);
    } else {
      FirstExists(order, rest);
      var first :| IsFirst(order, rest, first);
      assert first.id != row.id;
      if Before(order, KeyOf(row), KeyOf(first)) {
        forall other | other in rows && other != row
          ensures Before(order, KeyOf(row), KeyOf(other))
        {
          if other != first { BeforeTransitive(order, KeyOf(row), KeyOf(first), KeyOf(other)); }
        }
        assert IsFirst(order, rows, row);
      } else {
        assert IsFirst(order, rows, first);
      }
    }
  }

  /** The row ORDER BY lists first. */
  function First(order: Order, rows: Table): (first: Row)
    requires rows != {}
    ensures IsFirst(order, rows, first)
  {
    FirstExists(order, rows);
    var first :| first in rows && IsFirst(order, rows, first);
    first
  }

  lemma ConsElements<T>(head: T, tail: seq<T>)
    ensures Elements([head] + tail) == {head} + Elements(tail)
  {
  }

  /** The result of ORDER BY on a set of rows. */
  function OrderBy(order: Order, rows: Table): (sorted: seq<Row>)
    ensures Elements(sorted) == rows
    ensures |sorted| == |rows|
  {
    if rows == {} then [] else
      var first := First(order, rows);
      var rest := OrderBy(order, rows - {first});
      ConsElements(first, rest);
      [first] + rest
  }

  lemma {:induction false} OrderBySorted(order: Order, rows: Table)
    ensures Sorted(order, OrderBy(order, rows))
  {
    if rows != {} {
      var first := First(order, rows);
      var rest := OrderBy(order, rows - {first});
      OrderBySorted(order, rows - {first});
      assert forall row | row in rest :: row in Elements(rest);
      assert Sorted(order, [first] + rest);
    }
  }

  lemma SortedDistinct(order: Order, rows: seq<Row>)
    requires Sorted(order, rows)
    ensures forall i, j | 0 <= i < j < |rows| :: rows[i] != rows[j]
    ensures |Elements(rows)| == |rows|
  {
    if rows != [] {
      var last := rows[|rows| - 1];
      var init := rows[..|rows| - 1];
      SortedDistinct(order, init);
      assert Elements(rows) == Elements(init) + {last};
    }
  }

  lemma SortedTail(order: Order, rows: seq<Row>)
    requires rows != [] && Sorted(order, rows)
    ensures Sorted(order, rows[1..])
    ensures Elements(rows[1..]) == Elements(rows) - {rows[0]}
    ensures IsFirst(order, Elements(rows), rows[0])
  {
    var tail := rows[1..];
    assert rows == [rows[0]] + tail;
    SortedDistinct(order, rows);
    assert forall row | row in tail :: row in rows;
  }

  lemma HeadIsFirst(order: Order, rows: Table, listing: seq<Row>)
    requires listing != [] && Sorted(order, listing) && Elements(listing) == rows
    ensures rows != {} && First(order, rows) == listing[0]
    ensures Sorted(order, listing[1..]) && Elements(listing[1..]) == rows - {listing[0]}
  {
    SortedTail(order, listing);
    assert listing[0] in rows;
  }

  /** A strictly sorted listing is determined by its elements, so ORDER BY leaves no choice. */
  lemma {:induction false} OrderByUnique(order: Order, rows: Table, listing: seq<Row>)
    requires Sorted(order, listing) && Elements(listing) == rows
    ensures listing == OrderBy(order, rows)
  {
    hide Sorted, Before, IsFirst, First;
    if listing == [] {
      assert rows == {};
    } else {
      HeadIsFirst(order, rows, listing);
      OrderByUnique(order, rows - {listing[0]}, listing[1..]);
      assert listing == [listing[0]] + listing[1..];
    }
  }

  lemma ListedRows(order: Order, rows: Table)
    ensures forall i | 0 <= i < |OrderBy(order, rows)| :: OrderBy(order, rows)[i] in rows
  {
    var sorted := OrderBy(order, rows);
    forall i | 0 <= i < |sorted|
      ensures sorted[i] in rows
    {
      assert sorted[i] in Elements(sorted);
    }
  }

  /** Listing two sets, the first wholly before the second, lists one after the other. */
  lemma OrderByConcat(order: Order, front: Table, back: Table)
    requires UniqueIds(front + back)
    requires forall a, b | a in front && b in back :: Before(order, KeyOf(a), KeyOf(b))
    ensures OrderBy(order, front + back) == OrderBy(order, front) + OrderBy(order, back)
  {
    var f, b := OrderBy(order, front), OrderBy(order, back);
    OrderBySorted(order, front);
    OrderBySorted(order, back);
    ListedRows(order, front);
    ListedRows(order, back);
    SortedConcat(order, f, b);
    OrderByUnique(order, front + back, f + b);
  }

  lemma SortedConcat(order: Order, f: seq<Row>, b: seq<Row>)
    requires Sorted(order, f) && Sorted(order, b)
    requires forall i, j | 0 <= i < |f| && 0 <= j < |b| :: Before(order, KeyOf(f[i]), KeyOf(b[j]))
    ensures Sorted(order, f + b)
    ensures Elements(f + b) == Elements(f) + Elements(b)
  {
  }

  /** Flipping both directions lists the same rows backwards. */
  function Reverse<T>(rows: seq<T>): seq<T> {
    if rows == [] then [] else Reverse(rows[1..]) + [rows[0]]
  }

  lemma {:induction false} ReverseAt<T>(rows: seq<T>)
    ensures |Reverse(rows)| == |rows|
    ensures forall i | 0 <= i < |rows| :: Reverse(rows)[i] == rows[|rows| - 1 - i]
  {
    if rows != [] {
      ReverseAt(rows[1..]);
    }
  }

  lemma ReverseElements<T>(rows: seq<T>)
    ensures Elements(Reverse(rows)) == Elements(rows)
  {
    if rows != [] {
      ReverseElements(rows[1..]);
      assert rows == [rows[0]] + rows[1..];
      assert Elements(Reverse(rows)) == Elements(Reverse(rows[1..])) + {rows[0]};
    }
  }

  lemma AscendingIsDescendingReversed(rows: Table)
    ensures OrderBy(CreatedAtAsc.Ordering(), rows) == Reverse(OrderBy(CreatedAtDesc.Ordering(), rows))
  {
    var down := OrderBy(CreatedAtDesc.Ordering(), rows);
    OrderBySorted(CreatedAtDesc.Ordering(), rows);
    ReverseAt(down);
    ReverseElements(down);
    OrderByUnique(CreatedAtAsc.Ordering(), rows, Reverse(down));
  }

  lemma DistinctMultiset<T>(rows: seq<T>)
    requires forall i, j | 0 <= i < j < |rows| :: rows[i] != rows[j]
    ensures forall row | row in rows :: multiset(rows)[row] == 1
  {
    if rows != [] {
      var last := |rows| - 1;
      DistinctMultiset(rows[..last]);
      assert rows == rows[..last] + [rows[last]];
    }
  }
}

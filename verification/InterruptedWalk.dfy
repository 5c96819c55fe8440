/** The offset walks of KeysetDriftIT: the table changes once, after the first page, and the client goes on
    by page number until it is told there is no more. */
module InterruptedWalk {
  import opened Wrappers
  import opened Domain
  import opened Queries
  import opened Timestamp
  import opened Service
  import opened OffsetListing
  import Drift
  import WalkLoops

  function Head<T>(listing: seq<T>, size: nat): seq<T> {
    listing[..Min(size, |listing|)]
  }

  function Rest<T>(listing: seq<T>, size: nat): seq<T> {
    listing[Min(size, |listing|)..]
  }

  /** The first page of the listing before the change, and if it was not the last one, everything past
      the same rank in the listing after it. */
  function Interrupted<T>(before: seq<T>, after: seq<T>, size: nat): seq<T> {
    if |before| <= size then before else Head(before, size) + Rest(after, size)
  }

  /** The rank a page number stands for. */
  predicate AtRank(page: int, size: nat, rank: nat) {
    rank == (page - 1) * size
  }

  lemma NextRank(page: int, size: nat, rank: nat)
    requires AtRank(page, size, rank)
    ensures AtRank(page + 1, size, rank + size)
  {
  }

  lemma FirstRanks(size: nat)
    ensures AtRank(1, size, 0) && AtRank(2, size, size)
  {
  }

  lemma NextWindow<T>(listing: seq<T>, from: nat, rank: nat, size: nat)
    requires from <= rank
    ensures listing[Min(from, |listing|)..Min(rank, |listing|)] + Window(listing, rank, size)
         == listing[Min(from, |listing|)..Min(rank + size, |listing|)]
  {
  }

  /** One answer of the Java service at a rank that 32 bits can hold. */
  lemma AnswerAtRank(accountId: int, page: int, size: nat, table: Table, rank: nat)
    requires accountId >= 0 && AtRank(page, size, rank) && rank <= MaxRank(Java)
    ensures JavaListByOffset(accountId, page, size, Up(table)) == Ok(PageFrom(accountId, rank, page, size, table))
  {
    hide PageFrom;
    JavaListByOffsetIsRankListed(accountId, page, size, Up(table));
  }

  /** The do-while loop of both tests. `changed` is the table the writer leaves after the first page. */
  method OffsetWalk(store: WalkLoops.Store, accountId: int, size: nat, changed: Table) returns (seen: seq<Row>)
    requires UniqueIds(store.rows) && accountId >= 0 && size >= 1
    requires |Drift.Listing(accountId, store.rows)| <= MaxRank(Java)
    requires |Drift.Listing(accountId, changed)| <= MaxRank(Java)
    modifies store
    ensures store.rows == changed && UniqueIds(old(store.rows))
    ensures seen == Interrupted(Drift.Listing(accountId, old(store.rows)), Drift.Listing(accountId, changed), size)
  {
    hide Drift.Listing, JavaListByOffset, AtRank;
    FirstRanks(size);
    ghost var original: Table := store.rows;
    ghost var before, after := Drift.Listing(accountId, original), Drift.Listing(accountId, changed);
    AnswerAtRank(accountId, 1, size, original, 0);
    var current := JavaListByOffset(accountId, 1, size, Up(store.rows)).value;
    seen := current.rows;
    var hasMore, page := current.hasMore, 2;
    store.rows := changed;
    assert hasMore ==> seen == Head(before, size) + after[Min(size, |after|)..Min(size, |after|)];
    ghost var rank := size;
    while hasMore
      invariant store.rows == changed
      invariant AtRank(page, size, rank) && rank >= size
      invariant hasMore ==> |before| > size && rank <= MaxRank(Java)
      invariant hasMore ==> seen == Head(before, size) + after[Min(size, |after|)..Min(rank, |after|)]
      invariant !hasMore ==> seen == Interrupted(before, after, size)
      decreases hasMore, |after| - rank
    {
      AnswerAtRank(accountId, page, size, changed, rank);
      NextWindow(after, size, rank, size);
      NextRank(page, size, rank);
      current := JavaListByOffset(accountId, page, size, Up(store.rows)).value;
      seen := seen + current.rows;
      hasMore := current.hasMore;
      page := page + 1;
      rank := rank + size;
    }
  }

  // ----- what the interruption costs -----

  lemma RangeCount<T>(items: seq<T>, from: nat, to: nat)
    requires Drift.Distinct(items) && from <= to <= |items|
    ensures |Elements(items[from..to])| == to - from
  {
    Drift.DistinctCount(items[from..to]);
  }

  /** A listing read up to a rank, and again from an earlier one on. */
  lemma OverlapRepeats<T>(items: seq<T>, from: nat, to: nat)
    requires Drift.Distinct(items) && from <= to <= |items|
    ensures Elements(items[..to] + items[from..]) == Elements(items)
    ensures |items[..to] + items[from..]| - |Elements(items)| == to - from
  {
    hide Drift.Distinct, Elements;
    Drift.RangesMerge(items, from, to, |items|);
    Drift.ElementsConcat(items[..to], items[from..]);
    assert items[..|items|] == items && items[from..|items|] == items[from..];
    RangeCount(items, 0, |items|);
    assert items[0..|items|] == items;
  }

  /** A listing of which the head is read once before it is read whole, behind `front`. */
  lemma WholeRepeatsHead<T>(items: seq<T>, front: seq<T>, to: nat)
    requires Drift.Distinct(front + items) && to <= |items|
    ensures Elements(items) <= Elements(items[..to] + (front + items))
    ensures |items[..to] + (front + items)| - |Elements(items[..to] + (front + items))| == to
  {
    hide Drift.Distinct, Elements;
    Drift.ElementsConcat(items[..to], front + items);
    Drift.ElementsConcat(front, items);
    Drift.ElementsConcat(items[..to], items[to..]);
    assert items == items[..to] + items[to..];
    RangeCount(front + items, 0, |front + items|);
    assert (front + items)[0..|front + items|] == front + items;
    assert Elements(items[..to]) + Elements(front + items) == Elements(front + items);
  }

  lemma DistinctSuffix<T>(items: seq<T>, from: nat)
    requires Drift.Distinct(items) && from <= |items|
    ensures Drift.Distinct(items[from..])
  {
  }

  /** `k` rows arrive at the head: everything is returned, and Min(k, size) rows are returned twice. */
  lemma InsertionRepeats<T>(before: seq<T>, after: seq<T>, size: nat, k: nat)
    requires Drift.Distinct(after) && Drift.Prepended(k, before, after) && |before| > size
    ensures var seen := Interrupted(before, after, size);
            && Elements(before) <= Elements(seen)
            && |seen| - |Elements(seen)| == Min(k, size)
  {
    hide Drift.Distinct, Elements;
    if k <= size {
      DistinctSuffix(after, k);
      assert Rest(after, size) == before[size - k..];
      OverlapRepeats(before, size - k, size);
    } else {
      DistinctSuffix(after, size);
      assert Rest(after, size) == after[size..k] + before;
      WholeRepeatsHead(before, after[size..k], size);
    }
  }

  /** A listing read but for the rows of a range of ranks. */
  lemma GapSkips<T>(items: seq<T>, from: nat, to: nat)
    requires Drift.Distinct(items) && from <= to <= |items|
    ensures var seen := items[..from] + items[to..];
            && |Elements(seen)| == |seen|
            && Elements(seen) <= Elements(items)
            && Elements(items) - Elements(seen) == Elements(items[from..to])
            && |Elements(items) - Elements(seen)| == to - from
  {
    hide Drift.Distinct, Elements;
    var seen := items[..from] + items[to..];
    Drift.ElementsConcat(items[..from], items[to..]);
    Drift.ElementsConcat(items[..from], items[from..to]);
    Drift.ElementsConcat(items[..to], items[to..]);
    assert items[..to] == items[..from] + items[from..to];
    assert items == items[..to] + items[to..];
    assert items[to..|items|] == items[to..] && items[..|items|] == items;
    Drift.RangesDisjoint(items, from, from, to);
    Drift.RangesDisjoint(items, to, to, |items|);
    Drift.RangesDisjoint(items, 0, 0, from);
    assert items[0..from] == items[..from];
  }

  /** `k` rows leave the head: nothing is returned twice, and the rows that moved across the rank of the
      second page are never returned. */
  lemma DeletionSkips<T>(before: seq<T>, after: seq<T>, size: nat, k: nat)
    requires Drift.Distinct(before) && Drift.Prepended(k, after, before) && |before| > size
    ensures var seen := Interrupted(before, after, size);
            && |Elements(seen)| == |seen|
            && Elements(before) - Elements(seen) == Elements(before[size..Min(size + k, |before|)])
            && |Elements(before) - Elements(seen)| == Min(k, |before| - size)
  {
    hide Drift.Distinct, Elements;
    var upTo := Min(size + k, |before|);
    assert Rest(after, size) == before[upTo..];
    GapSkips(before, size, upTo);
  }

  // ----- on tables -----

  function Walked(accountId: int, before: Table, after: Table, size: nat): seq<Row> {
    Interrupted(Drift.Listing(accountId, before), Drift.Listing(accountId, after), size)
  }

  lemma ListingElements(accountId: int, table: Table)
    ensures Elements(Drift.Listing(accountId, table)) == Drift.Selected(accountId, table)
    ensures |Drift.Listing(accountId, table)| == |Drift.Selected(accountId, table)|
  {
  }

  /** anOffsetWalkInterruptedByTheSameInsertions...: `k` newer rows after the first page make the walk return
      Min(k, size) rows twice, and every original row at least once. */
  lemma HeadInsertionRepeats(accountId: int, before: Table, after: Table, size: nat, k: nat)
    requires Drift.HeadDiffers(accountId, k, before, after) && |Drift.Selected(accountId, before)| > size
    ensures var seen := Walked(accountId, before, after, size);
            && Drift.Selected(accountId, before) <= Elements(seen)
            && |seen| - |Elements(seen)| == Min(k, size)
  {
    hide Elements, Drift.Selected, Drift.Listing, Drift.HeadDiffers, Interrupted;
    Drift.HeadShiftsRanks(accountId, k, before, after);
    Drift.ListingDistinct(accountId, after);
    ListingElements(accountId, before);
    InsertionRepeats(Drift.Listing(accountId, before), Drift.Listing(accountId, after), size, k);
  }

  /** anOffsetWalkInterruptedByDeletions...: the `k` newest rows deleted after the first page make the walk
      miss the `k` rows that moved up into ranks already read, or all the rows left, and it repeats none. */
  lemma HeadDeletionSkips(accountId: int, before: Table, after: Table, size: nat, k: nat)
    requires Drift.HeadDiffers(accountId, k, after, before) && |Drift.Selected(accountId, before)| > size
    ensures var seen := Walked(accountId, before, after, size);
            && |Elements(seen)| == |seen|
            && |Drift.Selected(accountId, before) - Elements(seen)| == Min(k, |Drift.Selected(accountId, before)| - size)
  {
    hide Elements, Drift.Selected, Drift.Listing, Drift.HeadDiffers, Interrupted;
    Drift.HeadShiftsRanks(accountId, k, after, before);
    Drift.ListingDistinct(accountId, before);
    ListingElements(accountId, before);
    DeletionSkips(Drift.Listing(accountId, before), Drift.Listing(accountId, after), size, k);
  }
}

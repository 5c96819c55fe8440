/** The counter-example: what an OFFSET walk returns when the head of the order moves under it. */
module Drift {
  import opened Domain
  import opened Relational
  import opened Queries
  import opened Walk
  import opened StillTable

  // ----- ranks: listings whose head moves -----

  /** `n * x` by repeated addition, which keeps the proofs below linear. */
  function Times(n: nat, x: nat): nat {
    if n == 0 then 0 else Times(n - 1, x) + x
  }

  lemma {:induction false} TimesIsProduct(n: nat, x: nat)
    ensures Times(n, x) == n * x
  {
    if n > 0 {
      TimesIsProduct(n - 1, x);
      assert (n - 1) * x == n * x - x;
    }
  }

  lemma {:induction false} TimesDistributes(n: nat, x: nat, y: nat)
    ensures Times(n, x + y) == Times(n, x) + Times(n, y)
  {
    if n > 0 {
      TimesDistributes(n - 1, x, y);
    }
  }

  /** The first `pages` pages of an offset walk: page `p` is read at rank `p * size` of the listing of
      its time. */
  function RankWalk<T>(listings: seq<seq<T>>, pages: nat, size: nat): seq<T>
    requires pages <= |listings|
  {
    if pages == 0 then [] else
      RankWalk(listings, pages - 1, size) + Window(listings[pages - 1], Times(pages - 1, size), size)
  }

  /** `longer` is `shorter` with `k` items in front. */
  ghost predicate Prepended<T>(k: nat, shorter: seq<T>, longer: seq<T>) {
    k <= |longer| && longer[k..] == shorter
  }

  /** Between two pages, `k` items arrive at the head. */
  ghost predicate Arrivals<T>(listings: seq<seq<T>>, k: nat) {
    forall p | 0 <= p < |listings| - 1 :: Prepended(k, listings[p], listings[p + 1])
  }

  /** Between two pages, `k` items leave the head. */
  ghost predicate Departures<T>(listings: seq<seq<T>>, k: nat) {
    forall p | 0 <= p < |listings| - 1 :: Prepended(k, listings[p + 1], listings[p])
  }

  lemma DropDrop<T>(items: seq<T>, a: nat, b: nat)
    requires a + b <= |items|
    ensures items[a..][b..] == items[a + b..]
  {
  }

  lemma {:induction false} ArrivalsShift<T>(listings: seq<seq<T>>, k: nat, p: nat)
    requires p < |listings| && Arrivals(listings, k)
    ensures |listings[p]| == |listings[0]| + Times(p, k) && listings[p][Times(p, k)..] == listings[0]
  {
    if p > 0 {
      ArrivalsShift(listings, k, p - 1);
      assert Prepended(k, listings[p - 1], listings[p]);
      DropDrop(listings[p], k, Times(p - 1, k));
    }
  }

  lemma {:induction false} DeparturesShift<T>(listings: seq<seq<T>>, k: nat, p: nat)
    requires p < |listings| && Departures(listings, k)
    ensures |listings[0]| == |listings[p]| + Times(p, k) && listings[0][Times(p, k)..] == listings[p]
  {
    if p > 0 {
      DeparturesShift(listings, k, p - 1);
      assert Prepended(k, listings[p], listings[p - 1]);
      DropDrop(listings[0], Times(p - 1, k), k);
    }
  }

  lemma PageAfterArrivals<T>(original: seq<T>, now: seq<T>, shift: nat, lo: nat, size: nat)
    requires |now| == |original| + shift && now[shift..] == original
    requires lo + size <= |original|
    ensures Window(now, lo + shift, size) == original[lo..lo + size]
  {
    var page := Window(now, lo + shift, size);
    assert page == now[lo + shift..lo + shift + size];
    assert forall i | 0 <= i < size :: page[i] == now[shift..][lo + i];
  }

  lemma PageAfterDepartures<T>(original: seq<T>, now: seq<T>, shift: nat, offset: nat, size: nat)
    requires shift <= |original| && original[shift..] == now
    ensures Window(now, offset, size) == Window(original, offset + shift, size)
  {
  }

  /** Under `step + k == size` arrivals of `k` a page, page `p` returns the original ranks from
      `p * step` on. */
  lemma ArrivalsPage<T>(listings: seq<seq<T>>, step: nat, k: nat, p: nat)
    requires p < |listings| && Arrivals(listings, k)
    requires Times(p, step) + step + k <= |listings[0]|
    ensures Window(listings[p], Times(p, step + k), step + k)
         == listings[0][Times(p, step)..Times(p, step) + step + k]
  {
    ArrivalsShift(listings, k, p);
    TimesDistributes(p, step, k);
    PageAfterArrivals(listings[0], listings[p], Times(p, k), Times(p, step), step + k);
  }

  /** Under `k` departures a page, page `p` returns the original ranks from `p * (size + k)` on. */
  lemma DeparturesPage<T>(listings: seq<seq<T>>, size: nat, k: nat, p: nat)
    requires p < |listings| && Departures(listings, k)
    ensures Window(listings[p], Times(p, size), size) == Window(listings[0], Times(p, size + k), size)
  {
    DeparturesShift(listings, k, p);
    TimesDistributes(p, size, k);
    PageAfterDepartures(listings[0], listings[p], Times(p, k), Times(p, size), size);
  }

  ghost predicate Distinct<T>(items: seq<T>) {
    forall i, j | 0 <= i < j < |items| :: items[i] != items[j]
  }

  lemma {:induction false} DistinctCount<T>(items: seq<T>)
    requires Distinct(items)
    ensures |Elements(items)| == |items|
  {
    if items != [] {
      var init := items[..|items| - 1];
      DistinctCount(init);
      assert items == init + [items[|items| - 1]];
      assert Elements(items) == Elements(init) + {items[|items| - 1]};
    }
  }

  lemma ElementsConcat<T>(front: seq<T>, back: seq<T>)
    ensures Elements(front + back) == Elements(front) + Elements(back)
  {
  }

  /** Two overlapping ranges make one. */
  lemma RangesMerge<T>(items: seq<T>, a: nat, b: nat, c: nat)
    requires a <= b <= c <= |items|
    ensures Elements(items[..b]) + Elements(items[a..c]) == Elements(items[..c])
  {
    assert items[..c] == items[..b] + items[b..c];
    assert items[a..c] == items[a..b] + items[b..c];
    assert items[..c] == items[..a] + items[a..c];
  }

  lemma RangesDisjoint<T>(items: seq<T>, b: nat, c: nat, d: nat)
    requires Distinct(items) && b <= c <= d <= |items|
    ensures Elements(items[..b]) !! Elements(items[c..d])
    ensures Elements(items[..b]) <= Elements(items[..d])
    ensures Elements(items[c..d]) <= Elements(items[..d])
    ensures |Elements(items[c..d])| == d - c
    ensures |Elements(items[..d])| == d
  {
    assert items[..d][..b] == items[..b];
    assert items[..d][c..] == items[c..d];
    DistinctCount(items[c..d]);
    DistinctCount(items[..d]);
  }

  /** Under arrivals, what the walk returned altogether is a contiguous head of the original listing. */
  lemma {:induction false} ArrivalsCover<T>(listings: seq<seq<T>>, pages: nat, step: nat, k: nat)
    requires 0 < pages <= |listings| && Arrivals(listings, k)
    requires Times(pages, step) + k <= |listings[0]|
    ensures |RankWalk(listings, pages, step + k)| == Times(pages, step + k)
    ensures Elements(RankWalk(listings, pages, step + k)) == Elements(listings[0][..Times(pages, step) + k])
  {
    hide Elements, Arrivals;
    var original, p := listings[0], pages - 1;
    var from, reached := Times(p, step), Times(pages, step) + k;
    ArrivalsPage(listings, step, k, p);
    var before, page := RankWalk(listings, p, step + k), original[from..reached];
    if p > 0 {
      ArrivalsCover(listings, p, step, k);
      RangesMerge(original, from, from + k, reached);
      ElementsOfWalk(RankWalk(listings, pages, step + k), before, page,
                     Elements(original[..from + k]), Elements(original[..reached]));
    } else {
      assert RankWalk(listings, pages, step + k) == page == original[..reached];
    }
  }

  lemma ElementsOfWalk<T>(walk: seq<T>, before: seq<T>, page: seq<T>, earlier: set<T>, all: set<T>)
    requires walk == before + page && Elements(before) == earlier && earlier + Elements(page) == all
    ensures Elements(walk) == all
  {
    ElementsConcat(before, page);
  }

  /** The drift law on ranks. When `k` items (`k <= size`) arrive at the head after each page, over at
      least `pages * size` items, the walk repeats items (pages - 1) * k times, and exactly that many of
      the first `pages * size` original items are never returned. */
  lemma RankDriftLaw<T>(listings: seq<seq<T>>, pages: nat, size: nat, k: nat)
    requires 0 < pages <= |listings| && Arrivals(listings, k) && k <= size
    requires Times(pages, size) <= |listings[0]| && Distinct(listings[0])
    ensures var seen := RankWalk(listings, pages, size);
            var wanted := Elements(listings[0][..Times(pages, size)]);
            && |seen| - |Elements(seen)| == Times(pages - 1, k)
            && Elements(seen) <= wanted
            && |wanted - Elements(seen)| == Times(pages - 1, k)
  {
    var original, step := listings[0], size - k;
    var reached, all := Times(pages, step) + k, Times(pages, size);
    TimesDistributes(pages, step, k);
    assert Times(pages, k) == Times(pages - 1, k) + k;
    ArrivalsCover(listings, pages, step, k);
    RangesDisjoint(original, reached, reached, all);
    RangesDisjoint(original, 0, 0, reached);
  }

  /** The dual. When `k` items leave the head after each page, the walk repeats nothing, and of the
      original items it went over it misses exactly (pages - 1) * k, `k` at each page boundary. */
  lemma {:induction false} RankSkipLaw<T>(listings: seq<seq<T>>, pages: nat, size: nat, k: nat, reached: nat)
    requires 0 < pages <= |listings| && Departures(listings, k) && Distinct(listings[0])
    requires reached == Times(pages - 1, size + k) + size <= |listings[0]|
    ensures var seen, passed := RankWalk(listings, pages, size), Elements(listings[0][..reached]);
            && |seen| == |Elements(seen)| == Times(pages, size)
            && Elements(seen) <= passed
            && |passed - Elements(seen)| == Times(pages - 1, k)
  {
    hide Elements, Distinct, Departures;
    var original, p := listings[0], pages - 1;
    var from := reached - size;
    DeparturesPage(listings, size, k, p);
    var before, page := RankWalk(listings, p, size), original[from..reached];
    TimesDistributes(p, size, k);
    if p > 0 {
      var earlier := from - k;
      RankSkipLaw(listings, p, size, k, earlier);
      RangesDisjoint(original, earlier, from, reached);
      ElementsOfSkippingWalk(RankWalk(listings, pages, size), before, page,
                             Elements(original[..earlier]), Elements(original[..reached]));
    } else {
      RangesDisjoint(original, 0, from, reached);
      ElementsOfSkippingWalk(RankWalk(listings, pages, size), before, page, {}, Elements(original[..reached]));
    }
  }

  lemma ElementsOfSkippingWalk<T>(walk: seq<T>, before: seq<T>, page: seq<T>, earlier: set<T>, all: set<T>)
    requires walk == before + page && Elements(before) <= earlier <= all
    requires Elements(page) <= all && earlier !! Elements(page)
    ensures Elements(walk) <= all
    ensures |Elements(walk)| == |Elements(before)| + |Elements(page)|
    ensures |all - Elements(walk)| == |all| - |Elements(before)| - |Elements(page)|
  {
    ElementsConcat(before, page);
    assert |all| == |all - Elements(walk)| + |Elements(walk)|;
  }

  // ----- tables: what the offset endpoint reads -----

  const NEWEST := CreatedAtDesc.Ordering()

  /** The rows the offset statements select, and their listing, newest first. */
  function Selected(accountId: int, table: Table): Table {
    Remaining(ListQuery(accountId, "", CreatedAtDesc), Start, table)
  }

  function Listing(accountId: int, table: Table): seq<Row> {
    OrderBy(NEWEST, Selected(accountId, table))
  }

  function Listings(accountId: int, tables: seq<Table>): (listings: seq<seq<Row>>)
    ensures |listings| == |tables|
  {
    seq(|tables|, p requires 0 <= p < |tables| => Listing(accountId, tables[p]))
  }

  lemma OffsetPageReadsRanks(accountId: int, offset: nat, limit: nat, table: Table)
    ensures OffsetPage(accountId, offset, limit, table) == Window(Listing(accountId, table), offset, limit)
  {
    OffsetPageIsWindow(ListQuery(accountId, "", CreatedAtDesc), offset, limit, table);
  }

  /** `larger` holds `k` selected rows more than `smaller`, all newer than every selected row of
      `smaller`: read forwards a head insertion, read backwards a head deletion. */
  ghost predicate HeadDiffers(accountId: int, k: nat, smaller: Table, larger: Table) {
    var few, many := Selected(accountId, smaller), Selected(accountId, larger);
    && few <= many
    && |many - few| == k
    && forall a, b | a in many - few && b in few :: Before(NEWEST, KeyOf(a), KeyOf(b))
  }

  lemma HeadShiftsRanks(accountId: int, k: nat, smaller: Table, larger: Table)
    requires HeadDiffers(accountId, k, smaller, larger)
    ensures Prepended(k, Listing(accountId, smaller), Listing(accountId, larger))
  {
    var few, many := Selected(accountId, smaller), Selected(accountId, larger);
    assert (many - few) + few == many;
    OrderByConcat(NEWEST, many - few, few);
  }

  /** The first `pages` pages of an offset walk, page `p` being read from `tables[p]`. */
  function OffsetWalk(accountId: int, tables: seq<Table>, pages: nat, size: nat): seq<Row>
    requires pages <= |tables|
  {
    if pages == 0 then [] else
      OffsetWalk(accountId, tables, pages - 1, size)
      + OffsetPage(accountId, (pages - 1) * size, size, tables[pages - 1])
  }

  lemma {:induction false} OffsetWalkReadsRanks(accountId: int, tables: seq<Table>, pages: nat, size: nat)
    requires pages <= |tables|
    ensures OffsetWalk(accountId, tables, pages, size) == RankWalk(Listings(accountId, tables), pages, size)
  {
    hide Listing, OffsetPage, Window;
    if pages > 0 {
      OffsetWalkReadsRanks(accountId, tables, pages - 1, size);
      TimesIsProduct(pages - 1, size);
      OffsetPageReadsRanks(accountId, (pages - 1) * size, size, tables[pages - 1]);
    }
  }

  lemma ListingDistinct(accountId: int, table: Table)
    ensures Distinct(Listing(accountId, table))
  {
    OrderBySorted(NEWEST, Selected(accountId, table));
    SortedDistinct(NEWEST, Listing(accountId, table));
  }

  ghost predicate ArrivalsAtHead(accountId: int, k: nat, tables: seq<Table>) {
    forall p | 0 <= p < |tables| - 1 :: HeadDiffers(accountId, k, tables[p], tables[p + 1])
  }

  ghost predicate DeletionsAtHead(accountId: int, k: nat, tables: seq<Table>) {
    forall p | 0 <= p < |tables| - 1 :: HeadDiffers(accountId, k, tables[p + 1], tables[p])
  }

  lemma ArrivalsMoveListings(accountId: int, k: nat, tables: seq<Table>)
    requires ArrivalsAtHead(accountId, k, tables)
    ensures Arrivals(Listings(accountId, tables), k)
  {
    forall p | 0 <= p < |tables| - 1
      ensures Prepended(k, Listing(accountId, tables[p]), Listing(accountId, tables[p + 1]))
    {
      HeadShiftsRanks(accountId, k, tables[p], tables[p + 1]);
    }
  }

  lemma DeletionsMoveListings(accountId: int, k: nat, tables: seq<Table>)
    requires DeletionsAtHead(accountId, k, tables)
    ensures Departures(Listings(accountId, tables), k)
  {
    forall p | 0 <= p < |tables| - 1
      ensures Prepended(k, Listing(accountId, tables[p + 1]), Listing(accountId, tables[p]))
    {
      HeadShiftsRanks(accountId, k, tables[p + 1], tables[p]);
    }
  }

  /** The drift of the offset endpoint: when `k` newer rows (`k <= size`) arrive after each page, over
      at least `pages * size` rows, the walk repeats rows (pages - 1) * k times, and exactly that many of
      the first `pages * size` rows it set out to return never come. */
  lemma OffsetDriftLaw(accountId: int, tables: seq<Table>, pages: nat, size: nat, k: nat)
    requires 0 < pages <= |tables| && ArrivalsAtHead(accountId, k, tables) && k <= size
    requires 0 <= pages * size <= |Listing(accountId, tables[0])|
    ensures var seen := OffsetWalk(accountId, tables, pages, size);
            var wanted := Elements(Listing(accountId, tables[0])[..pages * size]);
            && |seen| - |Elements(seen)| == (pages - 1) * k
            && Elements(seen) <= wanted
            && |wanted - Elements(seen)| == (pages - 1) * k
  {
    hide OffsetWalk, RankWalk, Listing, Elements, Arrivals, ArrivalsAtHead, Distinct;
    ArrivalsMoveListings(accountId, k, tables);
    OffsetWalkReadsRanks(accountId, tables, pages, size);
    ListingDistinct(accountId, tables[0]);
    TimesIsProduct(pages, size);
    TimesIsProduct(pages - 1, k);
    RankDriftLaw(Listings(accountId, tables), pages, size, k);
  }

  /** The dual, when the `k` newest rows are deleted after each page: nothing is repeated, and exactly
      `k` rows are skipped at each page boundary. */
  lemma OffsetSkipLaw(accountId: int, tables: seq<Table>, pages: nat, size: nat, k: nat, reached: nat)
    requires 0 < pages <= |tables| && DeletionsAtHead(accountId, k, tables)
    requires reached == (pages - 1) * (size + k) + size <= |Listing(accountId, tables[0])|
    ensures var seen := OffsetWalk(accountId, tables, pages, size);
            var passed := Elements(Listing(accountId, tables[0])[..reached]);
            && |seen| == |Elements(seen)| == pages * size
            && Elements(seen) <= passed
            && |passed - Elements(seen)| == (pages - 1) * k
  {
    hide OffsetWalk, RankWalk, Listing, Elements, Departures, DeletionsAtHead, Distinct;
    DeletionsMoveListings(accountId, k, tables);
    OffsetWalkReadsRanks(accountId, tables, pages, size);
    ListingDistinct(accountId, tables[0]);
    TimesIsProduct(pages, size);
    TimesIsProduct(pages - 1, k);
    TimesIsProduct(pages - 1, size + k);
    RankSkipLaw(Listings(accountId, tables), pages, size, k, reached);
  }
}

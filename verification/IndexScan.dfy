/** What the comment above the keyset statements claims of the indexes: on an array in the order of
    idx_txn_acct or, for the unfiltered statements, of idx_txn_created_id, the bound positions the scan,
    which then reads no more rows than the page; as a filter, the same bound makes the scan read and
    reject everything before it. Only a positive `account` filters, as in the repository. */
module IndexScan {
  import opened Domain
  import opened Relational
  import opened Queries
  import opened Walk

  /** The order of the index that serves an account filter: idx_txn_acct, account first, then newest first;
      or idx_txn_created_id, newest first, when there is no filter. */
  predicate IndexBefore(account: int, a: Row, b: Row) {
    if account > 0 && a.accountId != b.accountId then a.accountId < b.accountId
    else TupleLess(KeyOf(b), KeyOf(a))
  }

  ghost predicate Indexed(account: int, entries: seq<Row>) {
    forall i, j | 0 <= i < j < |entries| :: IndexBefore(account, entries[i], entries[j])
  }

  /** The entry belongs to the rows the statement selects: of the account, or of any without a filter. */
  predicate InScan(account: int, entry: Row) {
    Matches(Descending(account), entry)
  }

  function Descending(account: int): ListQuery {
    ListQuery(account, "", CreatedAtDesc)
  }

  function Ascending(account: int): ListQuery {
    ListQuery(account, "", CreatedAtAsc)
  }

  /** The entry lies past the bound, or in a later account: where a forward scan starts. */
  predicate PastForward(account: int, after: Position, entry: Row) {
    if InScan(account, entry) then Ahead(CreatedAtDesc, after, entry) else entry.accountId > account
  }

  /** The entry lies past the bound walking up, or in an earlier account: where a backward scan starts. */
  predicate PastBackward(account: int, after: Position, entry: Row) {
    if InScan(account, entry) then Ahead(CreatedAtAsc, after, entry) else entry.accountId < account
  }

  /** Descending the index to the first entry past the bound. */
  method SeekForward(index: array<Row>, account: int, after: Position) returns (at: nat)
    requires Indexed(account, index[..])
    ensures at <= index.Length
    ensures forall i | 0 <= i < at :: !PastForward(account, after, index[i])
    ensures forall i | at <= i < index.Length :: PastForward(account, after, index[i])
  {
    at := 0;
    var high := index.Length;
    while at < high
      invariant 0 <= at <= high <= index.Length
      invariant forall i | 0 <= i < at :: !PastForward(account, after, index[i])
      invariant forall i | high <= i < index.Length :: PastForward(account, after, index[i])
    {
      var middle := (at + high) / 2;
      if PastForward(account, after, index[middle]) {
        high := middle;
      } else {
        at := middle + 1;
      }
    }
  }

  method SeekBackward(index: array<Row>, account: int, after: Position) returns (at: nat)
    requires Indexed(account, index[..])
    ensures at <= index.Length
    ensures forall i | 0 <= i < at :: PastBackward(account, after, index[i])
    ensures forall i | at <= i < index.Length :: !PastBackward(account, after, index[i])
  {
    at := 0;
    var high := index.Length;
    while at < high
      invariant 0 <= at <= high <= index.Length
      invariant forall i | 0 <= i < at :: PastBackward(account, after, index[i])
      invariant forall i | high <= i < index.Length :: !PastBackward(account, after, index[i])
    {
      var middle := (at + high) / 2;
      if PastBackward(account, after, index[middle]) {
        at := middle + 1;
      } else {
        high := middle;
      }
    }
  }

  /** The entries of the account from a position on. */
  function RunForward(entries: seq<Row>, account: int, at: nat): seq<Row>
    requires at <= |entries|
    decreases |entries| - at
  {
    if at == |entries| || !InScan(account, entries[at]) then []
    else [entries[at]] + RunForward(entries, account, at + 1)
  }

  /** The entries of the account before a position, nearest first. */
  function RunBackward(entries: seq<Row>, account: int, at: nat): seq<Row>
    requires at <= |entries|
  {
    if at == 0 || !InScan(account, entries[at - 1]) then []
    else [entries[at - 1]] + RunBackward(entries, account, at - 1)
  }

  lemma {:induction false} RunForwardIsSegment(entries: seq<Row>, account: int, at: nat)
    requires Indexed(account, entries) && at <= |entries|
    requires forall i | at <= i < |entries| :: InScan(account, entries[i]) || entries[i].accountId > account
    ensures Sorted(Descending(account).sort.Ordering(), RunForward(entries, account, at))
    ensures forall row :: row in RunForward(entries, account, at) <==>
                          row in entries[at..] && InScan(account, row)
    decreases |entries| - at
  {
    if at < |entries| && InScan(account, entries[at]) {
      RunForwardIsSegment(entries, account, at + 1);
      var rest := RunForward(entries, account, at + 1);
      assert entries[at..] == [entries[at]] + entries[at + 1..];
      forall j | 0 <= j < |rest|
        ensures TupleLess(KeyOf(rest[j]), KeyOf(entries[at]))
      {
        assert rest[j] in rest;
        var k :| 0 <= k < |entries[at + 1..]| && entries[at + 1..][k] == rest[j];
        assert entries[at + 1 + k] == rest[j];
      }
    } else if at < |entries| {
      forall row | row in entries[at..]
        ensures !InScan(account, row)
      {
        var k :| 0 <= k < |entries[at..]| && entries[at..][k] == row;
        assert k == 0 || IndexBefore(account, entries[at], entries[at + k]);
      }
    }
  }

  lemma {:induction false} RunBackwardIsSegment(entries: seq<Row>, account: int, at: nat)
    requires Indexed(account, entries) && at <= |entries|
    requires forall i | 0 <= i < at :: InScan(account, entries[i]) || entries[i].accountId < account
    ensures Sorted(Ascending(account).sort.Ordering(), RunBackward(entries, account, at))
    ensures forall row :: row in RunBackward(entries, account, at) <==>
                          row in entries[..at] && InScan(account, row)
  {
    if at > 0 && InScan(account, entries[at - 1]) {
      RunBackwardIsSegment(entries, account, at - 1);
      var rest := RunBackward(entries, account, at - 1);
      assert entries[..at] == entries[..at - 1] + [entries[at - 1]];
      forall j | 0 <= j < |rest|
        ensures TupleLess(KeyOf(entries[at - 1]), KeyOf(rest[j]))
      {
        assert rest[j] in rest;
        var k :| 0 <= k < |entries[..at - 1]| && entries[..at - 1][k] == rest[j];
        assert entries[k] == rest[j];
      }
    } else if at > 0 {
      forall row | row in entries[..at]
        ensures !InScan(account, row)
      {
        var k :| 0 <= k < |entries[..at]| && entries[..at][k] == row;
        assert k == at - 1 || IndexBefore(account, entries[k], entries[at - 1]);
      }
    }
  }

  lemma {:induction false} RunForwardShape(entries: seq<Row>, account: int, at: nat)
    requires at <= |entries|
    ensures Forward(entries, account, at, RunForward(entries, account, at))
    decreases |entries| - at
  {
    if at < |entries| && InScan(account, entries[at]) {
      RunForwardShape(entries, account, at + 1);
    }
  }

  lemma {:induction false} RunBackwardShape(entries: seq<Row>, account: int, at: nat)
    requires at <= |entries|
    ensures Backward(entries, account, at, RunBackward(entries, account, at))
  {
    if at > 0 && InScan(account, entries[at - 1]) {
      RunBackwardShape(entries, account, at - 1);
    }
  }

  lemma SplitAt(entries: seq<Row>, at: nat)
    requires at <= |entries|
    ensures forall row :: row in entries <==> row in entries[..at] || row in entries[at..]
  {
    assert entries == entries[..at] + entries[at..];
  }

  /** The seek lands where the remaining rows begin, and they are the run of entries from there. */
  lemma ForwardRunIsRemaining(entries: seq<Row>, account: int, after: Position, at: nat)
    requires Indexed(account, entries) && UniqueIds(Elements(entries)) && at <= |entries|
    requires forall i | 0 <= i < at :: !PastForward(account, after, entries[i])
    requires forall i | at <= i < |entries| :: PastForward(account, after, entries[i])
    ensures RunForward(entries, account, at) == RemainingInOrder(Descending(account), after, Elements(entries))
  {
    var run := RunForward(entries, account, at);
    var remaining := Remaining(Descending(account), after, Elements(entries));
    RunForwardIsSegment(entries, account, at);
    SplitAt(entries, at);
    assert forall row | row in entries[..at] :: !PastForward(account, after, row);
    assert forall row | row in entries[at..] :: PastForward(account, after, row);
    assert Elements(run) == remaining;
    OrderByUnique(Descending(account).sort.Ordering(), remaining, run);
  }

  lemma BackwardRunIsRemaining(entries: seq<Row>, account: int, after: Position, at: nat)
    requires Indexed(account, entries) && UniqueIds(Elements(entries)) && at <= |entries|
    requires forall i | 0 <= i < at :: PastBackward(account, after, entries[i])
    requires forall i | at <= i < |entries| :: !PastBackward(account, after, entries[i])
    ensures RunBackward(entries, account, at) == RemainingInOrder(Ascending(account), after, Elements(entries))
  {
    var run := RunBackward(entries, account, at);
    var remaining := Remaining(Ascending(account), after, Elements(entries));
    RunBackwardIsSegment(entries, account, at);
    SplitAt(entries, at);
    assert forall row | row in entries[..at] :: PastBackward(account, after, row);
    assert forall row | row in entries[at..] :: !PastBackward(account, after, row);
    assert Elements(run) == remaining;
    OrderByUnique(Ascending(account).sort.Ordering(), remaining, run);
  }

  /** `run` is what an index scan yields from `at` on before it leaves the account. */
  ghost predicate Forward(entries: seq<Row>, account: int, at: nat, run: seq<Row>) {
    && at + |run| <= |entries|
    && (forall k | 0 <= k < |run| :: run[k] == entries[at + k] && InScan(account, run[k]))
    && (at + |run| < |entries| ==> !InScan(account, entries[at + |run|]))
  }

  ghost predicate Backward(entries: seq<Row>, account: int, at: nat, run: seq<Row>) {
    && |run| <= at <= |entries|
    && (forall k | 0 <= k < |run| :: run[k] == entries[at - 1 - k] && InScan(account, run[k]))
    && (|run| < at ==> !InScan(account, entries[at - 1 - |run|]))
  }

  method ReadForward(index: array<Row>, account: int, at: nat, limit: nat, ghost run: seq<Row>)
    returns (rows: seq<Row>, visited: nat)
    requires Forward(index[..], account, at, run)
    ensures rows == Take(run, limit) && visited <= limit
  {
    rows, visited := [], 0;
    while visited < limit && at + visited < index.Length && InScan(account, index[at + visited])
      invariant visited <= limit && visited <= |run|
      invariant rows == run[..visited]
    {
      assert run[visited] == index[..][at + visited];
      rows := rows + [index[at + visited]];
      visited := visited + 1;
    }
    assert visited < |run| ==> run[visited] == index[..][at + visited];
  }

  method ReadBackward(index: array<Row>, account: int, at: nat, limit: nat, ghost run: seq<Row>)
    returns (rows: seq<Row>, visited: nat)
    requires Backward(index[..], account, at, run)
    ensures rows == Take(run, limit) && visited <= limit
  {
    rows, visited := [], 0;
    while visited < limit && visited < at && InScan(account, index[at - 1 - visited])
      invariant visited <= limit && visited <= |run|
      invariant rows == run[..visited]
    {
      assert run[visited] == index[..][at - 1 - visited];
      rows := rows + [index[at - 1 - visited]];
      visited := visited + 1;
    }
    assert visited < |run| ==> run[visited] == index[..][at - 1 - visited];
  }

  /** The bound as an index condition, newest first: the page, at the price of at most `limit` entries. */
  method ScanForward(index: array<Row>, account: int, after: Position, limit: nat)
    returns (rows: seq<Row>, visited: nat)
    requires Indexed(account, index[..]) && UniqueIds(Elements(index[..]))
    ensures rows == PageRows(Descending(account), after, limit, Elements(index[..]))
    ensures visited <= limit
  {
    hide RunForward, Indexed, RemainingInOrder, PageRows, Elements;
    var at := SeekForward(index, account, after);
    ForwardRunIsRemaining(index[..], account, after, at);
    RunForwardShape(index[..], account, at);
    PageIsPrefix(Descending(account), after, limit, Elements(index[..]));
    rows, visited := ReadForward(index, account, at, limit, RunForward(index[..], account, at));
  }

  /** The same index read backwards, oldest first. */
  method ScanBackward(index: array<Row>, account: int, after: Position, limit: nat)
    returns (rows: seq<Row>, visited: nat)
    requires Indexed(account, index[..]) && UniqueIds(Elements(index[..]))
    ensures rows == PageRows(Ascending(account), after, limit, Elements(index[..]))
    ensures visited <= limit
  {
    hide RunBackward, Indexed, RemainingInOrder, PageRows, Elements;
    var at := SeekBackward(index, account, after);
    BackwardRunIsRemaining(index[..], account, after, at);
    RunBackwardShape(index[..], account, at);
    PageIsPrefix(Ascending(account), after, limit, Elements(index[..]));
    rows, visited := ReadBackward(index, account, at, limit, RunBackward(index[..], account, at));
  }

  /** How many rows of a listing a bound used as a filter rejects. */
  function Rejected(run: seq<Row>, after: Bound): nat {
    if run == [] then 0
    else (if TupleLess(KeyOf(run[0]), after) then 0 else 1) + Rejected(run[1..], after)
  }

  /** Newest first, the rejected rows are the first ones. */
  lemma {:induction false} RejectedComeFirst(run: seq<Row>, after: Bound)
    requires Sorted(CreatedAtDesc.Ordering(), run)
    ensures Rejected(run, after) <= |run|
    ensures forall i | 0 <= i < |run| :: TupleLess(KeyOf(run[i]), after) <==> i >= Rejected(run, after)
  {
    if run != [] {
      var rest := run[1..];
      RejectedComeFirst(rest, after);
      assert forall i | 0 < i < |run| :: run[i] == rest[i - 1];
      if TupleLess(KeyOf(run[0]), after) {
        assert forall i | 0 < i < |run| :: Before(CreatedAtDesc.Ordering(), KeyOf(run[0]), KeyOf(run[i]));
        assert forall i | 0 < i < |run| :: TupleLess(KeyOf(run[i]), after);
      }
    }
  }

  lemma FilteredRun(account: int, after: Bound, table: Table)
    ensures var run := RemainingInOrder(Descending(account), Start, table);
            && Rejected(run, after) <= |run|
            && (forall i | 0 <= i < |run| :: TupleLess(KeyOf(run[i]), after) <==> i >= Rejected(run, after))
            && run[Rejected(run, after)..] == RemainingInOrder(Descending(account), After(after), table)
  {
    hide Sorted, Rejected;
    var query := Descending(account);
    var run := RemainingInOrder(query, Start, table);
    OrderBySorted(query.sort.Ordering(), Remaining(query, Start, table));
    RejectedComeFirst(run, after);
    KeptArePast(run, after, Remaining(query, Start, table), Remaining(query, After(after), table));
    SortedSuffix(query.sort.Ordering(), run, Rejected(run, after));
    OrderByUnique(query.sort.Ordering(), Remaining(query, After(after), table), run[Rejected(run, after)..]);
  }

  lemma SortedSuffix(order: Order, run: seq<Row>, r: nat)
    requires Sorted(order, run) && r <= |run|
    ensures Sorted(order, run[r..])
  {
  }

  lemma KeptArePast(run: seq<Row>, after: Bound, all: set<Row>, past: set<Row>)
    requires Elements(run) == all && Rejected(run, after) <= |run|
    requires forall i | 0 <= i < |run| :: TupleLess(KeyOf(run[i]), after) <==> i >= Rejected(run, after)
    requires forall row :: row in past <==> row in all && TupleLess(KeyOf(row), after)
    ensures Elements(run[Rejected(run, after)..]) == past
  {
    hide Rejected;
    var r := Rejected(run, after);
    SplitAt(run, r);
    assert forall row | row in run[..r] :: !TupleLess(KeyOf(row), after);
    assert forall row | row in run[r..] :: TupleLess(KeyOf(row), after);
  }

  method ReadFiltering(index: array<Row>, account: int, at: nat, after: Bound, limit: nat,
                       ghost run: seq<Row>, ghost r: nat)
    returns (rows: seq<Row>, rejected: nat)
    requires limit >= 1 && Forward(index[..], account, at, run) && r <= |run|
    requires forall i | 0 <= i < |run| :: TupleLess(KeyOf(run[i]), after) <==> i >= r
    ensures rows == Take(run[r..], limit) && rejected == r
  {
    var read := 0;
    rows, rejected := [], 0;
    while |rows| < limit && at + read < index.Length && InScan(account, index[at + read])
      invariant read <= |run| && |rows| <= limit
      invariant rejected == Min(read, r)
      invariant rows == run[r..][..read - rejected]
      decreases |run| - read
    {
      assert run[read] == index[..][at + read];
      if TupleLess(KeyOf(index[at + read]), after) {
        assert run[r..][read - r] == run[read];
        rows := rows + [index[at + read]];
      } else {
        rejected := rejected + 1;
      }
      read := read + 1;
    }
    assert read < |run| ==> run[read] == index[..][at + read];
  }

  /** The bound as a filter (the single-statement trap): the same page, after reading and rejecting every
      entry of the account that is not strictly past the bound. */
  method FilterForward(index: array<Row>, account: int, after: Bound, limit: nat)
    returns (rows: seq<Row>, rejected: nat)
    requires limit >= 1 && Indexed(account, index[..]) && UniqueIds(Elements(index[..]))
    ensures rows == PageRows(Descending(account), After(after), limit, Elements(index[..]))
    ensures rejected == |Remaining(Descending(account), Start, Elements(index[..]))|
                      - |Remaining(Descending(account), After(after), Elements(index[..]))|
  {
    hide RunForward, Indexed, RemainingInOrder, Remaining, PageRows, Rejected, Elements;
    ghost var query, table := Descending(account), Elements(index[..]);
    var at := SeekForward(index, account, Start);
    ForwardRunIsRemaining(index[..], account, Start, at);
    RunForwardShape(index[..], account, at);
    FilteredRun(account, after, table);
    ListingLength(query, Start, table);
    ListingLength(query, After(after), table);
    PageIsPrefix(query, After(after), limit, table);
    ghost var run := RunForward(index[..], account, at);
    rows, rejected := ReadFiltering(index, account, at, after, limit, run, Rejected(run, after));
  }
}

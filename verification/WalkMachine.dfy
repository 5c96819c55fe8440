/** A walk and its writers as a state machine: what holds over every run, whatever is inserted or
    deleted between two pages. */
module WalkMachine {
  import opened Domain
  import opened Relational
  import opened Walk

  /** `ever` is every row the table has held (ids are generated, so never used twice); `seen` is what
      the client has been handed so far. */
  datatype State = State(table: Table, ever: Table, position: Position, seen: seq<Row>)

  datatype Action = Fetch(limit: nat) | Insert(row: Row) | Delete(victims: set<Row>) | Idle

  ghost predicate FreshId(ever: set<Row>, row: Row) {
    forall earlier | earlier in ever :: earlier.id != row.id
  }

  ghost predicate Enabled(s: State, action: Action) {
    match action
    case Fetch(limit) => limit >= 1 && !s.position.End?
    case Insert(row) => s.table <= s.ever && FreshId(s.ever, row)
    case Delete(_) => true
    case Idle => true
  }

  ghost function Apply(query: ListQuery, s: State, action: Action): State
    requires Enabled(s, action)
  {
    match action
    case Fetch(limit) =>
      s.(position := PageEnd(query, s.position, limit, s.table),
         seen := s.seen + PageRows(query, s.position, limit, s.table))
    case Insert(row) =>
      s.(table := s.table + {row}, ever := s.ever + {row})
    case Delete(victims) =>
      s.(table := s.table - victims)
    case Idle => s
  }

  ghost predicate Initial(s: State) {
    s.position == Start && s.seen == [] && s.table <= s.ever
  }

  ghost predicate Run(query: ListQuery, states: seq<State>, actions: seq<Action>) {
    && |states| == |actions| + 1
    && Initial(states[0])
    && forall i | 0 <= i < |actions| ::
         Enabled(states[i], actions[i]) && states[i + 1] == Apply(query, states[i], actions[i])
  }

  function Last<T>(items: seq<T>): T
    requires items != []
  {
    items[|items| - 1]
  }

  // ----- the invariant -----

  ghost predicate Invariant(query: ListQuery, s: State) {
    && s.table <= s.ever
    && Elements(s.seen) <= s.ever
    && Sorted(query.sort.Ordering(), s.seen)
    && (forall row | row in s.seen :: Matches(query, row))
    && (s.position.Start? ==> s.seen == [])
    && (s.position.After? ==> s.seen != [] && s.position.bound == KeyOf(Last(s.seen)))
  }

  lemma PageIsAhead(query: ListQuery, position: Position, limit: nat, table: Table)
    requires limit >= 1
    ensures forall row | row in PageRows(query, position, limit, table) :: row in Remaining(query, position, table)
  {
    PagePartitions(query, position, limit, table);
    assert forall row | row in PageRows(query, position, limit, table) ::
        row in Elements(PageRows(query, position, limit, table));
  }

  lemma SortedAppend(order: Order, front: seq<Row>, back: seq<Row>)
    requires Sorted(order, front) && Sorted(order, back)
    requires front != [] ==> forall row | row in back :: Before(order, KeyOf(Last(front)), KeyOf(row))
    ensures Sorted(order, front + back)
  {
    var all := front + back;
    forall i, j | 0 <= i < |front| <= j < |all|
      ensures Before(order, KeyOf(all[i]), KeyOf(all[j]))
    {
      assert all[j] == back[j - |front|];
      if i < |front| - 1 {
        BeforeTransitive(order, KeyOf(all[i]), KeyOf(Last(front)), KeyOf(all[j]));
      }
    }
  }

  lemma PageStepsOn(query: ListQuery, s: State, limit: nat)
    requires Invariant(query, s) && limit >= 1 && !s.position.End?
    ensures var rows := PageRows(query, s.position, limit, s.table);
            && Sorted(query.sort.Ordering(), s.seen + rows)
            && Elements(rows) <= s.table
            && (forall row | row in rows :: Matches(query, row))
  {
    PagePartitions(query, s.position, limit, s.table);
    PageIsAhead(query, s.position, limit, s.table);
    SortedAppend(query.sort.Ordering(), s.seen, PageRows(query, s.position, limit, s.table));
  }

  lemma FetchKeepsInvariant(query: ListQuery, s: State, limit: nat)
    requires Invariant(query, s) && limit >= 1 && !s.position.End?
    ensures Invariant(query, Apply(query, s, Fetch(limit)))
  {
    var rows := PageRows(query, s.position, limit, s.table);
    PageStepsOn(query, s, limit);
    assert Elements(s.seen + rows) == Elements(s.seen) + Elements(rows);
    var end := PageEnd(query, s.position, limit, s.table);
    assert end.After? ==> rows != [] && end.bound == KeyOf(Last(rows)) && Last(s.seen + rows) == Last(rows);
  }

  lemma StepKeepsInvariant(query: ListQuery, s: State, action: Action)
    requires Invariant(query, s) && Enabled(s, action)
    ensures Invariant(query, Apply(query, s, action))
  {
    if action.Fetch? {
      FetchKeepsInvariant(query, s, action.limit);
    }
  }

  lemma {:induction false} RunKeepsInvariant(query: ListQuery, states: seq<State>, actions: seq<Action>, i: nat)
    requires Run(query, states, actions) && i <= |actions|
    ensures Invariant(query, states[i])
  {
    if i > 0 {
      RunKeepsInvariant(query, states, actions, i - 1);
      StepKeepsInvariant(query, states[i - 1], actions[i - 1]);
    }
  }

  /** In every reachable state the keys handed out are strictly monotonic and no id was handed out
      twice, even if every row shares one `created_at`. */
  lemma NothingRepeats(query: ListQuery, states: seq<State>, actions: seq<Action>, i: nat)
    requires Run(query, states, actions) && i <= |actions|
    ensures var seen := states[i].seen;
            forall a, b | 0 <= a < b < |seen| ::
              && seen[a].id != seen[b].id
              && if query.sort == CreatedAtDesc
                 then seen[a].createdAt > seen[b].createdAt
                      || (seen[a].createdAt == seen[b].createdAt && seen[a].id > seen[b].id)
                 else seen[a].createdAt < seen[b].createdAt
                      || (seen[a].createdAt == seen[b].createdAt && seen[a].id < seen[b].id)
  {
    RunKeepsInvariant(query, states, actions, i);
    var seen := states[i].seen;
    SortedDistinct(query.sort.Ordering(), seen);
    forall a, b | 0 <= a < b < |seen|
      ensures seen[a].id != seen[b].id
    {
      assert seen[a] in Elements(seen) && seen[b] in Elements(seen);
    }
  }

  // ----- each row is either still ahead or already handed out -----

  ghost predicate Accounted(query: ListQuery, s: State, row: Row) {
    row in s.seen <==> !Ahead(query.sort, s.position, row)
  }

  /** The walk went past the row without handing it out. */
  ghost predicate Missed(query: ListQuery, s: State, row: Row) {
    row !in s.seen && !Ahead(query.sort, s.position, row)
  }

  lemma PositionMovesOn(query: ListQuery, position: Position, limit: nat, table: Table, row: Row)
    requires limit >= 1 && !Ahead(query.sort, position, row)
    ensures !Ahead(query.sort, PageEnd(query, position, limit, table), row)
  {
    var end := PageEnd(query, position, limit, table);
    if end.After? {
      var all := RemainingInOrder(query, position, table);
      assert all[limit - 1] in Elements(all);
    }
  }

  lemma StepKeepsAccounted(query: ListQuery, s: State, action: Action, row: Row)
    requires Invariant(query, s) && Enabled(s, action)
    requires row in s.table && Matches(query, row) && Accounted(query, s, row)
    ensures Accounted(query, Apply(query, s, action), row)
  {
    if action.Fetch? {
      var t := Apply(query, s, action);
      var rows := PageRows(query, s.position, action.limit, s.table);
      StepKeepsInvariant(query, s, action);
      PagePartitions(query, s.position, action.limit, s.table);
      if row in s.seen {
        PositionMovesOn(query, s.position, action.limit, s.table, row);
      } else {
        assert row in Elements(rows) <==> row !in Remaining(query, t.position, s.table);
      }
    }
  }

  lemma StepKeepsMissed(query: ListQuery, s: State, action: Action, row: Row)
    requires Invariant(query, s) && Enabled(s, action) && Missed(query, s, row)
    ensures Missed(query, Apply(query, s, action), row)
  {
    if action.Fetch? {
      PositionMovesOn(query, s.position, action.limit, s.table, row);
      PageIsAhead(query, s.position, action.limit, s.table);
    }
  }

  lemma {:induction false} RunKeepsAccounted(
      query: ListQuery, states: seq<State>, actions: seq<Action>, from: nat, i: nat, row: Row)
    requires Run(query, states, actions) && from <= i <= |actions|
    requires Matches(query, row) && Accounted(query, states[from], row)
    requires forall k | from <= k < i :: row in states[k].table
    ensures Accounted(query, states[i], row)
  {
    if i > from {
      RunKeepsAccounted(query, states, actions, from, i - 1, row);
      RunKeepsInvariant(query, states, actions, i - 1);
      StepKeepsAccounted(query, states[i - 1], actions[i - 1], row);
    }
  }

  lemma {:induction false} RunKeepsMissed(
      query: ListQuery, states: seq<State>, actions: seq<Action>, from: nat, i: nat, row: Row)
    requires Run(query, states, actions) && from <= i <= |actions|
    requires Missed(query, states[from], row)
    ensures Missed(query, states[i], row)
  {
    if i > from {
      RunKeepsMissed(query, states, actions, from, i - 1, row);
      RunKeepsInvariant(query, states, actions, i - 1);
      StepKeepsMissed(query, states[i - 1], actions[i - 1], row);
    }
  }

  lemma SeenAtMostOnce(query: ListQuery, states: seq<State>, actions: seq<Action>, i: nat, row: Row)
    requires Run(query, states, actions) && i <= |actions|
    ensures multiset(states[i].seen)[row] == if row in states[i].seen then 1 else 0
  {
    RunKeepsInvariant(query, states, actions, i);
    SortedDistinct(query.sort.Ordering(), states[i].seen);
    DistinctMultiset(states[i].seen);
  }

  /** No drift. Once the walk is over, every row that was in the table from the first page to the last
      has been handed out exactly once if it matches the query, and never otherwise. */
  lemma NoDrift(query: ListQuery, states: seq<State>, actions: seq<Action>, row: Row)
    requires Run(query, states, actions) && Last(states).position.End?
    requires forall k | 0 <= k < |states| :: row in states[k].table
    ensures multiset(Last(states).seen)[row]
         == if query.accountId > 0 ==> row.accountId == query.accountId then 1 else 0
  {
    RunKeepsInvariant(query, states, actions, |actions|);
    SeenAtMostOnce(query, states, actions, |actions|, row);
    if Matches(query, row) {
      RunKeepsAccounted(query, states, actions, 0, |actions|, row);
    }
  }

  /** A row that arrives during the walk and stays is handed out exactly once if it matches and sorts
      ahead of the position it arrived at, and never otherwise. */
  lemma ArrivalDuringWalk(query: ListQuery, states: seq<State>, actions: seq<Action>, at: nat, row: Row)
    requires Run(query, states, actions) && Last(states).position.End?
    requires at < |actions| && actions[at] == Insert(row)
    requires forall k | at < k < |states| :: row in states[k].table
    ensures multiset(Last(states).seen)[row]
         == if Matches(query, row) && Ahead(query.sort, states[at].position, row) then 1 else 0
  {
    RunKeepsInvariant(query, states, actions, at);
    RunKeepsInvariant(query, states, actions, |actions|);
    SeenAtMostOnce(query, states, actions, |actions|, row);
    assert row !in states[at].seen by {
      assert Elements(states[at].seen) <= states[at].ever;
    }
    if Matches(query, row) {
      if Ahead(query.sort, states[at].position, row) {
        RunKeepsAccounted(query, states, actions, at + 1, |actions|, row);
      } else {
        RunKeepsMissed(query, states, actions, at + 1, |actions|, row);
      }
    }
  }

  /** A row that arrives behind the position, or that does not match, is handed out at no later moment of
      any run, whether the walk ends or not and whether the row is kept or not. */
  lemma ArrivalBehindNeverReturned(
      query: ListQuery, states: seq<State>, actions: seq<Action>, at: nat, i: nat, row: Row)
    requires Run(query, states, actions) && at < i <= |actions| && actions[at] == Insert(row)
    requires !(Matches(query, row) && Ahead(query.sort, states[at].position, row))
    ensures row !in states[i].seen
  {
    if Matches(query, row) {
      RunKeepsInvariant(query, states, actions, at);
      assert row !in states[at].seen by {
        assert Elements(states[at].seen) <= states[at].ever;
      }
      RunKeepsMissed(query, states, actions, at + 1, i, row);
    } else {
      RunKeepsInvariant(query, states, actions, i);
    }
  }

  /** A matching row that arrives ahead of the position has been handed out, at any later moment up to which
      it was kept, exactly if the walk went past it. */
  lemma ArrivalAheadIsDue(query: ListQuery, states: seq<State>, actions: seq<Action>, at: nat, i: nat, row: Row)
    requires Run(query, states, actions) && at < i <= |actions| && actions[at] == Insert(row)
    requires Matches(query, row) && Ahead(query.sort, states[at].position, row)
    requires forall k | at < k < i :: row in states[k].table
    ensures multiset(states[i].seen)[row] == if Ahead(query.sort, states[i].position, row) then 0 else 1
  {
    RunKeepsInvariant(query, states, actions, at);
    assert row !in states[at].seen by {
      assert Elements(states[at].seen) <= states[at].ever;
    }
    RunKeepsAccounted(query, states, actions, at + 1, i, row);
    SeenAtMostOnce(query, states, actions, i, row);
  }

  // ----- a table nobody writes to -----

  /** Over a still table, what was handed out followed by what remains is always the whole listing, so
      a finished walk has handed out the listing itself, whatever limits its pages used. */
  lemma {:induction false} StillTableListing(query: ListQuery, states: seq<State>, actions: seq<Action>, i: nat)
    requires Run(query, states, actions) && i <= |actions|
    requires forall k | 0 <= k <= i :: states[k].table == states[0].table
    ensures states[i].seen + RemainingInOrder(query, states[i].position, states[0].table)
         == RemainingInOrder(query, Start, states[0].table)
    ensures states[i].position.End? ==> states[i].seen == RemainingInOrder(query, Start, states[0].table)
  {
    hide Invariant, RemainingInOrder, PageRows, PageEnd;
    var table := states[0].table;
    if i > 0 {
      var s := states[i - 1];
      StillTableListing(query, states, actions, i - 1);
      if actions[i - 1].Fetch? {
        PageSplits(query, s.position, actions[i - 1].limit, table);
        AppendAssociates(s.seen, PageRows(query, s.position, actions[i - 1].limit, table),
                         RemainingInOrder(query, states[i].position, table));
      }
    }
    if states[i].position.End? {
      NothingRemains(query, table);
      assert states[i].seen + [] == states[i].seen;
    }
  }

  /** Two walks over one still table that ask for pages of the same limits are one walk. */
  lemma {:induction false} StillWalksAgree(
      query: ListQuery, s: seq<State>, a: seq<Action>, t: seq<State>, b: seq<Action>, i: nat)
    requires Run(query, s, a) && Run(query, t, b) && i <= |a| && i <= |b|
    requires forall k | 0 <= k <= i :: s[k].table == t[k].table == s[0].table
    requires forall k | 0 <= k < i :: (a[k].Fetch? || b[k].Fetch?) ==> a[k] == b[k]
    ensures s[i].position == t[i].position && s[i].seen == t[i].seen
  {
    if i > 0 {
      StillWalksAgree(query, s, a, t, b, i - 1);
      assert Enabled(s[i - 1], a[i - 1]) && Enabled(t[i - 1], b[i - 1]);
    }
  }

  lemma AppendAssociates<T>(a: seq<T>, b: seq<T>, c: seq<T>)
    ensures a + (b + c) == (a + b) + c
    ensures a + [] == a
  {
  }

  // ----- termination -----

  /** A writer that cannot feed the walk: it inserts only behind the position. */
  ghost predicate Starving(query: ListQuery, s: State, action: Action) {
    action.Insert? ==> !(Matches(query, action.row) && Ahead(query.sort, s.position, action.row))
  }

  lemma SubsetCardinality<T>(a: set<T>, b: set<T>)
    requires a <= b
    ensures |a| <= |b|
  {
    if a != {} {
      var x :| x in a;
      SubsetCardinality(a - {x}, b - {x});
    }
  }

  lemma StepBurnsFuel(query: ListQuery, s: State, action: Action)
    requires Enabled(s, action) && Starving(query, s, action)
    ensures var t := Apply(query, s, action);
            Fuel(query, t.position, t.table) + (if action.Fetch? then 1 else 0) <= Fuel(query, s.position, s.table)
  {
    var t := Apply(query, s, action);
    match action {
      case Fetch(limit) =>
        PagePartitions(query, s.position, limit, s.table);
      case Insert(row) =>
        assert Remaining(query, t.position, t.table) == Remaining(query, s.position, s.table);
      case Delete(victims) =>
        SubsetCardinality(Remaining(query, t.position, t.table), Remaining(query, s.position, s.table));
      case Idle =>
    }
  }

  function Fetches(actions: seq<Action>): nat {
    if actions == [] then 0
    else Fetches(actions[..|actions| - 1]) + (if Last(actions).Fetch? then 1 else 0)
  }

  /** A walk terminates under any deletions and any insertions behind it, whatever the limits used: it
      fetches at most one page more than the matching rows it started with. */
  lemma {:induction false} WalkTerminates(query: ListQuery, states: seq<State>, actions: seq<Action>)
    requires Run(query, states, actions)
    requires forall i | 0 <= i < |actions| :: Starving(query, states[i], actions[i])
    ensures Fetches(actions) + Fuel(query, Last(states).position, Last(states).table)
         <= |Remaining(query, Start, states[0].table)| + 1
  {
    if actions != [] {
      var n := |actions| - 1;
      var earlier, before := states[..n + 1], actions[..n];
      assert Run(query, earlier, before);
      WalkTerminates(query, earlier, before);
      StepBurnsFuel(query, states[n], actions[n]);
    }
  }
}

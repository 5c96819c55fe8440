/** What a client of the API may count on over a whole run: when its requests are answered, that it reaches the
    end, and that it cannot tell which server answered. */
module ServerSwitch {
  import opened Wrappers
  import opened Domain
  import opened Walk
  import opened Timestamp
  import opened Seal
  import opened Tokens
  import opened Service
  import opened TokenWalk
  import WalkMachine
  import GoCursor

  /** Every page after the first is asked for before the last second of its token. */
  predicate Timely(secret: Secret, states: seq<State>, actions: seq<Action>) {
    |states| == |actions| + 1
    && forall k | 0 <= k < |actions| && actions[k].List? && states[k].client.Holding? ::
         states[k].now <= states[k].client.issuedAt + secret.ttl - SECOND
  }

  /** Every row there ever was has a year both timestamp layouts write alike. */
  ghost predicate SharedYearsThroughout(states: seq<State>) {
    forall k | 0 <= k < |states| ::
      forall row | row in states[k].ever :: 0 <= YearOfInstant(row.createdAt) <= 9999
  }

  predicate Answers(secret: Secret, query: ListQuery, s: State, action: Action) {
    action.List? && action.limit >= 1 && Response(secret, query, s, action).Ok?
  }

  predicate AllAnswered(secret: Secret, query: ListQuery, states: seq<State>, actions: seq<Action>) {
    |states| == |actions| + 1
    && forall k | 0 <= k < |actions| && actions[k].List? :: Answers(secret, query, states[k], actions[k])
  }

  // ----- every request is answered, and the walk ends -----

  /** Whichever servers it asks, whatever writers do, a timely client is never refused. */
  lemma TimelyRunIsAnswered(secret: Secret, query: ListQuery, states: seq<State>, actions: seq<Action>)
    requires Run(secret, query, states, actions)
    requires SharedYearsThroughout(states) && Timely(secret, states, actions)
    requires 0 < secret.ttl < GoCursor.MAX_DURATION
    ensures AllAnswered(secret, query, states, actions)
  {
    hide Run, Response, Invariant, YearOfInstant, Apply;
    RunShape(secret, query, states, actions);
    forall k | 0 <= k < |actions| && actions[k].List?
      ensures Answers(secret, query, states[k], actions[k])
    {
      RunKeepsInvariant(secret, query, states, actions, k);
      HeldSince(secret, query, states[k]);
      TimelyRequestsAreAnswered(secret, query, states[k], actions[k]);
    }
  }

  lemma HeldSince(secret: Secret, query: ListQuery, s: State)
    requires Invariant(secret, query, s)
    ensures s.client.Holding? ==> s.client.issuedAt <= s.now
  {
    hide WalkMachine.Invariant, Storable;
  }

  function Requests(actions: seq<Action>): nat {
    if actions == [] then 0
    else Requests(actions[..|actions| - 1]) + (if actions[|actions| - 1].List? then 1 else 0)
  }

  lemma {:induction false} RequestsAreAnswered(
      secret: Secret, query: ListQuery, states: seq<State>, actions: seq<Action>)
    requires Run(secret, query, states, actions) && AllAnswered(secret, query, states, actions)
    ensures Requests(actions) == Answered(secret, query, states, actions)
    decreases |actions|
  {
    hide Response, Apply;
    if actions != [] {
      var n := |actions| - 1;
      RequestsAreAnswered(secret, query, states[..n + 1], actions[..n]);
      assert actions[n].List? ==> Answers(secret, query, states[n], actions[n]);
    }
  }

  /** The walk ends: a timely client, ahead of which no matching row arrives, makes at most one request more
      than rows matched at the start, and once it has made that many it has been told the end. */
  lemma TimelyWalkEnds(secret: Secret, query: ListQuery, states: seq<State>, actions: seq<Action>)
    requires Run(secret, query, states, actions)
    requires SharedYearsThroughout(states) && Timely(secret, states, actions)
    requires 0 < secret.ttl < GoCursor.MAX_DURATION
    requires forall i | 0 <= i < |actions| && actions[i].Insert? ::
               !(Matches(query, actions[i].row) && Ahead(query.sort, PositionOf(states[i]), actions[i].row))
    ensures Requests(actions) <= |Remaining(query, Start, states[0].table)| + 1
    ensures Requests(actions) == |Remaining(query, Start, states[0].table)| + 1 ==>
              WalkMachine.Last(states).client.Finished?
  {
    hide Run, Matches, Ahead, Remaining, Answered, Requests, AllAnswered, Timely, SharedYearsThroughout;
    TimelyRunIsAnswered(secret, query, states, actions);
    RequestsAreAnswered(secret, query, states, actions);
    RunShape(secret, query, states, actions);
    TokenWalk.WalkTerminates(secret, query, states, actions);
  }

  // ----- two walks of one still table -----

  /** The two runs ask for pages of the same limits at the same places; servers and delays are free. */
  predicate SameLimits(a: seq<Action>, b: seq<Action>) {
    |a| == |b|
    && forall k | 0 <= k < |a| ::
         (a[k].List? <==> b[k].List?) && (a[k].List? && b[k].List? ==> a[k].limit == b[k].limit)
  }

  ghost predicate StillTable(states: seq<State>, table: Table) {
    forall k | 0 <= k < |states| :: states[k].table == table
  }

  /** Switching servers is invisible. Two answered walks of one still table, with any server for any page of
      either, hand out the same rows and end at the same request. */
  lemma SwitchingIsInvisible(secret: Secret, query: ListQuery, s: seq<State>, a: seq<Action>, t: seq<State>,
                             b: seq<Action>, table: Table, i: nat)
    requires Run(secret, query, s, a) && Run(secret, query, t, b) && SameLimits(a, b)
    requires StillTable(s, table) && StillTable(t, table)
    requires AllAnswered(secret, query, s, a) && AllAnswered(secret, query, t, b)
    requires i < |s|
    ensures i < |t| && s[i].seen == t[i].seen && PositionOf(s[i]) == PositionOf(t[i])
    ensures s[i].client.Finished? <==> t[i].client.Finished?
  {
    hide Run, WalkMachine.Run, Response, Apply, WalkMachine.Apply;
    RunRefines(secret, query, s, a);
    RunRefines(secret, query, t, b);
    RunShape(secret, query, s, a);
    RunShape(secret, query, t, b);
    var aa, bb := AbstractActions(secret, query, s, a), AbstractActions(secret, query, t, b);
    forall k | 0 <= k < i && (aa[k].Fetch? || bb[k].Fetch?)
      ensures aa[k] == bb[k]
    {
      assert a[k].List? ==> Answers(secret, query, s[k], a[k]);
      assert b[k].List? ==> Answers(secret, query, t[k], b[k]);
    }
    WalkMachine.StillWalksAgree(query, AbstractStates(s), aa, AbstractStates(t), bb, i);
    assert Abstract(s[i]) == AbstractStates(s)[i] && Abstract(t[i]) == AbstractStates(t)[i];
  }

  /** And page by page: each answer of one walk has the rows and the `has_more` of the other's. */
  lemma SamePages(secret: Secret, query: ListQuery, s: seq<State>, a: seq<Action>, t: seq<State>, b: seq<Action>,
                  table: Table, i: nat)
    requires Run(secret, query, s, a) && Run(secret, query, t, b) && SameLimits(a, b)
    requires StillTable(s, table) && StillTable(t, table)
    requires AllAnswered(secret, query, s, a) && AllAnswered(secret, query, t, b)
    requires i < |a| && a[i].List?
    ensures Answers(secret, query, s[i], a[i]) && Answers(secret, query, t[i], b[i])
    ensures var p, q := Response(secret, query, s[i], a[i]).value, Response(secret, query, t[i], b[i]).value;
            p.rows == q.rows && p.hasMore == q.hasMore && (p.next == "" <==> q.next == "")
  {
    hide Run, Response, Apply, Invariant, Taken, Enabled, PageRows, PageEnd, Issued, CursorAt;
    SwitchingIsInvisible(secret, query, s, a, t, b, table, i);
    RunShape(secret, query, s, a);
    RunShape(secret, query, t, b);
    AnsweredPage(secret, query, s, a, i);
    AnsweredPage(secret, query, t, b, i);
  }

  lemma AnsweredPage(secret: Secret, query: ListQuery, states: seq<State>, actions: seq<Action>, i: nat)
    requires Run(secret, query, states, actions) && i < |actions|
    requires Answers(secret, query, states[i], actions[i])
    ensures var s, limit, page := states[i], actions[i].limit, Response(secret, query, states[i], actions[i]).value;
            var more := PageEnd(query, PositionOf(s), limit, s.table).After?;
            && page.rows == PageRows(query, PositionOf(s), limit, s.table)
            && page.hasMore == more && (page.next == "" <==> !more)
  {
    hide Run, Response, Apply, Invariant, Taken, PageRows, PageEnd, Issued, CursorAt;
    RunShape(secret, query, states, actions);
    var s, action := states[i], actions[i];
    RunKeepsInvariant(secret, query, states, actions, i);
    ResponseIsPage(secret, query, s, action);
    var end := PageEnd(query, PositionOf(s), action.limit, s.table);
    if end.After? {
      IssuedIsNotEmpty(action.server, secret, CursorAt(secret, query, end.bound, s.now + action.delay));
    }
  }

  /** The cross-implementation walk. On a still table of shared years, a timely client that chooses a server
      for each page is answered at every request, like one that stays on one server, with the same rows, the
      same `has_more`, and the end of the walk at the same request. */
  lemma MixedWalkIsOneServerWalk(secret: Secret, query: ListQuery, s: seq<State>, a: seq<Action>, t: seq<State>,
                                 b: seq<Action>, table: Table, server: Dialect, i: nat)
    requires Run(secret, query, s, a) && Run(secret, query, t, b) && SameLimits(a, b)
    requires forall k | 0 <= k < |b| && b[k].List? :: b[k].server == server
    requires StillTable(s, table) && StillTable(t, table)
    requires SharedYearsThroughout(s) && SharedYearsThroughout(t) && Timely(secret, s, a) && Timely(secret, t, b)
    requires 0 < secret.ttl < GoCursor.MAX_DURATION
    requires i < |s|
    ensures i < |t| && s[i].seen == t[i].seen && (s[i].client.Finished? <==> t[i].client.Finished?)
    ensures i < |a| && a[i].List? ==>
              && Answers(secret, query, s[i], a[i]) && Answers(secret, query, t[i], b[i])
              && Response(secret, query, s[i], a[i]).value.rows == Response(secret, query, t[i], b[i]).value.rows
              && Response(secret, query, s[i], a[i]).value.hasMore == Response(secret, query, t[i], b[i]).value.hasMore
  {
    hide Run, Response, Apply, Timely, SharedYearsThroughout, StillTable, AllAnswered;
    TimelyRunIsAnswered(secret, query, s, a);
    TimelyRunIsAnswered(secret, query, t, b);
    SwitchingIsInvisible(secret, query, s, a, t, b, table, i);
    if i < |a| && a[i].List? {
      SamePages(secret, query, s, a, t, b, table, i);
    }
  }
}

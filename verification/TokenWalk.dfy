/** The walk at the API surface: a client that holds nothing but the last token, two servers it may switch
    between at any page, writers, and a clock. Every run of it is a run of `WalkMachine`. */
module TokenWalk {
  import opened Wrappers
  import opened Domain
  import opened Walk
  import opened Timestamp
  import opened Payload
  import opened Seal
  import opened Tokens
  import opened Service
  import opened Agreement
  import WalkMachine
  import Expiry
  import GoCursor

  /** What the client holds. Only `token` reaches the servers; which server wrote it, and when, is kept
      for the statements below. */
  datatype Client = Fresh | Holding(token: string, writer: Dialect, issuedAt: int) | Finished

  datatype State = State(table: Table, ever: Table, now: int, client: Client, seen: seq<Row>)

  /** `List` checks the token now and stamps the next one `delay` later. */
  datatype Action =
    | List(server: Dialect, limit: nat, delay: nat)
    | Insert(row: Row)
    | Delete(victims: set<Row>)
    | Tick(delay: nat)

  /** What the columns can hold: a 64-bit id, and a timestamptz (4713 BC to 294276 AD). */
  predicate Storable(row: Row) {
    FitsInt64(row.id) && -4712 <= YearOfInstant(row.createdAt) <= 294_276
  }

  function TokenOf(client: Client): string {
    if client.Holding? then client.token else ""
  }

  function Response(secret: Secret, query: ListQuery, s: State, action: Action): Result<KeysetPage, Failure>
    requires action.List? && action.limit >= 1
  {
    Listed(action.server, secret, query, action.limit, TokenOf(s.client), Up(s.table), s.now, s.now + action.delay)
  }

  ghost predicate Enabled(s: State, action: Action) {
    match action
    case List(_, limit, delay) => limit >= 1 && !s.client.Finished? && Stampable(s.now + delay)
    case Insert(row) => s.table <= s.ever && WalkMachine.FreshId(s.ever, row) && Storable(row)
    case Delete(_) => true
    case Tick(delay) => true
  }

  /** A refused request changes nothing but the time; the client may try again. */
  ghost function Apply(secret: Secret, query: ListQuery, s: State, action: Action): State
    requires Enabled(s, action)
  {
    match action
    case List(server, _, delay) =>
      var later := s.(now := s.now + delay);
      (match Response(secret, query, s, action)
       case Err(_) => later
       case Ok(page) =>
         later.(client := if page.next == "" then Finished else Holding(page.next, server, later.now),
                seen := s.seen + page.rows))
    case Insert(row) => s.(table := s.table + {row}, ever := s.ever + {row})
    case Delete(victims) => s.(table := s.table - victims)
    case Tick(delay) => s.(now := s.now + delay)
  }

  ghost predicate Initial(s: State) {
    && s.client == Fresh && s.seen == [] && s.table <= s.ever
    && forall row | row in s.ever :: Storable(row)
  }

  ghost predicate Run(secret: Secret, query: ListQuery, states: seq<State>, actions: seq<Action>) {
    && |states| == |actions| + 1
    && Initial(states[0])
    && forall i | 0 <= i < |actions| ::
         Enabled(states[i], actions[i]) && states[i + 1] == Apply(secret, query, states[i], actions[i])
  }

  // ----- refinement -----

  /** The position a client's state stands for: that of the last row it was handed. */
  function PositionOf(s: State): Position {
    match s.client
    case Fresh => Start
    case Finished => End
    case Holding(_, _, _) => if s.seen == [] then Start else After(KeyOf(WalkMachine.Last(s.seen)))
  }

  function Abstract(s: State): WalkMachine.State {
    WalkMachine.State(s.table, s.ever, PositionOf(s), s.seen)
  }

  function AbstractAction(secret: Secret, query: ListQuery, s: State, action: Action): WalkMachine.Action
    requires action.List? ==> action.limit >= 1
  {
    match action
    case List(_, limit, _) =>
      if Response(secret, query, s, action).Ok? then WalkMachine.Fetch(limit) else WalkMachine.Idle
    case Insert(row) => WalkMachine.Insert(row)
    case Delete(victims) => WalkMachine.Delete(victims)
    case Tick(_) => WalkMachine.Idle
  }

  /** The token held is one that was issued for the last row handed out. */
  ghost predicate Genuine(secret: Secret, query: ListQuery, s: State) {
    s.client.Holding? ==>
      && s.seen != []
      && Stampable(s.client.issuedAt) && s.client.issuedAt <= s.now
      && s.client.token == Issued(s.client.writer, secret,
           CursorAt(secret, query, KeyOf(WalkMachine.Last(s.seen)), s.client.issuedAt))
  }

  ghost predicate Invariant(secret: Secret, query: ListQuery, s: State) {
    && (forall row | row in s.ever :: Storable(row))
    && WalkMachine.Invariant(query, Abstract(s))
    && Genuine(secret, query, s)
  }

  lemma LastSeenIsCarriable(secret: Secret, query: ListQuery, s: State)
    requires Invariant(secret, query, s) && s.client.Holding?
    ensures Carriable(KeyOf(WalkMachine.Last(s.seen)), s.client.issuedAt)
  {
    assert WalkMachine.Last(s.seen) in Elements(s.seen);
  }

  /** The condition under which a server takes the client's token: none for a first page, and otherwise
      that the token lives and its year is one the server's layout shares with the writer's. */
  predicate Taken(secret: Secret, s: State, server: Dialect) {
    s.client.Holding? && s.seen != [] ==>
      && Readable(s.client.writer, server, YearOfInstant(KeyOf(WalkMachine.Last(s.seen)).createdAt))
      && !Expired(server, secret.ttl, s.client.issuedAt / SECOND, s.now)
  }

  /** The server's answer to the client is the page at the client's abstract position, exactly when the
      token is taken. */
  lemma ResponseIsPage(secret: Secret, query: ListQuery, s: State, action: Action)
    requires Invariant(secret, query, s) && action.List? && Enabled(s, action)
    ensures Taken(secret, s, action.server) ==>
              Response(secret, query, s, action)
              == Ok(Answer(action.server, secret, query, action.limit, PositionOf(s), s.table, s.now + action.delay))
    ensures !Taken(secret, s, action.server) ==> Response(secret, query, s, action).Err?
  {
    hide Resume, Issued, CursorAt, Answer, WalkMachine.Invariant, Readable, Expired;
    if s.client.Holding? {
      LastSeenIsCarriable(secret, query, s);
      ResumeAfterIssue(s.client.writer, action.server, secret, query, KeyOf(WalkMachine.Last(s.seen)),
                       s.client.issuedAt, s.now);
    } else {
      FirstRequestStarts(action.server, secret, query, s.now);
    }
  }

  lemma FirstRequestStarts(server: Dialect, secret: Secret, query: ListQuery, now: int)
    ensures Resume(server, secret, query, "", now) == Ok(Start)
  {
  }

  lemma EverHolds(query: ListQuery, s: WalkMachine.State)
    requires WalkMachine.Invariant(query, s)
    ensures s.table <= s.ever && Elements(s.seen) <= s.ever
  {
  }

  lemma PageEndIsListed(query: ListQuery, position: Position, limit: nat, table: Table)
    requires limit >= 1
    ensures var rows, end := PageRows(query, position, limit, table), PageEnd(query, position, limit, table);
            !end.Start? && (end.After? ==> rows != [] && end.bound == KeyOf(WalkMachine.Last(rows)) && WalkMachine.Last(rows) in table)
  {
    var end := PageEnd(query, position, limit, table);
    if end.After? {
      var all := RemainingInOrder(query, position, table);
      assert all[limit - 1] in Elements(all);
    }
  }

  /** An accepted request moves the client as a fetch moves the walk, and leaves it with a genuine token. */
  lemma AnswerRefinesFetch(secret: Secret, query: ListQuery, s: State, action: Action)
    requires Invariant(secret, query, s) && action.List? && Enabled(s, action)
    requires Taken(secret, s, action.server)
    ensures var t := Apply(secret, query, s, action);
            && Abstract(t) == WalkMachine.Apply(query, Abstract(s), WalkMachine.Fetch(action.limit))
            && Genuine(secret, query, t)
  {
    hide Response, Taken, WalkMachine.Invariant, Issued, CursorAt, PageRows, PageEnd;
    ResponseIsPage(secret, query, s, action);
    var later := s.now + action.delay;
    var rows := PageRows(query, PositionOf(s), action.limit, s.table);
    var end := PageEnd(query, PositionOf(s), action.limit, s.table);
    PageEndIsListed(query, PositionOf(s), action.limit, s.table);
    EverHolds(query, Abstract(s));
    if end.After? {
      IssuedIsNotEmpty(action.server, secret, CursorAt(secret, query, end.bound, later));
      assert WalkMachine.Last(s.seen + rows) == WalkMachine.Last(rows);
    }
  }

  /** Every step of the token walk is a step of the walk on bounds, or leaves it where it is. */
  lemma StepRefines(secret: Secret, query: ListQuery, s: State, action: Action)
    requires Invariant(secret, query, s) && Enabled(s, action)
    ensures var t, abstractAction := Apply(secret, query, s, action), AbstractAction(secret, query, s, action);
            && WalkMachine.Enabled(Abstract(s), abstractAction)
            && Abstract(t) == WalkMachine.Apply(query, Abstract(s), abstractAction)
            && Invariant(secret, query, t)
  {
    hide Response, Taken, WalkMachine.Invariant;
    if action.List? {
      ResponseIsPage(secret, query, s, action);
      if Taken(secret, s, action.server) {
        AnswerRefinesFetch(secret, query, s, action);
      }
    }
    WalkMachine.StepKeepsInvariant(query, Abstract(s), AbstractAction(secret, query, s, action));
  }

  ghost function AbstractStates(states: seq<State>): (result: seq<WalkMachine.State>)
    ensures |result| == |states|
  {
    seq(|states|, i requires 0 <= i < |states| => Abstract(states[i]))
  }

  ghost function AbstractActions(secret: Secret, query: ListQuery, states: seq<State>, actions: seq<Action>)
    : (result: seq<WalkMachine.Action>)
    requires Run(secret, query, states, actions)
    ensures |result| == |actions|
  {
    seq(|actions|, i requires 0 <= i < |actions| =>
      assert Enabled(states[i], actions[i]);
      AbstractAction(secret, query, states[i], actions[i]))
  }

  lemma {:induction false} RunKeepsInvariant(
      secret: Secret, query: ListQuery, states: seq<State>, actions: seq<Action>, i: nat)
    requires Run(secret, query, states, actions) && i <= |actions|
    ensures Invariant(secret, query, states[i])
  {
    if i > 0 {
      RunKeepsInvariant(secret, query, states, actions, i - 1);
      StepRefines(secret, query, states[i - 1], actions[i - 1]);
    }
  }

  /** Refinement: over opaque tokens, two servers, refusals and expiries, every run is a run of the walk
      on raw bounds. */
  lemma RunRefines(secret: Secret, query: ListQuery, states: seq<State>, actions: seq<Action>)
    requires Run(secret, query, states, actions)
    ensures WalkMachine.Run(query, AbstractStates(states), AbstractActions(secret, query, states, actions))
  {
    var abstractStates, abstractActions := AbstractStates(states), AbstractActions(secret, query, states, actions);
    forall i | 0 <= i < |actions|
      ensures WalkMachine.Enabled(abstractStates[i], abstractActions[i])
      ensures abstractStates[i + 1] == WalkMachine.Apply(query, abstractStates[i], abstractActions[i])
    {
      RunKeepsInvariant(secret, query, states, actions, i);
      StepRefines(secret, query, states[i], actions[i]);
    }
  }

  // ----- the promises of the API -----

  /** No drift at the API surface. Whatever is inserted or deleted between requests, whichever server
      answers each, whatever requests are refused: once `next` is empty, every matching row that was
      there from the first page to the last has been returned exactly once. */
  lemma NoDrift(secret: Secret, query: ListQuery, states: seq<State>, actions: seq<Action>, row: Row)
    requires Run(secret, query, states, actions) && WalkMachine.Last(states).client.Finished?
    requires forall k | 0 <= k < |states| :: row in states[k].table
    ensures multiset(WalkMachine.Last(states).seen)[row]
         == if query.accountId > 0 ==> row.accountId == query.accountId then 1 else 0
  {
    RunRefines(secret, query, states, actions);
    WalkMachine.NoDrift(query, AbstractStates(states), AbstractActions(secret, query, states, actions), row);
  }

  /** The rows a client has still to be given, in columns: of the account, and past the last row it was
      given. */
  lemma AheadInColumns(secret: Secret, query: ListQuery, s: State, row: Row)
    requires Invariant(secret, query, s)
    ensures Matches(query, row) && Ahead(query.sort, PositionOf(s), row) <==>
              && (query.accountId > 0 ==> row.accountId == query.accountId)
              && !s.client.Finished?
              && (s.seen == [] ||
                    var last := WalkMachine.Last(s.seen);
                    if query.sort == CreatedAtDesc
                    then row.createdAt < last.createdAt || (row.createdAt == last.createdAt && row.id < last.id)
                    else row.createdAt > last.createdAt || (row.createdAt == last.createdAt && row.id > last.id))
  {
    hide Storable;
  }

  /** A row that arrives during the walk and stays is returned exactly once if it matches and sorts after
      the last row returned so far, and never otherwise. */
  lemma ArrivalDuringWalk(secret: Secret, query: ListQuery, states: seq<State>, actions: seq<Action>, at: nat, row: Row)
    requires Run(secret, query, states, actions) && WalkMachine.Last(states).client.Finished?
    requires at < |actions| && actions[at] == Insert(row)
    requires forall k | at < k < |states| :: row in states[k].table
    ensures var seen := states[at].seen;
            multiset(WalkMachine.Last(states).seen)[row]
            == if && (query.accountId > 0 ==> row.accountId == query.accountId)
                  && !states[at].client.Finished?
                  && (seen == [] ||
                        var last := WalkMachine.Last(seen);
                        if query.sort == CreatedAtDesc
                        then row.createdAt < last.createdAt || (row.createdAt == last.createdAt && row.id < last.id)
                        else row.createdAt > last.createdAt || (row.createdAt == last.createdAt && row.id > last.id))
               then 1 else 0
  {
    hide Run, WalkMachine.Run, Matches, Ahead, Apply, WalkMachine.Apply, Invariant;
    RunShape(secret, query, states, actions);
    RunKeepsInvariant(secret, query, states, actions, at);
    AheadInColumns(secret, query, states[at], row);
    RunRefines(secret, query, states, actions);
    var abstractStates, abstractActions := AbstractStates(states), AbstractActions(secret, query, states, actions);
    assert abstractActions[at] == WalkMachine.Insert(row);
    WalkMachine.ArrivalDuringWalk(query, abstractStates, abstractActions, at, row);
  }

  /** A row that arrives behind the last row returned, or that does not match, is returned at no later moment
      of any run: not only of finished ones, and whether the row is kept or deleted. */
  lemma ArrivalBehindNeverReturned(
      secret: Secret, query: ListQuery, states: seq<State>, actions: seq<Action>, at: nat, i: nat, row: Row)
    requires Run(secret, query, states, actions) && at < i <= |actions| && actions[at] == Insert(row)
    requires !(&& (query.accountId > 0 ==> row.accountId == query.accountId)
               && !states[at].client.Finished?
               && (states[at].seen == [] ||
                     var last := WalkMachine.Last(states[at].seen);
                     if query.sort == CreatedAtDesc
                     then row.createdAt < last.createdAt || (row.createdAt == last.createdAt && row.id < last.id)
                     else row.createdAt > last.createdAt || (row.createdAt == last.createdAt && row.id > last.id)))
    ensures row !in states[i].seen
  {
    hide Run, WalkMachine.Run, Matches, Ahead, Apply, WalkMachine.Apply, Invariant;
    RunShape(secret, query, states, actions);
    RunKeepsInvariant(secret, query, states, actions, at);
    AheadInColumns(secret, query, states[at], row);
    RunRefines(secret, query, states, actions);
    var abstractStates, abstractActions := AbstractStates(states), AbstractActions(secret, query, states, actions);
    RunShape(secret, query, states, actions);
    assert abstractActions[at] == WalkMachine.Insert(row);
    WalkMachine.ArrivalBehindNeverReturned(query, abstractStates, abstractActions, at, i, row);
  }

  /** At every moment of every run, no id has been returned twice. */
  lemma NothingRepeats(secret: Secret, query: ListQuery, states: seq<State>, actions: seq<Action>, i: nat)
    requires Run(secret, query, states, actions) && i <= |actions|
    ensures var seen := states[i].seen;
            forall a, b | 0 <= a < b < |seen| ::
              && seen[a].id != seen[b].id
              && if query.sort == CreatedAtDesc
                 then seen[a].createdAt > seen[b].createdAt
                      || (seen[a].createdAt == seen[b].createdAt && seen[a].id > seen[b].id)
                 else seen[a].createdAt < seen[b].createdAt
                      || (seen[a].createdAt == seen[b].createdAt && seen[a].id < seen[b].id)
  {
    RunRefines(secret, query, states, actions);
    WalkMachine.NothingRepeats(query, AbstractStates(states), AbstractActions(secret, query, states, actions), i);
  }

  lemma ListingInColumns(query: ListQuery, table: Table)
    ensures forall row :: row in RemainingInOrder(query, Start, table) <==>
              row in table && (query.accountId > 0 ==> row.accountId == query.accountId)
  {
    var listing := RemainingInOrder(query, Start, table);
    assert forall row :: row in listing <==> row in Elements(listing);
  }

  /** Over a still table a finished walk has returned the sorted listing, whichever server answered each
      page and whatever limit it was asked for. `ServerSwitch` compares two walks page by page. */
  lemma MixedServersStillTable(secret: Secret, query: ListQuery, states: seq<State>, actions: seq<Action>)
    requires Run(secret, query, states, actions) && WalkMachine.Last(states).client.Finished?
    requires forall k | 0 <= k < |states| :: states[k].table == states[0].table
    ensures WalkMachine.Last(states).seen == RemainingInOrder(query, Start, states[0].table)
    ensures forall row :: row in WalkMachine.Last(states).seen <==>
              row in states[0].table && (query.accountId > 0 ==> row.accountId == query.accountId)
  {
    hide RemainingInOrder;
    ListingInColumns(query, states[0].table);
    RunRefines(secret, query, states, actions);
    WalkMachine.StillTableListing(
      query, AbstractStates(states), AbstractActions(secret, query, states, actions), |actions|);
  }

  /** No step of a walk is refused, on either server, as long as the rows are of years 0 to 9999 and the
      next page is asked for before the token's last second. */
  lemma TimelyRequestsAreAnswered(secret: Secret, query: ListQuery, s: State, action: Action)
    requires Invariant(secret, query, s) && action.List? && Enabled(s, action)
    requires forall row | row in s.ever :: 0 <= YearOfInstant(row.createdAt) <= 9999
    requires 0 < secret.ttl < GoCursor.MAX_DURATION
    requires s.client.Holding? ==> s.client.issuedAt <= s.now <= s.client.issuedAt + secret.ttl - SECOND
    ensures Response(secret, query, s, action).Ok?
  {
    hide Response, Invariant, Enabled, Taken;
    LastSeenIsStored(secret, query, s);
    TimelyTokenIsTaken(secret, s, action.server);
    ResponseIsPage(secret, query, s, action);
  }

  lemma LastSeenIsStored(secret: Secret, query: ListQuery, s: State)
    requires Invariant(secret, query, s)
    ensures s.seen != [] ==> WalkMachine.Last(s.seen) in s.ever
  {
    hide WalkMachine.Invariant, Genuine, Storable;
    if s.seen != [] {
      EverHolds(query, Abstract(s));
      assert WalkMachine.Last(s.seen) in Elements(s.seen);
    }
  }

  lemma TimelyTokenIsTaken(secret: Secret, s: State, server: Dialect)
    requires s.seen != [] ==> 0 <= YearOfInstant(WalkMachine.Last(s.seen).createdAt) <= 9999
    requires 0 < secret.ttl < GoCursor.MAX_DURATION
    requires s.client.Holding? ==> s.client.issuedAt <= s.now <= s.client.issuedAt + secret.ttl - SECOND
    ensures Taken(secret, s, server)
  {
    hide YearOfInstant;
    if s.client.Holding? {
      Expiry.LifeOfToken(secret.ttl, s.client.issuedAt, s.now);
      Expiry.TestsAgree(secret.ttl, s.client.issuedAt / SECOND, s.now);
    }
  }

  // ----- termination -----

  /** How many requests of a run were answered with a page. */
  ghost function Answered(secret: Secret, query: ListQuery, states: seq<State>, actions: seq<Action>): nat
    requires Run(secret, query, states, actions)
    decreases |actions|
  {
    if actions == [] then 0 else
      var n := |actions| - 1;
      assert Enabled(states[n], actions[n]);
      Answered(secret, query, states[..n + 1], actions[..n])
      + if actions[n].List? && Response(secret, query, states[n], actions[n]).Ok? then 1 else 0
  }

  lemma {:induction false} AnsweredAreFetches(
      secret: Secret, query: ListQuery, states: seq<State>, actions: seq<Action>)
    requires Run(secret, query, states, actions)
    ensures Answered(secret, query, states, actions)
         == WalkMachine.Fetches(AbstractActions(secret, query, states, actions))
    decreases |actions|
  {
    hide Response, Apply;
    var abstractActions := AbstractActions(secret, query, states, actions);
    if actions != [] {
      var n := |actions| - 1;
      AnsweredAreFetches(secret, query, states[..n + 1], actions[..n]);
      assert abstractActions[..n] == AbstractActions(secret, query, states[..n + 1], actions[..n]);
      assert Enabled(states[n], actions[n]);
    }
  }

  /** The walk ends. As long as no matching row is inserted ahead of it, whatever else writers do and
      whichever servers answer, at most one page more is answered than rows matched at the start; a
      client whose requests are answered therefore reaches the end. */
  lemma WalkTerminates(secret: Secret, query: ListQuery, states: seq<State>, actions: seq<Action>)
    requires Run(secret, query, states, actions)
    requires forall i | 0 <= i < |actions| && actions[i].Insert? ::
               !(Matches(query, actions[i].row) && Ahead(query.sort, PositionOf(states[i]), actions[i].row))
    ensures Answered(secret, query, states, actions) <= |Remaining(query, Start, states[0].table)| + 1
    ensures Answered(secret, query, states, actions) == |Remaining(query, Start, states[0].table)| + 1 ==>
              WalkMachine.Last(states).client.Finished?
  {
    hide Run, WalkMachine.Run, Matches, Ahead, Apply, WalkMachine.Apply, Response, Remaining, Answered;
    RunRefines(secret, query, states, actions);
    RunShape(secret, query, states, actions);
    var abstractStates, abstractActions := AbstractStates(states), AbstractActions(secret, query, states, actions);
    assert forall i | 0 <= i < |abstractActions| ::
        WalkMachine.Starving(query, abstractStates[i], abstractActions[i]);
    WalkMachine.WalkTerminates(query, abstractStates, abstractActions);
    AnsweredAreFetches(secret, query, states, actions);
    assert Abstract(WalkMachine.Last(states)) == WalkMachine.Last(abstractStates);
  }

  lemma RunShape(secret: Secret, query: ListQuery, states: seq<State>, actions: seq<Action>)
    requires Run(secret, query, states, actions)
    ensures |states| == |actions| + 1 && states[0].client == Fresh
    ensures forall i | 0 <= i < |actions| :: Enabled(states[i], actions[i])
  {
  }
}

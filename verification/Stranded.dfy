/** The years a Go token cannot carry: rows the table can hold, on which a walk that Go serves cannot go on. */
module Stranded {
  import opened Wrappers
  import opened Domain
  import opened Walk
  import opened Calendar
  import opened Timestamp
  import opened Seal
  import opened Tokens
  import opened Service
  import opened TokenWalk
  import WalkMachine
  import Expiry
  import GoCursor

  /** 10000-01-01T00:00:00Z */
  const YEAR_10000 := 253_402_300_800_000_000

  lemma InstantOfYear10000()
    ensures YearOfInstant(YEAR_10000) == 10_000
  {
    var date := Date(10_000, 1, 1);
    assert Calendar.Valid(date);
    assert DayNumber(date) == 3_652_059;
    assert YEAR_10000 / DAY + EPOCH_DAY == 3_652_059;
    DateOfDayNumber(date);
  }

  /** The client holds a Go token for a row of a year beyond 9999. */
  predicate IsStranded(s: State) {
    s.client.Holding? && s.client.writer == Go && s.seen != []
    && YearOfInstant(WalkMachine.Last(s.seen).createdAt) > 9999
  }

  /** Among clients whose token is still fresh, exactly these are refused by both servers. */
  lemma RefusedByBothIffStranded(secret: Secret, query: ListQuery, s: State)
    requires Invariant(secret, query, s) && s.client.Holding?
    requires 0 < secret.ttl < GoCursor.MAX_DURATION && s.now <= s.client.issuedAt + secret.ttl - SECOND
    ensures (!Taken(secret, s, Go) && !Taken(secret, s, Java)) <==> IsStranded(s)
  {
    hide Invariant, YearOfInstant, Expired;
    HeldToken(secret, query, s);
    FreshTokenLives(secret, s);
  }

  lemma HeldToken(secret: Secret, query: ListQuery, s: State)
    requires Invariant(secret, query, s) && s.client.Holding?
    ensures s.seen != [] && s.client.issuedAt <= s.now
  {
    hide WalkMachine.Invariant, Storable;
  }

  lemma FreshTokenLives(secret: Secret, s: State)
    requires 0 < secret.ttl < GoCursor.MAX_DURATION && s.client.Holding?
    requires s.client.issuedAt <= s.now <= s.client.issuedAt + secret.ttl - SECOND
    ensures !Expired(Go, secret.ttl, s.client.issuedAt / SECOND, s.now)
    ensures !Expired(Java, secret.ttl, s.client.issuedAt / SECOND, s.now)
  {
    Expiry.LifeOfToken(secret.ttl, s.client.issuedAt, s.now);
    Expiry.TestsAgree(secret.ttl, s.client.issuedAt / SECOND, s.now);
  }

  lemma StrandedRequestIsRefused(secret: Secret, query: ListQuery, s: State, action: Action)
    requires Invariant(secret, query, s) && action.List? && Enabled(s, action) && IsStranded(s)
    ensures Response(secret, query, s, action).Err?
  {
    hide Response, Invariant, YearOfInstant, Expired;
    ResponseIsPage(secret, query, s, action);
  }

  /** A stranded client is refused by both servers at every later moment of every run: it is handed nothing
      more, and its walk never ends. */
  lemma {:induction false} StrandedForEver(
      secret: Secret, query: ListQuery, states: seq<State>, actions: seq<Action>, i: nat, j: nat)
    requires Run(secret, query, states, actions) && i <= j <= |actions| && IsStranded(states[i])
    ensures states[j].client == states[i].client && states[j].seen == states[i].seen
    ensures j < |actions| && actions[j].List? ==> Response(secret, query, states[j], actions[j]).Err?
  {
    hide Response, Invariant, YearOfInstant;
    if j > i {
      StrandedForEver(secret, query, states, actions, i, j - 1);
      assert Enabled(states[j - 1], actions[j - 1]);
    }
    if j < |actions| && actions[j].List? {
      assert Enabled(states[j], actions[j]);
      RunKeepsInvariant(secret, query, states, actions, j);
      StrandedRequestIsRefused(secret, query, states[j], actions[j]);
    }
  }

  // ----- the input -----

  const FIRST := Row(1, 1, 0, "", YEAR_10000)
  const SECOND_ROW := Row(2, 1, 0, "", YEAR_10000)
  const EVERY_ROW := ListQuery(0, "", CreatedAtDesc)
  const FIRST_PAGE := List(Go, 1, 0)

  function Beginning(): State {
    State({FIRST, SECOND_ROW}, {FIRST, SECOND_ROW}, 0, Fresh, [])
  }

  lemma TwoRowsRemain()
    ensures |RemainingInOrder(EVERY_ROW, Start, Beginning().table)| == 2
    ensures forall row | row in RemainingInOrder(EVERY_ROW, Start, Beginning().table) :: row.createdAt == YEAR_10000
  {
    var table: Table := Beginning().table;
    assert Remaining(EVERY_ROW, Start, table) == table;
    ListingLength(EVERY_ROW, Start, table);
    assert Elements(RemainingInOrder(EVERY_ROW, Start, table)) == table;
    assert forall row | row in RemainingInOrder(EVERY_ROW, Start, table) :: row in Elements(RemainingInOrder(EVERY_ROW, Start, table));
  }

  lemma BeginningIsInitial(secret: Secret)
    ensures Initial(Beginning()) && Enabled(Beginning(), FIRST_PAGE)
    ensures Invariant(secret, EVERY_ROW, Beginning())
  {
    hide YearOfInstant;
    InstantOfYear10000();
  }

  /** Two rows of the year 10000, read one a page: Go answers the first page, with a token that no server will
      ever take. */
  lemma OnePageStrands(secret: Secret)
    ensures var states := [Beginning(), Apply(secret, EVERY_ROW, Beginning(), FIRST_PAGE)];
            && Run(secret, EVERY_ROW, states, [FIRST_PAGE])
            && Response(secret, EVERY_ROW, states[0], FIRST_PAGE).Ok?
            && IsStranded(states[1])
  {
    hide Invariant, Initial, RemainingInOrder, YearOfInstant, Issued, Listed, Resume;
    BeginningIsInitial(secret);
    InstantOfYear10000();
    TwoRowsRemain();
    var s := Beginning();
    ResponseIsPage(secret, EVERY_ROW, s, FIRST_PAGE);
    var all := RemainingInOrder(EVERY_ROW, Start, s.table);
    IssuedIsNotEmpty(Go, secret, CursorAt(secret, EVERY_ROW, KeyOf(all[0]), 0));
    assert all[0] in all;
  }
}

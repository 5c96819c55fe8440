/** Reading a request. Each query parameter parses and checks itself; together they decide which requests
    reach the services, and with what values. */
module Requests {
  import opened Wrappers
  import opened Domain
  import opened Decimal
  import opened Payload

  datatype BadRequest = InvalidAccountId | InvalidLimit | InvalidPage | InvalidSort

  /** strconv.ParseInt in base 10 on 64 bits; strconv.Atoi is the same where int has 64 bits. */
  function ParseInt(raw: string): Option<int> {
    var digits := if raw != [] && raw[0] in "+-" then raw[1..] else raw;
    if digits == [] || !AllDigits(digits) then None
    else
      var magnitude: int := NatValue(digits);
      var n := if raw[0] == '-' then -magnitude else magnitude;
      if FitsInt64(n) then Some(n) else None
  }

  /** The parser undoes the printer on every 64-bit integer, and refuses what does not fit. */
  lemma ParseIntReadsText(n: int)
    ensures ParseInt(IntText(n))
         == if -9_223_372_036_854_775_808 <= n <= 9_223_372_036_854_775_807 then Some(n) else None
    ensures n >= 0 ==> ParseInt("+" + IntText(n)) == ParseInt(IntText(n))
    ensures IntText(n) != ""
  {
    var digits := NatText(if n < 0 then -n else n);
    NatTextRoundTrip(if n < 0 then -n else n);
    assert digits[0] in digits;
    if n < 0 {
      assert ("-" + digits)[1..] == digits;
    } else {
      assert ("+" + digits)[1..] == digits;
    }
  }

  /** Nothing is a number but digits after at most one sign. */
  lemma OnlyDigitsParse(raw: string)
    requires ParseInt(raw).Some?
    ensures exists sign, digits ::
              && raw == sign + digits && sign in ["", "+", "-"]
              && digits != "" && forall c | c in digits :: c in "0123456789"
  {
    var signed := raw[0] in "+-";
    var sign, digits := if signed then raw[..1] else "", if signed then raw[1..] else raw;
    assert raw == sign + digits;
    if signed {
      assert raw[0] == '+' || raw[0] == '-';
      assert sign == [raw[0]];
    }
    forall c | c in digits
      ensures c in "0123456789"
    {
      DigitIsListed(c);
    }
  }

  lemma DigitIsListed(c: char)
    requires IsDigit(c)
    ensures c in "0123456789"
  {
    assert "0123456789"[DigitValue(c)] == c;
  }

  // ----- the parameters -----

  /** What a parameter holds once its text was read: the text if it is a number of at least `least`, and
      `absent` if there is no text. */
  function Integer(raw: string, least: int, absent: int): Option<int> {
    if raw == "" then Some(absent) else
      var n :- ParseInt(raw);
      if n < least then None else Some(n)
  }

  class AccountId {
    var n: int

    constructor ()
      ensures n == 0
    {
      n := 0;
    }

    method UnmarshalParam(raw: string) returns (error: Option<BadRequest>)
      modifies this
      ensures Integer(raw, 1, old(n)) == if error.None? then Some(n) else None
      ensures error.Some? ==> error.value == InvalidAccountId && n == old(n)
    {
      if raw == "" {
        return None;
      }
      var value := ParseInt(raw);
      if value.None? || value.value <= 0 {
        return Some(InvalidAccountId);
      }
      n := value.value;
      return None;
    }
  }

  function CapLimit(requested: int, fallback: int, maxAllowed: int): int {
    if requested == 0 then fallback
    else if requested > maxAllowed then maxAllowed
    else requested
  }

  class PageSize {
    var n: int

    constructor ()
      ensures n == 0
    {
      n := 0;
    }

    method UnmarshalParam(raw: string) returns (error: Option<BadRequest>)
      modifies this
      ensures Integer(raw, 0, old(n)) == if error.None? then Some(n) else None
      ensures error.Some? ==> error.value == InvalidLimit && n == old(n)
    {
      if raw == "" {
        return None;
      }
      var value := ParseInt(raw);
      if value.None? || value.value < 0 {
        return Some(InvalidLimit);
      }
      n := value.value;
      return None;
    }

    function Value(): (size: int)
      reads this
      ensures n >= 0 ==> size == if n == 0 then 20 else if n > 100 then 100 else n
    {
      CapLimit(n, DEFAULT_LIMIT, MAX_LIMIT)
    }
  }

  class PageNumber {
    var n: int

    constructor ()
      ensures n == 0
    {
      n := 0;
    }

    method UnmarshalParam(raw: string) returns (error: Option<BadRequest>)
      modifies this
      ensures Integer(raw, 1, old(n)) == if error.None? then Some(n) else None
      ensures error.Some? ==> error.value == InvalidPage && n == old(n)
    {
      if raw == "" {
        return None;
      }
      var value := ParseInt(raw);
      if value.None? || value.value < 1 {
        return Some(InvalidPage);
      }
      n := value.value;
      return None;
    }

    function Value(): (page: int)
      reads this
      ensures n >= 0 ==> page == if n == 0 then 1 else n
    {
      if n == 0 then 1 else n
    }
  }

  function ParseSort(raw: string): (sort: Result<Sort, BadRequest>)
    ensures raw == "" ==> sort == Ok(CreatedAtDesc)
    ensures raw == "created_at:desc" ==> sort == Ok(CreatedAtDesc)
    ensures raw == "created_at:asc" ==> sort == Ok(CreatedAtAsc)
    ensures sort.Err? <==> raw != "" && raw != "created_at:desc" && raw != "created_at:asc"
    ensures sort.Err? ==> sort.error == InvalidSort
  {
    if raw == "" then Ok(CreatedAtDesc)
    else if raw == "created_at:desc" then Ok(CreatedAtDesc)
    else if raw == "created_at:asc" then Ok(CreatedAtAsc)
    else Err(InvalidSort)
  }

  class SortOrder {
    var sort: Option<Sort>

    constructor ()
      ensures sort == None
    {
      sort := None;
    }

    method UnmarshalParam(raw: string) returns (error: Option<BadRequest>)
      modifies this
      ensures ParseSort(raw) == if error.None? then Ok(Value()) else Err(error.value)
      ensures error.Some? ==> sort == old(sort)
    {
      var parsed := ParseSort(raw);
      if parsed.Err? {
        return Some(parsed.error);
      }
      sort := Some(parsed.value);
      return None;
    }

    function Value(): Sort
      reads this
    {
      if sort.None? then CreatedAtDesc else sort.value
    }
  }

  // ----- the requests -----

  /** The query string of the keyset endpoint: each parameter is absent or its first text. */
  datatype ListRequest = ListRequest(
    accountId: Option<string>,
    status: Option<string>,
    sort: Option<string>,
    limit: Option<string>,
    cursor: Option<string>)

  datatype OffsetRequest = OffsetRequest(accountId: Option<string>, page: Option<string>, size: Option<string>)

  datatype OffsetParams = OffsetParams(accountId: int, page: int, size: int)

  /** A parameter that is absent reads like an empty one. */
  function TextOf(parameter: Option<string>): string {
    if parameter.None? then "" else parameter.value
  }

  /** The parameters a keyset request asks for, or the first one it gets wrong. */
  function Requested(request: ListRequest): Result<ListParams, BadRequest> {
    var accountId := Integer(TextOf(request.accountId), 1, 0);
    var sort := ParseSort(TextOf(request.sort));
    var limit := Integer(TextOf(request.limit), 0, 0);
    if accountId.None? then Err(InvalidAccountId)
    else if sort.Err? then Err(InvalidSort)
    else if limit.None? then Err(InvalidLimit)
    else Ok(ListParams(
              ListQuery(accountId.value, TextOf(request.status), sort.value),
              CapLimit(limit.value, DEFAULT_LIMIT, MAX_LIMIT),
              TextOf(request.cursor)))
  }

  function OffsetRequested(request: OffsetRequest): Result<OffsetParams, BadRequest> {
    var accountId := Integer(TextOf(request.accountId), 1, 0);
    var page := Integer(TextOf(request.page), 1, 1);
    var size := Integer(TextOf(request.size), 0, 0);
    if accountId.None? then Err(InvalidAccountId)
    else if page.None? then Err(InvalidPage)
    else if size.None? then Err(InvalidLimit)
    else Ok(OffsetParams(accountId.value, page.value, CapLimit(size.value, DEFAULT_LIMIT, MAX_LIMIT)))
  }

  /** ShouldBindQuery and params() on a keysetListRequest: the fields are bound in declaration order and
      an absent parameter leaves its field alone. */
  method BindList(request: ListRequest) returns (outcome: Result<ListParams, BadRequest>)
    ensures outcome == Requested(request)
    ensures var accountText, limitText, sortText := TextOf(request.accountId), TextOf(request.limit), TextOf(request.sort);
            var accountId, limit := ParseInt(accountText), ParseInt(limitText);
            if accountText != "" && (accountId.None? || accountId.value < 1) then outcome == Err(InvalidAccountId)
            else if sortText != "" && sortText != "created_at:desc" && sortText != "created_at:asc"
            then outcome == Err(InvalidSort)
            else if limitText != "" && (limit.None? || limit.value < 0) then outcome == Err(InvalidLimit)
            else
              && outcome.Ok?
              && outcome.value.query.accountId == (if accountText == "" then 0 else accountId.value)
              && outcome.value.query.status == (if request.status.None? then "" else request.status.value)
              && outcome.value.query.sort == (if sortText == "created_at:asc" then CreatedAtAsc else CreatedAtDesc)
              && outcome.value.limit == (if limitText == "" || limit.value == 0 then 20
                                         else if limit.value > 100 then 100 else limit.value)
              && outcome.value.cursor == (if request.cursor.None? then "" else request.cursor.value)
  {
    var accountId := new AccountId();
    var sort := new SortOrder();
    var limit := new PageSize();
    if request.accountId.Some? {
      var error := accountId.UnmarshalParam(request.accountId.value);
      if error.Some? { return Err(error.value); }
    }
    if request.sort.Some? {
      var error := sort.UnmarshalParam(request.sort.value);
      if error.Some? { return Err(error.value); }
    }
    if request.limit.Some? {
      var error := limit.UnmarshalParam(request.limit.value);
      if error.Some? { return Err(error.value); }
    }
    return Ok(ListParams(
      ListQuery(accountId.n, TextOf(request.status), sort.Value()), limit.Value(), TextOf(request.cursor)));
  }

  method BindOffset(request: OffsetRequest) returns (outcome: Result<OffsetParams, BadRequest>)
    ensures outcome == OffsetRequested(request)
    ensures var accountText, pageText, sizeText := TextOf(request.accountId), TextOf(request.page), TextOf(request.size);
            var accountId, page, size := ParseInt(accountText), ParseInt(pageText), ParseInt(sizeText);
            if accountText != "" && (accountId.None? || accountId.value < 1) then outcome == Err(InvalidAccountId)
            else if pageText != "" && (page.None? || page.value < 1) then outcome == Err(InvalidPage)
            else if sizeText != "" && (size.None? || size.value < 0) then outcome == Err(InvalidLimit)
            else
              && outcome.Ok?
              && outcome.value.accountId == (if accountText == "" then 0 else accountId.value)
              && outcome.value.page == (if pageText == "" then 1 else page.value)
              && outcome.value.size == (if sizeText == "" || size.value == 0 then 20
                                        else if size.value > 100 then 100 else size.value)
  {
    var accountId := new AccountId();
    var page := new PageNumber();
    var size := new PageSize();
    if request.accountId.Some? {
      var error := accountId.UnmarshalParam(request.accountId.value);
      if error.Some? { return Err(error.value); }
    }
    if request.page.Some? {
      var error := page.UnmarshalParam(request.page.value);
      if error.Some? { return Err(error.value); }
    }
    if request.size.Some? {
      var error := size.UnmarshalParam(request.size.value);
      if error.Some? { return Err(error.value); }
    }
    return Ok(OffsetParams(accountId.n, page.Value(), size.Value()));
  }

  // ----- which requests reach the service -----

  /** What the services rely on: an account id that is 0 or a positive bigint, a limit of 1 to 100. */
  predicate Servable(params: ListParams) {
    && 0 <= params.query.accountId <= 9_223_372_036_854_775_807
    && 1 <= params.limit <= 100
  }

  function Printed(params: ListParams): ListRequest {
    ListRequest(
      if params.query.accountId == 0 then None else Some(IntText(params.query.accountId)),
      Some(params.query.status),
      Some(params.query.sort.Text()),
      Some(IntText(params.limit)),
      Some(params.cursor))
  }

  /** No request yields other parameters than servable ones. */
  lemma OnlyServableIsRequested(request: ListRequest)
    ensures Requested(request).Ok? ==> Servable(Requested(request).value)
  {
    hide NatValue, AllDigits;
  }

  lemma PrintedIntegerReads(n: int, least: int, absent: int)
    requires FitsInt64(n) && n >= least
    ensures Integer(IntText(n), least, absent) == Some(n)
  {
    hide ParseInt, IntText;
    ParseIntReadsText(n);
  }

  /** Writing servable parameters as a request and reading it gives them back. */
  lemma PrintedReadsBack(params: ListParams)
    requires Servable(params)
    ensures Requested(Printed(params)) == Ok(params)
  {
    hide Integer, IntText;
    NoTextReadsAbsent(1, 0);
    if params.query.accountId != 0 {
      PrintedIntegerReads(params.query.accountId, 1, 0);
    }
    PrintedIntegerReads(params.limit, 0, 0);
  }

  lemma NoTextReadsAbsent(least: int, absent: int)
    ensures Integer("", least, absent) == Some(absent)
  {
  }

  /** The parameters that reach `List` are exactly the servable ones: no request yields others, and each
      of them is what some request asks for. */
  lemma RequestsReachServable(params: ListParams)
    ensures (exists request :: Requested(request) == Ok(params)) <==> Servable(params)
  {
    hide Requested, Servable, Printed;
    if Servable(params) {
      PrintedReadsBack(params);
    }
    forall request | Requested(request) == Ok(params)
      ensures Servable(params)
    {
      OnlyServableIsRequested(request);
    }
  }

  // ----- the offset endpoint -----

  predicate OffsetServable(params: OffsetParams) {
    && 0 <= params.accountId <= 9_223_372_036_854_775_807
    && 1 <= params.page <= 9_223_372_036_854_775_807
    && 1 <= params.size <= 100
  }

  function OffsetPrinted(params: OffsetParams): OffsetRequest {
    OffsetRequest(
      if params.accountId == 0 then None else Some(IntText(params.accountId)),
      Some(IntText(params.page)),
      Some(IntText(params.size)))
  }

  lemma OffsetPrintedReadsBack(params: OffsetParams)
    requires OffsetServable(params)
    ensures OffsetRequested(OffsetPrinted(params)) == Ok(params)
  {
    hide Integer, IntText;
    NoTextReadsAbsent(1, 0);
    if params.accountId != 0 {
      PrintedIntegerReads(params.accountId, 1, 0);
    }
    PrintedIntegerReads(params.page, 1, 1);
    PrintedIntegerReads(params.size, 0, 0);
  }

  lemma OnlyOffsetServableIsRequested(request: OffsetRequest)
    ensures OffsetRequested(request).Ok? ==> OffsetServable(OffsetRequested(request).value)
  {
    hide NatValue, AllDigits;
  }

  /** The parameters that reach `ListByOffset` are exactly: account id 0 or a positive 64-bit number, a
      positive 64-bit page, a size of 1 to 100. */
  lemma OffsetRequestsReachServable(params: OffsetParams)
    ensures (exists request :: OffsetRequested(request) == Ok(params)) <==> OffsetServable(params)
  {
    hide OffsetRequested, OffsetServable, OffsetPrinted;
    if OffsetServable(params) {
      OffsetPrintedReadsBack(params);
    }
    forall request | OffsetRequested(request) == Ok(params)
      ensures OffsetServable(params)
    {
      OnlyOffsetServableIsRequested(request);
    }
  }

  /** What a request without parameters asks of either endpoint. */
  lemma Defaults()
    ensures Requested(ListRequest(None, None, None, None, None))
         == Ok(ListParams(ListQuery(0, "", CreatedAtDesc), 20, ""))
    ensures OffsetRequested(OffsetRequest(None, None, None)) == Ok(OffsetParams(0, 1, 20))
  {
  }

  /** An account id of 0 never comes from a text that says so: two requests with the same account id in
      their fingerprint filter on the same account, or on none. */
  lemma ZeroMeansNoFilter(request: ListRequest)
    requires Requested(request).Ok?
    ensures Requested(request).value.query.accountId == 0 <==> TextOf(request.accountId) == ""
    ensures TextOf(request.accountId) != "" ==>
              ParseInt(TextOf(request.accountId)) == Some(Requested(request).value.query.accountId)
  {
  }
}

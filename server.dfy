/** The post feed of main.go: a Server holding the page counter, and the
    three operations that touch it: makeServer seeds it, submitPost advances
    it and inserts a post, getIndex reads it to choose the feed window. */
module Gitter {
  import opened Int64
  import opened Options
  import opened Strconv
  import opened Http
  import opened Posts

  /** postsPerPage in getIndex, and the LIMIT of the feed query. */
  const PostsPerPage: nat := 10

  const MethodNotAllowed: string := "Method not allowed"
  const MalformedForm: string := "Malformed form parameters"
  const MissingMessage: string := "Missing message form parameter"
  const ServerError: string := "Server error"

  /** What a handler writes back: the rendered index, a redirect, or http.Error. */
  datatype Response =
    | Rendered(posts: seq<Post>)
    | Redirected(location: string, code: int)
    | Failed(code: int, message: string)

  /** The step at which makeServer gets an error back, if any. */
  datatype InitFault =
    | InitSucceeds
    | TemplateParseFails
    | InitOpenFails
    | MaxPrepareFails
    | MaxExecFails
    | MaxStepFails
    | MaxScanFails

  /** The step at which getIndex gets an error back, if any; `at` counts the
      calls of Step and Scan from 0. */
  datatype IndexFault =
    | IndexSucceeds
    | IndexOpenFails
    | ListPrepareFails
    | ListExecFails
    | ListStepFails(at: nat)
    | ListScanFails(at: nat)
    | RenderFails

  /** The step at which submitPost gets an error back, if any. */
  datatype SubmitFault =
    | SubmitSucceeds
    | SubmitOpenFails
    | InsertPrepareFails
    | InsertExecFails

  /** The counter makeServer starts from: the largest page in the table, or 0
      when the table is empty (`MAX(page)` is then NULL). */
  function InitialCounter(rows: seq<Row>): (c: int64)
    ensures rows == [] ==> c == 0
    ensures forall i :: 0 <= i < |rows| ==> rows[i].page <= c
    ensures rows != [] ==> exists i :: 0 <= i < |rows| && rows[i].page == c
  {
    // scanning a NULL column into an int64 leaves 0
    match MaxPage(rows)
    case None => 0
    case Some(m) => m
  }

  /** getIndex's pageParameter: Atoi of the first `page` value of the query,
      with the error dropped, so 0 on a syntax error and the nearest int64
      bound when out of range; 0 when the query has no `page`. */
  function PageParameter(query: Params): (p: int64)
    ensures (forall i :: 0 <= i < |query| ==> query[i].0 != "page") ==> p == 0
  {
    match Lookup(query, "page")
    case None => 0
    case Some(text) => Atoi(text).value
  }

  /** A `page` value that Atoi rejects as a syntax error reads as 0, a
      well-formed one as its signed value, and one beyond int64 as the bound
      on the side of its sign. */
  lemma PageParameterReadsText(query: Params, text: string)
    requires Lookup(query, "page") == Some(text)
    ensures Atoi(text).err == ErrSyntax ==> PageParameter(query) == 0
    ensures Atoi(text).err == NoError ==> PageParameter(query) as int == SignedValue(text)
    ensures Atoi(text).err == ErrRange ==> PageParameter(query) as int == if text[0] == '-' then Min else Max
  {
  }

  /** The highest page getIndex shows: counter - pageParameter * postsPerPage,
      each operation wrapping around as int64 arithmetic does in Go. Where
      nothing overflows, it is the difference itself. */
  function FeedBound(counter: int64, pageParameter: int64): (bound: int64)
    ensures Min <= pageParameter as int * PostsPerPage <= Max &&
            Min <= counter as int - pageParameter as int * PostsPerPage <= Max ==>
              bound as int == counter as int - pageParameter as int * PostsPerPage
  {
    Wrap(counter as int - Wrap(pageParameter as int * PostsPerPage) as int)
  }

  /** In every case the bound agrees with counter - pageParameter * 10
      modulo 2^64: it is that difference in two's complement. */
  lemma FeedBoundIsWrappedDifference(counter: int64, pageParameter: int64)
    ensures (FeedBound(counter, pageParameter) as int - (counter as int - pageParameter as int * PostsPerPage)) % Modulus == 0
  {
  }

  /** The rows the feed query returns for a counter value and a query. */
  function FeedRows(rows: seq<Row>, counter: int64, query: Params): (feed: seq<Row>)
    ensures |feed| <= PostsPerPage
  {
    Newest(Eligible(rows, FeedBound(counter, PageParameter(query))), PostsPerPage)
  }

  /** The page number written in decimal, as the page links carry it, is
      read back exactly; negative numbers included. */
  lemma PageParameterReadsPage(query: Params, n: int64)
    requires Lookup(query, "page") == Some(FormatInt(n))
    ensures PageParameter(query) == n
  {
    AtoiInvertsFormatInt(n);
  }

  /** Where neither the product nor the difference overflows, page 0 is the
      counter itself, a negative page parameter raises the bound above the
      counter, and a positive one lowers it. */
  lemma FeedBoundIsExact(counter: int64, p: int64)
    requires Min <= p as int * PostsPerPage <= Max
    requires Min <= counter as int - p as int * PostsPerPage <= Max
    ensures p == 0 ==> FeedBound(counter, p) == counter
    ensures p < 0 ==> FeedBound(counter, p) > counter
    ensures p > 0 ==> FeedBound(counter, p) < counter
  {
  }

  /** Going further back lowers the bound, so the eligible rows can only
      shrink: each row is eligible at most as often as before. */
  lemma {:induction false} LargerPageNarrowsFeed(rows: seq<Row>, counter: int64, p1: int64, p2: int64)
    requires p1 <= p2
    requires Min <= p1 as int * PostsPerPage && p2 as int * PostsPerPage <= Max
    requires counter as int - p2 as int * PostsPerPage >= Min && counter as int - p1 as int * PostsPerPage <= Max
    ensures FeedBound(counter, p2) <= FeedBound(counter, p1)
    ensures forall r :: Count(Eligible(rows, FeedBound(counter, p2)), r) <= Count(Eligible(rows, FeedBound(counter, p1)), r)
  {
    FeedBoundIsExact(counter, p1);
    FeedBoundIsExact(counter, p2);
    EligibleIsFilter(rows, FeedBound(counter, p1));
    EligibleIsFilter(rows, FeedBound(counter, p2));
  }

  /** The multiplication wraps around: page 922337203685477581 times 10 is
      2^63 + 2 in integers, -2^63 + 2 as an int64, so on a fresh server that
      page has a bound close to the int64 maximum, and shows the newest posts
      rather than none. */
  lemma PageParameterWrapsAround()
    ensures FeedBound(0, 922337203685477581) == 9223372036854775806
    ensures FeedBound(0, 922337203685477581) > FeedBound(0, 0)
  {
    assert Wrap(922337203685477581 * 10) as int == -9223372036854775806;
  }

  /** The feed getIndex renders: at most ten rows, each at or below the
      bound, newest first, and the newest of the eligible rows — each row of
      the table appears at most as often as it is stored. */
  lemma FeedIsNewestEligible(rows: seq<Row>, counter: int64, query: Params)
    ensures var feed := FeedRows(rows, counter, query);
            var bound := FeedBound(counter, PageParameter(query));
            && |feed| <= PostsPerPage
            && (forall i :: 0 <= i < |feed| ==> feed[i].page <= bound)
            && (forall r :: Count(feed, r) <= Count(rows, r))
            && IsTopByCreated(Eligible(rows, bound), PostsPerPage, feed)
  {
    var bound := FeedBound(counter, PageParameter(query));
    var eligible := Eligible(rows, bound);
    var feed := Newest(eligible, PostsPerPage);
    assert IsTopByCreated(eligible, PostsPerPage, feed) by {
      NewestIsTopByCreated(eligible, PostsPerPage);
    }
    DrawnFromEligible(rows, bound, feed);
  }

  /** When the rows were created one after another and the counter covers
      every page, the first page of the feed is the last ten posts in
      reverse order of insertion. */
  lemma FirstPageIsLatest(rows: seq<Row>, counter: int64, query: Params)
    requires Chronological(rows)
    requires forall i :: 0 <= i < |rows| ==> rows[i].page <= counter
    requires PageParameter(query) == 0
    ensures FeedRows(rows, counter, query) == LatestFirst(rows, PostsPerPage)
  {
    assert FeedBound(counter, PageParameter(query)) == counter;
    EligibleKeepsAll(rows, counter);
    assert FeedRows(rows, counter, query) == Newest(rows, PostsPerPage);
    NewestOfChronological(rows, PostsPerPage);
  }

  /** More generally, on such a table the feed is the latest eligible rows,
      latest first. */
  lemma FeedOfChronological(rows: seq<Row>, counter: int64, query: Params)
    requires Chronological(rows)
    ensures FeedRows(rows, counter, query) == LatestFirst(Eligible(rows, FeedBound(counter, PageParameter(query))), PostsPerPage)
  {
    var bound := FeedBound(counter, PageParameter(query));
    EligibleKeepsChronological(rows, bound);
    NewestOfChronological(Eligible(rows, bound), PostsPerPage);
  }

  /** Whether a fault of getIndex happens when the feed query has n rows:
      Step is called n + 1 times (the last says there is no row) and Scan n times. */
  predicate Strikes(fault: IndexFault, n: nat) {
    match fault
    case IndexSucceeds => false
    case ListStepFails(at) => at <= n
    case ListScanFails(at) => at < n
    case _ => true
  }

  /** The message submitPost stores: the first `message` value of a parsed
      POST form, present even when empty; None when submitPost refuses. */
  function Message(request: Request): (m: Option<string>)
    ensures m.Some? <==> request.verb == MethodPost && request.form.Fields? &&
                         exists i :: 0 <= i < |request.form.fields| && request.form.fields[i].0 == "message"
    ensures m.Some? ==> exists i :: 0 <= i < |request.form.fields| && request.form.fields[i] == ("message", m.value) &&
                                  forall j :: 0 <= j < i ==> request.form.fields[j].0 != "message"
  {
    if request.verb == MethodPost && request.form.Fields? then Lookup(request.form.fields, "message")
    else None
  }

  /** getIndex's loop over the statement's rows: Step until it reports no
      row, Scan each row into a Post and append it. It stops at the first
      Step or Scan that fails. */
  method StepThrough(answer: seq<Row>, fault: IndexFault) returns (posts: seq<Post>, ok: bool)
    ensures ok <==> !(fault.ListStepFails? && fault.at <= |answer|) && !(fault.ListScanFails? && fault.at < |answer|)
    ensures ok ==> posts == Project(answer)
  {
    posts := [];
    var i := 0;
    while true
      invariant 0 <= i <= |answer|
      invariant posts == Project(answer[..i])
      invariant !(fault.ListStepFails? && fault.at < i)
      invariant !(fault.ListScanFails? && fault.at < i)
      decreases |answer| - i
    {
      if fault == ListStepFails(i) {
        return posts, false;
      }
      if i == |answer| {
        break;
      }
      if fault == ListScanFails(i) {
        return posts, false;
      }
      posts := posts + [ToPost(answer[i])];
      i := i + 1;
      assert answer[..i][..i - 1] == answer[..i - 1];
    }
    assert answer[..i] == answer;
    return posts, true;
  }

  class Server {
    /** The highest page handed out so far (an atomic.Int64 in the source,
        read and written here one request at a time). */
    var counter: int64

    /** Every page in the table is at or below the counter, so the next
        page handed out is new. */
    ghost predicate Covers(table: Table)
      reads this, table
    {
      forall i :: 0 <= i < |table.rows| ==> table.rows[i].page <= counter
    }

    /** The zero value of atomic.Int64. */
    constructor ()
      ensures counter == 0
    {
      counter := 0;
    }

    /** counter.Add(delta): the new value, wrapped as int64. */
    method Add(delta: int64) returns (n: int64)
      modifies this
      ensures counter == Wrap(old(counter) as int + delta as int) && n == counter
    {
      counter := Wrap(counter as int + delta as int);
      n := counter;
    }

    /** getIndex. It only reads the counter and the table. */
    method GetIndex(table: Table, request: Request, fault: IndexFault) returns (response: Response)
      ensures request.verb != MethodGet ==>
                response == Failed(StatusMethodNotAllowed, MethodNotAllowed)
      ensures request.verb == MethodGet ==>
                var feed := FeedRows(table.rows, counter, request.query);
                response == if Strikes(fault, |feed|) then Failed(StatusInternalServerError, ServerError)
                            else Rendered(Project(feed))
    {
      if request.verb != MethodGet {
        return Failed(StatusMethodNotAllowed, MethodNotAllowed);
      }
      if fault == IndexOpenFails || fault == ListPrepareFails {
        return Failed(StatusInternalServerError, ServerError);
      }
      var pageParameter := PageParameter(request.query);
      // the counter is loaded once, and the bound computed from it in int64 arithmetic
      var page := FeedBound(counter, pageParameter);
      if fault == ListExecFails {
        return Failed(StatusInternalServerError, ServerError);
      }
      // the rows the prepared statement yields, in the order Step yields them
      var answer := Newest(Eligible(table.rows, page), PostsPerPage);
      assert answer == FeedRows(table.rows, counter, request.query);
      var posts, ok := StepThrough(answer, fault);
      if !ok {
        return Failed(StatusInternalServerError, ServerError);
      }
      if fault == RenderFails {
        return Failed(StatusInternalServerError, ServerError);
      }
      return Rendered(posts);
    }

    /** submitPost. A request it refuses, and a storage error before the
        insert, leave everything as it was; once the counter has been
        advanced it stays advanced, even if the insert then fails. */
    method SubmitPost(table: Table, request: Request, id: int64, created: int64, fault: SubmitFault)
      returns (response: Response)
      requires id >= 0
      modifies this, table
      ensures request.verb != MethodPost ==>
                response == Failed(StatusMethodNotAllowed, MethodNotAllowed) &&
                counter == old(counter) && table.rows == old(table.rows)
      ensures request.verb == MethodPost && request.form.Malformed? ==>
                response == Failed(StatusBadRequest, MalformedForm) &&
                counter == old(counter) && table.rows == old(table.rows)
      ensures request.verb == MethodPost && request.form.Fields? && Message(request).None? ==>
                response == Failed(StatusBadRequest, MissingMessage) &&
                counter == old(counter) && table.rows == old(table.rows)
      ensures Message(request).Some? && (fault == SubmitOpenFails || fault == InsertPrepareFails) ==>
                response == Failed(StatusInternalServerError, ServerError) &&
                counter == old(counter) && table.rows == old(table.rows)
      ensures Message(request).Some? && fault == InsertExecFails ==>
                response == Failed(StatusInternalServerError, ServerError) &&
                counter == Wrap(old(counter) as int + 1) && table.rows == old(table.rows)
      ensures Message(request).Some? && fault == SubmitSucceeds ==>
                response == Redirected("/", StatusSeeOther) &&
                counter == Wrap(old(counter) as int + 1) &&
                table.rows == old(table.rows) + [Row(id, counter, Message(request).value, created)]
      ensures old(counter) as int < Max && Message(request).Some? &&
              (fault == SubmitSucceeds || fault == InsertExecFails) ==>
                counter as int == old(counter) as int + 1
      ensures old(Covers(table)) && old(counter) as int < Max ==> Covers(table)
      ensures old(Covers(table)) && old(counter) as int < Max && Message(request).Some? && fault == SubmitSucceeds ==>
                forall i :: 0 <= i < |old(table.rows)| ==> old(table.rows)[i].page < counter
    {
      if request.verb != MethodPost {
        return Failed(StatusMethodNotAllowed, MethodNotAllowed);
      }
      if request.form.Malformed? {
        return Failed(StatusBadRequest, MalformedForm);
      }
      var post := Lookup(request.form.fields, "message");
      if post.None? {
        return Failed(StatusBadRequest, MissingMessage);
      }
      if fault == SubmitOpenFails || fault == InsertPrepareFails {
        return Failed(StatusInternalServerError, ServerError);
      }
      var page := Add(1);
      if fault == InsertExecFails {
        return Failed(StatusInternalServerError, ServerError);
      }
      table.Insert(Row(id, page, post.value, created));
      return Redirected("/", StatusSeeOther);
    }
  }

  /** makeServer: the counter starts at the largest page already stored. */
  method MakeServer(table: Table, fault: InitFault) returns (r: Result<Server, InitFault>)
    ensures fault != InitSucceeds ==> r == Err(fault)
    ensures fault == InitSucceeds ==>
              r.Ok? && fresh(r.value) && r.value.counter == InitialCounter(table.rows)
    ensures r.Ok? ==> r.value.Covers(table)
  {
    if fault == TemplateParseFails || fault == InitOpenFails || fault == MaxPrepareFails || fault == MaxExecFails {
      return Err(fault);
    }
    // an aggregate query yields exactly one row, NULL when there is no post
    var maxPage := MaxPage(table.rows);
    if fault == MaxStepFails {
      return Err(fault);
    }
    var server := new Server();
    if fault == MaxScanFails {
      return Err(fault);
    }
    var page: int64 := if maxPage.Some? then maxPage.value else 0;
    var _ := server.Add(page);
    return Ok(server);
  }
}

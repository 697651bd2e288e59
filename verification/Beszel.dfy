/** The paginated PocketBase collection: pages are fetched in turn until the announced count is
    reached, and every page must agree with the first one. */
module Beszel {
  import opened Options

  const PAGE_SIZE := 200
  const MAX_PAGES := 32
  const MAX_RECORDS := PAGE_SIZE * MAX_PAGES

  type Row = string

  // ---------------------------------------------------------------- one page

  /** A decoded response body: a bare array, an object with its optional fields, or no JSON. */
  datatype Body =
    | Bare(rows: seq<Row>)
    | Wrapped(
        items: Option<seq<Row>>,
        systems: Option<seq<Row>>,
        data: Option<seq<Row>>,
        pageNo: Option<int>,
        perPage: Option<int>,
        totalItems: Option<int>,
        totalPages: Option<int>)
    | Malformed

  datatype PageError = InvalidJson | IncompleteMetadata | InvalidMetadata | EmptyList

  datatype Page = Page(
    rows: seq<Row>, number: int, totalItems: int, totalPages: int, paginated: bool, hasTotalItems: bool)

  datatype Decoded = Good(page: Page) | Bad(error: PageError)

  function Plain(rows: seq<Row>): Decoded {
    Good(Page(rows, 0, 0, 0, false, false))
  }

  /** The number of pages that hold n items: the quotient, rounded up, and at least one. */
  function PagesFor(n: nat, perPage: int): int
    requires perPage >= 1
  {
    var full := n / perPage + (if n % perPage != 0 then 1 else 0);
    if full == 0 then 1 else full
  }

  /** The page count that the metadata announces. */
  function AnnouncedPages(b: Body, rows: seq<Row>): Option<int>
    requires b.Wrapped? && b.perPage.Some? && b.perPage.value >= 1
    requires b.totalItems.Some? ==> b.totalItems.value >= 0
  {
    match (b.totalPages, b.totalItems)
    case (Some(pages), total) =>
      if pages > 0 then Some(pages)
      else if total != Some(0) || |rows| != 0 then None
      else Some(1)
    case (None, Some(total)) => Some(PagesFor(total, b.perPage.value))
    case (None, None) => None
  }

  function DecodePaginated(b: Body, rows: seq<Row>): Decoded
    requires b.Wrapped?
  {
    if b.pageNo == None || b.perPage == None || b.pageNo.value < 1 || b.perPage.value < 1 then Bad(IncompleteMetadata)
    else if b.totalItems.Some? && b.totalItems.value < 0 then Bad(InvalidMetadata)
    else if b.totalPages.Some? && b.totalPages.value < 0 then Bad(InvalidMetadata)
    else
      match AnnouncedPages(b, rows)
      case None => Bad(IncompleteMetadata)
      case Some(pages) =>
        if b.pageNo.value > pages then Bad(InvalidMetadata)
        else if b.totalItems.Some? && b.totalItems.value < |rows| then Bad(InvalidMetadata)
        else
          var total := if b.totalItems.Some? then b.totalItems.value else 0;
          Good(Page(rows, b.pageNo.value, total, pages, true, b.totalItems.Some?))
  }

  function DecodePage(b: Body): Decoded {
    match b
    case Bare(rows) => Plain(rows)
    case Malformed => Bad(InvalidJson)
    case Wrapped(items, systems, data, pageNo, perPage, totalItems, totalPages) =>
      if systems.Some? then Plain(systems.value)
      else if data.Some? then Plain(data.value)
      else if items.None? then Bad(EmptyList)
      else if pageNo == None && perPage == None && totalItems == None && totalPages == None then Plain(items.value)
      else DecodePaginated(b, items.value)
  }

  /** Without totalPages, the page count is the least count, from one on, that covers totalItems. */
  lemma {:induction false} PagesForIsLeast(n: nat, perPage: int)
    requires perPage >= 1
    ensures var pages := PagesFor(n, perPage);
            && pages >= 1 && pages * perPage >= n
            && forall k :: 1 <= k < pages ==> k * perPage < n
  {
    var pages := PagesFor(n, perPage);
    assert n == (n / perPage) * perPage + n % perPage;
    forall k | 1 <= k < pages
      ensures k * perPage < n
    {
      if n % perPage != 0 {
        MulLe(k, n / perPage, perPage);
      } else {
        MulLe(k, n / perPage - 1, perPage);
        assert (n / perPage - 1) * perPage == n - perPage;
      }
    }
  }

  lemma MulLe(a: int, b: int, c: int)
    requires a <= b && c >= 0
    ensures a * c <= b * c
  {
  }

  /** Bodies without pagination: which rows they yield, and in which order the list fields count. */
  lemma PlainBodies(rows: seq<Row>, b: Body)
    ensures DecodePage(Bare(rows)) == Good(Page(rows, 0, 0, 0, false, false))
    ensures DecodePage(Malformed) == Bad(InvalidJson)
    ensures b.Wrapped? && b.systems == Some(rows) ==> DecodePage(b) == Good(Page(rows, 0, 0, 0, false, false))
    ensures b.Wrapped? && b.systems == None && b.data == Some(rows) ==>
              DecodePage(b) == Good(Page(rows, 0, 0, 0, false, false))
    ensures b == Wrapped(Some(rows), None, None, None, None, None, None) ==>
              DecodePage(b) == Good(Page(rows, 0, 0, 0, false, false))
    ensures b.Wrapped? && b.systems == b.data == b.items == None ==> DecodePage(b) == Bad(EmptyList)
  {
  }

  /** The page count that the metadata determines: the announced one, one for an empty collection
      announced as no pages, or the least count that covers the announced items. */
  ghost predicate Determines(b: Body, rows: seq<Row>, pages: int)
    requires b.Wrapped?
  {
    || (b.totalPages.Some? && b.totalPages.value > 0 && pages == b.totalPages.value)
    || (b.totalPages == b.totalItems == Some(0) && rows == [] && pages == 1)
    || (b.totalPages == None && b.totalItems.Some? && b.perPage.Some? && pages >= 1
        && pages * b.perPage.value >= b.totalItems.value
        && forall k :: 1 <= k < pages ==> k * b.perPage.value < b.totalItems.value)
  }

  /** The numbers of the page are there, and no number is negative. */
  predicate WellFormed(b: Body)
    requires b.Wrapped?
  {
    && b.pageNo.Some? && b.perPage.Some? && b.pageNo.value >= 1 && b.perPage.value >= 1
    && (b.totalItems.Some? ==> b.totalItems.value >= 0)
    && (b.totalPages.Some? ==> b.totalPages.value >= 0)
  }

  lemma AnnouncedIsDetermined(b: Body, rows: seq<Row>, pages: int)
    requires b.Wrapped? && WellFormed(b)
    ensures AnnouncedPages(b, rows) == Some(pages) <==> Determines(b, rows, pages)
  {
    if b.totalPages == None && b.totalItems.Some? {
      var total, perPage := b.totalItems.value, b.perPage.value;
      PagesForIsLeast(total, perPage);
      if Determines(b, rows, pages) {
        LeastCoverUnique(total, perPage, pages, PagesFor(total, perPage));
      }
    }
  }

  lemma LeastCoverUnique(n: int, perPage: int, a: int, c: int)
    requires a >= 1 && a * perPage >= n && forall k :: 1 <= k < a ==> k * perPage < n
    requires c >= 1 && c * perPage >= n && forall k :: 1 <= k < c ==> k * perPage < n
    ensures a == c
  {
    if a < c {
      BelowCover(n, perPage, a, c);
    } else if c < a {
      BelowCover(n, perPage, c, a);
    }
  }

  lemma BelowCover(n: int, perPage: int, k: int, a: int)
    requires 1 <= k < a && forall k :: 1 <= k < a ==> k * perPage < n
    ensures k * perPage < n
  {
  }

  /** A body with pagination is accepted exactly when its numbers are there, agree with each other
      and determine a page count, and it yields its items and those numbers. */
  lemma PaginatedBodies(b: Body, rows: seq<Row>)
    requires b.Wrapped? && b.items == Some(rows) && b.systems == b.data == None
    requires b.pageNo.Some? || b.perPage.Some? || b.totalItems.Some? || b.totalPages.Some?
    ensures forall page: Page :: DecodePage(b) == Good(page) <==>
              && WellFormed(b) && Determines(b, rows, page.totalPages)
              && page.rows == rows && page.number == b.pageNo.value <= page.totalPages && page.paginated
              && (if b.totalItems == None then !page.hasTotalItems && page.totalItems == 0
                  else page.hasTotalItems && page.totalItems == b.totalItems.value >= |rows|)
    ensures DecodePage(b).Bad? ==> DecodePage(b).error in {IncompleteMetadata, InvalidMetadata}
    ensures DecodePage(b) == Bad(IncompleteMetadata) <==>
            || b.pageNo == None || b.perPage == None || b.pageNo.value < 1 || b.perPage.value < 1
            || (WellFormed(b) && forall pages :: !Determines(b, rows, pages))
  {
    if WellFormed(b) {
      forall pages
        ensures AnnouncedPages(b, rows) == Some(pages) <==> Determines(b, rows, pages)
      {
        AnnouncedIsDetermined(b, rows, pages);
      }
    }
  }

  /** What every accepted page satisfies. */
  lemma DecodedPageIsSound(b: Body)
    ensures var d := DecodePage(b);
            d.Good? && d.page.paginated ==>
              && 1 <= d.page.number <= d.page.totalPages
              && (d.page.hasTotalItems ==> |d.page.rows| <= d.page.totalItems)
              && (d.page.hasTotalItems && b.totalPages == None ==>
                    d.page.totalPages == PagesFor(d.page.totalItems, b.perPage.value))
  {
  }

  // ---------------------------------------------------------------- the collection

  datatype Response = NetworkError | Status(code: int) | Ok(body: Body)

  datatype FetchError =
    | Transport | NotFound | Authentication | OtherStatus | Decoding(error: PageError)
    | TooManyRecords | TooManyPages | Changed | CountMismatch

  /** tryAlternate tells the caller to go on to the next known path. */
  datatype Fetched = Rows(rows: seq<Row>) | Failure(error: FetchError, tryAlternate: bool)

  const NOT_FOUND := 404

  function StatusError(code: int): FetchError {
    if code == NOT_FOUND then NotFound else if code == 401 || code == 403 then Authentication else OtherStatus
  }

  /** The page that answers the k-th request, when it can be used at all. */
  function PageAt(respond: int -> Response, k: int): Option<Page> {
    match respond(k)
    case Ok(body) => if DecodePage(body).Good? then Some(DecodePage(body).page) else None
    case _ => None
  }

  /** What went wrong at the k-th request, as the error tells it. */
  ghost predicate FailsWith(respond: int -> Response, k: nat, error: FetchError) {
    match error
    case Transport => respond(k) == NetworkError
    case NotFound => respond(k) == Status(NOT_FOUND)
    case Authentication => respond(k) == Status(401) || respond(k) == Status(403)
    case OtherStatus => respond(k).Status? && respond(k).code !in {NOT_FOUND, 401, 403}
    case Decoding(e) => respond(k).Ok? && DecodePage(respond(k).body) == Bad(e)
    case _ => PageAt(respond, k).Some? && PageFailsWith(respond, k, PageAt(respond, k).value, error)
  }

  ghost predicate PageFailsWith(respond: int -> Response, k: nat, page: Page, error: FetchError) {
    match error
    case TooManyRecords => (page.hasTotalItems && page.totalItems > MAX_RECORDS) || |RowsUpTo(respond, k)| > MAX_RECORDS
    case TooManyPages => k == 1 && page.paginated && page.totalPages > MAX_PAGES
    case Changed => page.paginated && !Agrees(respond, k)
    case CountMismatch =>
      && Agrees(respond, k) && page.totalPages == k
      && page.hasTotalItems && |RowsUpTo(respond, k)| != page.totalItems
    case _ => false
  }

  /** Only the first request's transport error or 404 sends the caller to the next path. */
  ghost predicate Alternate(respond: int -> Response, k: nat) {
    k == 1 && (respond(1) == NetworkError || respond(1) == Status(NOT_FOUND))
  }

  /** The error tells what the answer to the k-th request was. */
  lemma FailureIsTold(respond: int -> Response, k: nat, error: FetchError)
    requires FailsWith(respond, k, error)
    ensures match respond(k)
            case NetworkError => error == Transport
            case Status(code) =>
              if code == 404 then error == NotFound
              else if code == 401 || code == 403 then error == Authentication
              else error == OtherStatus
            case Ok(body) =>
              match DecodePage(body)
              case Bad(e) => error == Decoding(e)
              case Good(page) =>
                match error
                case TooManyRecords =>
                  (page.hasTotalItems && page.totalItems > 6400) || |RowsUpTo(respond, k)| > 6400
                case TooManyPages => k == 1 && page.paginated && page.totalPages > 32
                case Changed => page.paginated && !Agrees(respond, k)
                case CountMismatch => page.hasTotalItems && |RowsUpTo(respond, k)| != page.totalItems
                case _ => false
  {
  }

  /** The rows of pages 1 to n. */
  function RowsUpTo(respond: int -> Response, n: nat): seq<Row> {
    if n == 0 then []
    else RowsUpTo(respond, n - 1) + if PageAt(respond, n).Some? then PageAt(respond, n).value.rows else []
  }

  /** Page k is there, is paginated, carries its own number, and agrees with the first page. */
  ghost predicate Agrees(respond: int -> Response, k: int) {
    && PageAt(respond, 1).Some? && PageAt(respond, k).Some?
    && var first, page := PageAt(respond, 1).value, PageAt(respond, k).value;
       && page.paginated && page.number == k
       && page.totalPages == first.totalPages
       && page.hasTotalItems == first.hasTotalItems
       && (page.hasTotalItems ==> page.totalItems == first.totalItems)
  }

  /** Pages 1 to n are the whole collection: each agrees with the first, the first announces n
      pages, and if it announces a row count, that is how many rows there are. */
  ghost predicate Complete(respond: int -> Response, n: nat) {
    && 1 <= n <= MAX_PAGES
    && (forall k :: 1 <= k <= n ==> Agrees(respond, k))
    && PageAt(respond, 1).Some?
    && PageAt(respond, 1).value.totalPages == n
    && |RowsUpTo(respond, n)| <= MAX_RECORDS
    && (PageAt(respond, 1).value.hasTotalItems ==> |RowsUpTo(respond, n)| == PageAt(respond, 1).value.totalItems)
  }

  /** The rows are those of the pages, in page order: page k's rows stand behind those of the pages
      before it. */
  lemma {:induction false} RowsInOrder(respond: int -> Response, k: nat, n: nat)
    requires 1 <= k <= n && PageAt(respond, k).Some?
    ensures RowsUpTo(respond, k - 1) + PageAt(respond, k).value.rows <= RowsUpTo(respond, n)
  {
    if k < n {
      RowsInOrder(respond, k, n - 1);
    }
  }

  /** Page k is there and carries these numbers. */
  ghost predicate Carries(respond: int -> Response, k: int, pages: int, total: Option<int>) {
    && respond(k).Ok? && DecodePage(respond(k).body).Good?
    && var page := DecodePage(respond(k).body).page;
       && page.paginated && page.number == k && page.totalPages == pages
       && (if total == None then !page.hasTotalItems else page.hasTotalItems && page.totalItems == total.value)
  }

  /** Pages 1 to n all do, and announce n pages. */
  ghost predicate AllCarry(respond: int -> Response, n: nat, total: Option<int>) {
    forall k :: 1 <= k <= n ==> Carries(respond, k, n, total)
  }

  lemma CompleteCarries(respond: int -> Response, n: nat) returns (total: Option<int>)
    requires Complete(respond, n)
    ensures AllCarry(respond, n, total) && (total == None || total == Some(|RowsUpTo(respond, n)|))
  {
    var first := PageAt(respond, 1).value;
    total := if first.hasTotalItems then Some(first.totalItems) else None;
    forall k | 1 <= k <= n
      ensures Carries(respond, k, n, total)
    {
      assert Agrees(respond, k);
    }
  }

  lemma CarriesComplete(respond: int -> Response, n: nat, total: Option<int>)
    requires 1 <= n <= MAX_PAGES && |RowsUpTo(respond, n)| <= MAX_RECORDS && AllCarry(respond, n, total)
    requires total == None || total == Some(|RowsUpTo(respond, n)|)
    ensures Complete(respond, n)
  {
    assert Carries(respond, 1, n, total);
    forall k | 1 <= k <= n
      ensures Agrees(respond, k)
    {
      assert Carries(respond, k, n, total);
    }
  }

  /** What a complete collection is: n pages that all announce n pages and the same total, if any,
      and as many rows as that total, within the bounds. */
  lemma CompleteMeaning(respond: int -> Response, n: nat)
    ensures Complete(respond, n) <==>
            && 1 <= n <= 32 && |RowsUpTo(respond, n)| <= 6400
            && exists total :: AllCarry(respond, n, total) && (total == None || total == Some(|RowsUpTo(respond, n)|))
  {
    if Complete(respond, n) {
      var total := CompleteCarries(respond, n);
    } else if 1 <= n <= 32 && |RowsUpTo(respond, n)| <= 6400 {
      forall total | AllCarry(respond, n, total)
        ensures !(total == None || total == Some(|RowsUpTo(respond, n)|))
      {
        if total == None || total == Some(|RowsUpTo(respond, n)|) {
          CarriesComplete(respond, n, total);
        }
      }
    }
  }

  ghost predicate NeverComplete(respond: int -> Response) {
    forall n: nat :: !Complete(respond, n)
  }

  /** The first page announces at least k pages, as far as it has been seen. */
  ghost predicate Reaches(respond: int -> Response, k: int) {
    k == 1 || (1 < k && PageAt(respond, 1).Some? && k <= PageAt(respond, 1).value.totalPages)
  }

  lemma DisagreementIsFinal(respond: int -> Response, k: int)
    requires Reaches(respond, k) && !Agrees(respond, k)
    ensures NeverComplete(respond)
  {
    forall n: nat
      ensures !Complete(respond, n)
    {
    }
  }

  lemma {:induction false} RowsGrow(respond: int -> Response, m: nat, n: nat)
    requires m <= n
    ensures |RowsUpTo(respond, m)| <= |RowsUpTo(respond, n)|
  {
    if m < n {
      RowsGrow(respond, m, n - 1);
    }
  }

  /** The page announces no more than the collection may hold. */
  predicate WithinBounds(first: Page) {
    first.totalPages <= MAX_PAGES && (first.hasTotalItems ==> first.totalItems <= MAX_RECORDS)
  }

  /** All pages before the k-th agree and announce it, and the k-th has no pagination: the code takes
      this for the end of the collection, whatever the first page announced. */
  ghost predicate EndsUnpaginated(respond: int -> Response, k: nat) {
    && Reaches(respond, k) && (forall i :: 1 <= i < k ==> Agrees(respond, i))
    && (k > 1 ==> WithinBounds(PageAt(respond, 1).value))
    && PageAt(respond, k).Some? && !PageAt(respond, k).value.paginated
    && |RowsUpTo(respond, k)| <= MAX_RECORDS
  }

  lemma EndHasNoError(respond: int -> Response, k: nat, m: nat, error: FetchError)
    requires EndsUnpaginated(respond, k) && 1 <= m <= k
    ensures !FailsWith(respond, m, error)
  {
    RowsGrow(respond, m, k);
    if m < k {
      assert Agrees(respond, m);
    }
  }

  lemma EndDisagrees(respond: int -> Response, k: nat)
    requires EndsUnpaginated(respond, k)
    ensures 1 <= k && !Agrees(respond, k)
  {
  }

  ghost predicate NeverEnds(respond: int -> Response) {
    forall k: nat :: !EndsUnpaginated(respond, k)
  }

  /** An error at the m-th request is no end of this kind, and no such end precedes it. */
  lemma ErrorIsNoEnd(respond: int -> Response, m: nat, error: FetchError)
    requires FailsWith(respond, m, error) && 1 <= m && forall i :: 1 <= i < m ==> Agrees(respond, i)
    ensures NeverEnds(respond)
  {
    forall k: nat
      ensures !EndsUnpaginated(respond, k)
    {
      if EndsUnpaginated(respond, k) {
        EndDisagrees(respond, k);
        if m <= k {
          EndHasNoError(respond, k, m, error);
        }
      }
    }
  }

  lemma ErrorIsIncomplete(respond: int -> Response, m: nat, error: FetchError, n: nat)
    requires FailsWith(respond, m, error) && Reaches(respond, m)
    ensures !Complete(respond, n)
  {
    var agrees := Agrees(respond, m);
    if m <= n {
      RowsGrow(respond, m, n);
    }
  }

  /** After an error there is neither a complete collection nor an end of that kind. */
  lemma ErrorIsFinal(respond: int -> Response, m: nat, error: FetchError)
    requires FailsWith(respond, m, error) && Reaches(respond, m) && forall i :: 1 <= i < m ==> Agrees(respond, i)
    ensures NeverComplete(respond) && NeverEnds(respond)
  {
    ErrorIsNoEnd(respond, m, error);
    forall n: nat
      ensures !Complete(respond, n)
    {
      ErrorIsIncomplete(respond, m, error, n);
    }
  }

  /** What one request gives: a page to go on with, or the end of the collection. */
  method FetchPage(respond: int -> Response, k: nat, all: seq<Row>) returns (stop: Option<Fetched>, page: Page)
    requires k > 0 && Reaches(respond, k) && all == RowsUpTo(respond, k - 1) && |all| <= MAX_RECORDS
    requires forall i :: 1 <= i < k ==> Agrees(respond, i)
    ensures stop == None ==>
              && PageAt(respond, k) == Some(page)
              && (page.hasTotalItems ==> page.totalItems <= MAX_RECORDS)
              && |RowsUpTo(respond, k)| <= MAX_RECORDS
    ensures stop.Some? ==> stop.value.Failure? && NeverComplete(respond) && NeverEnds(respond)
    ensures stop.Some? ==>
              FailsWith(respond, k, stop.value.error) && (stop.value.tryAlternate <==> Alternate(respond, k))
  {
    page := Page([], 0, 0, 0, false, false);
    var response := respond(k);
    if !response.Ok? {
      if response.NetworkError? {
        ErrorIsFinal(respond, k, Transport);
        return Some(Failure(Transport, k == 1)), page;
      }
      ErrorIsFinal(respond, k, StatusError(response.code));
      return Some(Failure(StatusError(response.code), k == 1 && response.code == NOT_FOUND)), page;
    }
    var decoded := DecodePage(response.body);
    if decoded.Bad? {
      ErrorIsFinal(respond, k, Decoding(decoded.error));
      return Some(Failure(Decoding(decoded.error), false)), page;
    }
    page := decoded.page;
    if page.hasTotalItems && page.totalItems > MAX_RECORDS {
      ErrorIsFinal(respond, k, TooManyRecords);
      return Some(Failure(TooManyRecords, false)), page;
    }
    if |page.rows| > MAX_RECORDS - |all| {
      ErrorIsFinal(respond, k, TooManyRecords);
      return Some(Failure(TooManyRecords, false)), page;
    }
    return None, page;
  }

  /** Once every announced page agrees, only the row count can still be wrong. */
  lemma AllPagesAgree(respond: int -> Response, n: nat)
    requires 1 <= n <= MAX_PAGES && forall k :: 1 <= k <= n ==> Agrees(respond, k)
    requires PageAt(respond, 1).Some? && PageAt(respond, 1).value.totalPages == n
    requires |RowsUpTo(respond, n)| <= MAX_RECORDS
    ensures var first := PageAt(respond, 1).value;
            if first.hasTotalItems && |RowsUpTo(respond, n)| != first.totalItems
            then NeverComplete(respond) && FailsWith(respond, n, CountMismatch)
            else Complete(respond, n)
  {
    assert Agrees(respond, n);
  }

  predicate Announces(first: Page, pages: int, total: int, hasTotal: bool) {
    first.totalPages == pages && first.totalItems == total && first.hasTotalItems == hasTotal
  }

  /** The checks on a usable page. The first page sets what the others must agree with. */
  method CheckPage(respond: int -> Response, k: nat, page: Page, pages: int, total: int, hasTotal: bool)
      returns (error: Option<FetchError>, pages': int, total': int, hasTotal': bool)
    requires 1 <= k && Reaches(respond, k) && PageAt(respond, k) == Some(page) && page.paginated
    requires page.hasTotalItems ==> page.totalItems <= MAX_RECORDS
    requires forall i :: 1 <= i < k ==> Agrees(respond, i)
    requires k > 1 ==> PageAt(respond, 1).Some? && Announces(PageAt(respond, 1).value, pages, total, hasTotal)
    requires k > 1 ==> WithinBounds(PageAt(respond, 1).value)
    ensures error.Some? ==> FailsWith(respond, k, error.value) && NeverComplete(respond) && NeverEnds(respond)
    ensures error.Some? ==> error.value in {TooManyPages, Changed}
    ensures error == None ==>
              && Agrees(respond, k) && PageAt(respond, 1).Some? && WithinBounds(PageAt(respond, 1).value)
              && Announces(PageAt(respond, 1).value, pages', total', hasTotal') && pages' >= k
  {
    DecodedPageIsSound(respond(k).body);
    pages', total', hasTotal' := pages, total, hasTotal;
    if k == 1 {
      pages', total', hasTotal' := page.totalPages, page.totalItems, page.hasTotalItems;
      if pages' > MAX_PAGES {
        ErrorIsFinal(respond, k, TooManyPages);
        return Some(TooManyPages), pages', total', hasTotal';
      }
    }
    if page.number != k || page.totalPages != pages' || page.hasTotalItems != hasTotal'
       || (page.hasTotalItems && page.totalItems != total') {
      ErrorIsFinal(respond, k, Changed);
      return Some(Changed), pages', total', hasTotal';
    }
    error := None;
  }

  /** r is the right answer after n requests: rows that are complete or end with an unpaginated page,
      or an error after which there are none. */
  ghost predicate Answers(respond: int -> Response, r: Fetched, n: nat) {
    && 1 <= n && (forall k :: 1 <= k < n ==> Agrees(respond, k))
    && match r
       case Rows(rows) =>
         && rows == RowsUpTo(respond, n) && |rows| <= MAX_RECORDS && PageAt(respond, n).Some?
         && if PageAt(respond, n).value.paginated then Complete(respond, n)
            else EndsUnpaginated(respond, n) && NeverComplete(respond)
       case Failure(error, tryAlternate) =>
         && NeverComplete(respond) && NeverEnds(respond) && FailsWith(respond, n, error)
         && (tryAlternate <==> Alternate(respond, n))
  }

  /** What the loop knows of the first page once it has been seen. */
  ghost predicate Expected(respond: int -> Response, pages: int, total: int, hasTotal: bool) {
    && PageAt(respond, 1).Some? && WithinBounds(PageAt(respond, 1).value)
    && Announces(PageAt(respond, 1).value, pages, total, hasTotal)
  }

  /** One turn of the loop: an answer, or one more agreeing page. */
  method NextPage(respond: int -> Response, k: nat, all: seq<Row>, pages: int, total: int, hasTotal: bool)
      returns (stop: Option<Fetched>, all': seq<Row>, pages': int, total': int, hasTotal': bool)
    requires 1 <= k && Reaches(respond, k) && all == RowsUpTo(respond, k - 1) && |all| <= MAX_RECORDS
    requires forall i :: 1 <= i < k ==> Agrees(respond, i)
    requires k > 1 ==> Expected(respond, pages, total, hasTotal)
    ensures stop.Some? ==> Answers(respond, stop.value, k)
    ensures stop == None ==>
              && all' == RowsUpTo(respond, k) && |all'| <= MAX_RECORDS
              && Agrees(respond, k) && Expected(respond, pages', total', hasTotal') && k <= pages'
  {
    all', pages', total', hasTotal' := all, pages, total, hasTotal;
    var page;
    stop, page := FetchPage(respond, k, all);
    if stop.Some? {
      return;
    }
    all' := all + page.rows;
    if !page.paginated {
      DisagreementIsFinal(respond, k);
      stop := Some(Rows(all'));
      return;
    }
    // The decoder has refused a page whose number or page count is below one.
    DecodedPageIsSound(respond(k).body);
    assert page.number >= 1 && page.totalPages >= 1;
    var error;
    error, pages', total', hasTotal' := CheckPage(respond, k, page, pages, total, hasTotal);
    if error.Some? {
      stop := Some(Failure(error.value, false));
    }
  }

  /** The check of the row count, once all announced pages are there. */
  method CheckCount(respond: int -> Response, n: nat, all: seq<Row>, total: int, hasTotal: bool) returns (r: Fetched)
    requires 1 <= n <= MAX_PAGES && forall i :: 1 <= i <= n ==> Agrees(respond, i)
    requires Expected(respond, n, total, hasTotal) && all == RowsUpTo(respond, n) && |all| <= MAX_RECORDS
    ensures Answers(respond, r, n)
  {
    AllPagesAgree(respond, n);
    assert Agrees(respond, n);
    if hasTotal && |all| != total {
      ErrorIsFinal(respond, n, CountMismatch);
      return Failure(CountMismatch, false);
    }
    return Rows(all);
  }

  /** The collection loop. It ends after at most 32 requests. It gives the complete collection
      exactly when there is one; otherwise it fails, except that a page without pagination
      ends it with the rows so far. */
  method Fetch(respond: int -> Response) returns (r: Fetched, requests: nat)
    ensures 1 <= requests <= MAX_PAGES
    ensures forall k :: 1 <= k < requests ==> Agrees(respond, k)
    ensures r.Rows? ==> r.rows == RowsUpTo(respond, requests) && |r.rows| <= MAX_RECORDS
    ensures r.Rows? ==>
              && PageAt(respond, requests).Some?
              && if PageAt(respond, requests).value.paginated then Complete(respond, requests)
                 else EndsUnpaginated(respond, requests) && NeverComplete(respond)
    ensures r.Failure? ==> NeverComplete(respond) && NeverEnds(respond)
    ensures r.Failure? ==> FailsWith(respond, requests, r.error)
    ensures r.Failure? ==>
              (r.tryAlternate <==> requests == 1 && (respond(1) == NetworkError || respond(1) == Status(404)))
  {
    var all: seq<Row> := [];
    var expectedPages, expectedTotal, expectedHasTotal := 1, 0, false;
    var k := 1;
    while k <= expectedPages
      invariant 1 <= k <= expectedPages + 1 <= MAX_PAGES + 1
      invariant forall i :: 1 <= i < k ==> Agrees(respond, i)
      invariant k == 1 ==> expectedPages == 1
      invariant k > 1 ==> Expected(respond, expectedPages, expectedTotal, expectedHasTotal)
      invariant all == RowsUpTo(respond, k - 1) && |all| <= MAX_RECORDS
      decreases MAX_PAGES + 1 - k
    {
      var stop;
      stop, all, expectedPages, expectedTotal, expectedHasTotal :=
        NextPage(respond, k, all, expectedPages, expectedTotal, expectedHasTotal);
      if stop.Some? {
        return stop.value, k;
      }
      k := k + 1;
    }
    requests := k - 1;
    r := CheckCount(respond, requests, all, expectedTotal, expectedHasTotal);
  }

  // ---------------------------------------------------------------- an incomplete success

  /** Page 1 of 2 with one of two announced rows, and then an empty array. */
  function CutShort(): int -> Response {
    k => if k == 1 then Ok(Wrapped(Some(["a"]), None, None, Some(1), Some(1), Some(2), Some(2))) else Ok(Bare([]))
  }

  lemma CutShortEndsEarly()
    ensures EndsUnpaginated(CutShort(), 2) && NeverComplete(CutShort()) && RowsUpTo(CutShort(), 2) == ["a"]
    ensures PageAt(CutShort(), 1).Some? && PageAt(CutShort(), 1).value.totalItems == 2
  {
    var respond := CutShort();
    assert Agrees(respond, 1);
    assert RowsUpTo(respond, 1) == RowsUpTo(respond, 0) + ["a"];
    DisagreementIsFinal(respond, 2);
  }

  /** The collection reports success with one of the two rows that were announced. */
  method FetchCutShort() returns (r: Fetched, requests: nat)
    ensures r == Rows(["a"]) && requests == 2
  {
    CutShortEndsEarly();
    r, requests := Fetch(CutShort());
    assert !Agrees(CutShort(), 2) && PageAt(CutShort(), 1).value.paginated;
    assert !Complete(CutShort(), requests);
  }
}

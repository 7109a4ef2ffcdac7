/**
 * The chapter feed of one manga: the single-page request with its 10 000-item ceiling
 * (`loadChapters(mangaId, offset, limit)`) and the aggregator that fetches the first page,
 * derives how many tail pages remain and concatenates them in page order
 * (`loadChapters(mangaId)`).
 *
 * The HTTP call and the JSON parsing are replaced by an oracle `fetch` from a request
 * (offset and clamped limit) to the reply the server would give to the feed URL of that request.
 */
module Feed {
  import opened Wrappers
  import Text

  const FirstPageSize: int := 120
  const MaxPageSize: int := 500
  /** The hard ceiling on feed offsets; the server's declared totals are not trusted beyond it. */
  const MaxCount: int := 10000
  const ContentRating: string :=
    "contentRating[]=safe&contentRating[]=suggestive&contentRating[]=erotica&contentRating[]=pornographic"

  function Min(a: int, b: int): int {
    if a <= b then a else b
  }

  /** One request sent to the feed endpoint. */
  datatype Request = Request(offset: int, limit: int)

  /** The parsed JSON body: `result`, `data` (optional array), `total` and the `detail` of each error. */
  datatype Response<T> = Response(result: string, data: Option<seq<T>>, total: int, errors: seq<string>)

  /** What the HTTP collaborator gives back for one request. */
  datatype Reply<T> = Body(response: Response<T>) | TransportFailure(reason: string)

  /** A page of the feed: its items and the total the server declares (`Chapters`). */
  datatype Chapters<T> = Chapters(data: seq<T>, total: int)

  datatype FeedError =
    | RemoteError(message: string, url: string)   // ParseException: the server answered `result != "ok"`
    | TransportError(reason: string)              // passed through from the HTTP collaborator
    | NegativePageCount(pages: int)               // `List(pages)` refuses a negative size

  /** Where the feed lives and how the server answers it. */
  datatype Source<T> = Source(domain: string, mangaId: string, fetch: Request -> Reply<T>)

  /** The request the single-page loader sends, or `None` when the offset is at or past the ceiling. */
  function PageRequest(offset: int, limit: int): (r: Option<Request>)
    ensures r.None? <==> offset >= MaxCount
    ensures r.Some? ==> r.value.offset == offset && r.value.limit == Min(limit, MaxCount - offset)
    ensures r.Some? ==> r.value.offset + r.value.limit <= MaxCount
  {
    if offset >= MaxCount then None
    else if offset + limit > MaxCount then Some(Request(offset, MaxCount - offset))
    else Some(Request(offset, limit))
  }

  /** The URL of one feed request. */
  function FeedUrl(domain: string, mangaId: string, limit: int, offset: int): (r: string)
    ensures |r| > |FeedPrefix(domain, mangaId)| && r[..|FeedPrefix(domain, mangaId)|] == FeedPrefix(domain, mangaId)
    ensures Text.EndsWith(r, "&" + ContentRating)
  {
    FeedPrefix(domain, mangaId) + Text.IntText(limit) + ("&" + FeedMiddle) + Text.IntText(offset) + ("&" + ContentRating)
  }

  function FeedPrefix(domain: string, mangaId: string): string {
    "https://api." + domain + "/manga/" + mangaId + "/feed" + "?limit="
  }

  const FeedMiddle: string := "includes[]=scanlation_group&order[volume]=asc&order[chapter]=asc&offset="

  /** A number's text followed by text starting with '&' can be split back apart. */
  lemma NumberBeforeAmpersand(a1: int, a2: int, rest1: string, rest2: string)
    requires |rest1| > 0 && rest1[0] == '&' && |rest2| > 0 && rest2[0] == '&'
    requires Text.IntText(a1) + rest1 == Text.IntText(a2) + rest2
    ensures a1 == a2 && rest1 == rest2
  {
    var t1, t2 := Text.IntText(a1), Text.IntText(a2);
    NumberNotShorter(a1, a2, rest1, rest2);
    NumberNotShorter(a2, a1, rest2, rest1);
    assert t1 == (t1 + rest1)[..|t1|] == (t2 + rest2)[..|t2|] == t2;
    assert rest1 == (t1 + rest1)[|t1|..] == (t2 + rest2)[|t2|..] == rest2;
    Text.IntTextInjective(a1, a2);
  }

  lemma NumberNotShorter(a1: int, a2: int, rest1: string, rest2: string)
    requires |rest1| > 0 && rest1[0] == '&'
    requires Text.IntText(a1) + rest1 == Text.IntText(a2) + rest2
    ensures |Text.IntText(a1)| >= |Text.IntText(a2)|
  {
    FirstCharAfterShorter(Text.IntText(a1), rest1, Text.IntText(a2), rest2);
  }

  /** When `a + r == b + s` and `a` is the shorter, `r` continues with the next character of `b`. */
  lemma FirstCharAfterShorter(a: string, r: string, b: string, s: string)
    requires a + r == b + s
    ensures |a| < |b| && |r| > 0 ==> r[0] == b[|a|]
  {
    if |a| < |b| && |r| > 0 {
      assert (a + r)[|a|] == r[0];
      assert (b + s)[|a|] == b[|a|];
    }
  }

  /** A URL of the shape prefix, number, '&'-led middle, number, '&'-led tail determines both numbers. */
  lemma TwoNumbersDetermined(prefix: string, n1: int, m1: int, n2: int, m2: int, middleRest: string, tailRest: string)
    requires prefix + Text.IntText(n1) + ("&" + middleRest) + Text.IntText(m1) + ("&" + tailRest) ==
             prefix + Text.IntText(n2) + ("&" + middleRest) + Text.IntText(m2) + ("&" + tailRest)
    ensures n1 == n2 && m1 == m2
  {
    var middle, tail := "&" + middleRest, "&" + tailRest;
    var after1 := middle + (Text.IntText(m1) + tail);
    var after2 := middle + (Text.IntText(m2) + tail);
    Regroup(prefix, Text.IntText(n1), middle, Text.IntText(m1), tail);
    Regroup(prefix, Text.IntText(n2), middle, Text.IntText(m2), tail);
    DropCommonPrefix(prefix, Text.IntText(n1) + after1, Text.IntText(n2) + after2);
    NumberBeforeAmpersand(n1, n2, after1, after2);
    DropCommonPrefix(middle, Text.IntText(m1) + tail, Text.IntText(m2) + tail);
    NumberBeforeAmpersand(m1, m2, tail, tail);
  }

  /** Concatenation regrouped to the right, so that a common prefix can be dropped. */
  lemma Regroup(a: string, b: string, c: string, d: string, e: string)
    ensures a + b + c + d + e == a + (b + (c + (d + e)))
  {
  }

  lemma DropCommonPrefix(p: string, x: string, y: string)
    requires p + x == p + y
    ensures x == y
  {
    assert x == (p + x)[|p|..];
    assert y == (p + y)[|p|..];
  }

  /** The feed URL determines the request: different (limit, offset) pairs never share a URL. */
  lemma FeedUrlDeterminesRequest(domain: string, mangaId: string, limit1: int, offset1: int, limit2: int, offset2: int)
    requires FeedUrl(domain, mangaId, limit1, offset1) == FeedUrl(domain, mangaId, limit2, offset2)
    ensures limit1 == limit2 && offset1 == offset2
  {
    TwoNumbersDetermined(FeedPrefix(domain, mangaId), limit1, offset1, limit2, offset2, FeedMiddle, ContentRating);
  }

  /** Turns the server's reply into a page or the exception the source throws. */
  function Interpret<T>(reply: Reply<T>, url: string): (r: Result<Chapters<T>, FeedError>)
    ensures reply.TransportFailure? ==> r == Failure(TransportError(reply.reason))
    ensures reply.Body? ==> (r.Success? <==> reply.response.result == "ok")
    ensures reply.Body? && r.Success? ==>
      r.value.total == reply.response.total &&
      r.value.data == (if reply.response.data.Some? then reply.response.data.value else [])
    ensures reply.Body? && r.Failure? ==>
      r.error == RemoteError(Text.Join(reply.response.errors, "\n"), url)
  {
    match reply
    case TransportFailure(reason) => Failure(TransportError(reason))
    case Body(json) =>
      if json.result == "ok" then
        Success(Chapters(if json.data.Some? then json.data.value else [], json.total))
      else
        Failure(RemoteError(Text.Join(json.errors, "\n"), url))
  }

  /** `loadChapters(mangaId, offset, limit)`: one page of the feed. */
  function LoadPage<T>(src: Source<T>, offset: int, limit: int): (r: Result<Chapters<T>, FeedError>)
    ensures offset >= MaxCount ==> r == Success(Chapters([], MaxCount))
  {
    match PageRequest(offset, limit)
    case None => Success(Chapters([], MaxCount))
    case Some(rq) => Interpret(src.fetch(rq), FeedUrl(src.domain, src.mangaId, rq.limit, rq.offset))
  }

  /** The ceiling of `left / MaxPageSize`; taken to be what `toIntUp` computes, which agrees for
    * non-negative counts. */
  function CeilPages(left: int): (n: int)
    ensures MaxPageSize * (n - 1) < left <= MaxPageSize * n
  {
    (left + MaxPageSize - 1) / MaxPageSize
  }

  /** The number of tail pages after a first page of `size` items and a declared `total`. */
  function TailCount(total: int, size: nat): (n: int)
    ensures MaxPageSize * (n - 1) < Min(total, MaxCount) - size <= MaxPageSize * n
  {
    CeilPages(Min(total, MaxCount) - size)
  }

  function TailOffset(size: nat, p: nat): nat {
    p * MaxPageSize + size
  }

  /** The request tail page `p` sends. */
  function TailRequest(size: nat, p: nat): Request {
    Request(TailOffset(size, p), Min(MaxPageSize, MaxCount - TailOffset(size, p)))
  }

  /** Every tail page starts below the clamped total, so none of them takes the early empty exit. */
  lemma TailOffsetsBelowCeiling(total: int, size: nat, p: nat)
    requires p < TailCount(total, size)
    ensures TailOffset(size, p) < Min(total, MaxCount)
    ensures PageRequest(TailOffset(size, p), MaxPageSize) == Some(TailRequest(size, p))
  {
    var n := TailCount(total, size);
    assert MaxPageSize * p <= MaxPageSize * (n - 1);
  }

  /** Tail page offsets are contiguous: consecutive pages are exactly one full page apart. */
  lemma TailOffsetsContiguous(total: int, size: nat, p: nat)
    requires p + 1 < TailCount(total, size)
    ensures TailOffset(size, p) < TailOffset(size, p + 1)
    ensures TailOffset(size, p + 1) == TailOffset(size, p) + TailRequest(size, p).limit
  {
    TailOffsetsBelowCeiling(total, size, p + 1);
  }

  /** The tail pages, one per page index, each loaded with the full page size. */
  function TailPages<T>(src: Source<T>, size: nat, n: nat): (pages: seq<Result<Chapters<T>, FeedError>>)
    ensures |pages| == n
    ensures forall p :: 0 <= p < n ==> pages[p] == LoadPage(src, TailOffset(size, p), MaxPageSize)
  {
    seq(n, p requires 0 <= p < n => LoadPage(src, TailOffset(size, p), MaxPageSize))
  }

  function DataOf<T>(page: Result<Chapters<T>, FeedError>): seq<T> {
    if page.Success? then page.value.data else []
  }

  /** The requests of the first `n` tail pages. */
  function TailRequests(size: nat, n: nat): (rqs: seq<Request>)
    ensures |rqs| == n
    ensures forall p :: 0 <= p < n ==> rqs[p] == TailRequest(size, p)
  {
    seq(n, p requires 0 <= p < n => TailRequest(size, p))
  }

  /** The items of the loaded pages, in page-index order. */
  function Flatten<T>(pages: seq<Result<Chapters<T>, FeedError>>): seq<T> {
    if pages == [] then [] else Flatten(pages[..|pages| - 1]) + DataOf(pages[|pages| - 1])
  }

  /** `awaitAll` followed by `flatMapTo`: the pages' items appended to `acc` in page-index order,
    * or the error of the first failed page. */
  function Merge<T>(acc: seq<T>, pages: seq<Result<Chapters<T>, FeedError>>): (r: Result<seq<T>, FeedError>)
    ensures r.Success? <==> forall p :: 0 <= p < |pages| ==> pages[p].Success?
    ensures r.Success? ==> r.value == acc + Flatten(pages)
  {
    if pages == [] then Success(acc)
    else
      var last := pages[|pages| - 1];
      match Merge(acc, pages[..|pages| - 1])
      case Failure(e) => Failure(e)
      case Success(items) =>
        if last.Failure? then Failure(last.error) else Success(items + last.value.data)
  }

  /** The outcome of `loadChapters(mangaId)`. */
  function Aggregate<T>(src: Source<T>): Result<seq<T>, FeedError> {
    AggregateAfter(src, LoadPage(src, 0, FirstPageSize))
  }

  /** What the aggregator makes of a given first page. */
  function AggregateAfter<T>(src: Source<T>, firstPage: Result<Chapters<T>, FeedError>): Result<seq<T>, FeedError> {
    match firstPage
    case Failure(e) => Failure(e)
    case Success(first) =>
      if |first.data| >= first.total then Success(first.data)
      else
        var n := TailCount(first.total, |first.data|);
        if n < 0 then Failure(NegativePageCount(n))
        else Merge(first.data, TailPages(src, |first.data|, n))
  }

  /** The requests `loadChapters(mangaId)` sends, in page-index order. */
  function Requests<T>(src: Source<T>): seq<Request> {
    [Request(0, FirstPageSize)] + RequestsAfter(LoadPage(src, 0, FirstPageSize))
  }

  /** The tail requests sent after a given first page. */
  function RequestsAfter<T>(firstPage: Result<Chapters<T>, FeedError>): seq<Request> {
    match firstPage
    case Failure(_) => []
    case Success(first) =>
      if |first.data| >= first.total then []
      else
        var n := TailCount(first.total, |first.data|);
        if n < 0 then [] else TailRequests(|first.data|, n)
  }

  /**
   * `loadChapters(mangaId)`: loads the first page, then every tail page, and concatenates
   * the items. Also returns the requests it sent, in page-index order.
   */
  method LoadChapters<T>(src: Source<T>) returns (r: Result<seq<T>, FeedError>, sent: seq<Request>)
    ensures r == Aggregate(src)
    ensures sent == Requests(src)
  {
    var firstRequest := PageRequest(0, FirstPageSize);
    sent := [firstRequest.value];
    var firstPage := LoadPage(src, 0, FirstPageSize);
    assert Requests(src) == [Request(0, FirstPageSize)] + RequestsAfter(firstPage);
    assert Aggregate(src) == AggregateAfter(src, firstPage);
    if firstPage.Failure? {
      return Failure(firstPage.error), sent;
    }
    var first := firstPage.value;
    if |first.data| >= first.total {
      return Success(first.data), sent;
    }
    var size := |first.data|;
    var leftCount := Min(first.total, MaxCount) - size;
    var pages := CeilPages(leftCount);
    assert pages == TailCount(first.total, size);
    if pages < 0 {
      return Failure(NegativePageCount(pages)), sent;
    }
    var tail, tailSent := LaunchTail(src, first.total, size, pages);
    sent := sent + tailSent;
    r := AwaitAll(first.data, tail);
  }

  /** Starts one load per tail page (`List(pages) { async { ... } }`); result `p` belongs to page `p`. */
  method LaunchTail<T>(src: Source<T>, total: int, size: nat, pages: nat)
    returns (tail: seq<Result<Chapters<T>, FeedError>>, sent: seq<Request>)
    requires pages <= TailCount(total, size)
    ensures tail == TailPages(src, size, pages)
    ensures sent == TailRequests(size, pages)
  {
    tail, sent := [], [];
    var page := 0;
    while page < pages
      invariant 0 <= page <= pages
      invariant tail == TailPages(src, size, page)
      invariant sent == TailRequests(size, page)
    {
      var result, request := LoadTailPage(src, total, size, page);
      sent := sent + [request];
      tail := tail + [result];
      TailPagesSnoc(src, size, page);
      TailRequestsSnoc(size, page);
      page := page + 1;
    }
  }

  lemma TailPagesSnoc<T>(src: Source<T>, size: nat, n: nat)
    ensures TailPages(src, size, n + 1) == TailPages(src, size, n) + [LoadPage(src, TailOffset(size, n), MaxPageSize)]
  {
  }

  lemma TailRequestsSnoc(size: nat, n: nat)
    ensures TailRequests(size, n + 1) == TailRequests(size, n) + [TailRequest(size, n)]
  {
  }

  /** One tail page: `loadChapters(mangaId, page * 500 + size, 500)`, with the request it sends. */
  method LoadTailPage<T>(src: Source<T>, total: int, size: nat, page: nat)
    returns (result: Result<Chapters<T>, FeedError>, request: Request)
    requires page < TailCount(total, size)
    ensures result == LoadPage(src, TailOffset(size, page), MaxPageSize)
    ensures request == TailRequest(size, page)
  {
    var offset := page * MaxPageSize + size;
    TailOffsetsBelowCeiling(total, size, page);
    var sent := PageRequest(offset, MaxPageSize);
    request := sent.value;
    result := LoadPage(src, offset, MaxPageSize);
  }

  /** `awaitAll` and `flatMapTo`: appends the pages' items to `acc` in page-index order,
    * failing as soon as a page has failed. */
  method AwaitAll<T>(acc: seq<T>, tail: seq<Result<Chapters<T>, FeedError>>) returns (r: Result<seq<T>, FeedError>)
    ensures r == Merge(acc, tail)
  {
    var result := acc;
    var q := 0;
    while q < |tail|
      invariant 0 <= q <= |tail|
      invariant Merge(acc, tail[..q]) == Success(result)
    {
      assert tail[..q + 1][..q] == tail[..q];
      if tail[q].Failure? {
        assert Merge(acc, tail[..q + 1]) == Failure(tail[q].error);
        MergeFailureSticks(acc, tail, q + 1);
        return Failure(tail[q].error);
      }
      result := result + tail[q].value.data;
      q := q + 1;
    }
    assert tail[..q] == tail;
    r := Success(result);
  }

  /** Page `p` is the lowest-indexed failed page, and it failed with `e`. */
  predicate FirstFailureAt<T>(pages: seq<Result<Chapters<T>, FeedError>>, p: int, e: FeedError) {
    0 <= p < |pages| && pages[p] == Failure(e) && forall q :: 0 <= q < p ==> pages[q].Success?
  }

  /** A failed merge reports the error of the lowest-indexed failed page. */
  lemma {:induction false} MergeReportsFirstFailure<T>(acc: seq<T>, pages: seq<Result<Chapters<T>, FeedError>>)
    requires Merge(acc, pages).Failure?
    ensures exists p :: FirstFailureAt(pages, p, Merge(acc, pages).error)
  {
    var init := pages[..|pages| - 1];
    var e := Merge(acc, pages).error;
    if Merge(acc, init).Failure? {
      assert Merge(acc, init).error == e;
      MergeReportsFirstFailure(acc, init);
      var p :| FirstFailureAt(init, p, e);
      assert pages[p] == init[p];
      assert forall q :: 0 <= q < p ==> pages[q] == init[q];
      assert FirstFailureAt(pages, p, e);
    } else {
      assert forall q :: 0 <= q < |init| ==> pages[q] == init[q];
      assert FirstFailureAt(pages, |pages| - 1, e);
    }
  }

  /** Once a prefix of the pages fails, the whole merge fails with the same error. */
  lemma {:induction false} MergeFailureSticks<T>(acc: seq<T>, pages: seq<Result<Chapters<T>, FeedError>>, k: nat)
    requires k <= |pages|
    requires Merge(acc, pages[..k]).Failure?
    ensures Merge(acc, pages) == Merge(acc, pages[..k])
    decreases |pages| - k
  {
    if k < |pages| {
      assert pages[..k + 1][..k] == pages[..k];
      MergeFailureSticks(acc, pages, k + 1);
    } else {
      assert pages[..k] == pages;
    }
  }

  // ----- Properties of the aggregation -----

  /** When the first page already holds the declared total, it is the whole result and no other page is requested. */
  lemma FirstPageSuffices<T>(src: Source<T>)
    requires LoadPage(src, 0, FirstPageSize).Success?
    requires |LoadPage(src, 0, FirstPageSize).value.data| >= LoadPage(src, 0, FirstPageSize).value.total
    ensures Aggregate(src) == Success(LoadPage(src, 0, FirstPageSize).value.data)
    ensures Requests(src) == [Request(0, FirstPageSize)]
  {
  }

  /**
   * Otherwise the tail requests start right after the first page, are one full page apart,
   * stay below the clamped total and never cross the ceiling.
   */
  lemma TailRequestsLayout<T>(src: Source<T>, p: nat)
    requires LoadPage(src, 0, FirstPageSize).Success?
    requires var first := LoadPage(src, 0, FirstPageSize).value;
      |first.data| < first.total && p < TailCount(first.total, |first.data|)
    ensures var first := LoadPage(src, 0, FirstPageSize).value;
      var rq := Requests(src)[p + 1];
      |Requests(src)| == 1 + TailCount(first.total, |first.data|) &&
      rq.offset == |first.data| + p * MaxPageSize &&
      rq.offset < Min(first.total, MaxCount) &&
      0 < rq.limit <= MaxPageSize && rq.offset + rq.limit <= MaxCount &&
      (p > 0 ==> rq.offset == Requests(src)[p].offset + MaxPageSize)
  {
    var first := LoadPage(src, 0, FirstPageSize).value;
    TailOffsetsBelowCeiling(first.total, |first.data|, p);
  }

  /** The example of a declared total of 1000 with a full first page: three requests in all. */
  lemma ThousandItemsTakeThreeRequests<T>(src: Source<T>)
    requires LoadPage(src, 0, FirstPageSize).Success?
    requires |LoadPage(src, 0, FirstPageSize).value.data| == 120
    requires LoadPage(src, 0, FirstPageSize).value.total == 1000
    ensures Requests(src) == [Request(0, 120), Request(120, 500), Request(620, 500)]
  {
    assert TailCount(1000, 120) == 2;
    assert TailRequests(120, 2) == [Request(120, 500), Request(620, 500)];
  }

  /** The slice of an honest feed the server returns for a request. */
  function Window<T>(all: seq<T>, rq: Request): seq<T> {
    if 0 <= rq.offset <= |all| && rq.limit >= 0 then all[rq.offset..Min(|all|, rq.offset + rq.limit)] else []
  }

  /** A server that answers every request with the matching slice of `all` and its true length. */
  ghost predicate Honest<T>(src: Source<T>, all: seq<T>) {
    forall rq :: src.fetch(rq) == Body(Response("ok", Some(Window(all, rq)), |all|, []))
  }

  /** Adjacent slices of a sequence join into one slice. */
  lemma SliceConcat<T>(s: seq<T>, a: nat, b: nat, c: nat)
    requires a <= b <= c <= |s|
    ensures s[a..b] + s[b..c] == s[a..c]
  {
  }

  /** An honest server answers a page below the clamped length with the next slice of the feed. */
  lemma HonestPage<T>(src: Source<T>, all: seq<T>, offset: nat)
    requires Honest(src, all)
    requires offset < Min(|all|, MaxCount)
    ensures LoadPage(src, offset, MaxPageSize) ==
      Success(Chapters(all[offset..Min(Min(|all|, MaxCount), offset + MaxPageSize)], |all|))
  {
    var rq := Request(offset, Min(MaxPageSize, MaxCount - offset));
    assert src.fetch(rq) == Body(Response("ok", Some(Window(all, rq)), |all|, []));
    assert Min(|all|, offset + rq.limit) == Min(Min(|all|, MaxCount), offset + MaxPageSize);
  }

  /** Pages that each hold the next slice of the feed concatenate to the run of the feed they cover. */
  lemma {:induction false} ContiguousPagesFlatten<T>(pages: seq<Result<Chapters<T>, FeedError>>, all: seq<T>, size: nat, m: nat, k: nat)
    requires m <= |all| && size < m
    requires k <= |pages|
    requires forall p :: 0 <= p < |pages| ==> TailOffset(size, p) < m
    requires forall p :: 0 <= p < |pages| ==>
      pages[p] == Success(Chapters(all[TailOffset(size, p)..Min(m, TailOffset(size, p) + MaxPageSize)], |all|))
    ensures Flatten(pages[..k]) == all[size..Min(m, TailOffset(size, k))]
  {
    if k == 0 {
      assert pages[..0] == [];
    } else {
      ContiguousPagesFlatten(pages, all, size, m, k - 1);
      var offset := TailOffset(size, k - 1);
      assert TailOffset(size, k) == offset + MaxPageSize;
      var upTo := Min(m, offset + MaxPageSize);
      assert pages[..k][..k - 1] == pages[..k - 1];
      assert Flatten(pages[..k]) == Flatten(pages[..k - 1]) + all[offset..upTo];
      SliceConcat(all, size, offset, upTo);
    }
  }

  /**
   * Against an honest server the aggregate is the feed itself, in feed order, cut at the ceiling:
   * fetching in pages neither loses, repeats nor reorders items.
   */
  lemma HonestFeedAggregatesInOrder<T>(src: Source<T>, all: seq<T>)
    requires Honest(src, all)
    ensures Aggregate(src) == Success(all[..Min(|all|, MaxCount)])
  {
    HonestFirstPage(src, all);
    if |all| > FirstPageSize {
      HonestTail(src, all);
    } else {
      assert all[..Min(|all|, FirstPageSize)] == all;
    }
  }

  lemma HonestFirstPage<T>(src: Source<T>, all: seq<T>)
    requires Honest(src, all)
    ensures LoadPage(src, 0, FirstPageSize) == Success(Chapters(all[..Min(|all|, FirstPageSize)], |all|))
  {
    var rq := Request(0, FirstPageSize);
    assert src.fetch(rq) == Body(Response("ok", Some(Window(all, rq)), |all|, []));
  }

  /** Past a full first page, an honest server's tail pages complete the feed up to the ceiling. */
  lemma HonestTail<T>(src: Source<T>, all: seq<T>)
    requires Honest(src, all)
    requires |all| > FirstPageSize
    ensures Merge(all[..FirstPageSize], TailPages(src, FirstPageSize, TailCount(|all|, FirstPageSize)))
      == Success(all[..Min(|all|, MaxCount)])
  {
    var n := TailCount(|all|, FirstPageSize);
    var m := Min(|all|, MaxCount);
    var pages := TailPages(src, FirstPageSize, n);
    HonestTailPages(src, all);
    ContiguousPagesFlatten(pages, all, FirstPageSize, m, n);
    assert pages[..n] == pages;
    assert Min(m, TailOffset(FirstPageSize, n)) == m;
    SliceConcat(all, 0, FirstPageSize, m);
    assert all[0..FirstPageSize] == all[..FirstPageSize] && all[0..m] == all[..m];
  }

  /** Each tail page of an honest server is the slice of the feed at its offset. */
  lemma HonestTailPages<T>(src: Source<T>, all: seq<T>)
    requires Honest(src, all)
    requires |all| > FirstPageSize
    ensures var n := TailCount(|all|, FirstPageSize);
      var m := Min(|all|, MaxCount);
      var pages := TailPages(src, FirstPageSize, n);
      forall p :: 0 <= p < n ==>
        TailOffset(FirstPageSize, p) < m &&
        pages[p] == Success(Chapters(all[TailOffset(FirstPageSize, p)..Min(m, TailOffset(FirstPageSize, p) + MaxPageSize)], |all|))
  {
    var n := TailCount(|all|, FirstPageSize);
    forall p | 0 <= p < n
      ensures TailOffset(FirstPageSize, p) < Min(|all|, MaxCount)
      ensures LoadPage(src, TailOffset(FirstPageSize, p), MaxPageSize) ==
        Success(Chapters(all[TailOffset(FirstPageSize, p)..Min(Min(|all|, MaxCount), TailOffset(FirstPageSize, p) + MaxPageSize)], |all|))
    {
      TailOffsetsBelowCeiling(|all|, FirstPageSize, p);
      HonestPage(src, all, TailOffset(FirstPageSize, p));
    }
  }

  /** A server that never returns more items than a request asks for. */
  ghost predicate Bounded<T>(src: Source<T>) {
    forall rq :: src.fetch(rq).Body? && src.fetch(rq).response.data.Some? ==>
      |src.fetch(rq).response.data.value| <= rq.limit
  }

  /** Pages each within their request's limit hold, together, at most `k` full pages and
    * never reach past the ceiling. */
  lemma {:induction false} BoundedPagesFlatten<T>(pages: seq<Result<Chapters<T>, FeedError>>, size: nat, k: nat)
    requires size <= MaxCount
    requires k <= |pages|
    requires forall p :: 0 <= p < |pages| ==> TailOffset(size, p) < MaxCount
    requires forall p :: 0 <= p < |pages| ==> |DataOf(pages[p])| <= TailRequest(size, p).limit
    ensures |Flatten(pages[..k])| <= k * MaxPageSize && |Flatten(pages[..k])| <= MaxCount - size
  {
    if k == 0 {
      assert pages[..0] == [];
    } else {
      BoundedPagesFlatten(pages, size, k - 1);
      assert pages[..k][..k - 1] == pages[..k - 1];
      assert |Flatten(pages[..k])| == |Flatten(pages[..k - 1])| + |DataOf(pages[k - 1])|;
    }
  }

  /** However large the declared total, the aggregate never holds more than the ceiling's worth of items. */
  lemma CeilingBoundsAggregate<T>(src: Source<T>)
    requires Bounded(src)
    requires Aggregate(src).Success?
    ensures |Aggregate(src).value| <= MaxCount
  {
    var first := LoadPage(src, 0, FirstPageSize).value;
    assert |first.data| <= FirstPageSize;
    if |first.data| < first.total {
      BoundedTail(src, first.total, |first.data|);
    }
  }

  /** The tail pages of a bounded server fit between the first page and the ceiling. */
  lemma BoundedTail<T>(src: Source<T>, total: int, size: nat)
    requires Bounded(src)
    requires size <= FirstPageSize && size < total
    ensures |Flatten(TailPages(src, size, TailCount(total, size)))| <= MaxCount - size
  {
    var n := TailCount(total, size);
    var pages := TailPages(src, size, n);
    forall p | 0 <= p < n
      ensures TailOffset(size, p) < MaxCount
      ensures |DataOf(pages[p])| <= TailRequest(size, p).limit
    {
      TailOffsetsBelowCeiling(total, size, p);
      var rq := TailRequest(size, p);
      assert pages[p] == Interpret(src.fetch(rq), FeedUrl(src.domain, src.mangaId, rq.limit, rq.offset));
    }
    BoundedPagesFlatten(pages, size, n);
    assert pages[..n] == pages;
  }

  /** A bounded server's first page holds at most 120 items, so whenever a tail is needed the
    * count left below the ceiling is positive and the aggregate never fails on a negative page count. */
  lemma BoundedServerNeverNegativeCount<T>(src: Source<T>)
    requires Bounded(src)
    ensures Aggregate(src).Failure? ==> !Aggregate(src).error.NegativePageCount?
  {
    var firstPage := LoadPage(src, 0, FirstPageSize);
    if firstPage.Success? && |firstPage.value.data| < firstPage.value.total {
      var first := firstPage.value;
      assert |first.data| <= FirstPageSize;
      var n := TailCount(first.total, |first.data|);
      assert n >= 1;
      var pages := TailPages(src, |first.data|, n);
      if Merge(first.data, pages).Failure? {
        MergeReportsFirstFailure(first.data, pages);
        var p :| FirstFailureAt(pages, p, Merge(first.data, pages).error);
        TailOffsetsBelowCeiling(first.total, |first.data|, p);
      }
    }
  }
}

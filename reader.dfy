/**
 * The library reader: dividing a processed work into pages, showing one page,
 * the page number kept in the URL, the previous/next buttons and the label of
 * a chunk.
 *
 * A page starts at every chunk whose id differs from the id of the chunk that
 * started the previous page at some position other than the last one. Array
 * reads past the end are JavaScript `undefined`, written here as `None`.
 */
module Reader {
  import opened Wrappers
  import opened Strings
  import opened Xml

  datatype DocumentInfo = DocumentInfo(
    title: string, author: string, editor: Option<string>, funder: Option<string>, sponsor: Option<string>)

  /** A chunk of text: its id (one number per text part) and its markup. */
  datatype Chunk = Chunk(id: seq<int>, root: Node)

  datatype ProcessedWork = ProcessedWork(info: DocumentInfo, textParts: seq<string>, chunks: seq<Chunk>)

  datatype PaginatedWork = PaginatedWork(
    info: DocumentInfo, textParts: seq<string>, chunks: seq<Chunk>, pageStarts: seq<int>)

  /** `s[i]`: `undefined` outside the array. */
  function At(s: seq<int>, i: int): (r: Option<int>)
    ensures r.Some? <==> 0 <= i < |s|
    ensures r.Some? ==> r.value == s[i]
  {
    if 0 <= i < |s| then Some(s[i]) else None
  }

  // ---------------------------------------------------------------------------
  // Dividing into pages

  /** The inner loop's verdict: `id` agrees with `last` at every position but the last
      one of `last`; a position the id does not have never agrees. */
  predicate MatchesLast(last: seq<int>, id: seq<int>) {
    forall k :: 0 <= k < |last| - 1 ==> At(id, k) == Some(last[k])
  }

  /** The state of `dividePages` after some chunks: the page starts so far and the id
      they are compared against (`lastPageIndex`). */
  datatype Division = Division(starts: seq<int>, last: seq<int>)

  /** `dividePages` after the first `n` chunks. */
  function DivideUpTo(textParts: seq<string>, chunks: seq<Chunk>, n: nat): Division
    requires n <= |chunks|
  {
    if n == 0 then Division([], seq(|textParts|, _ => -1))
    else
      var prev := DivideUpTo(textParts, chunks, n - 1);
      if MatchesLast(prev.last, chunks[n - 1].id) then prev
      else Division(prev.starts + [n - 1], chunks[n - 1].id)
  }

  /** The page starts of a work: those found by the loop, then the number of chunks.
      They increase strictly and end with the number of chunks, so none exceeds it. */
  function PageStarts(work: ProcessedWork): (ps: seq<int>)
    ensures StrictlyIncreasing(ps)
    ensures |ps| >= 1 && ps[|ps| - 1] == |work.chunks|
    ensures forall k :: 0 <= k < |ps| ==> 0 <= ps[k] <= |work.chunks|
  {
    DivideUpToStarts(work.textParts, work.chunks, |work.chunks|);
    DivideUpTo(work.textParts, work.chunks, |work.chunks|).starts + [|work.chunks|]
  }

  /** `dividePages`: the work with its page starts added. */
  method DividePages(work: ProcessedWork) returns (r: PaginatedWork)
    ensures r.info == work.info && r.textParts == work.textParts && r.chunks == work.chunks
    ensures r.pageStarts == PageStarts(work)
  {
    var pageStarts: seq<int> := [];
    var lastPageIndex: seq<int> := seq(|work.textParts|, _ => -1);
    for i := 0 to |work.chunks|
      invariant DivideUpTo(work.textParts, work.chunks, i) == Division(pageStarts, lastPageIndex)
    {
      var chunk := work.chunks[i];
      var matchesLast := true;
      var j := 0;
      while j < |lastPageIndex| - 1
        invariant 0 <= j && (j <= |lastPageIndex| - 1 || j == 0)
        invariant matchesLast <==> forall k :: 0 <= k < j ==> At(chunk.id, k) == Some(lastPageIndex[k])
        decreases |lastPageIndex| - j
      {
        if At(chunk.id, j) != Some(lastPageIndex[j]) {
          matchesLast := false;
        }
        j := j + 1;
      }
      if !matchesLast {
        pageStarts := pageStarts + [i];
        lastPageIndex := chunk.id;
      }
    }
    pageStarts := pageStarts + [|work.chunks|];
    r := PaginatedWork(work.info, work.textParts, work.chunks, pageStarts);
  }

  predicate StrictlyIncreasing(s: seq<int>) {
    forall a, b :: 0 <= a < b < |s| ==> s[a] < s[b]
  }

  /** The starts found after `n` chunks are increasing chunk indices below `n`. */
  lemma {:induction false} DivideUpToStarts(textParts: seq<string>, chunks: seq<Chunk>, n: nat)
    requires n <= |chunks|
    ensures var s := DivideUpTo(textParts, chunks, n).starts;
            StrictlyIncreasing(s) && forall k :: 0 <= k < |s| ==> 0 <= s[k] < n
  {
    if n > 0 {
      DivideUpToStarts(textParts, chunks, n - 1);
    }
  }

  /** After `n` chunks, chunk `i < n` is a page start exactly when its id does not match
      the id that was current when it was reached. */
  lemma {:induction false} StartIffDiffers(textParts: seq<string>, chunks: seq<Chunk>, n: nat, i: nat)
    requires i < n <= |chunks|
    ensures i in DivideUpTo(textParts, chunks, n).starts
            <==> !MatchesLast(DivideUpTo(textParts, chunks, i).last, chunks[i].id)
  {
    DivideUpToStarts(textParts, chunks, n - 1);
    if n - 1 > i {
      StartIffDiffers(textParts, chunks, n - 1, i);
    }
  }

  /** The id the loop compares against after `n` chunks is that of the latest page start
      so far, or all -1 before the first one. */
  lemma {:induction false} LastIsLastStart(textParts: seq<string>, chunks: seq<Chunk>, n: nat)
    requires n <= |chunks|
    ensures var d := DivideUpTo(textParts, chunks, n);
            d.starts == [] ==> d.last == seq(|textParts|, _ => -1)
    ensures var d := DivideUpTo(textParts, chunks, n);
            d.starts != [] ==> var s := d.starts[|d.starts| - 1];
                               0 <= s < n && d.last == chunks[s].id
  {
    if n > 0 {
      LastIsLastStart(textParts, chunks, n - 1);
    }
  }

  /** The starts found after `i` chunks are the first starts found after `n >= i` chunks;
      every later one is at least `i`. */
  lemma {:induction false} StartsPrefix(textParts: seq<string>, chunks: seq<Chunk>, i: nat, n: nat)
    requires i <= n <= |chunks|
    ensures var a := DivideUpTo(textParts, chunks, i).starts;
            var b := DivideUpTo(textParts, chunks, n).starts;
            && a <= b
            && forall k :: |a| <= k < |b| ==> b[k] >= i
  {
    if i < n {
      StartsPrefix(textParts, chunks, i, n - 1);
    }
  }

  /** Chunk `i` starts a page exactly when its id differs, at some position of the id of
      the latest page start `j` before it other than its last, from that id. */
  lemma PageStartIff(work: ProcessedWork, i: nat, j: nat)
    requires i < |work.chunks|
    requires j < i && j in PageStarts(work)
    requires forall k :: 0 <= k < |PageStarts(work)| && PageStarts(work)[k] < i ==> PageStarts(work)[k] <= j
    ensures i in PageStarts(work) <==> !MatchesLast(work.chunks[j].id, work.chunks[i].id)
  {
    var tp, cs := work.textParts, work.chunks;
    var ps := PageStarts(work);
    var before := DivideUpTo(tp, cs, i).starts;
    var all := DivideUpTo(tp, cs, |cs|).starts;
    StartIffDiffers(tp, cs, |cs|, i);
    StartsPrefix(tp, cs, i, |cs|);
    DivideUpToStarts(tp, cs, |cs|);
    LastIsLastStart(tp, cs, i);
    assert i in ps <==> i in all;
    assert j in all;
    var kj :| 0 <= kj < |all| && all[kj] == j;
    assert kj < |before| && before[kj] == j;
    var s := before[|before| - 1];
    assert all[|before| - 1] == s && s < i;
    assert ps[|before| - 1] == s;
    assert s == j;
  }

  /** Before the first page start, chunk `i` starts a page exactly when its id differs from
      the all -1 id at some position other than the last. */
  lemma PageStartIffNoEarlier(work: ProcessedWork, i: nat)
    requires i < |work.chunks|
    requires forall k :: 0 <= k < |PageStarts(work)| ==> PageStarts(work)[k] >= i
    ensures i in PageStarts(work)
            <==> !MatchesLast(seq(|work.textParts|, _ => -1), work.chunks[i].id)
  {
    var tp, cs := work.textParts, work.chunks;
    var ps := PageStarts(work);
    var before := DivideUpTo(tp, cs, i).starts;
    StartIffDiffers(tp, cs, |cs|, i);
    StartsPrefix(tp, cs, i, |cs|);
    LastIsLastStart(tp, cs, i);
    DivideUpToStarts(tp, cs, i);
    assert ps[0] >= i;
    assert before == [];
  }

  /** With at most one text part nothing is ever compared, so the only page start is the
      number of chunks. */
  lemma {:induction false} SinglePartNoStarts(textParts: seq<string>, chunks: seq<Chunk>, n: nat)
    requires |textParts| <= 1 && n <= |chunks|
    ensures DivideUpTo(textParts, chunks, n) == Division([], seq(|textParts|, _ => -1))
  {
    if n > 0 {
      SinglePartNoStarts(textParts, chunks, n - 1);
    }
  }

  lemma SinglePartOnePage(work: ProcessedWork)
    requires |work.textParts| <= 1
    ensures PageStarts(work) == [|work.chunks|]
  {
    SinglePartNoStarts(work.textParts, work.chunks, |work.chunks|);
  }

  /** With two or more parts the first chunk starts page 0, unless its first id number
      is -1, the value the comparison starts from. */
  lemma FirstChunkStartsPage(work: ProcessedWork)
    requires |work.textParts| >= 2 && |work.chunks| >= 1
    requires At(work.chunks[0].id, 0) != Some(-1)
    ensures PageStarts(work)[0] == 0
  {
    var first := DivideUpTo(work.textParts, work.chunks, 0);
    assert !MatchesLast(first.last, work.chunks[0].id) by {
      assert first.last[0] == -1;
    }
    StartIffDiffers(work.textParts, work.chunks, |work.chunks|, 0);
    var ps := PageStarts(work);
    var starts := DivideUpTo(work.textParts, work.chunks, |work.chunks|).starts;
    assert 0 in starts;
    var k :| 0 <= k < |starts| && starts[k] == 0;
    assert ps[k] == 0;
  }

  // ---------------------------------------------------------------------------
  // Showing a page

  /** `Array.prototype.slice`'s reading of one bound: `undefined` gives the default,
      a negative index counts from the end, and the result is clamped to the array. */
  function SliceBound(x: Option<int>, len: nat, default: nat): (r: nat)
    requires default <= len
    ensures r <= len
  {
    match x
    case None => default
    case Some(v) => if v < 0 then (if len + v < 0 then 0 else len + v) else if v > len then len else v
  }

  /** `s.slice(start, end)`. */
  function Slice<T>(s: seq<T>, start: Option<int>, end: Option<int>): (r: seq<T>)
    ensures var a := SliceBound(start, |s|, 0);
            var b := SliceBound(end, |s|, |s|);
            r == if a <= b then s[a..b] else []
  {
    var a := SliceBound(start, |s|, 0);
    var b := SliceBound(end, |s|, |s|);
    if a <= b then s[a..b] else []
  }

  datatype PageView = WorkInfoView(info: DocumentInfo) | ChunksView(chunks: seq<Chunk>)

  /** `WorkTextPage`: page -1 is the work's information; page `p` otherwise shows
      `chunks.slice(pageStarts[p], pageStarts[p + 1])`. */
  function WorkTextPage(work: PaginatedWork, page: int): (v: PageView)
    ensures v.WorkInfoView? <==> page == -1
    ensures v.WorkInfoView? ==> v.info == work.info
  {
    if page == -1 then WorkInfoView(work.info)
    else ChunksView(Slice(work.chunks, At(work.pageStarts, page), At(work.pageStarts, page + 1)))
  }

  /** The work carries the page starts `dividePages` computes for it. */
  predicate Paginated(work: PaginatedWork) {
    work.pageStarts == PageStarts(ProcessedWork(work.info, work.textParts, work.chunks))
  }

  /** A page within range shows exactly the chunks from its start up to the next one. */
  lemma PageContents(work: PaginatedWork, p: int)
    requires Paginated(work)
    requires 0 <= p < |work.pageStarts| - 1
    ensures WorkTextPage(work, p) == ChunksView(work.chunks[work.pageStarts[p]..work.pageStarts[p + 1]])
  {
  }

  /** The chunks of pages `0 .. n-1`, one after the other. */
  function PagesText(work: PaginatedWork, n: nat): seq<Chunk> {
    if n == 0 then [] else PagesText(work, n - 1) + WorkTextPage(work, n - 1).chunks
  }

  /** Consecutive pages partition the chunks from the first page start onward. */
  lemma {:induction false} PagesPartition(work: PaginatedWork, n: nat)
    requires Paginated(work)
    requires n < |work.pageStarts|
    ensures PagesText(work, n) == work.chunks[work.pageStarts[0]..work.pageStarts[n]]
  {
    if n > 0 {
      PagesPartition(work, n - 1);
      PageContents(work, n - 1);
      var ps := work.pageStarts;
      assert work.chunks[ps[0]..ps[n]] == work.chunks[ps[0]..ps[n - 1]] + work.chunks[ps[n - 1]..ps[n]];
    }
  }

  lemma AllPages(work: PaginatedWork)
    requires Paginated(work)
    ensures PagesText(work, |work.pageStarts| - 1) == work.chunks[work.pageStarts[0]..]
  {
    PagesPartition(work, |work.pageStarts| - 1);
  }

  /** The page after the last start is empty; any page further out, or below -1, reads
      two `undefined` bounds and so shows every chunk of the work. */
  lemma PagesOutOfRange(work: PaginatedWork, p: int)
    requires Paginated(work)
    ensures p == |work.pageStarts| - 1 ==> WorkTextPage(work, p) == ChunksView([])
    ensures p >= |work.pageStarts| || p < -1 ==> WorkTextPage(work, p) == ChunksView(work.chunks)
  {
  }

  // ---------------------------------------------------------------------------
  // The page in the URL

  /** `setUrl`: the query holds the page plus one, so the information page is 0. */
  function QueryFor(page: int): string {
    IntToString(page + 1)
  }

  /** The page the effect derives from the query: one less than the number it holds,
      or the current page when it holds no number. */
  function PageFromQuery(query: string, current: int): int {
    match ParseInt(query)
    case Some(urlPage) => urlPage - 1
    case None => current
  }

  /** A page written to the URL is read back unchanged. */
  lemma UrlRoundTrip(page: int, current: int)
    ensures PageFromQuery(QueryFor(page), current) == page
  {
    IntStringRoundTrip(page + 1);
  }

  datatype WorkState = Loading | Error | Loaded(work: PaginatedWork)

  /** `WorkColumn`: the work being read, the current page and the URL query. */
  class WorkColumn {
    var work: WorkState
    var currentPage: int
    var query: string

    constructor(query: string)
      ensures work == Loading && currentPage == -1 && this.query == query
    {
      work := Loading;
      currentPage := -1;
      this.query := query;
    }

    /** `setPage`: the URL and then the page. */
    method SetPage(newPage: int)
      modifies this
      ensures currentPage == newPage && query == QueryFor(newPage)
      ensures work == old(work)
    {
      query := QueryFor(newPage);
      currentPage := newPage;
    }

    /** The previous-section button. */
    method Previous()
      modifies this
      ensures currentPage == old(currentPage) - 1 && query == QueryFor(currentPage)
      ensures work == old(work)
    {
      SetPage(currentPage - 1);
    }

    /** The next-section button. */
    method Next()
      modifies this
      ensures currentPage == old(currentPage) + 1 && query == QueryFor(currentPage)
      ensures work == old(work)
    {
      SetPage(currentPage + 1);
    }

    /** The mount effect: take the page from the query (writing the current one back when
        the query holds no number), then show the fetched work, or the error state when
        the fetch failed. */
    method Load(fetched: Option<ProcessedWork>)
      modifies this
      ensures currentPage == PageFromQuery(old(query), old(currentPage))
      ensures ParseInt(old(query)).Some? ==> query == old(query)
      ensures ParseInt(old(query)).None? ==> query == QueryFor(old(currentPage))
      ensures fetched.None? ==> work == Error
      ensures fetched.Some? ==>
                (work.Loaded? && work.work.chunks == fetched.value.chunks
                 && work.work.info == fetched.value.info && work.work.textParts == fetched.value.textParts
                 && work.work.pageStarts == PageStarts(fetched.value))
    {
      var urlPage := ParseInt(query);
      var newPage := if urlPage.None? then currentPage else urlPage.value - 1;
      currentPage := newPage;
      if urlPage.None? {
        query := QueryFor(newPage);
      }
      if fetched.None? {
        work := Error;
      } else {
        var divided := DividePages(fetched.value);
        work := Loaded(divided);
      }
    }
  }

  // ---------------------------------------------------------------------------
  // The label of a chunk

  /** `${n}` of an id number that may be missing. */
  function NumberText(x: Option<int>): string {
    match x
    case Some(n) => IntToString(n)
    case None => "undefined"
  }

  /** One "partName number" piece per text part. */
  function LabelPieces(parts: seq<string>, id: seq<int>): (r: seq<string>)
    ensures |r| == |parts|
  {
    seq(|parts|, i requires 0 <= i < |parts| => parts[i] + " " + NumberText(At(id, i)))
  }

  /** `WorkChunk`'s label: the pieces joined by ", ". */
  function ChunkLabel(parts: seq<string>, id: seq<int>): string {
    Join(LabelPieces(parts, id), ", ")
  }

  /** With comma-free part names and at least one part, splitting the label on ","
      gives one piece per part: the part name and its number, each after the first
      preceded by a space. */
  lemma ChunkLabelPieces(parts: seq<string>, id: seq<int>)
    requires |parts| >= 1 && NoneContains(parts, ',')
    ensures Split(ChunkLabel(parts, id), ',') == Spaced(LabelPieces(parts, id))
  {
    var ps := LabelPieces(parts, id);
    forall i | 0 <= i < |ps|
      ensures ',' !in ps[i]
    {
      if At(id, i).Some? {
        IntToStringNoComma(At(id, i).value);
      }
      assert ',' !in parts[i];
    }
    SplitCommaSpaceJoin(ps);
  }
}

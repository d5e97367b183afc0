/** The home view of the frontend: a grid of posts with an excerpt column and
    striped rows, and a paginator that asks the backend for one page at a time. */
module HomeComponent {
  import opened Http
  import PostController

  /** The longest content the excerpt column shows in full. */
  const ExcerptLength: nat := 150
  const Ellipsis := "..."

  /** The excerpt column's formatter: contents longer than 150 characters are
      cut to their first 150 and marked with "...". */
  function Excerpt(content: string): (r: string)
    ensures |content| <= ExcerptLength ==> r == content
    ensures |content| > ExcerptLength ==> |r| == ExcerptLength + |Ellipsis| && r[ExcerptLength..] == Ellipsis
    ensures |r| <= ExcerptLength + |Ellipsis|
    ensures var n := if |content| < ExcerptLength then |content| else ExcerptLength;
            n <= |r| && r[..n] == content[..n]
  {
    if |content| > ExcerptLength then content[..ExcerptLength] + Ellipsis else content
  }

  /** Formatting an excerpt again changes nothing. */
  lemma ExcerptIsIdempotent(content: string)
    ensures Excerpt(Excerpt(content)) == Excerpt(content)
  {
    if |content| > ExcerptLength {
      var e := Excerpt(content);
      assert e[..ExcerptLength] == content[..ExcerptLength];
    }
  }

  /** `onPageChange`: the paginator's 0-based page becomes the backend's 1-based
      page; an absent or 0 page asks for page 1. */
  function RequestedPage(page: Option<int>): (r: int)
    ensures page.Some? && page.value >= 0 ==> r == page.value + 1
    ensures page.None? ==> r == 1
    ensures page.None? || page.value >= 0 ==> r >= 1
  {
    if page.Some? && page.value != 0 then page.value + 1 else 1
  }

  /** The striped-row rule: a row gets the odd class when its index is odd.
      Grid row indexes are never negative, and on non-negative numbers
      JavaScript's `%` and Dafny's agree. */
  predicate RowIsOdd(rowIndex: nat)
    ensures RowIsOdd(rowIndex) <==> rowIndex % 2 == 1
  {
    rowIndex % 2 != 0
  }

  /** Rows alternate: of two neighbouring rows exactly one is odd, and the
      striping repeats every two rows. */
  lemma RowsAlternate(rowIndex: nat)
    ensures RowIsOdd(rowIndex + 1) <==> !RowIsOdd(rowIndex)
    ensures RowIsOdd(rowIndex + 2) == RowIsOdd(rowIndex)
  {
  }

  /** The paginator's page `k` (0-based) shows the posts at positions
      `k * PageSize` onwards of the backend's newest-first listing. */
  lemma PaginatorPageShowsItsWindow(posts: map<int, PostController.Post>, k: nat)
    ensures PostController.ListPosts(posts, Some(RequestedPage(Some(k))))
              == Success(200, PostController.PageReply(
                   k + 1, PostController.TotalPages(|posts|), |posts|,
                   PostController.Window(PostController.ByRecency(posts), k * PostController.PageSize)))
  {
  }

  /** The view's state: the rows of the grid and the paginator's record count.
      `requested` is the ghost log of the pages asked of the backend. */
  class HomeView {
    var rowData: seq<PostController.Entry>
    var totalRecords: int
    ghost var requested: seq<int>

    constructor ()
      ensures rowData == [] && totalRecords == 0 && requested == []
    {
      rowData := [];
      totalRecords := 0;
      requested := [];
    }

    /** `loadPosts`: ask the backend for `page`; when it answers, show its posts
        and its total. `fetch` is the backend's answer to each page (the request
        itself is left out); an error answer changes nothing. */
    method LoadPosts(page: int, fetch: int -> Response<PostController.PageReply>)
      modifies this
      ensures requested == old(requested) + [page]
      ensures fetch(page).Success? ==>
                rowData == fetch(page).value.posts && totalRecords == fetch(page).value.totalPosts
      ensures fetch(page).Failure? ==> rowData == old(rowData) && totalRecords == old(totalRecords)
    {
      requested := requested + [page];
      var response := fetch(page);
      if response.Success? {
        rowData := response.value.posts;
        totalRecords := response.value.totalPosts;
      }
    }

    /** `onPageChange`: load the page the paginator moved to. */
    method OnPageChange(eventPage: Option<int>, fetch: int -> Response<PostController.PageReply>)
      modifies this
      ensures requested == old(requested) + [RequestedPage(eventPage)]
      ensures var reply := fetch(RequestedPage(eventPage));
              if reply.Success? then rowData == reply.value.posts && totalRecords == reply.value.totalPosts
              else rowData == old(rowData) && totalRecords == old(totalRecords)
    {
      LoadPosts(RequestedPage(eventPage), fetch);
    }

    /** `onGridReady`: load page 1. */
    method OnGridReady(fetch: int -> Response<PostController.PageReply>)
      modifies this
      ensures requested == old(requested) + [1]
      ensures if fetch(1).Success? then rowData == fetch(1).value.posts && totalRecords == fetch(1).value.totalPosts
              else rowData == old(rowData) && totalRecords == old(totalRecords)
    {
      LoadPosts(1, fetch);
    }
  }

  /** Against the backend, a fresh view shows the newest posts once the grid is
      ready: the first `PageSize` of the listing and the total number of posts. */
  method OpenHome(posts: map<int, PostController.Post>) returns (view: HomeView)
    ensures view.requested == [1]
    ensures view.rowData == PostController.Window(PostController.ByRecency(posts), 0)
    ensures view.totalRecords == |posts|
  {
    view := new HomeView();
    view.OnGridReady(page => PostController.ListPosts(posts, Some(page)));
  }
}

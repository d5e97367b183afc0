/** The post handlers of the backend: create, list, update and delete posts in
    the post table. The table is an in-memory map from post id to post row; the
    id counter stands for the table's autoincrement key. */
module PostController {
  import opened Http

  /** Posts per page of the listing. */
  const PageSize: nat := 5

  const Unauthorized := "Unauthorized"
  const TitleContentRequired := "Title and content are required."
  const PostNotFound := "Post not found"
  const PostDeleted := "Post deleted successfully."

  /** A row of the post table (its id is the key it is stored under). */
  datatype Post = Post(title: string, content: string, authorId: int, createdAt: int)

  /** A post with its id, as the handlers send it back. */
  datatype Entry = Entry(id: int, post: Post)

  /** The outcome of the ownership guard that update and delete run. */
  datatype Verdict = Allow | Deny(status: nat, message: string)

  /** The ownership guard: a missing post is reported (404) before a post owned
      by someone else (403); `action` is the verb of the 403 message. */
  function Guard(posts: map<int, Post>, postId: int, userId: int, action: string): (v: Verdict)
    ensures v == Allow <==> postId in posts && posts[postId].authorId == userId
    ensures postId !in posts ==> v == Deny(404, PostNotFound)
    ensures postId in posts && posts[postId].authorId != userId ==>
              v == Deny(403, "You can only " + action + " your own posts")
  {
    if postId !in posts then Deny(404, PostNotFound)
    else if posts[postId].authorId != userId then Deny(403, "You can only " + action + " your own posts")
    else Allow
  }

  /** The post table. */
  class PostStore {
    var posts: map<int, Post>
    var nextId: int

    /** Ids are positive and below the autoincrement counter, and every post was
        created by a caller whose id passed the truthiness test. */
    ghost predicate Valid()
      reads this
    {
      && nextId >= 1
      && forall id :: id in posts ==> 1 <= id < nextId && posts[id].authorId != 0
    }

    constructor ()
      ensures Valid() && posts == map[] && nextId == 1
    {
      posts := map[];
      nextId := 1;
    }

    /** `createPost`: 401 without an identity, then 400 without a title or a
        content; otherwise one new post owned by the caller, answered with 201.
        `now` is the creation time the table records. */
    method Create(userId: Option<int>, title: Option<string>, content: Option<string>, now: int)
      returns (r: Response<Entry>)
      requires Valid()
      modifies this
      ensures Valid()
      ensures !TruthyId(userId) ==> r == Failure(401, Unauthorized)
      ensures TruthyId(userId) && !(Filled(title) && Filled(content)) ==> r == Failure(400, TitleContentRequired)
      ensures r.Success? <==> TruthyId(userId) && Filled(title) && Filled(content)
      ensures r.Failure? ==> posts == old(posts) && nextId == old(nextId)
      ensures r.Success? ==>
                && old(nextId) !in old(posts)
                && r == Success(201, Entry(old(nextId), Post(title.value, content.value, userId.value, now)))
                && posts == old(posts)[old(nextId) := r.value.post]
                && |posts| == |old(posts)| + 1
                && nextId == old(nextId) + 1
    {
      if !TruthyId(userId) {
        return Failure(401, Unauthorized);
      }
      if !Filled(title) || !Filled(content) {
        return Failure(400, TitleContentRequired);
      }
      var id := nextId;
      var post := Post(title.value, content.value, userId.value, now);
      posts := posts[id := post];
      nextId := nextId + 1;
      r := Success(201, Entry(id, post));
    }

    /** `updatePost`: 401, then 400, then the guard's 404 and 403; otherwise only
        the title and content of the target post change, answered with 200. */
    method Update(postId: int, userId: Option<int>, title: Option<string>, content: Option<string>)
      returns (r: Response<Entry>)
      requires Valid()
      modifies this
      ensures Valid() && nextId == old(nextId)
      ensures !TruthyId(userId) ==> r == Failure(401, Unauthorized)
      ensures TruthyId(userId) && !(Filled(title) && Filled(content)) ==> r == Failure(400, TitleContentRequired)
      ensures TruthyId(userId) && Filled(title) && Filled(content) ==>
                match Guard(old(posts), postId, userId.value, "update")
                case Deny(status, message) => r == Failure(status, message)
                case Allow => r.Success?
      ensures r.Failure? ==> posts == old(posts)
      ensures r.Success? ==>
                && r.status == 200
                && r.value == Entry(postId, old(posts)[postId].(title := title.value, content := content.value))
                && posts == old(posts)[postId := r.value.post]
      ensures posts.Keys == old(posts).Keys
      ensures forall id :: id in posts ==>
                posts[id].authorId == old(posts)[id].authorId && posts[id].createdAt == old(posts)[id].createdAt
    {
      if !TruthyId(userId) {
        return Failure(401, Unauthorized);
      }
      if !Filled(title) || !Filled(content) {
        return Failure(400, TitleContentRequired);
      }
      var verdict := Guard(posts, postId, userId.value, "update");
      if verdict.Deny? {
        return Failure(verdict.status, verdict.message);
      }
      var post := posts[postId].(title := title.value, content := content.value);
      posts := posts[postId := post];
      r := Success(200, Entry(postId, post));
    }

    /** `deletePost`: 401, then the guard's 404 and 403 (the body is not looked
        at); otherwise exactly the target post is removed, answered with 200. */
    method Delete(postId: int, userId: Option<int>) returns (r: Response<string>)
      requires Valid()
      modifies this
      ensures Valid() && nextId == old(nextId)
      ensures !TruthyId(userId) ==> r == Failure(401, Unauthorized)
      ensures TruthyId(userId) ==>
                match Guard(old(posts), postId, userId.value, "delete")
                case Deny(status, message) => r == Failure(status, message)
                case Allow => r == Success(200, PostDeleted)
      ensures r.Failure? ==> posts == old(posts)
      ensures r.Success? ==>
                && postId in old(posts)
                && posts == old(posts) - {postId}
                && |posts| == |old(posts)| - 1
      ensures forall id :: id in old(posts) && id != postId ==> id in posts && posts[id] == old(posts)[id]
    {
      if !TruthyId(userId) {
        return Failure(401, Unauthorized);
      }
      var verdict := Guard(posts, postId, userId.value, "delete");
      if verdict.Deny? {
        return Failure(verdict.status, verdict.message);
      }
      posts := posts - {postId};
      assert posts.Keys == old(posts).Keys - {postId};
      r := Success(200, PostDeleted);
    }
  }

  /** Deleting a post right after its author created it restores the table. */
  method CreateThenDelete(store: PostStore, userId: int, title: string, content: string, now: int)
    returns (created: Response<Entry>, deleted: Response<string>)
    requires store.Valid() && userId != 0 && title != "" && content != ""
    modifies store
    ensures store.Valid()
    ensures created.Success? && deleted.Success?
    ensures store.posts == old(store.posts)
  {
    created := store.Create(Some(userId), Some(title), Some(content), now);
    deleted := store.Delete(created.value.id, Some(userId));
    assert store.posts == old(store.posts)[created.value.id := created.value.post] - {created.value.id};
  }

  // ---------------------------------------------------------------------------
  // The listing (`getPosts`)
  // ---------------------------------------------------------------------------

  /** The page `getPosts` serves from the value `parseInt` made of the `page`
      query (None standing for NaN): that value, or 1 when it is NaN or 0. */
  function PageNumber(parsed: Option<int>): (page: int)
    ensures page != 0
    ensures parsed.Some? && parsed.value != 0 ==> page == parsed.value
    ensures parsed.None? || parsed.value == 0 ==> page == 1
  {
    if parsed.Some? && parsed.value != 0 then parsed.value else 1
  }

  /** `Math.ceil(total / PageSize)`: the fewest pages that hold `total` posts. */
  function TotalPages(total: nat): (n: nat)
    ensures n * PageSize >= total
    ensures n > 0 ==> (n - 1) * PageSize < total
  {
    (total + PageSize - 1) / PageSize
  }

  /** The listing order: later `createdAt` first; equal times (on which the
      table promises no order) by descending id. */
  predicate Newer(a: Entry, b: Entry) {
    a.post.createdAt > b.post.createdAt || (a.post.createdAt == b.post.createdAt && a.id > b.id)
  }

  predicate IsNewest(posts: map<int, Post>, k: int)
    requires k in posts
  {
    forall j :: j in posts && j != k ==> Newer(Entry(k, posts[k]), Entry(j, posts[j]))
  }

  lemma {:induction false} NewestExists(posts: map<int, Post>)
    requires |posts| > 0
    ensures exists k :: k in posts && IsNewest(posts, k)
    decreases |posts|
  {
    if forall j :: j !in posts {
      assert false;
    }
    var x :| x in posts;
    var rest := posts - {x};
    assert rest.Keys == posts.Keys - {x};
    if |rest| == 0 {
      assert rest.Keys == {};
      assert posts.Keys == {x};
    } else {
      NewestExists(rest);
      var y :| y in rest && IsNewest(rest, y);
      if Newer(Entry(x, posts[x]), Entry(y, posts[y])) {
        forall j | j in posts && j != x
          ensures Newer(Entry(x, posts[x]), Entry(j, posts[j]))
        {
          if j != y {
            assert j in rest && rest[j] == posts[j];
          }
        }
        assert IsNewest(posts, x);
      } else {
        forall j | j in posts && j != y
          ensures Newer(Entry(y, posts[y]), Entry(j, posts[j]))
        {
          if j != x {
            assert j in rest && rest[j] == posts[j];
          }
        }
        assert IsNewest(posts, y);
      }
    }
  }

  /** Every entry of `r` is a row of `posts`. */
  predicate RowsOf(posts: map<int, Post>, r: seq<Entry>) {
    forall i :: 0 <= i < |r| ==> r[i].id in posts && r[i].post == posts[r[i].id]
  }

  /** Every row of `posts` is an entry of `r`. */
  predicate Covers(posts: map<int, Post>, r: seq<Entry>) {
    forall id :: id in posts ==> exists i :: 0 <= i < |r| && r[i].id == id
  }

  /** `r` is strictly newest first, so no id occurs twice. */
  predicate StrictlyNewestFirst(r: seq<Entry>) {
    forall i, j :: 0 <= i < j < |r| ==> Newer(r[i], r[j]) && r[i].id != r[j].id
  }

  /** `r` lists every post of `posts` exactly once, newest first. */
  predicate NewestFirst(posts: map<int, Post>, r: seq<Entry>) {
    |r| == |posts| && RowsOf(posts, r) && Covers(posts, r) && StrictlyNewestFirst(r)
  }

  lemma RowsInFront(posts: map<int, Post>, k: int, tail: seq<Entry>)
    requires k in posts && RowsOf(posts - {k}, tail)
    ensures RowsOf(posts, [Entry(k, posts[k])] + tail)
  {
    var r := [Entry(k, posts[k])] + tail;
    forall i | 0 < i < |r|
      ensures r[i].id in posts && r[i].post == posts[r[i].id]
    {
      assert r[i] == tail[i - 1];
    }
  }

  lemma CoverInFront(posts: map<int, Post>, k: int, tail: seq<Entry>)
    requires k in posts && Covers(posts - {k}, tail)
    ensures Covers(posts, [Entry(k, posts[k])] + tail)
  {
    var r := [Entry(k, posts[k])] + tail;
    forall id | id in posts
      ensures exists i :: 0 <= i < |r| && r[i].id == id
    {
      if id == k {
        assert r[0].id == id;
      } else {
        assert id in posts - {k};
        var i :| 0 <= i < |tail| && tail[i].id == id;
        assert r[i + 1].id == id;
      }
    }
  }

  lemma OrderInFront(posts: map<int, Post>, k: int, tail: seq<Entry>)
    requires k in posts && IsNewest(posts, k)
    requires RowsOf(posts - {k}, tail) && StrictlyNewestFirst(tail)
    ensures StrictlyNewestFirst([Entry(k, posts[k])] + tail)
  {
    var r := [Entry(k, posts[k])] + tail;
    forall i, j | 0 <= i < j < |r|
      ensures Newer(r[i], r[j]) && r[i].id != r[j].id
    {
      if i == 0 {
        assert r[j] == tail[j - 1];
        var id := r[j].id;
        assert id in posts - {k} && r[j].post == posts[id];
      } else {
        assert r[i] == tail[i - 1] && r[j] == tail[j - 1];
      }
    }
  }

  /** Putting the newest post in front of a listing of the others lists them all. */
  lemma NewestInFront(posts: map<int, Post>, k: int, tail: seq<Entry>)
    requires k in posts && IsNewest(posts, k)
    requires NewestFirst(posts - {k}, tail)
    ensures NewestFirst(posts, [Entry(k, posts[k])] + tail)
  {
    assert (posts - {k}).Keys == posts.Keys - {k};
    RowsInFront(posts, k, tail);
    CoverInFront(posts, k, tail);
    OrderInFront(posts, k, tail);
  }

  /** Every post of the table, newest first, each exactly once. */
  function ByRecency(posts: map<int, Post>): (r: seq<Entry>)
    ensures NewestFirst(posts, r)
    decreases |posts|
  {
    if |posts| == 0 then []
    else
      NewestExists(posts);
      var k :| k in posts && IsNewest(posts, k);
      var rest := posts - {k};
      assert rest.Keys == posts.Keys - {k};
      var tail := ByRecency(rest);
      NewestInFront(posts, k, tail);
      [Entry(k, posts[k])] + tail
  }

  /** At most `PageSize` entries of `order` from position `skip` on. */
  function Window(order: seq<Entry>, skip: nat): (w: seq<Entry>)
    ensures |w| == if skip >= |order| then 0 else Min(PageSize, |order| - skip)
    ensures forall i :: 0 <= i < |w| ==> w[i] == order[skip + i]
  {
    if skip >= |order| then [] else order[skip .. skip + Min(PageSize, |order| - skip)]
  }

  function Min(a: int, b: int): int {
    if a <= b then a else b
  }

  /** The body `getPosts` sends. */
  datatype PageReply = PageReply(currentPage: int, totalPages: nat, totalPosts: nat, posts: seq<Entry>)

  /** `getPosts`: skip `(page - 1) * PageSize` posts of the table ordered newest
      first and take at most `PageSize`; a page below 1 asks for a negative skip,
      which the table rejects, and the handler answers 500. Which posts a page
      shows is stated by `PagesTileTheListing` and `PageIsEmptyPastTheLast`. */
  function ListPosts(posts: map<int, Post>, parsedPage: Option<int>): (r: Response<PageReply>)
    ensures r.Failure? <==> PageNumber(parsedPage) < 1
    ensures r.Failure? ==> r == Failure(500, InternalError)
    ensures r.Success? ==>
              && r.status == 200
              && r.value.currentPage == PageNumber(parsedPage)
              && r.value.totalPosts == |posts|
              && r.value.totalPages == TotalPages(|posts|)
              && |r.value.posts| <= PageSize
    ensures r.Success? ==> forall i, j :: 0 <= i < j < |r.value.posts| ==> Newer(r.value.posts[i], r.value.posts[j])
    ensures r.Success? ==> forall e :: e in r.value.posts ==> e.id in posts && posts[e.id] == e.post
  {
    var page := PageNumber(parsedPage);
    var skip := (page - 1) * PageSize;
    if skip < 0 then Failure(500, InternalError)
    else Success(200, PageReply(page, TotalPages(|posts|), |posts|, Window(ByRecency(posts), skip)))
  }

  /** Page `k / PageSize + 1` shows the post at position `k` of the listing
      order, at position `k % PageSize`. */
  lemma PagesTileTheListing(posts: map<int, Post>, k: nat)
    requires k < |posts|
    ensures var r := ListPosts(posts, Some(k / PageSize + 1));
            && r.Success?
            && k % PageSize < |r.value.posts|
            && r.value.posts[k % PageSize] == ByRecency(posts)[k]
  {
    var q, m := k / PageSize, k % PageSize;
    assert k == q * PageSize + m && 0 <= m < PageSize;
    var order := ByRecency(posts);
    var skip := q * PageSize;
    assert (q + 1 - 1) * PageSize == skip;
    var w := Window(order, skip);
    assert ListPosts(posts, Some(q + 1)) == Success(200, PageReply(q + 1, TotalPages(|posts|), |posts|, w));
    assert m < |w| && w[m] == order[k];
  }

  /** A page from 1 up shows some post exactly when it is within `totalPages`. */
  lemma PageIsEmptyPastTheLast(posts: map<int, Post>, page: int)
    requires page >= 1
    ensures var r := ListPosts(posts, Some(page));
            r.Success? && (|r.value.posts| > 0 <==> page <= r.value.totalPages)
  {
    var n := TotalPages(|posts|);
    if page <= n {
      assert (page - 1) * PageSize <= (n - 1) * PageSize;
    } else {
      assert (page - 1) * PageSize >= n * PageSize;
    }
  }
}

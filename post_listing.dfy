/**
 * The post-listing page (src/pages/index.tsx): the projection of backend
 * documents onto post summaries, and the listing state of the `Home`
 * component (the posts shown and the cursor of the next page) with its
 * "load more" transition.
 *
 * The network is not part of this model: the fetch of a page is a
 * parameter of the transition, a function from the requested URL to the
 * decoded response.
 */
module PostListing {
  import opened Wrappers

  datatype PostData = PostData(title: string, subtitle: string, author: string)

  /** A post summary as the listing keeps it. */
  datatype Post = Post(uid: Option<string>, firstPublicationDate: string, data: PostData)

  /** The first page, computed at build time and handed to the component. */
  datatype PostPagination = PostPagination(nextPage: Option<string>, results: seq<Post>)

  /**
   * A document as the content backend sends it. Its identifier and its last
   * publication date are dropped by the projection; `uid` may be missing.
   */
  datatype PrismicDocument = PrismicDocument(
    id: string,
    uid: Option<string>,
    firstPublicationDate: string,
    lastPublicationDate: string,
    data: PostData)

  /** The decoded body of a page request: `{ next_page, results }`. */
  datatype PageResponse = PageResponse(nextPage: Option<string>, results: seq<PrismicDocument>)

  /** The arrow function of the projection: the summary fields of one document, its `data` rebuilt from three of them. */
  function FormatPost(doc: PrismicDocument): Post
  {
    Post(doc.uid, doc.firstPublicationDate,
         PostData(doc.data.title, doc.data.subtitle, doc.data.author))
  }

  /**
   * `formatPostResults`: element by element, the summary of each document, in
   * the same order. The non-null assertion on `uid` has no effect at run time,
   * so a missing `uid` stays missing.
   */
  function FormatPostResults(results: seq<PrismicDocument>): (posts: seq<Post>)
    ensures |posts| == |results|
    ensures forall i :: 0 <= i < |results| ==>
      posts[i].uid == results[i].uid &&
      posts[i].firstPublicationDate == results[i].firstPublicationDate &&
      posts[i].data.title == results[i].data.title &&
      posts[i].data.subtitle == results[i].data.subtitle &&
      posts[i].data.author == results[i].data.author
  {
    if results == [] then []
    else [FormatPost(results[0])] + FormatPostResults(results[1..])
  }

  /** The projection of two batches one after the other is the two projections one after the other. */
  lemma {:induction false} FormatPostResultsConcat(a: seq<PrismicDocument>, b: seq<PrismicDocument>)
    ensures FormatPostResults(a + b) == FormatPostResults(a) + FormatPostResults(b)
  {
    if a != [] {
      assert (a + b)[1..] == a[1..] + b;
      FormatPostResultsConcat(a[1..], b);
    }
  }

  /** The documents of several pages, page after page. */
  function Flatten(pages: seq<seq<PrismicDocument>>): seq<PrismicDocument>
  {
    if pages == [] then [] else Flatten(pages[..|pages| - 1]) + pages[|pages| - 1]
  }

  /** The number of documents of several pages. */
  function TotalSize(pages: seq<seq<PrismicDocument>>): nat
  {
    if pages == [] then 0 else TotalSize(pages[..|pages| - 1]) + |pages[|pages| - 1]|
  }

  /** Flattening keeps every document: the length is the sum of the page sizes. */
  lemma {:induction false} FlattenSize(pages: seq<seq<PrismicDocument>>)
    ensures |Flatten(pages)| == TotalSize(pages)
  {
    if pages != [] {
      FlattenSize(pages[..|pages| - 1]);
    }
  }

  /** Loading one more page appends its projection to the projection of the earlier pages. */
  lemma LoadedPage(initial: seq<Post>, pages: seq<seq<PrismicDocument>>, posts: seq<Post>, batch: seq<PrismicDocument>)
    requires posts == initial + FormatPostResults(Flatten(pages))
    ensures posts + FormatPostResults(batch) == initial + FormatPostResults(Flatten(pages + [batch]))
  {
    var loaded := pages + [batch];
    assert loaded[..|loaded| - 1] == pages;
    var earlier, later := FormatPostResults(Flatten(pages)), FormatPostResults(batch);
    calc {
      posts + later;
      (initial + earlier) + later;
      initial + (earlier + later);
      { FormatPostResultsConcat(Flatten(pages), batch); }
      initial + FormatPostResults(Flatten(pages) + batch);
      initial + FormatPostResults(Flatten(loaded));
    }
  }

  /**
   * The state of the `Home` component. `initial` and `pages` record, for the
   * proofs, the first page and every page loaded since, in arrival order.
   */
  class Home {
    var posts: seq<Post>
    var nextPage: Option<string>
    ghost var initial: seq<Post>
    ghost var pages: seq<seq<PrismicDocument>>

    /**
     * The posts are the first page followed by the projection of every page
     * loaded since, in arrival order and without de-duplication.
     */
    ghost predicate Valid()
      reads this
    {
      posts == initial + FormatPostResults(Flatten(pages))
    }

    /** Both pieces of state are seeded from the pre-fetched first page. */
    constructor (postsPagination: PostPagination)
      ensures Valid()
      ensures posts == postsPagination.results && nextPage == postsPagination.nextPage
      ensures initial == postsPagination.results && pages == []
    {
      posts := postsPagination.results;
      nextPage := postsPagination.nextPage;
      initial := postsPagination.results;
      pages := [];
    }

    /** The "load more" button is rendered, so the transition is available, exactly while there is a next page. */
    predicate CanLoadMore()
      reads this
    {
      nextPage.Some?
    }

    /**
     * The button's click handler: fetch the current next-page URL, take the
     * response's cursor, and append the projected results to the posts.
     * Returns the URL it requested.
     */
    method LoadMore(fetchPage: string -> PageResponse) returns (requested: string)
      requires Valid() && CanLoadMore()
      modifies this
      ensures Valid()
      ensures requested == old(nextPage).value
      ensures nextPage == fetchPage(requested).nextPage
      ensures posts == old(posts) + FormatPostResults(fetchPage(requested).results)
      ensures old(posts) <= posts
      ensures |posts| == |old(posts)| + |fetchPage(requested).results|
      ensures initial == old(initial) && pages == old(pages) + [fetchPage(requested).results]
      ensures CanLoadMore() <==> fetchPage(requested).nextPage.Some?
    {
      requested := nextPage.value;
      var data := fetchPage(requested);
      nextPage := data.nextPage;
      LoadedPage(initial, pages, posts, data.results);
      posts := posts + FormatPostResults(data.results);
      pages := pages + [data.results];
    }

    /** Whatever the loads so far, the listing holds the first page plus every loaded document. */
    lemma PostCount()
      requires Valid()
      ensures |posts| == |initial| + TotalSize(pages)
    {
      FlattenSize(pages);
    }
  }

  const FirstPost := Post(Some("p1"), "2021-03-25T19:25:28+0000", PostData("Title 1", "Subtitle 1", "Author 1"))
  const SecondDocument := PrismicDocument("YFxp", Some("p2"), "2021-04-19T10:00:00+0000", "2021-04-20T08:00:00+0000",
                                          PostData("Title 2", "Subtitle 2", "Author 2"))
  const SecondPost := Post(Some("p2"), "2021-04-19T10:00:00+0000", PostData("Title 2", "Subtitle 2", "Author 2"))

  /**
   * A first page with one post and a cursor "page2"; the request to "page2"
   * answers one more post and no further page. Afterwards both posts are
   * listed, in order, and the button is gone.
   */
  method LoadMoreScenario() returns (requested: string, posts: seq<Post>, nextPage: Option<string>, canLoadMore: bool)
    ensures requested == "page2"
    ensures posts == [FirstPost, SecondPost] && nextPage == None && !canLoadMore
  {
    var home := new Home(PostPagination(Some("page2"), [FirstPost]));
    requested := home.LoadMore(url => if url == "page2" then PageResponse(None, [SecondDocument]) else PageResponse(None, []));
    posts, nextPage, canLoadMore := home.posts, home.nextPage, home.CanLoadMore();
  }
}

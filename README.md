# Blog front end: reading time and post listing

A model in Dafny of the two pieces of logic of a statically generated blog
front end that reads its posts from a headless content backend.

- **Reading-time estimator** (`reading_time.dfy`, module `ReadingTime`). A
  post's content is a sequence of blocks, each a heading and a body. The
  estimator folds the blocks into one string: every block appends a space
  and its heading, and a block whose body is an array (a structured
  rich-text document) also appends a space and the body's plain text. The
  string is split on runs of whitespace, empty pieces are dropped, and the
  result is `ceil(words / 200)` followed by `" min"`. The proofs show that
  the tokeniser counts exactly the maximal non-whitespace runs, that the
  count is additive over blocks, that a non-array body contributes nothing,
  that the minute count is the exact ceiling, and that the displayed string
  reads back as that number.
- **Post listing** (`post_listing.dfy`, module `PostListing`). The
  projection of backend documents onto post summaries, and the `Home`
  component's state: the posts shown and the cursor of the next page, both
  seeded from the pre-fetched first page. The "load more" transition is
  available only while the cursor is non-null. It requests exactly the
  cursor's URL, replaces the cursor with the response's, and appends the
  projected results to the posts. The class keeps, as ghost state, the first
  page and every page loaded since, and its invariant says the posts are the
  first page followed by every loaded document in arrival order, with no
  de-duplication.
- `wrappers.dfy` (module `Wrappers`) holds the `Option` type that stands for
  the source's `string | null`.

The rich-text library's `asText` is a parameter of the estimator
(`asText: seq<RichTextNode> -> string`), and nothing is assumed about it.
The network fetch is a parameter of `LoadMore` (`fetchPage: string ->
PageResponse`, the decoded response for a URL), so that the URL requested
appears in the contract.

`getMinutesToRead` tests only `Array.isArray` (src/utils/getMinutesToRead.ts:9),
so an empty array body still appends a space and `asText` of the empty
document. `BlockWords` counts the words of `asText(nodes)` for every array
body, empty or not.

## Model

| member | source | states |
|---|---|---|
| `ReadingTime.Split` | src/utils/getMinutesToRead.ts:16 | `split(/\s+/g)` yields at least one piece; no piece contains whitespace; the pieces joined are exactly the non-whitespace characters of the input, in order; every interior piece is non-empty; the first piece is empty exactly when the input is empty or starts with whitespace, and the last exactly when it is empty or ends with whitespace |
| `ReadingTime.SplitCuts` | src/utils/getMinutesToRead.ts:16 | the input is the pieces of `Split` interleaved with non-empty whitespace runs (`Interleave`, `Cuts`): every cut falls at a maximal whitespace run |
| `ReadingTime.SplitUnique` | src/utils/getMinutesToRead.ts:16 | any sequence of whitespace-free pieces with non-empty interior pieces that, interleaved with non-empty whitespace runs, rebuilds the input equals `Split` of the input: `Split` is the only cut at maximal whitespace runs |
| `ReadingTime.DropEmpty` | src/utils/getMinutesToRead.ts:16 | `filter(Boolean)` keeps every non-empty piece as many times as it occurs and removes every empty one (equal multisets with the empty string deleted), never more than the input; a single piece is kept exactly when it is non-empty |
| `ReadingTime.DropEmptyConcat` | src/utils/getMinutesToRead.ts:16 | filtering two runs of pieces one after the other is filtering each and concatenating; with the one-piece case of `DropEmpty` this fixes the order `filter` keeps |
| `ReadingTime.Words` | src/utils/getMinutesToRead.ts:16 | every word counted is non-empty and holds no whitespace |
| `ReadingTime.WordsAreRuns` | src/utils/getMinutesToRead.ts:16 | the number of words equals the number of maximal non-whitespace runs (`RunCount`, counted at run starts); the empty pieces from leading, trailing or repeated whitespace are never counted |
| `ReadingTime.WordCount` | src/utils/getMinutesToRead.ts:16 | the word count of a string is its number of maximal non-whitespace runs |
| `ReadingTime.RunCountConcat` | src/utils/getMinutesToRead.ts:6-16 | runs of two joined strings add up, less one exactly when a run ends the first and another starts the second |
| `ReadingTime.SpaceThenText` | src/utils/getMinutesToRead.ts:7 | after any text `t`, a space then `s` has exactly the runs of `t` plus those of `s`: the space adds no word and keeps `s` from merging with the end of `t` |
| `ReadingTime.AppendBlock` | src/utils/getMinutesToRead.ts:7-13 | one step of the fold only extends the accumulated text, and the extension starts with a space; its effect on the word count is `AppendBlockWords` |
| `ReadingTime.AllContentText` | src/utils/getMinutesToRead.ts:6-14 | the fold over no blocks is the empty string; over any blocks it starts with a space and is at least one character per block; its word count is `WordCountIsAdditive` |
| `ReadingTime.AppendBlockWords` | src/utils/getMinutesToRead.ts:6-13 | one fold step adds exactly the heading's words, plus the body text's words when the body is an array |
| `ReadingTime.WordCountIsAdditive` | src/utils/getMinutesToRead.ts:6-16 | the word count of the folded text is the sum over blocks of heading words plus array-body words |
| `ReadingTime.AppendedBlockWords` | src/utils/getMinutesToRead.ts:6-16 | appending a block to the content adds its heading's words and, for an array body, its body text's words |
| `ReadingTime.NonArrayBodyCountsHeadingOnly` | src/utils/getMinutesToRead.ts:9-11 | a block whose body is not an array adds only its heading's words; its body adds none |
| `ReadingTime.CeilMinutes` | src/utils/getMinutesToRead.ts:17 | `Math.ceil(words / 200)`: `words <= 200*n`, `200*(n-1) < words` when `n > 0`, and `n == 0` exactly when there are no words |
| `ReadingTime.Decimal` | src/utils/getMinutesToRead.ts:17 | the template literal's rendering of the minute count: at least one decimal digit, no leading zero |
| `ReadingTime.DecimalRoundTrip` | src/utils/getMinutesToRead.ts:17 | reading the rendered digits back yields the number |
| `ReadingTime.GetMinutesToRead` | src/utils/getMinutesToRead.ts:3-18 | the result is decimal digits followed by `" min"`, and the digits denote `ceil(total / 200)` where total is the per-block sum of heading and array-body words |
| `ReadingTime.EmptyContentIsZeroMinutes` | src/utils/getMinutesToRead.ts:6-17 | an empty content array yields `"0 min"` |
| `ReadingTime.AppendingBlockNeverLowersMinutes` | src/utils/getMinutesToRead.ts:6-17 | appending a block never decreases the minute count |
| `PostListing.FormatPostResults` | src/pages/index.tsx:34-48 | the projection keeps length and order; element `i` has the `uid`, publication date, title, subtitle and author of document `i` (the arrow function at lines 38-46 is `FormatPost`) |
| `PostListing.FormatPostResultsConcat` | src/pages/index.tsx:34-48 | projecting two batches together equals projecting each and concatenating |
| `PostListing.FlattenSize` | src/pages/index.tsx:110 | the documents of several pages number the sum of the page sizes |
| `PostListing.LoadedPage` | src/pages/index.tsx:110 | appending one more page's projection keeps the posts equal to the first page followed by every loaded document |
| `PostListing.Home.constructor` | src/pages/index.tsx:65-67 | the initial state is the pre-fetched page: posts are its results, the cursor is its `next_page` |
| `PostListing.Home.LoadMore` | src/pages/index.tsx:101-111 | enabled only while the cursor is non-null (`CanLoadMore`, the guard at line 101, is its precondition); requests exactly the current cursor; the new cursor is the response's `next_page`, so the button stays exactly when the response names a next page; the posts become the old posts followed by the projected results, so the old posts stay a prefix and the length grows by exactly the batch size |
| `PostListing.Home.PostCount` | src/pages/index.tsx:110 | after any number of loads the listing holds the first page's posts plus every loaded document |
| `PostListing.LoadMoreScenario` | src/pages/index.tsx:101-111 | from `posts=[P1]`, cursor `"page2"`, a response `{next_page: null, results: [P2]}` gives `posts=[P1, P2]`, a null cursor, and no load-more |

## Left out

- `RichText.asText` belongs to the rich-text library, which is not part of this model. It is a function parameter and its output is unconstrained.
- Network I/O in src/utils/fetchWrapper.ts is not modelled. The fetched page is the value of the `fetchPage` parameter for the requested URL, with no schema check, as in the source.
- A failed fetch or decode rejects the promise and leaves the state as it was. The source defines no handling, and the model has no error path for it.
- Overlapping load-more clicks are not modelled. The handler has no in-flight guard, and two responses could apply in either order. Each load-more is one atomic transition here.
- `getStaticProps` (src/pages/index.tsx:50-63) is not modelled: the backend query with page size 1 and the 24-hour revalidation are backend and framework plumbing. Its output is the constructor's argument.
- Rendering is left out: the JSX of src/pages/index.tsx:69-118, src/pages/_app.tsx and src/components/Header/index.tsx. The button's guard at line 101 is kept as `CanLoadMore`.
- The date formatters src/utils/formatFirstPublicationDate.ts and src/utils/formatUpdatedAt.ts are left out. Their behaviour (Brazilian Portuguese month names, time zones) lives in a date library that is not part of this model. Dates stay strings.
- src/pages/post/[slug].tsx has its own inline estimator, which always calls `asText` on the body. It is not part of this model.
- `ReadingTime.CeilMinutes` uses exact integer division, whereas `Math.ceil(words / 200)` divides in floating point. The two agree for every word count below 2^40, far beyond any post.
- `ReadingTime.Decimal` renders every count in plain digits. JavaScript switches to exponent notation at 10^21, a count no post reaches.
- The model works on Unicode scalar values, whereas JavaScript strings are UTF-16 code units. Every `\s` character lies in the Basic Multilingual Plane and a surrogate is never whitespace, so the runs are the same.

# A Dafny model of the wcrt-client site logic

wcrt-client is the Next.js front end of a publication website. It has public pages (home page, web articles listing, archive, shop) and back-office panels (writer panel, post moderation, writer account administration). Almost all of its logic is small, pure rules over lists and strings that run inside React components. This project restates those rules as pure Dafny functions over immutable records and proves what the pages promise.

The public pages are modelled as follows:
- **Web articles listing** (`WebArticles`). The category items are flattened. The page takes one main article, up to three side articles, and the rest, which it pages ten at a time. The pager has Previous, Next and numbered buttons.
- **Archive** (`Archive`). Posts are fetched and normalised, then split into four sections. Each section shows a count of posts, raised six at a time by Load More.
- **Home page** (`Home`). All articles are gathered and sorted newest first in place. The first four are shown as recent articles. A rotating news index steps through the list.
- **Shop** (`Shop`). It has distinct categories, a category filter, a case-insensitive name search, an append-only cart, stock badges and the first three features of each product.
- **Web Updates and Latest/Trending widgets** (`Images`, `WebUpdates`, `Trending`). An `s3://` address is rewritten to the bucket URL. The page's `validateImage` answers are collected in a map keyed by the original URL. The thumbnail looks that map up and falls back to a default picture. The Trending widget also de-duplicates its two lists and has two tabs.
- **Header** (`Header`). It highlights the active menu entry and keeps at most one dropdown open.

The back-office panels:
- **Writer panel** (`WriterPanel`). Images are checked before upload and upload errors are wrapped. Submission checks fields in a fixed order, then resets the form. The My Posts filter lists the writer's own posts.
- **Post moderation** (`Moderation`). It strips HTML tags for a 200-character preview. It sends "approved" or "rejected". The modal cannot be closed while an action is in flight. Success closes the modal and re-fetches the list, showing "Loading..." until it arrives; failure keeps the modal open with an error.
- **Bulk writer form** (`CreateWriters`). It supports field edits, permission checkboxes, and adding and removing drafts. The browser submits only when every draft has a username and a password; no publication type is required.
- **Writer administration** (`WriterAccounts`, `WritersPage`, `AdminDashboard`):
  - the list fetch;
  - delete by email after confirmation;
  - a 401 answer evicts the stored token and routes to the login page;
  - one open row menu;
  - the change-password dialog;
  - the dashboard's status badge and its handlers, which do nothing yet.

Conventions:
- Network answers, stored tokens, `validateImage` and the locale date formatter are parameters.
- A page's state is a record.
- Each user action is a function from state to state.
- Where the UI only offers an action in some states (a disabled button, a button that is not rendered), that is written as an `Offered`/`Available` predicate. A `Run` function applies a sequence of events.
- JavaScript behaviour the pages rely on is written out explicitly:
  - `""` is falsy and `[]` is truthy;
  - `slice` clamps its bounds;
  - `String.replace` with a string pattern replaces only the first occurrence;
  - `Object.fromEntries` turns a missing key into `"undefined"` and lets later pairs win;
  - `x % 0` is NaN;
  - sorting is stable.

The bulk writer form checks nothing itself. The username and password inputs are marked `required`, so the browser refuses to submit while any draft leaves one of them empty. Nothing requires a permission or publication type to be selected, and `handleSubmit` in `src/app/admin/createwriters/page.tsx` only raises the success flag. The model follows this code (`CreateWriters.Offered`, `CreateWriters.HandleSubmit`).

## Model

| member | source | states |
|---|---|---|
| Common.Filter | src/app/archive/page.tsx:80 | `Array.prototype.filter`: exactly the kept elements, each as many times as in the input, as an in-order subsequence |
| Common.Dedup | src/app/shop/page.tsx:74 | `Array.from(new Set(s))`: no duplicates, exactly the elements of `s`, ordered by first occurrence in `s` |
| Articles.Flatten | src/app/publication/web-articles/page.tsx:76 | an article is in `allArticles` iff some category holds it; the first category's items come first |
| Articles.FlattenAppend | src/app/publication/web-articles/page.tsx:76 | flattening a concatenation of category lists is the concatenation of the flattenings |
| Articles.FlattenBlocks | src/app/publication/web-articles/page.tsx:76 | category k's items form one contiguous block, after all earlier categories' items and before all later ones |
| WebArticles.SplitLayout | src/app/publication/web-articles/page.tsx:77-79 | for a non-empty list, main ++ side ++ remaining is the whole list, side has at most 3 articles, and remaining is non-empty only when side is full; no main article iff no articles |
| WebArticles.TotalPages | src/app/publication/web-articles/page.tsx:86 | t = ceil(n / 10): (t-1)*10 < n <= t*10, and t = 0 iff n = 0 |
| WebArticles.Slice | src/app/publication/web-articles/page.tsx:87-90 | JavaScript `slice` with clamped bounds: never longer than the list, the exact window when both bounds are in range, empty when the start is at or past the end of the list |
| WebArticles.PageItems | src/app/publication/web-articles/page.tsx:87-90 | page p shows at most 10 articles, exactly 10 before the last page, none after it, and its i-th article is remaining[(p-1)*10 + i] |
| WebArticles.PagesUpToIsPrefix | src/app/publication/web-articles/page.tsx:86-90 | pages 1..k shown one after another are the first min(10k, n) remaining articles |
| WebArticles.PagesReassemble | src/app/publication/web-articles/page.tsx:86-90 | pages 1..totalPages in order give back the remaining articles exactly: nothing dropped or repeated |
| WebArticles.Press | src/app/publication/web-articles/page.tsx:186-210 | Previous is disabled exactly at page 1, Next exactly at page == totalPages, numbered buttons exist for 1..totalPages; a disabled click changes nothing |
| WebArticles.RunStaysInRange | src/app/publication/web-articles/page.tsx:186-210 | with at least one page, every click sequence from a page in [1, totalPages] stays in that range |
| WebArticles.RunStaysPositive | src/app/publication/web-articles/page.tsx:186-210 | whatever the page count, clicks never take the page below 1 |
| WebArticles.NoArticlesNextOverruns | src/app/publication/web-articles/page.tsx:208-210 | with no remaining articles there are zero pages, Next stays enabled, and two presses reach an empty page 3 |
| Archive.Ingest | src/app/archive/page.tsx:45-50 | title and date are copied; missing tags become [original category]; the category is lower-cased and stays missing when missing |
| Archive.IngestResponse | src/app/archive/page.tsx:44-51 | a missing `posts` array gives an empty list; otherwise post i is the ingested post i |
| Archive.SectionLabel | src/app/archive/page.tsx:63 | every '-' of the key becomes a space and nothing else changes |
| Archive.Matching | src/app/archive/page.tsx:80 | a post is in a section iff its category equals the key with hyphens turned into spaces; fetch order is kept |
| Archive.InitialCounts | src/app/archive/page.tsx:30-34 | every section key, and only those, starts at 6 |
| Archive.LoadMore | src/app/archive/page.tsx:62-68 | the count becomes either the total or count+6, whichever is smaller. Under the button guard it strictly increases; no other section's count changes |
| Archive.Visible | src/app/archive/page.tsx:80-89 | `slice(0, count)` of the section's posts: a prefix of them, every one in the section. A count of zero or more gives the first min(count, matches); a negative count drops that many from the end |
| Archive.PressesNeverLowerCounts | src/app/archive/page.tsx:62-68 | clicks that land while Load More is shown never lower a count and keep the same sections. From the initial counts every count stays at least six |
| Archive.PressUntilHidden | src/app/archive/page.tsx:62-97 | pressing Load More while it is shown ends with exactly the section's posts visible and the button hidden. It presses at least once iff the button was shown; other sections are untouched |
| Home.ConcatLeftIsFlatten | src/app/page.tsx:16-18 | the `reduce` that spreads each category's items is the in-order flattening, after the accumulator |
| Home.AllArticles | src/app/page.tsx:16-18 | `allArticles` is the flattening of the categories |
| Home.Insert | src/app/page.tsx:22 | inserting into a newest-first list keeps it newest first, one longer, with the new article or the old head in front |
| Home.InsertPermutes | src/app/page.tsx:22 | inserting adds exactly the new article: the result is the old list's multiset plus it |
| Home.SortByDate | src/app/page.tsx:21-22 | the sort yields a newest-first list of the same length as its input |
| Home.SortPermutes | src/app/page.tsx:21-22 | the sort only reorders: its result is a permutation of its input |
| Home.InsertStable | src/app/page.tsx:21-22 | an insertion step goes behind strictly newer articles only, so for every date the articles of that date keep their order |
| Home.SortStable | src/app/page.tsx:21-22 | the sort is stable: for every date, the articles of that date come out in input order |
| Home.SortSortedIsIdentity | src/app/page.tsx:22 | a list already newest first is left unchanged by the stable sort |
| Home.HomeView | src/app/page.tsx:21-23 | ticker and slider show the same sorted permutation of all articles. Recent articles are its first min(4, n); no article left out is newer than the last recent one |
| Home.NextNewsIndex | src/app/page.tsx:34 | `(prev + 1) % n` stays in [0, n), steps by one and wraps to 0; with n = 0 it is NaN |
| Home.NewsIndexRotates | src/app/page.tsx:13-37 | starting at 0, after k ticks the index is k mod n |
| Home.ValidImagePath | src/app/page.tsx:40-42 | the empty path becomes "/article.jpg", any other path is returned unchanged |
| Shop.CategoryColumn | src/app/shop/page.tsx:74 | the products' categories in product order |
| Shop.Categories | src/app/shop/page.tsx:74 | the distinct categories: no duplicates, exactly the categories of some product, ordered by first occurrence |
| Shop.FilteredProducts | src/app/shop/page.tsx:76-79 | an order-preserving subsequence of the products, holding exactly those in the selected category (when one is selected) whose lower-cased name contains the lower-cased query |
| Shop.EmptyQueryShowsAll | src/app/shop/page.tsx:76-79 | with no category and an empty query every product is shown, in order |
| Shop.SearchIgnoresQueryCase | src/app/shop/page.tsx:78 | a query and its lower-cased form show the same products |
| Shop.EmptyCategoryIsAll | src/app/shop/page.tsx:77 | selecting the empty category string is the same as selecting none |
| Shop.AddToCart | src/app/shop/page.tsx:66-68 | the id is appended at the end, the rest kept, and a repeated id is counted once more |
| Shop.StockBadge | src/app/shop/page.tsx:192-196 | green iff stock > 10, yellow iff 6..10, red iff <= 5 |
| Shop.ListedFeatures | src/app/shop/page.tsx:207 | the first min(3, n) features |
| CreateWriters.HandleChange | src/app/admin/createwriters/page.tsx:24-36 | only the named field of draft `index` changes; the list length and every other draft are unchanged |
| CreateWriters.TogglePermission | src/app/admin/createwriters/page.tsx:42-46 | an absent permission is appended at the end; a present one is removed everywhere, keeping the others in order |
| CreateWriters.ToggleTwiceRestores | src/app/admin/createwriters/page.tsx:42-46 | checking then unchecking an absent permission restores the original list |
| CreateWriters.FilterNoDuplicates | src/app/admin/createwriters/page.tsx:43 | filtering a duplicate-free list leaves it duplicate-free |
| CreateWriters.TogglePreservesNoDuplicates | src/app/admin/createwriters/page.tsx:42-46 | a permission list without duplicates stays without duplicates |
| CreateWriters.HandlePermissionToggle | src/app/admin/createwriters/page.tsx:38-53 | only draft `index`'s permissions change. Unchecking "Other" clears `other`; any other box leaves it alone |
| CreateWriters.AddWriter | src/app/admin/createwriters/page.tsx:55-60 | one blank draft (empty username, password, other, no permissions) is appended; the rest is kept |
| CreateWriters.RemoveWriter | src/app/admin/createwriters/page.tsx:62-66 | `splice(index, 1)`: exactly entry `index` is removed and the rest keep their order; an index past the end removes nothing |
| CreateWriters.HandleSubmit | src/app/admin/createwriters/page.tsx:68-73 | no check of its own: the drafts are kept and the success flag is set |
| CreateWriters.SubmitSucceedsIffFilled | src/app/admin/createwriters/page.tsx:81-187 | a submit shows the success banner iff every draft has a non-empty username and password, and leaves the drafts unchanged |
| CreateWriters.InitialFormCannotBeSubmitted | src/app/admin/createwriters/page.tsx:105-123 | the freshly opened form, with one blank draft, cannot be submitted, and a submit click leaves it as it is |
| CreateWriters.SuccessNeedsFilledDrafts | src/app/admin/createwriters/page.tsx:68-123 | if the banner is shown after a click sequence, some earlier click was a submit made while every draft had a username and a password |
| CreateWriters.DraftsNeverEmpty | src/app/admin/createwriters/page.tsx:18-91 | since Remove is only rendered with more than one draft, no click sequence from a non-empty list empties it |
| CreateWriters.StepKeepsSane | src/app/admin/createwriters/page.tsx:38-168 | every offered click keeps each draft's permissions among the rendered checkboxes, and keeps other-text empty while "Other" is unchecked |
| CreateWriters.RunKeepsSane | src/app/admin/createwriters/page.tsx:38-168 | from a sane form, no click sequence checks an unrendered box or leaves other-text behind an unchecked "Other" |
| CreateWriters.InitialFormSane | src/app/admin/createwriters/page.tsx:18-20 | the opening blank draft is sane |
| WriterPanel.PreCheck | src/app/writer/page.tsx:62-70 | accepted iff the type is JPEG, PNG or GIF and the size is at most 5 MiB. The type is checked first |
| WriterPanel.UploadSteps | src/app/writer/page.tsx:72-102 | a failed pre-check sends nothing; success returns the presigned public URL |
| WriterPanel.HandleFileUpload | src/app/writer/page.tsx:60-110 | every failure becomes "Upload failed: " + its message, and a failed pre-check issues no request. The upload succeeds iff the pre-check passes, an upload URL is returned and the PUT is ok; it then issues exactly the presign and PUT requests |
| WriterPanel.ResetForm | src/app/writer/page.tsx:150-157 | title, content, category, both files and both previews are cleared; the author name is kept |
| WriterPanel.HandleSubmit | src/app/writer/page.tsx:112-171 | checks run in order: first "Please fill all required fields", then "Please upload a post image", each before any request. A failure keeps the form and list. Success resets the form and sends the form's fields |
| WriterPanel.AuthorFieldsOptional | src/app/writer/page.tsx:118-141 | with the required fields and a post image alone, a cooperative network creates the post with an empty author image |
| WriterPanel.UploadErrorsAreWrapped | src/app/writer/page.tsx:103-108 | when the create call itself succeeds but no post is created, the error shown starts with "Upload failed: " |
| WriterPanel.MyPosts | src/app/writer/page.tsx:341-343 | exactly the posts whose writerName is the stored name, in fetched order |
| Moderation.StripTags | src/app/admin/posts/page.tsx:102 | the result is an in-order subsequence of the input. It keeps a character that does not open a tag and leaves no tag behind |
| Moderation.StripKeepsPlainText | src/app/admin/posts/page.tsx:102 | text without `<` is kept verbatim in front of whatever the rest strips to |
| Moderation.StripRemovesTag | src/app/admin/posts/page.tsx:102 | a tag `<t>`, where `t` is non-empty and has no `>`, is removed entirely and the rest is stripped as if it stood alone |
| Moderation.StripCleanIsIdentity | src/app/admin/posts/page.tsx:102 | text without tags passes through unchanged |
| Moderation.StripIdempotent | src/app/admin/posts/page.tsx:102 | stripping twice equals stripping once |
| Moderation.StripExamples | src/app/admin/posts/page.tsx:102 | "a<b>c" becomes "ac"; a bare "<>" survives |
| Moderation.PreviewText | src/app/admin/posts/page.tsx:101-104 | at most 203 characters. Stripped text of up to 200 characters is returned as is; longer text gives its first 200 characters followed by "..." |
| Moderation.OnMount | src/app/admin/posts/page.tsx:34-45 | the posts load iff a non-empty admin token is stored; otherwise the page goes to login |
| Moderation.StatusText | src/app/admin/posts/page.tsx:66-69 | only "approved" or "rejected", one per button |
| Moderation.RequestFor | src/app/admin/posts/page.tsx:75-85 | the PATCH names the post's status path and carries the decision's status verbatim. The bearer header is present iff a token is stored |
| Moderation.CloseModal | src/app/admin/posts/page.tsx:184 | while an action is in flight nothing changes; otherwise the selection is cleared |
| Moderation.ErrorOr | src/app/admin/posts/page.tsx:93 | the body's non-empty `error` text, otherwise the fallback message |
| Moderation.CaughtMessage | src/app/admin/posts/page.tsx:96 | a thrown Error's message, otherwise the fallback message |
| Moderation.BeginUpdate | src/app/admin/posts/page.tsx:70-85 | the action goes in flight, the error is cleared, and the request is for the selected post |
| Moderation.SettleUpdate | src/app/admin/posts/page.tsx:87-98 | the action leaves flight. A re-fetch happens iff the server answered ok, and then the selection is cleared. Otherwise the selection is kept and the error is set to `data.error` or the fallback message |
| Moderation.FetchOpenPosts | src/app/admin/posts/page.tsx:47-64 | the list is replaced only on success; otherwise it is kept and "Failed to load posts" or the server's message is shown |
| Moderation.RunStaysConsistent | src/app/admin/posts/page.tsx:184-239 | no sequence of clicks, answers and reloads leaves an action in flight without its selected post |
| Moderation.ReloadAfterSuccess | src/app/admin/posts/page.tsx:47-113 | after a successful update the page is loading with the modal closed and the error cleared. Nothing can be viewed or decided until the fetch answers, and that answer ends the loading |
| Moderation.FailureKeepsModal | src/app/admin/posts/page.tsx:92-98 | a failed or thrown update keeps the loading flag and the selected post, sets an error, and ends the action |
| Images.IndexOf | src/components/WebUpdates.tsx:41 | the first position where the pattern starts, or none when it starts nowhere |
| Images.IndexOfAgreesWithIncludes | src/components/WebUpdates.tsx:41 | `indexOf` finds a position iff `includes` holds |
| Images.ReplaceFirst | src/components/WebUpdates.tsx:41 | only the first occurrence is replaced; a string without one is returned unchanged |
| Images.ResolveUrl | src/components/WebUpdates.tsx:38-43 | a missing URL is ""; an `s3://` URL becomes the bucket URL, "/", and the URL with its first content-bucket prefix removed; other URLs are unchanged |
| Images.ContentBucketResolves | src/components/WebUpdates.tsx:40-43 | "s3://wcrt-content-images/" + path resolves to the bucket URL + "/" + path |
| Images.OtherBucketKeepsScheme | src/components/WebUpdates.tsx:40-43 | an `s3://` URL of another bucket keeps its whole `s3://` text after the bucket URL |
| Images.MapKey | src/components/WebUpdates.tsx:45-49 | an answer is stored under the original URL; a missing URL is stored under "undefined" |
| Images.LookupKey | src/components/WebUpdates.tsx:80 | the thumbnail looks up `imageUrl || ''` |
| Images.FromEntries | src/components/WebUpdates.tsx:49 | every key of a pair is present in the object, and no other key |
| Images.FromEntriesLastWins | src/components/WebUpdates.tsx:49 | for a repeated key the last pair wins: a pair no later pair shares its key with is what the object holds |
| Images.ValidationPairs | src/components/WebUpdates.tsx:37-46 | one pair per article in order: the map key and `validateImage`'s answer for the resolved address |
| Images.RenderSrc | src/components/WebUpdates.tsx:80 | the looked-up answer when present and non-empty, otherwise "/article.jpg"; never empty |
| Images.MapKeyCollision | src/components/WebUpdates.tsx:45-49 | two different URLs share a key only when one is missing and the other is the text "undefined" |
| Images.RenderedImageIsValidated | src/components/WebUpdates.tsx:45-80 | an article with a URL shows `validateImage`'s answer for its resolved address (default when empty), whatever the other articles are |
| Images.MissingImageRendersAsEmptyUrl | src/components/WebUpdates.tsx:45-80 | an article without a URL shows the default picture, unless some article has "" as its URL and `validateImage("")` is non-empty |
| Images.FormatDate | src/components/WebUpdates.tsx:56-65 | empty before mount; afterwards the comma-free prefix of the locale text |
| Images.BeforeComma | src/components/WebUpdates.tsx:64 | `split(',')[0]`: a comma-free prefix that stops at the first comma |
| Images.ArticleHref | src/components/WebUpdates.tsx:73 | the card links to "/publication/web-articles/" followed by the post id |
| WebUpdates.Cards | src/components/WebUpdates.tsx:71-103 | one card per update in order, linking to the article, with the map-looked-up thumbnail (never empty) and an empty date before mount |
| WebUpdates.CardShowsValidatedImage | src/components/WebUpdates.tsx:37-80 | the card of an update with a URL shows the validated address of that URL, or the default picture |
| Trending.ToValidate | src/components/TrendingAndPopular.tsx:41-42 | latest ++ trending with equal articles kept once: no duplicates, every article of either list present, first-occurrence order |
| Trending.ThumbnailIsValidated | src/components/TrendingAndPopular.tsx:41-116 | no article is lost by the de-duplication. Every article with a URL in either list gets `validateImage`'s answer for its resolved address, or the default picture |
| Trending.Shown | src/components/TrendingAndPopular.tsx:107-134 | exactly one list is visible, the latest list iff the latest tab is active |
| Header.IsActivePage | src/components/Header.tsx:96-104 | the root entry only on "/" exactly; an entry with an href when the path starts with it; any other entry iff the path equals one of its dropdown links |
| Header.AboutMatchesLongerWord | src/components/Header.tsx:100-102 | the prefix test is by characters: ABOUT US is active on "/aboutx", HOME is not active on "/about" |
| Header.EventsDecidedByHref | src/components/Header.tsx:96-103 | EVENTS, which has both an href and a dropdown, is decided by its href alone |
| Header.ActiveEntryCode | src/components/Header.tsx:96-104 | a highlighted entry fixes the path: "/" for HOME, otherwise its second and third characters |
| Header.AtMostOneActive | src/components/Header.tsx:15-104 | for every path, no two menu entries are highlighted at once |
| Common.ToggleOpen | src/components/Header.tsx:84-86 | `toggleDropdown`: the open entry closes; any other entry opens in place of the open one, so at most one is open. The admin pages' row menus use the same toggle |
| Header.ToggleTwiceCloses | src/components/Header.tsx:84-86 | from nothing open (or the entry itself open), toggling twice returns to the start |
| Header.MouseEnter | src/components/Header.tsx:197 | hovering opens an entry iff it has a dropdown (even an empty one); otherwise nothing changes |
| Header.MouseLeave | src/components/Header.tsx:198 | leaving closes the dropdown |
| Header.RunKeepsOpenHasDropdown | src/components/Header.tsx:197-286 | no sequence of clicks and hovers opens an entry that has no dropdown |
| WriterAccounts.Evict | src/app/admin/writers/page.tsx:45-48 | the token is removed and the router goes to "/admin/login" |
| WriterAccounts.OnMount | src/app/admin/writers/page.tsx:26-34 | without a non-empty token the page goes to login; with one nothing else changes before the fetch |
| WriterAccounts.FetchWriters | src/app/admin/writers/page.tsx:36-60 | success replaces the list (empty when `writers` is missing); 401 evicts the session with no message; any other failure keeps the list and shows "Failed to load writers"; loading ends |
| WriterAccounts.RemoveByEmail | src/app/admin/writers/page.tsx:122-124 | every writer with the email is removed and the rest keep their order |
| WriterAccounts.RemoveAbsentEmail | src/app/admin/writers/page.tsx:122-124 | a list without that email is left exactly as it was |
| WriterAccounts.RemoveTwiceIsRemoveOnce | src/app/admin/writers/page.tsx:122-124 | removing an email twice is removing it once |
| WriterAccounts.HandleDelete | src/app/admin/writers/page.tsx:98-130 | cancelled: nothing changes; no token: login, no request. Otherwise a DELETE for the writer name: success removes by email and closes the menu, 401 evicts, other failures show the delete error. Only success changes the list |
| WritersPage.ToggleRowMenu | src/app/admin/writers/page.tsx:179 | this page's row menu is keyed by writer name |
| WritersPage.HandleChangePassword | src/app/admin/writers/page.tsx:62-65 | the dialog opens on that writer with an empty password |
| WritersPage.CancelDialog | src/app/admin/writers/page.tsx:226 | Cancel closes the dialog |
| WritersPage.UpdatePassword | src/app/admin/writers/page.tsx:67-96 | no writer or an empty password: nothing happens; no token: login. Otherwise the PATCH names the selected writer; success closes the dialog, failure keeps it and shows "Failed to update password"; the list never changes |
| AdminDashboard.StatusLabel | src/app/admin/page.tsx:160-167 | "Active" iff `isActive` is present and true; a missing flag shows "Inactive" |
| AdminDashboard.HandleStatusToggle | src/app/admin/page.tsx:59-62 | the handler leaves the page state unchanged |
| AdminDashboard.HandleChangePassword | src/app/admin/page.tsx:64-67 | the handler leaves the page state unchanged |
| AdminDashboard.ToggleRowMenu | src/app/admin/page.tsx:173 | this page's row menu is keyed by email: the same email closes it, another opens it |

The dashboard's list fetch and delete (`src/app/admin/page.tsx`, lines 33-57 and 69-109) are the same code as the Writers Management page's. Both pages use `WriterAccounts.FetchWriters` and `WriterAccounts.HandleDelete`.

## Left out

- Network I/O (fetch, axios, the presigned PUT) and `localStorage` are not performed. The answers are parameters: `Reply`, `FetchReply`, `Network`, `SubmitNetwork`, and `ok` flags. The stored token is an `Option<string>`, and the router's destination is a field of the state.
- `validateImage` is a function parameter. Its `Promise.all` fan-out is represented by the map once every answer is in; partial states in between are not modelled.
- Timers are not modelled:
  - the 5-second news rotation (ticks are counted instead);
  - the auto-hide of error and success banners;
  - the archive's 15-second abort.
- The archive's fetch-error texts ("Request timed out", `e.message`) are not modelled; only the ingestion of a successful answer is.
- Date parsing and `toLocaleString` depend on locale and time zone. Dates are integer timestamps, and the locale text is a parameter of `Images.FormatDate`.
- JSX, CSS, `next/image` error fallbacks, `next/link`, react-slick, the `SafeHTML` component, `alert` and `console.log` produce no state the model could observe.
- The writer panel leaves out several behaviours:
  - the token check on mount;
  - parsing of stored categories;
  - the initial posts fetch;
  - the `isSubmitting` flag;
  - the branch for a thrown non-Error value ("File upload failed").
- The Header's mobile menu open/close, search box and `isClient` flag hold no rule beyond a boolean flip.
- The shop's `buyNow` alert and its menu flag are left out, and so is the number formatting of stock.
- `WritersPage.UpdatePassword` and the moderation update are modelled from the click to the answer as one step (for moderation, split into `BeginUpdate` and `SettleUpdate`). The `isUpdating` flag of the writers page is therefore not modelled.
- Common.Lower: only ASCII letters are lower-cased. JavaScript's Unicode case mapping is not modelled, so the shop search and the archive's lower-cased categories (`Archive.Ingest`, and with it the section a post lands in) agree with the page only on ASCII text.
- Trending.ToValidate: articles carry all eleven fields of the widgets' `Article`, with `Option` for the optional ones, which `JSON.stringify` omits when undefined. The upload date is a timestamp, so two date texts naming the same instant count as one. Articles are compared by structural equality, whereas `JSON.stringify` compares text. Two records with the same fields in a different key order would count as different in the page but equal in the model.
- Moderation.StripTags: `html.replace(/<[^>]+>/g, '')` is modelled as a left-to-right scanner with the same matches, not by a regular-expression engine. String lengths are counted in characters, not UTF-16 code units.
- Moderation.FetchOpenPosts: a successful answer always carries a list; the page would store `undefined` when the `posts` field is missing.
- Archive.LoadMore: requires the key to be one of the counted sections, which is the only way the page calls it. For another key the page would compute NaN.
- CreateWriters.HandleChange and CreateWriters.HandlePermissionToggle: require an existing index, because they are only called from a rendered draft.
- Numbers are unbounded integers. JavaScript doubles are exact on every count and size these pages handle.

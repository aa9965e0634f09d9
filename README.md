# Dunrovin CMS core, modelled in Dafny

This project models the logic at the heart of the Dunrovin PHP CMS. Rendering, routing and the browser code are not part of it. It covers three parts:

- **The article store** (`ArticleModel`). It is modelled as in-memory tables, with the current time passed in explicitly:
  - `articles`, keyed by id;
  - `articleTags`, a set of `(article id, tag id)` pairs;
  - the next `AUTO_INCREMENT` id.

  The SQL reads are built from three pieces in module `Query`: a filter (`WHERE`), a stable descending sort (`ORDER BY ... DESC`) and a page window (`LIMIT ... OFFSET`). Each piece is proved against its own contract. Every public read goes through the publication gate `IsPublic`: the status is `published`, and a `published_at` is set and not later than `now`. The writes are methods on the `ArticleModel` class:
  - `create`, `update`, `delete`;
  - `syncTags`;
  - `incrementViews`, through `getBySlug`.

- **The admin actions** (`AdminController`).
  - `createPost`, `editPost`, `deletePost`, `categoryCreate` and `categoryDelete` check the signed-in administrator first and the CSRF token second. They touch the store only after both pass; a failed token check only sets an error flash.
  - `loginPost` has no sign-in gate. After its CSRF check it writes the login counters, the flashes and, on success, the sign-in fields.
  - `extractArticleData` normalises the posted form.
  - `uniqueSlug` is a loop that searches for a free `base`, `base-1`, `base-2`, ... . It is proved to return the first free candidate, and to terminate because the store is finite.
  - `createPost` and `editPost` choose the slug through `uniqueSlug` and store the data. They keep slugs unique across the table.
  - `loginPost` drives the login throttle.

- **The helpers** (`Helpers.php`).
  - `Str::slug`, `Str::excerpt` and `Str::sanitizeSlug` work on ASCII text. `\w` is letters, digits and `_`.
  - `Paginator` holds the page arithmetic and the link window.
  - The session-keyed login-attempt limiter of `Security`.
  - `Session`'s read-once flash messages.

Modules:

| module | file | contents |
|---|---|---|
| `Wrappers` | wrappers.dfy | PHP's `null` as `Option`; array lookup |
| `Php` | php.dfy | `empty()`, the `(int)` cast, decimal digits, `ceil` of a quotient |
| `Str` | str.dfy | `Str::slug`, `Str::excerpt`, `Str::sanitizeSlug` |
| `Pagination` | pagination.dfy | `Paginator` |
| `Sessions` | sessions.dfy | the parts of `$_SESSION` the core uses; flash messages |
| `Security` | security.dfy | CSRF comparison, `strip`, the login-attempt limiter |
| `Query` | query.dfy | filter, sort and page window on row sequences |
| `Articles` | articles.dfy | rows, columns, reading time, `ArticleModel`, `CategoryModel` |
| `Admin` | admin.dfy | form normalisation, slug choice, `AdminController` |

Inputs from outside the program are parameters or constants of the classes:

- the clock (`now`);
- MySQL's reading of a datetime text (`toTime`);
- the full-text relevance score (`relevance`);
- the stored file name an upload produced (`upload`);
- the admin accounts;
- password verification (`passwordMatches`).

`$_POST` is a `Form`. It maps the keys the controller reads (`csrf_token`, `title`, `slug`, and so on, as the `Key` datatype) to their text. It also holds the list `tags[]`.

## Model

| member | source | states |
|---|---|---|
| `Php.IntValOfNatToString` | AdminController.php:311-317 | the `(int)` cast reads a decimal numeral back as the number it denotes, so tag ids survive the form |
| `Php.IntValOfNonNumeric` | AdminController.php:311-317 | the `(int)` cast of text that does not start with a sign, a digit, a `.` or a blank is 0 |
| `Php.MagnitudeWithFraction` | AdminController.php:311-317 | digits `w`, a `.`, fraction digits `f` and a tail read as `w.f` shifted by the tail's exponent, truncated toward zero |
| `Php.MagnitudeWithoutFraction` | AdminController.php:311-317 | digits followed by neither a digit nor a `.` read as those digits shifted by the tail's exponent |
| `Php.IntValOfScientific` | AdminController.php:311-317 | `m` followed by `e` and `k` casts to `m * 10^k`: scientific notation is read |
| `Php.IntValOfDecimal` | AdminController.php:311-317 | `m.f` casts to `m`: the fraction is dropped |
| `Php.IntValOfExponentText` | AdminController.php:317 | `"1e3"` casts to 1000 |
| `Php.IntValOfFractionWithExponent` | AdminController.php:317 | `"2.5e1"` casts to 25 |
| `Php.IntValOfLeadingDot` | AdminController.php:317 | `".5e1"` casts to 5 |
| `Php.IntValOfNegativeFraction` | AdminController.php:317 | `"-1.9"` casts to -1: truncation is toward zero |
| `Php.CeilDiv` | AdminController.php:68 | `ceil(a / b)` for a positive `b`: the least `q` with `a <= q * b` |
| `Security.VerifyCsrf` | Helpers.php:21-25 | a token passes exactly when the session holds one and it equals the submitted token |
| `Security.CheckLoginAttempts` | Helpers.php:77-89 | creates a `(0, now)` record when there is none, resets it to `(0, now)` when the window has passed and otherwise keeps it; answers whether fewer than 5 failures are counted; nothing else in the session changes |
| `Security.IncrementLoginAttempts` | Helpers.php:91-96 | adds exactly one failure and keeps an existing start time; a missing record becomes `(1, now)`; nothing else changes |
| `Security.ClearLoginAttempts` | Helpers.php:98-101 | removes the identifier's record and nothing else |
| `Security.ClearedAllows` | Helpers.php:98-110 | after clearing, the next check allows the identifier and the remaining lockout is 0 |
| `Security.RemainingLockout` | Helpers.php:103-110 | never negative; 0 without a record; at most 15 minutes for a record not dated in the future; 0 exactly when the 15 minutes are over |
| `Security.LockoutHolds` | Helpers.php:81-86 | a locked record within its window is kept as it is and still refuses |
| `Security.LockoutExpires` | Helpers.php:81-84 | a record older than the window is reset to `(0, now)` and allows again |
| `Security.NoTimeLeftYetLocked` | Helpers.php:81-88 | at exactly 15 minutes the remaining lockout is already 0, so the refusal reports 0 minutes, while the check still refuses (the window test is strict) |
| `Security.FailuresWithinWindow` | AdminController.php:66-80 | within a record's window, failed logins are counted up to the limit and no further, and the start time is kept |
| `Security.FiveFailuresLock` | AdminController.php:66-80 | five failed logins inside the window of the first one lock the identifier out |
| `Security.LockoutMinutesLeft` | AdminController.php:68 | the minutes reported are the fewest whole minutes covering the remaining seconds, and at most 15 |
| `Sessions.Session.constructor` | Helpers.php:168-192 | a session holds only its CSRF token: no administrator, no attempt records, no flashes |
| `Sessions.Session.Flash` | Helpers.php:214-217 | stores the message under its key, replacing an earlier one; nothing else changes |
| `Sessions.Session.GetFlash` | Helpers.php:219-224 | returns the message under the key, if any, and removes it; nothing else changes |
| `Sessions.FlashIsReadOnce` | Helpers.php:214-224 | a flashed message is returned by the first read and not by the second |
| `Str.Lower` | Helpers.php:123 | same length; every character mapped through ASCII lower-casing |
| `Str.Slug` | Helpers.php:121-127 | the result has only `[a-z0-9-]`, no leading or trailing hyphen and no two hyphens in a row |
| `Str.SlugFixesSlugs` | Helpers.php:121-127 | a text that is already a slug is its own slug |
| `Str.SlugIdempotent` | Helpers.php:121-127 | slugifying twice gives the same as slugifying once |
| `Str.SlugKeepsAlphanumerics` | Helpers.php:123-126 | the letters and digits of the slug are exactly those of the text, lower-cased and in order |
| `Str.KeepSkipsDropped` | Helpers.php:123-124 | the first replacement deletes a character outside `[\w\s-]`: what it keeps is what it keeps of the text without that character |
| `Str.SlugDropsInnerPunctuation` | Helpers.php:121-128 | a character outside `[\w\s-]` inside a text that does not start or end with blanks is deleted, not turned into a hyphen: the slug is that of the text without it |
| `Str.SlugOfItS` | Helpers.php:121-128 | the slug of "it's" is "its" |
| `Str.CollapseNoDoubleHyphen` | Helpers.php:125 | collapsing runs of whitespace, `_` and `-` into one `-` leaves no two hyphens in a row |
| `Str.CollapseFixesSlugs` | Helpers.php:125 | collapsing changes nothing in text that has no separator run left |
| `Str.KeepCollapse` | Helpers.php:125 | collapsing keeps every letter and digit, in order |
| `Str.TrimmedHyphensMakeSlug` | Helpers.php:126 | trimming hyphens from collapsed text leaves a slug |
| `Str.SlugOfExampleTitle` | Helpers.php:121-127 | `" X, Y "` (letters or digits `X`, `Y`) slugifies to `"x-y"` |
| `Str.CollapseSeparatorRun` | Helpers.php:125 | a non-empty run of whitespace, `_` and `-` before text that does not start with one becomes a single `-` |
| `Str.CollapsePrefix` | Helpers.php:125 | collapsing leaves alone a prefix that has no separator run and does not end in `-` |
| `Str.SlugJoinsAtSeparatorRun` | Helpers.php:121-127 | two non-empty slugs joined by any non-empty run of whitespace, `_` and `-` slugify to the two joined by exactly one `-` |
| `Str.SlugOfHelloWorld` | Helpers.php:121-127 | `"Hello, World! 2024"` slugifies to `"hello-world-2024"` |
| `Str.Excerpt` | Helpers.php:129-134 | text no longer than `length` comes back unchanged; longer text is its first `length` characters, right-trimmed, followed by `…` |
| `Str.SanitizeSlug` | Helpers.php:153-156 | the result has only `[a-z0-9-]` and is no longer than the input |
| `Str.SanitizeSlugFixesSlugChars` | Helpers.php:153-156 | text made of `[a-z0-9-]` is left unchanged |
| `Str.SanitizeSlugIdempotent` | Helpers.php:153-156 | sanitizing twice is sanitizing once, and the output of `Str::slug` is left unchanged |
| `Str.LowerConcat` | Helpers.php:155 | lower-casing works character by character over a concatenation |
| `Str.SanitizeSlugConcat` | Helpers.php:153-156 | sanitizing a concatenation is the concatenation of the sanitized parts |
| `Str.SanitizeSlugOfChar` | Helpers.php:153-156 | one character is lower-cased and kept exactly when the result is in `[a-z0-9-]` |
| `Pagination.TotalPages` | Helpers.php:389 | at least one page; for a positive total, the fewest pages of `perPage` rows that hold it; one page exactly when the total fits on one |
| `Pagination.Paginator.constructor` | Helpers.php:384-390 | the current page is `max(1, page)`, not clamped to the last page; the page count is `TotalPages` |
| `Pagination.Paginator.HasPages` | Helpers.php:392-395 | true exactly when the total does not fit on one page |
| `Pagination.Paginator.Links` | Helpers.php:397-417 | the loop that appends the links produces exactly `LinkList(current, totalPages)` |
| `Pagination.NoLinksForOnePage` | Helpers.php:399 | a single page produces no links |
| `Pagination.LinkListShape` | Helpers.php:402-414 | the links are an optional previous link, the numbered pages from `max(1, cur-2)` to `min(totalPages, cur+2)` with the current one active, and an optional next link |
| `Pagination.LinksAreWellFormed` | Helpers.php:397-417 | every numbered link is a real page within two of the current one, in increasing order; every such page is listed; a previous link appears exactly when `cur > 1` and a next link exactly when `cur < totalPages` |
| `Pagination.AsWrittenAgreesNearRange` | Helpers.php:406 | with the current page at most two past the last, the links as written equal the intended ones |
| `Pagination.LinksPastLastPage` | Helpers.php:406 | page 10 of 3 produces links to pages 8 down to 3, which are not well formed |
| `Query.Filter` | ArticleModel.php:33-34 | the rows kept are exactly those satisfying the condition, each at most as often as before |
| `Query.FilterKeepsDistinct` | ArticleModel.php:33-34 | filtering distinct rows gives distinct rows |
| `Query.Insert` | ArticleModel.php:35 | inserting into a sorted listing gives a sorted permutation with the row added |
| `Query.SortDesc` | ArticleModel.php:35 | `ORDER BY key DESC` returns a permutation of the rows, sorted by descending key |
| `Query.PermutationKeepsDistinct` | ArticleModel.php:35 | sorting distinct rows gives distinct rows |
| `Query.DistinctCardinality` | ArticleModel.php:44-49 | a listing of distinct rows has as many entries as it has different rows |
| `Query.Window` | ArticleModel.php:36-39 | `LIMIT limit OFFSET offset` returns at most `limit` rows, namely the rows from `offset` on |
| `Query.Page` | ArticleModel.php:24-39 | page `page` holds at most `perPage` rows, namely those from `(page-1)*perPage` on |
| `Query.PageMembers` | ArticleModel.php:36 | a page holds rows of the listing only |
| `Query.PageKeepsOrder` | ArticleModel.php:35-36 | a page of a sorted listing is sorted |
| `Query.EveryRowIsOnAPage` | ArticleModel.php:22-41 | every row of a listing is on some page |
| `Articles.ParseStatusName` | AdminController.php:312 | each of `draft`, `published` and `scheduled` parses back to its status |
| `Articles.WordCountBound` | ArticleModel.php:243 | a text of `n` characters holds at most `(n+1)/2` words |
| `Articles.WordCountExample` | ArticleModel.php:243 | two letters separated by a space are two words; a letter between a leading `'` and a trailing `-` is one word |
| `Articles.ReadingTime` | ArticleModel.php:243-245 | at least one minute; the fewest whole minutes that cover the words at 238 words a minute |
| `Articles.ReadingTimeExamples` | ArticleModel.php:243-245 | 0 words give 1 minute, 238 give 1, 476 give 2, 477 give 3 |
| `Articles.BindArticleData` | ArticleModel.php:241-262 | the reading time comes from the body's word count; a category id of 0 is stored as null; the status defaults to draft; the image and the author are passed through |
| `Articles.ScanMembers` | ArticleModel.php:30 | the table scan returns exactly the stored rows in its id range |
| `Articles.ScanAscending` | ArticleModel.php:30 | the table scan returns the rows in ascending id order |
| `Articles.PublicSet` | ArticleModel.php:44-49 | the public listing holds exactly the stored articles that pass the publication gate |
| `Articles.FreeSlugKeepsSlugsUnique` | AdminController.php:178-189 | storing a row under a slug that no other row has keeps slugs unique across the table |
| `Articles.TakenIsOther` | ArticleModel.php:276-283 | a slug reported taken is the slug of some other row |
| `Articles.SitemapEntries` | ArticleModel.php:229-236 | one entry per row, in the rows' order, each the row's slug and last update |
| `Articles.SitemapEntriesHold` | ArticleModel.php:229-236 | every listed row contributes its slug and last update to the sitemap entries |
| `Articles.PairsOfValues` | ArticleModel.php:267-273 | the values built for the bulk insert are exactly the pairs (article id, tag id) for the given ids |
| `Articles.Retagged` | ArticleModel.php:264-274 | the associations of the article are exactly the given tag ids; those of every other article are unchanged |
| `Articles.ArticleModel.constructor` | ArticleModel.php:14-17 | an empty store whose next id is 1 |
| `Articles.ArticleModel.Rows` | ArticleModel.php:30 | the rows of the table, each exactly once |
| `Articles.ArticleModel.Listing` | ArticleModel.php:30-35 | the rows satisfying the `WHERE`, each once, ordered by the descending key |
| `Articles.ArticleModel.PublicListing` | ArticleModel.php:33-35 | exactly the published articles whose date has come, newest first |
| `Articles.ArticleModel.GetPublished` | ArticleModel.php:22-42 | at most `perPage` articles, only public ones, newest first |
| `Articles.ArticleModel.GetPublishedIsWindow` | ArticleModel.php:24-39 | `getPublished` skips `(page-1)*perPage` rows of the public listing and returns the rows that follow, at most `perPage` of them |
| `Articles.ArticleModel.PublicArticleIsListed` | ArticleModel.php:22-42 | every public article is on some page of `getPublished` |
| `Articles.ArticleModel.CountPublished` | ArticleModel.php:44-49 | the number of distinct articles that pass the publication gate, which is the length of the public listing |
| `Articles.ArticleModel.CategoryListing` | ArticleModel.php:104-108 | exactly the public articles in the category with the given slug, newest first |
| `Articles.ArticleModel.GetByCategory` | ArticleModel.php:96-116 | at most 10 articles, each public and in the category with the given slug, newest first |
| `Articles.ArticleModel.GetByCategoryIsWindow` | ArticleModel.php:96-116 | `getByCategory` skips `(page-1)*10` rows of the category's listing and returns the rows that follow, at most 10 of them |
| `Articles.ArticleModel.CategoryArticleIsListed` | ArticleModel.php:96-116 | every public article of the category is on some page of `getByCategory` |
| `Articles.ArticleModel.SearchListing` | ArticleModel.php:129-134 | exactly the public articles with a positive relevance score, most relevant first |
| `Articles.ArticleModel.Search` | ArticleModel.php:121-143 | at most 10 articles, each public and matching the query, most relevant first |
| `Articles.ArticleModel.SearchIsWindow` | ArticleModel.php:121-143 | `search` skips `(page-1)*10` rows of the matches and returns the rows that follow, at most 10 of them |
| `Articles.ArticleModel.MatchingArticleIsListed` | ArticleModel.php:121-143 | every public article that matches the query is on some page of `search` |
| `Articles.ArticleModel.StatusListing` | ArticleModel.php:151-159 | exactly the articles the status filter selects (all of them for an empty filter), last updated first |
| `Articles.ArticleModel.AdminGetAll` | ArticleModel.php:148-167 | at most 20 stored articles, of the given status when the filter is not empty, last updated first |
| `Articles.ArticleModel.AdminGetAllIsWindow` | ArticleModel.php:148-167 | `adminGetAll` skips `(page-1)*20` rows of the filtered listing and returns the rows that follow, at most 20 of them |
| `Articles.ArticleModel.AdminListsEveryArticle` | ArticleModel.php:148-167 | every article the status filter selects is on some page; with an empty filter that is every article, drafts and scheduled ones included |
| `Articles.ArticleModel.AdminGetById` | ArticleModel.php:169-181 | the row when the id exists, with the ids of exactly its existing tags; nothing otherwise |
| `Articles.ArticleModel.GetTagsForArticle` | ArticleModel.php:76-85 | exactly the tags joined to the article |
| `Articles.ArticleModel.GetAllForSitemap` | ArticleModel.php:229-236 | the entries are the slug and last update of each public article, in the order of the public listing (newest first), one per public article |
| `Articles.ArticleModel.SlugExists` | ArticleModel.php:276-283 | true exactly when an article with another id has this slug |
| `Articles.ArticleModel.NewRow` | ArticleModel.php:188-196 | a new row has the given id, no views, and the bound slug, status, author and reading time |
| `Articles.ArticleModel.UpdatedRow` | ArticleModel.php:204-214 | an updated row keeps its id, author and view count and takes every other bound column |
| `Articles.ArticleModel.Create` | ArticleModel.php:186-200 | inserts one row under the next id, which was free; tags are synchronised only when the list is not empty |
| `Articles.ArticleModel.Update` | ArticleModel.php:202-218 | rewrites the row if it exists and changes nothing otherwise; tags are synchronised only when the list is not empty, even for a missing row |
| `Articles.ArticleModel.Delete` | ArticleModel.php:220-224 | removes the row and only the row; its tag associations stay |
| `Articles.ArticleModel.SyncTags` | ArticleModel.php:264-274 | the article's associations become exactly the given ids, other articles keep theirs, and the rows are unchanged |
| `Articles.ArticleModel.IncrementViews` | ArticleModel.php:87-91 | one more view for the row, if it exists, and no other change |
| `Articles.ArticleModel.GetBySlug` | ArticleModel.php:54-74 | a hit is a public article with that slug, with its tags, and counts exactly one view of it; a miss happens exactly when no public article has the slug, and changes nothing |
| `Articles.CategoryModel.Create` | AdminController.php:282-286 | inserts the category under the next id, which was free |
| `Articles.CategoryModel.Delete` | AdminController.php:297 | removes the category and nothing else |
| `Admin.DateField` | AdminController.php:313-314 | a date field is null exactly when it is falsy in PHP (missing, `""` or `"0"`) |
| `Admin.IntVals` | AdminController.php:317 | every tag is cast to an integer, in order |
| `Admin.FormStatus` | AdminController.php:312 | a known status is kept and anything else becomes draft |
| `Admin.ExtractArticleData` | AdminController.php:305-319 | the status is always set and is the normalised one; the dates are null exactly when falsy; a missing category id is 0; the tags are cast to integers; no author and no image |
| `Admin.ZeroDateIsMissing` | AdminController.php:313 | a date submitted as `"0"` is stored as null |
| `Admin.CandidateInjective` | AdminController.php:325 | different suffix numbers give different candidate slugs |
| `Admin.TakenCandidate` | AdminController.php:323-328 | each taken candidate is one more slug of another row, so the search closes in on a free one |
| `Admin.FreeBaseIsKept` | AdminController.php:321-329 | a free base is returned unchanged |
| `Admin.RequestedSlug` | AdminController.php:233-234 | the slug `editPost` asks for is a slug: the slugified submitted one, or that of the title when it is empty |
| `Admin.ResubmittedSlugIsRequested` | AdminController.php:233-234 | resubmitting a slug asks for that slug |
| `Admin.ZeroSlugFallsBackToTitle` | AdminController.php:233-234 | a submitted slug `"0"` is falsy, so the title's slug is asked for |
| `Admin.OwnSlugIsKept` | AdminController.php:233-236 | resubmitting an article's own slug, which no other row has, keeps it |
| `Admin.EditWithoutUploadClearsImage` | AdminController.php:226-230 | an edit without an upload binds a null image |
| `Admin.AdminController.UniqueSlug` | AdminController.php:321-329 | the result is free (`slugExists` is false for it) and is `base` or `base-k`, where every earlier candidate was taken |
| `Admin.AdminController.StoreNew` | AdminController.php:178-189 | inserts the article under the next id with the unique slug of the title and the session's author; the tags follow the submitted list when it is not empty; the next id advances by one; keeps slugs unique |
| `Admin.AdminController.CreatePost` | AdminController.php:169-193 | signed out: redirect to login, nothing written; CSRF mismatch: flash the error, nothing written; otherwise one new row with the chosen slug, tags following the submitted list when it is not empty, the next id advanced by one, a success flash and a redirect to its edit page; slugs stay unique; the signed-in administrator, the CSRF token and the login counters never change |
| `Admin.AdminController.StoreEdit` | AdminController.php:225-238 | rewrites the row with the chosen slug, excluding its own id from the uniqueness test, leaves the next id alone, and keeps slugs unique |
| `Admin.AdminController.EditPost` | AdminController.php:216-242 | signed out: nothing written and no flash; CSRF mismatch: nothing written and an error flash; otherwise the row is rewritten with the chosen slug, tags follow the submitted list when it is not empty, and a success flash is set; the next id never changes; the signed-in administrator, the CSRF token and the login counters never change |
| `Admin.AdminController.DeletePost` | AdminController.php:247-259 | deletes the row only when signed in with a matching token; tags and the next id never change; the flash and redirect follow the same three cases; the signed-in administrator, the CSRF token and the login counters never change |
| `Admin.AdminController.CategoryCreate` | AdminController.php:276-289 | inserts a category with a slug only when signed in with a matching token, and the stored slug is a slug; the next id advances by one exactly then; the signed-in administrator, the CSRF token and the login counters never change |
| `Admin.AdminController.CategoryDelete` | AdminController.php:291-300 | deletes the category only when signed in with a matching token; the next id never changes; the signed-in administrator, the CSRF token and the login counters never change |
| `Admin.AdminController.LoginPost` | AdminController.php:57-95 | a bad token changes no counter; a locked-out address is not checked and its counter is only refreshed; a failed check counts one failure; none of these three touches who is signed in; success clears the counter and signs the administrator in; the CSRF token never changes |

## Left out

- `strip_tags` is not modelled: `Security::strip` is modelled as `trim`, and `Str::excerpt` takes text whose tags are already stripped.
- The limiter keys its session entries by `md5` of the identifier. The model keys them by the identifier itself; `md5` is taken as collision-free.
- CSRF token generation, password hashing and `needsRehash` with the rehash it triggers are left out. They are cryptographic library calls. Password verification is a function the controller is given.
- `Session::set/get/has/delete` are plain `$_SESSION` reads and writes. They are modelled as reads and writes of the fields of `Sessions.Session` (`csrfToken`, `adminId`, `adminRole`, `adminName`, `loginAttempts`, `flashes`), not as members of their own.
- `Session::start` and `Session::destroy` are left out, because they are cookies and headers. `View` and the HTML markup of the pagination are left out, because they are presentation.
- `Upload::handleImage` and `resizeImage` are left out (files, MIME sniffing, image scaling). An upload is given as the stored file name it produced, if any.
- MySQL's `MATCH ... AGAINST` is an abstract relevance score, and datetime parsing is an abstract `toTime`.
- `GROUP_CONCAT` and the `ORDER BY name` of the tag lists are not modelled: tags are returned as sets.
- `Str::readableDate`, `Str::timeAgo`, `mb_strtolower` beyond ASCII and `str_word_count` beyond ASCII letters are not modelled; text is ASCII.
- `updated_at` is set to `now` by `create` and `update`. The schema is not shown, so other triggers are not modelled.
- `logout`, `dashboard`, `articlesList`, the form pages and `requireAuth`'s redirect are not modelled. They read and render only. The actions model the sign-in gate as the redirect to the login page.
- `CategoryModel`, `AuthModel` and `TagModel` are not part of this model. Their inserts and deletes are modelled as the plain table operations the controller relies on.
- `PublicController.php`, `index.php`, `config.php`, `admin.js` and `app.js` are not modelled; the constants 10, 20, 5 and 15 are reused.
- The race between `uniqueSlug`'s check and the insert is not modelled; it is a concurrency concern.
- PHP's 64-bit integer overflow is not modelled; ids and counters are unbounded.
- MySQL leaves the order of rows with equal sort keys unspecified. The model breaks ties by ascending id, so its tie order is one of the orders MySQL may return.
- Pagination.Paginator.constructor: requires `perPage > 0`. With 0, PHP raises a division by zero, and every caller passes a positive constant.
- Articles.ArticleModel.GetBySlug: with several public articles of one slug, `LIMIT 1` may return any of them. The model returns the one with the lowest id, and its contract states only that a public article with the slug is returned.
- Articles.BindArticleData: the word count is taken over the body as given, because `strip_tags` is not modelled. For a body with HTML markup the reading time is not the one PHP computes.
- Articles.ArticleModel.SlugExists: compares slugs exactly, where MySQL compares them under the column's collation, which by default ignores case and trailing spaces. Likewise `GetBySlug`, `InCategory` and `HasStatus`. Under such a collation `Hello` and `hello` count as the same slug, and `adminGetAll(1, "Published")` lists the published articles; the model does not capture either, because the schema is not shown.
- Php.IntVal: a cast with a fraction or an exponent is computed exactly. PHP goes through a double, so very long or very large numerals may round differently, and values beyond 64 bits are not clamped.
- Articles.ArticleModel.SyncTags: a tag id given twice yields one association, where the SQL insert would fail on a duplicate key or store it twice, depending on the schema, which is not shown.

## Findings

| source | as written | input that shows it | evidently intended | confidence | as-written member | corrected member |
|---|---|---|---|---|---|---|
| Helpers.php:406 | `range(max(1, cur-2), min(totalPages, cur+2))` counts down when the current page is more than two past the last page | `?page=10` with 3 pages: links to pages 8, 7, 6, 5, 4, 3 after the previous link to page 9 | only existing pages within two of the current page, in increasing order (none here) | high; not executed | `Pagination.LinksPastLastPage` (on `Pagination.LinkListAsWritten`) | `Pagination.LinksAreWellFormed` (on `Pagination.LinkList`, used by `Pagination.Paginator.Links`) |

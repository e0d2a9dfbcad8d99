# Documents and blog pages: a Dafny model

The application is a thin React front end. Two of its pages hold the only
data-shaping logic, and that logic is what this project models and proves.

- **The documents page** (`frontend/src/pages/DocumentsPage.tsx`, module
  `Documents` in `documents.dfy`). On mount, `loadDocuments` does four things.
  It checks that the browser-hosted file-store service is present. It creates
  `/documents`, and treats a rejection whose message mentions `exists` as
  success. It lists the directory and reads and decodes every `*.json` entry
  into a `DocumentInfo` summary. Entries whose read or decode fails are
  dropped. The survivors are sorted newest `updatedAt` first. The page then
  holds either that list or one error message, and `isLoading` is false on
  every path. The "Recent Documents" card shows the first five entries.
  - The file store is a value (`FileStore`): `Absent`, or `Present` with the
    outcome of `mkdir`, the outcome of `readdir`, and a function from path to
    file contents for `read`.
  - JSON decoding is an abstract partial function from contents to a
    `DocRecord`.
  - The page state (`documents`, `isLoading`, `error`) is the class
    `DocumentsPage`. Its method `LoadDocuments` is proved against the pure
    outcome `LoadOutcome`.
- **The blog page** (`src/pages/BlogPage.tsx`, module `Blog` in `blog.dfy`).
  - The category menu is `'All'` followed by the de-duplicated categories of
    all posts, in order of first appearance.
  - Choosing `'All'` clears the active category, and choosing anything else
    sets it.
  - The page shows the published posts, narrowed to the active category when
    one is set. The first of them is featured. When none pass, a message says
    why.
  - The active category and the menu are the class `BlogPage`. The posts come
    from an external store and are an argument.
- `seqs.dfy` (module `Seqs`) models the JavaScript built-ins the pages use:
  `endsWith`, `includes` and `Array.from(new Set(...))`. It also holds the
  order relations used to state the properties: subsequence, no duplicates
  and first index.

Modelling decisions:
- Timestamps are integers. The source parses them with `new Date(...)`.
- A missing or `null` title is `None`. The empty title is falsy under `||`,
  so it also gets `'Untitled Document'`.
- The active category follows JavaScript truthiness. `null` and `''` both
  mean "no filter". `''` also selects the "No published articles available
  yet." message.
- `Promise.all` keeps input order, so the concurrent reads are an in-order map.
- The sort is specified as the unique stable, newest-first arrangement of its
  input. `SortIsStableNewestFirst` proves that these two properties determine
  the list.
- If a post is tagged `'All'`, the menu lists `'All'` twice. Choosing either
  entry clears the filter. The model keeps this behaviour.
- The code at `DocumentsPage.tsx:50-55` copies whatever the decoded object
  holds and drops only failed reads and decodes; a record missing `id` or
  `updatedAt` is not dropped. Records without a usable timestamp, `id` or
  `type` are outside the model (see "Left out").

## Model

| member | source | states |
|---|---|---|
| `Documents.JsonFiles` | frontend/src/pages/DocumentsPage.tsx:44-45 | a name is kept iff it was listed and ends in `.json`; the kept names are an order-preserving subsequence of the listing, each kept name occurring as often as in the listing |
| `Documents.Summarize` | frontend/src/pages/DocumentsPage.tsx:50-55 | `id`, `type` and `updatedAt` are copied; the title is the record's when it is present and non-empty, `'Untitled Document'` otherwise, so it is never empty |
| `Documents.LoadEach` | frontend/src/pages/DocumentsPage.tsx:46-62 | one result per kept entry, in listing order, each the read-and-decode of `/documents/<name>` |
| `Documents.LoadFile` | frontend/src/pages/DocumentsPage.tsx:47-59 | a failed read of `/documents/<name>` or a failed decode gives `null`; otherwise the summary of the decoded record |
| `Documents.DropFailed` | frontend/src/pages/DocumentsPage.tsx:62-63 | the successes in their original order (an order-preserving subsequence), each exactly as often as it occurs |
| `Documents.Insert` | frontend/src/pages/DocumentsPage.tsx:64-66 | inserting into a newest-first list keeps it newest first and adds exactly the one element |
| `Documents.SortNewestFirst` | frontend/src/pages/DocumentsPage.tsx:64-66 | the result is newest first and a permutation of the input |
| `Documents.SortStable` | frontend/src/pages/DocumentsPage.tsx:64-66 | documents with equal timestamps keep their input order |
| `Documents.SortIsStableNewestFirst` | frontend/src/pages/DocumentsPage.tsx:64-66 | any list that is newest first and keeps the input order of equal timestamps is exactly the sorted list |
| `Documents.SortExample` | frontend/src/pages/DocumentsPage.tsx:64-66 | records stamped January, March and February come out March, February, January |
| `Documents.LoadedDocs` | frontend/src/pages/DocumentsPage.tsx:44-66 | the loaded list is newest first and a permutation of the successfully read and decoded `.json` entries |
| `Documents.LoadedDocsCount` | frontend/src/pages/DocumentsPage.tsx:47-63 | the list has exactly one document per `.json` entry that reads and decodes; a failing entry costs only itself |
| `Documents.LoadedDocsMembers` | frontend/src/pages/DocumentsPage.tsx:45-63 | a document is listed iff some listed `.json` entry reads and decodes to it |
| `Documents.LoadedDocsIgnoreOtherReads` | frontend/src/pages/DocumentsPage.tsx:45-48 | what a read of a non-`.json` path would return cannot change the list |
| `Documents.SuccessfulLoads` | frontend/src/pages/DocumentsPage.tsx:45-59 | a successful result is among the reads iff some listed `.json` entry reads and decodes to it |
| `Documents.LoadedDocsStable` | frontend/src/pages/DocumentsPage.tsx:62-66 | documents with equal timestamps keep the order they had before the sort, which is listing order since the `.json` filter and the drop both keep order |
| `Documents.ReadCalls` | frontend/src/pages/DocumentsPage.tsx:46-48 | one read per kept entry, of `/documents/<name>`, in order |
| `Documents.MentionsExists` | frontend/src/pages/DocumentsPage.tsx:34 | a `mkdir` rejection is ignored iff it has a message and `exists` occurs in it at some offset |
| `Documents.IssuedCalls` | frontend/src/pages/DocumentsPage.tsx:25-48 | no call iff the service is absent; otherwise `mkdir` first, then `readdir`, then only reads |
| `Documents.IssuedCallsShape` | frontend/src/pages/DocumentsPage.tsx:25-48 | no call is made when the service is absent; a non-`exists` `mkdir` failure stops after `mkdir`; every read is of a listed `.json` entry |
| `Documents.LoadOutcome` | frontend/src/pages/DocumentsPage.tsx:23-75 | an absent service gives `'File system service is not available'`; every failure carries one of the three page messages; a listed outcome needs a present store and a successful `readdir`, is newest first, and is the loaded list of that listing |
| `Documents.IssuedCallsMatchOutcome` | frontend/src/pages/DocumentsPage.tsx:25-72 | no call iff the service-missing error; calls stop at `mkdir` iff the initialisation error; a listing error stops right after `readdir`; a listed outcome follows one read per `.json` entry |
| `Documents.LoadOutcomeErrors` | frontend/src/pages/DocumentsPage.tsx:30-72 | a `mkdir` rejection mentioning `exists` behaves as success; any other one gives the initialisation message; after a good `mkdir`, the listing message appears iff `readdir` fails |
| `Documents.RecentDocuments` | frontend/src/pages/DocumentsPage.tsx:125 | the card shows the prefix of length min(5, n) |
| `Documents.RecentAreNewest` | frontend/src/pages/DocumentsPage.tsx:125 | on a newest-first list, no document left off the card is newer than one on it |
| `Documents.DocumentsPage.constructor` | frontend/src/pages/DocumentsPage.tsx:17-19 | the page starts with no documents, loading, and no error |
| `Documents.DocumentsPage.LoadDocuments` | frontend/src/pages/DocumentsPage.tsx:21-79 | `isLoading` ends false; on success `documents` is the loaded list and `error` is untouched; on failure `error` is the message and `documents` is untouched |
| `Documents.LoadOnMount` | frontend/src/pages/DocumentsPage.tsx:17-82 | after the mount-time load, exactly one of a list and an error message is present; on error the list is empty and the message is the one for the failing step (service missing, `mkdir`, `readdir`); otherwise the list is the loaded, newest-first list of the directory's `.json` entries |
| `Seqs.Dedup` | src/pages/BlogPage.tsx:19-21 | the distinct elements of the input: no duplicates, and nothing lost or added |
| `Seqs.DedupFirstAppearance` | src/pages/BlogPage.tsx:19-21 | the distinct elements are listed in order of first appearance |
| `Seqs.ContainsAt` | frontend/src/pages/DocumentsPage.tsx:34 | a string containing the needle at some offset satisfies `includes` |
| `Seqs.ContainsHasOffset` | frontend/src/pages/DocumentsPage.tsx:34 | a string that satisfies `includes` has the needle at some offset |
| `Seqs.ContainsIffOccurs` | frontend/src/pages/DocumentsPage.tsx:34 | `includes` holds iff the needle occurs at some offset |
| `Blog.AllCategories` | src/pages/BlogPage.tsx:20 | a category occurs iff some post carries it |
| `Blog.CategoryMenu` | src/pages/BlogPage.tsx:19-22 | the menu starts with `'All'`; after it each category of every post appears exactly once and nothing else appears |
| `Blog.CategoryMenuOrder` | src/pages/BlogPage.tsx:19-21 | after `'All'`, the categories are in order of first appearance across the posts |
| `Blog.ActiveFor` | src/pages/BlogPage.tsx:27 | choosing `'All'` clears the active category; any other choice becomes it |
| `Blog.Published` | src/pages/BlogPage.tsx:32 | a post is kept iff its status is `'published'` |
| `Blog.InCategory` | src/pages/BlogPage.tsx:36 | a post is kept iff its categories include the given one |
| `Blog.GetFilteredPosts` | src/pages/BlogPage.tsx:31-37 | only published posts; with no effective category exactly the published ones; with one, a post is shown iff it is published and tagged with it |
| `Blog.FilteredPostsSpec` | src/pages/BlogPage.tsx:31-37 | the filtered posts are exactly the published posts matching the active category (if any), each as often as in `posts`, as an order-preserving subsequence of `posts` |
| `Blog.UnfilteredIsPublished` | src/pages/BlogPage.tsx:32-34 | with no effective active category, the page shows exactly the published posts in original order |
| `Blog.ChooseCategory` | src/pages/BlogPage.tsx:26-37 | after choosing a menu entry, a post is shown iff it is published and, unless the entry is `'All'` or empty, tagged with it |
| `Blog.FeaturedPosts` | src/pages/BlogPage.tsx:40 | at most one featured post, present iff the filtered list is non-empty, and it is the first |
| `Blog.RecentPosts` | src/pages/BlogPage.tsx:41 | featured followed by recent is the filtered list |
| `Blog.NoPostsMessage` | src/pages/BlogPage.tsx:143-149 | a message appears iff nothing passes the filter; it names the active category when one is set and otherwise says nothing is published |
| `Blog.BlogPage.constructor` | src/pages/BlogPage.tsx:9-10 | no active category and an empty menu at first |
| `Blog.BlogPage.PostsChanged` | src/pages/BlogPage.tsx:18-23 | the menu becomes the category menu of the current posts |
| `Blog.BlogPage.FilterPostsByCategory` | src/pages/BlogPage.tsx:26-28 | the active category becomes the choice, or none for `'All'`; it is never `'All'` |
| `Blog.BlogPage.Render` | src/pages/BlogPage.tsx:39-41 | featured is `slice(0, 1)` and recent `slice(1)` of the filtered list, whose posts are exactly the selected ones; the message is the one for the filtered list and active category, present iff there is nothing to show |

## Left out

- Rendering: JSX, CSS classes, icons, dates formatted with `toLocaleDateString`, and the button label `activeCategory || 'All Categories'` (`BlogPage.tsx:54`).
- Navigation targets (`DocumentsPage.tsx:85, 89, 152`), the import alert (`DocumentsPage.tsx:169-172`) and the retry reload (`DocumentsPage.tsx:107`). They call the router or the browser.
- The file-store calls themselves. `mkdir`, `readdir` and `read` appear only as their outcomes.
- `JSON.parse` and the field access after it. They are one abstract partial decoder per file's contents.
- `new Date(updatedAt).getTime()`. Timestamps are integers here. A record without a valid date gives `NaN` in the comparator and an unspecified order, so such records are not modelled.
- Records whose `id` or `type` is missing or is not a string are not modelled. The model's record always carries both as strings, so the `undefined` values that such a record would show are not represented.
- Title values that are neither a string nor missing, such as numbers or objects, are not modelled. The title is an optional string.
- A `mkdir` rejection whose reason is `null` or `undefined` is not modelled. Reading `.message` from it would throw into the outer catch. A rejection without a message is modelled, and it gives the initialisation error.
- The outer catch's fallback `'Failed to load documents'` for non-`Error` throws (`DocumentsPage.tsx:75`). No modelled path throws a non-`Error`.
- Logging with `console.error`.
- The concurrency of the reads under `Promise.all`, and the missing cancellation on unmount. A late state update after navigation is not modelled. The reads are a sequential, order-preserving map.
- The blog store (`useBlogStore`, `loadPosts`, its `isLoading`). It is external, so `posts` is an argument.
- `src/pages/Register.tsx`. It is a pass-through to the authentication client, and its only local check is password equality.

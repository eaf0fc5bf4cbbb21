# Feed state of the Pix gallery page

This project models the state and derived views of the `Index` page in
`src/pages/Index.tsx`, the photo feed of a Pinterest-like gallery.

The page holds three pieces of state:
- the active tab (`home`, `search` or `saved`);
- the ordered list of posts, seeded with six posts;
- the search query.

Two handlers flip the `liked` or `saved` flag of the post with a given id.
Three lists are derived on every render:
- `savedPosts`, the saved posts;
- `displayPosts`, the saved posts on the saved tab and all posts elsewhere;
- `filteredPosts`, which on the search tab with a non-empty query keeps the
  posts whose lower-cased title or author contains the lower-cased query.

Two notices depend on these lists: "no saved posts" and "nothing found".

Layout:
- `text.dfy` (module `Text`): lower-casing and substring search.
- `posts.dfy` (module `Posts`): the `Post` record, the seeded list, the toggle
  map and the order-keeping filter, with their lemmas.
- `views.dfy` (module `Views`): the derived lists, the notices and what a
  render shows.
- `page.dfy` (module `IndexPage`): the component as a class whose fields are
  its state and whose methods are its handlers and setters.
- `scenarios.dfy` (module `Scenarios`): concrete scenarios on the seeded
  posts, proved as lemmas.

The like and save toggles share one function, `ToggleFlag`, whose `Flag`
argument picks the field. A filter is `Select` with a `Criterion`: either
"is saved" or "matches query q".

This version of `src/pages/Index.tsx` keeps no comments, selected post or
upload state, and has no handlers for editing or deleting posts. The model
covers what the page does.

## Model

| member | source | states |
|---|---|---|
| `Text.LowerChar` | src/pages/Index.tsx:96-97 | the folded character is never an upper-case letter, and a character that is not upper-case is kept |
| `Text.Lower` | src/pages/Index.tsx:96-97 | the fold keeps the length, leaves no upper-case letter, and keeps every character that was not upper-case in its place |
| `Text.LowerIdempotent` | src/pages/Index.tsx:96-97 | lower-casing a lower-cased string changes nothing |
| `Text.IncludesIffOccurs` | src/pages/Index.tsx:96-97 | `includes(q)` holds exactly when `q` occurs in `s` at some position |
| `Text.MissingCharExcludes` | src/pages/Index.tsx:96-97 | a query holding a character the text lacks is not included in the text |
| `Text.FoldedLetterAbsent` | src/pages/Index.tsx:96-97 | a small letter of any folded pair (a-z, а-я, ё) that a string holds neither as itself nor as its capital is missing from its lower-cased form |
| `Text.Includes` | src/pages/Index.tsx:96-97 | no contract of its own; its meaning is in `IncludesIffOccurs`, `MissingCharExcludes` and `IncludesEmpty` |
| `Text.LowerCharEqIff` | src/pages/Index.tsx:96-97 | two characters fold to the same character exactly when they are the same letter up to case |
| `Text.LowerEqIffSameUpToCase` | src/pages/Index.tsx:96-97 | two strings lower-case to the same string exactly when they have the same length and each pair of characters is equal or a capital with its own small letter |
| `Text.IncludesEmpty` | src/pages/Index.tsx:94-99 | every string includes the empty string |
| `Posts.Post` | src/pages/Index.tsx:7-15 | the post record, field for field; no contract of its own |
| `Posts.InitialPosts` | src/pages/Index.tsx:17-72 | no contract of its own; its meaning is in `InitialPostsShape` |
| `Posts.InitialPostsShape` | src/pages/Index.tsx:17-72 | the seeded list has six posts with ids 1 to 6 in order, all distinct, none liked or saved |
| `Posts.ToggleFlag` | src/pages/Index.tsx:79-89 | the toggle keeps the length and order; each post with the id has only the chosen flag negated; the other flag and every other field stay; posts with another id are unchanged |
| `Posts.Flip` | src/pages/Index.tsx:81-87 | no contract of its own; the copy with one flag negated, as stated in `ToggleFlag`'s contract |
| `Posts.ToggleTwice` | src/pages/Index.tsx:79-89 | toggling the same flag of the same id twice gives back the original list |
| `Posts.ToggleKeepsIds` | src/pages/Index.tsx:79-89 | a toggle keeps the id sequence, so distinct ids stay distinct |
| `Posts.ToggleAbsentId` | src/pages/Index.tsx:79-89 | toggling an id that no post has leaves the list unchanged |
| `Posts.ToggleTouchesOnlyOne` | src/pages/Index.tsx:79-89 | with distinct ids, toggling the id of the post at k changes that position only |
| `Posts.TogglesCommute` | src/pages/Index.tsx:79-89 | a like and a save toggle give the same list in either order, so the two flags are independent |
| `Posts.Matches` | src/pages/Index.tsx:96-97 | no contract of its own; its meaning is in `SelectQueryCaseInsensitive`, `SameUpToCaseSelectsSame` and `FilteredPostsShape` |
| `Posts.Select` | src/pages/Index.tsx:91-99 | a filter result is never longer than its input |
| `Posts.SelectMembers` | src/pages/Index.tsx:91-99 | a post is in the filter result exactly when it is in the input and passes the criterion |
| `Posts.SelectIsSubsequence` | src/pages/Index.tsx:91-99 | a filter result is an ordered subsequence of its input |
| `Posts.SelectPositions` | src/pages/Index.tsx:91-99 | the filter result is read off a strictly increasing list of input positions, which holds exactly the positions whose post passes |
| `Posts.SelectEmptyIff` | src/pages/Index.tsx:91-99 | a filter result is empty exactly when no input post passes |
| `Posts.SelectSingle` | src/pages/Index.tsx:91-99 | when only the post at k passes, the result is that post alone |
| `Posts.SelectAll` | src/pages/Index.tsx:91-99 | when every post passes, the filter returns its input |
| `Posts.ToggleKeepsSelectedIds` | src/pages/Index.tsx:79-99 | a toggle never changes which ids a filter keeps, unless the filter reads the toggled flag |
| `Posts.SelectQueryCaseInsensitive` | src/pages/Index.tsx:94-99 | a query and its lower-cased form select the same posts |
| `Posts.SameUpToCaseSelectsSame` | src/pages/Index.tsx:94-99 | two queries spelled the same up to case select the same posts from every list |
| `Views.Tab` | src/pages/Index.tsx:75 | the three values of the active-tab state; no contract of its own |
| `Views.SavedPosts` | src/pages/Index.tsx:91 | no contract of its own; its meaning is in `SavedPostsExact` |
| `Views.DisplayPosts` | src/pages/Index.tsx:92 | no contract of its own; its meaning is in `FilteredPostsCases` and `FilteredPostsShape` |
| `Views.FilteredPosts` | src/pages/Index.tsx:94-99 | no contract of its own; its meaning is in `FilteredPostsCases` and `FilteredPostsShape` |
| `Views.NoSavedNotice` | src/pages/Index.tsx:155 | no contract of its own; its meaning is in `NoSavedNoticeIff` |
| `Views.NothingFoundNotice` | src/pages/Index.tsx:213 | no contract of its own; its meaning is in `NothingFoundNoticeIff` |
| `Views.Render` | src/pages/Index.tsx:155-219 | no contract of its own; its meaning is in `RenderShowsFiltered` |
| `Views.SavedPostsExact` | src/pages/Index.tsx:91 | `savedPosts` is an ordered subsequence of the posts, holds exactly the saved ones, and is empty exactly when none is saved |
| `Views.FilteredPostsCases` | src/pages/Index.tsx:92-99 | `filteredPosts` is `displayPosts` unless the tab is search and the query is non-empty; in that case it is the posts matching the query; outside the saved tab `displayPosts` is all posts |
| `Views.FilteredPostsShape` | src/pages/Index.tsx:91-99 | the visible posts are an ordered subsequence of all posts; on the saved tab each is saved; with an active search a post is visible exactly when it matches |
| `Views.EmptyQueryNeutral` | src/pages/Index.tsx:94-99 | filtering with the empty query keeps every post |
| `Views.NoSavedNoticeIff` | src/pages/Index.tsx:155 | the "no saved posts" notice shows exactly on the saved tab when no post is saved |
| `Views.NothingFoundNoticeIff` | src/pages/Index.tsx:213 | the "nothing found" notice shows exactly on the search tab with a non-empty query that no post matches |
| `Views.RenderShowsFiltered` | src/pages/Index.tsx:155-219 | a rendered grid shows exactly `filteredPosts`; when the "no saved posts" notice replaces it `filteredPosts` is empty; the two notices never show together |
| `Views.ToggleSaveMovesPost` | src/pages/Index.tsx:85-91 | with distinct ids, saving a post puts its flipped copy on the saved list exactly when it was not saved, and no other copy of that id is there |
| `Views.LikeKeepsSavedIds` | src/pages/Index.tsx:79-91 | liking a post never changes which ids the saved tab shows |
| `IndexPage.Index.constructor` | src/pages/Index.tsx:75-77 | the page starts on the home tab with the seeded posts and an empty query |
| `IndexPage.Index.ToggleLike` | src/pages/Index.tsx:79-83 | `posts` becomes the like toggle of the old list with the same ids; because ids stay distinct, the post carrying the id is the only one changed, with `liked` negated; tab and query are unchanged |
| `IndexPage.Index.ToggleSave` | src/pages/Index.tsx:85-89 | `posts` becomes the save toggle of the old list with the same ids; because ids stay distinct, the post carrying the id is the only one changed, with `saved` negated; tab and query are unchanged |
| `IndexPage.Index.View` | src/pages/Index.tsx:155-219 | no contract of its own; what the current state renders, through `Views.Render` |
| `IndexPage.Index.SetActiveTab` | src/pages/Index.tsx:123-146 | only the tab changes |
| `IndexPage.Index.SetSearchQuery` | src/pages/Index.tsx:111-117 | only the query changes, to the text as typed |
| `Scenarios.WhitespaceQueryFilters` | src/pages/Index.tsx:94-99 | a two-space query is not trimmed: it hides "Mountain Serenity" and shows "nothing found", while the empty query shows the post |
| `Scenarios.UrbanMatchesQuery` | src/pages/Index.tsx:96-97 | "Urban Lines" matches the query "urban" although its title starts with a capital |
| `Scenarios.MissesQueryWithLetter` | src/pages/Index.tsx:96-97 | a post whose title and author lack a small letter of the query (a-z, а-я or ё) both as itself and as its capital does not match it |
| `Scenarios.QueryWithBFindsOnlyUrban` | src/pages/Index.tsx:17-99 | on the search tab, a query holding a b that matches "Urban Lines" finds that post alone among the seeded posts, and "nothing found" is not shown |
| `Scenarios.UrbanQueryFindsUrban` | src/pages/Index.tsx:17-99 | on the search tab, the query "urban" finds exactly "Urban Lines" among the seeded posts |
| `Scenarios.UrbanInAnyCaseFindsUrban` | src/pages/Index.tsx:94-99 | any query spelled "urban" up to case finds exactly "Urban Lines" among the seeded posts |
| `Scenarios.SavedTabScenario` | src/pages/Index.tsx:75-163 | a usage example of the page class with no contract of its own: on the saved tab nothing is shown at first, saving post 2 shows exactly that post, and saving it again restores the seeded posts (checked by assertions in its body) |
| `Scenarios.SaveSecondSeed` | src/pages/Index.tsx:17-91 | saving post 2 of the seeded list changes only that post and makes it the only saved post |

## Left out

- Rendering (JSX, Tailwind classes, icons, hover and opacity styling) is not modelled. `Views.Render` keeps only which notice shows and which posts get a card.
- `image` and `aspectRatio` are carried as opaque strings and never inspected.
- `Text.LowerChar`: folds only ASCII A-Z, Cyrillic А-Я and Ё. The full Unicode rules of `toLowerCase` are not modelled, including mappings that change a string's length. Strings are sequences of Unicode characters, not UTF-16 code units.
- Post ids are mathematical integers. JavaScript number semantics (fractions, NaN) are not modelled.
- React's `useState` scheduling is not modelled. Each setter is a synchronous assignment, and a handler works on the current state, not on a list captured at an earlier render.
- The other components (header, mobile navigation, post card, post detail sheet, upload and edit dialogs) only render props and forward callbacks. Their guards are not modelled: the owner check in `src/components/PostCard.tsx:61` and the empty-comment guard in `src/components/PostDetailSheet.tsx:142`. The file picker in `src/components/UploadDialog.tsx` is platform I/O.
- Comment submission, title editing, deletion, upload, notifications and a separately held selected post are not modelled. This version of `src/pages/Index.tsx` has none of them.
- `Scenarios.WhitespaceQueryFilters`: the two-space example is stated on the one-post list holding "Mountain Serenity", not on the whole seeded list.

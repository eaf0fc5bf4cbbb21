/** The lists and notices the page derives from its state on every render:
    `savedPosts`, `displayPosts`, `filteredPosts`, and the two empty-state
    notices ("no saved posts" and "nothing found"). */
module Views {
  import opened Text
  import opened Posts

  /** The page's three tabs. */
  datatype Tab = Home | Search | Saved

  /** The saved posts, in feed order (src/pages/Index.tsx:91). */
  function SavedPosts(ps: seq<Post>): seq<Post> {
    Select(ps, IsSaved)
  }

  /** The saved posts on the saved tab, every post on the other two. */
  function DisplayPosts(tab: Tab, ps: seq<Post>): seq<Post> {
    if tab == Saved then SavedPosts(ps) else ps
  }

  /** The search filter applies only on the search tab with a non-empty
      query; the query is used as typed, without trimming. */
  function FilteredPosts(tab: Tab, ps: seq<Post>, q: string): seq<Post> {
    if tab == Search && q != "" then Select(DisplayPosts(tab, ps), Query(q))
    else DisplayPosts(tab, ps)
  }

  /** The "no saved posts" notice replaces the grid. */
  predicate NoSavedNotice(tab: Tab, ps: seq<Post>) {
    tab == Saved && |SavedPosts(ps)| == 0
  }

  /** The "nothing found" notice is shown under the (empty) grid. */
  predicate NothingFoundNotice(tab: Tab, ps: seq<Post>, q: string) {
    tab == Search && q != "" && |FilteredPosts(tab, ps, q)| == 0
  }

  /** What the main area holds: the "no saved posts" notice or the grid of cards. */
  datatype Body = EmptySaved | Grid(cards: seq<Post>)

  /** The rendered page, reduced to which notice is shown and which posts get a card. */
  datatype Screen = Screen(body: Body, nothingFound: bool)

  function Render(tab: Tab, ps: seq<Post>, q: string): Screen {
    Screen(if NoSavedNotice(tab, ps) then EmptySaved else Grid(FilteredPosts(tab, ps, q)),
           NothingFoundNotice(tab, ps, q))
  }

  /** `savedPosts` is the ordered subsequence of the posts made of exactly the
      saved ones, and it is empty exactly when no post is saved. */
  lemma SavedPostsExact(ps: seq<Post>)
    ensures IsSubsequence(SavedPosts(ps), ps)
    ensures forall p :: p in SavedPosts(ps) <==> p in ps && p.saved
    ensures SavedPosts(ps) == [] <==> forall p :: p in ps ==> !p.saved
  {
    SelectIsSubsequence(ps, IsSaved);
    SelectMembers(ps, IsSaved);
    SelectEmptyIff(ps, IsSaved);
  }

  /** Outside the search tab, or with an empty query, the filter is the display
      list; on the search tab with a query it is the matching posts. */
  lemma FilteredPostsCases(tab: Tab, ps: seq<Post>, q: string)
    ensures !(tab == Search && q != "") ==> FilteredPosts(tab, ps, q) == DisplayPosts(tab, ps)
    ensures tab == Search && q != "" ==> FilteredPosts(tab, ps, q) == Select(ps, Query(q))
    ensures tab != Saved ==> DisplayPosts(tab, ps) == ps
  {
  }

  /** The visible posts are always an ordered subsequence of all posts; on the
      saved tab each of them is saved, and with an active search each matches
      the query, and every matching post is shown. */
  lemma FilteredPostsShape(tab: Tab, ps: seq<Post>, q: string)
    ensures IsSubsequence(FilteredPosts(tab, ps, q), ps)
    ensures tab == Saved ==> forall p :: p in FilteredPosts(tab, ps, q) ==> p.saved
    ensures tab == Search && q != "" ==>
      forall p :: p in FilteredPosts(tab, ps, q) <==> p in ps && Matches(p, q)
  {
    SubsequenceReflexive(ps);
    SelectIsSubsequence(ps, IsSaved);
    SelectMembers(ps, IsSaved);
    SelectIsSubsequence(ps, Query(q));
    SelectMembers(ps, Query(q));
  }

  /** The empty query keeps every post: every string includes "". */
  lemma {:induction false} EmptyQueryNeutral(ps: seq<Post>)
    ensures Select(ps, Query("")) == ps
  {
    assert Lower("") == "";
    forall p | p in ps ensures Keeps(Query(""), p) {
      IncludesEmpty(Lower(p.title));
    }
    SelectAll(ps, Query(""));
  }

  /** The "no saved posts" notice is shown exactly on the saved tab when no post is saved. */
  lemma NoSavedNoticeIff(tab: Tab, ps: seq<Post>)
    ensures NoSavedNotice(tab, ps) <==> tab == Saved && forall p :: p in ps ==> !p.saved
  {
    SavedPostsExact(ps);
  }

  /** The "nothing found" notice is shown exactly on the search tab, with a
      non-empty query, when no post's title or author matches it. */
  lemma NothingFoundNoticeIff(tab: Tab, ps: seq<Post>, q: string)
    ensures NothingFoundNotice(tab, ps, q) <==>
      tab == Search && q != "" && forall p :: p in ps ==> !Matches(p, q)
  {
    SelectEmptyIff(ps, Query(q));
  }

  /** The grid always shows `filteredPosts` when it is rendered; when the
      "no saved posts" notice replaces it, `filteredPosts` is empty anyway;
      the two notices are never shown together. */
  lemma RenderShowsFiltered(tab: Tab, ps: seq<Post>, q: string)
    ensures Render(tab, ps, q).body.Grid? ==> Render(tab, ps, q).body.cards == FilteredPosts(tab, ps, q)
    ensures Render(tab, ps, q).body.EmptySaved? ==> FilteredPosts(tab, ps, q) == []
    ensures !(Render(tab, ps, q).body.EmptySaved? && Render(tab, ps, q).nothingFound)
  {
  }

  /** Toggling "save" on a post present once (ids distinct) puts it on the
      saved tab if it was not saved, and takes it off if it was. */
  lemma ToggleSaveMovesPost(ps: seq<Post>, k: int)
    requires DistinctIds(ps)
    requires 0 <= k < |ps|
    ensures var after := ToggleFlag(ps, ps[k].id, Save);
      forall p :: p in SavedPosts(after) ==> p.id != ps[k].id || p == Flip(ps[k], Save)
    ensures Flip(ps[k], Save) in SavedPosts(ToggleFlag(ps, ps[k].id, Save)) <==> !ps[k].saved
  {
    var after := ToggleFlag(ps, ps[k].id, Save);
    ToggleTouchesOnlyOne(ps, k, Save);
    SavedPostsExact(after);
    assert after[k] == Flip(ps[k], Save);
    forall p | p in after && p.id == ps[k].id ensures p == Flip(ps[k], Save) {
      var j :| 0 <= j < |after| && after[j] == p;
      assert ps[j].id == ps[k].id;
    }
  }

  /** Liking a post never changes which posts the saved tab shows. */
  lemma LikeKeepsSavedIds(ps: seq<Post>, id: int)
    ensures Ids(SavedPosts(ToggleFlag(ps, id, Like))) == Ids(SavedPosts(ps))
  {
    ToggleKeepsSelectedIds(ps, id, Like, IsSaved);
  }
}

/** The `Index` page component: its three pieces of state and the handlers
    that replace them. Each `setX` call is a plain assignment. */
module IndexPage {
  import opened Posts
  import opened Views

  class Index {
    var activeTab: Tab
    var posts: seq<Post>
    var searchQuery: string

    /** Every reachable page keeps the post ids distinct, so a toggle
        changes exactly the one post that carries the id. */
    ghost predicate Valid()
      reads this
    {
      DistinctIds(posts)
    }

    /** The first render: home tab, the seeded posts, an empty query. */
    constructor ()
      ensures Valid()
      ensures activeTab == Home && posts == InitialPosts() && searchQuery == ""
    {
      activeTab := Home;
      posts := InitialPosts();
      searchQuery := "";
      InitialPostsShape();
    }

    /** `toggleLike(id)`: flips `liked` on the post with that id. */
    method ToggleLike(id: int)
      requires Valid()
      modifies this
      ensures Valid()
      ensures posts == ToggleFlag(old(posts), id, Like)
      ensures Ids(posts) == Ids(old(posts))
      ensures forall k :: 0 <= k < |old(posts)| && old(posts)[k].id == id ==>
        posts == old(posts)[k := Flip(old(posts)[k], Like)]
      ensures activeTab == old(activeTab) && searchQuery == old(searchQuery)
    {
      ToggleKeepsIds(posts, id, Like);
      forall k | 0 <= k < |posts| && posts[k].id == id
        ensures ToggleFlag(posts, id, Like) == posts[k := Flip(posts[k], Like)]
      {
        ToggleTouchesOnlyOne(posts, k, Like);
      }
      posts := ToggleFlag(posts, id, Like);
    }

    /** `toggleSave(id)`: flips `saved` on the post with that id. */
    method ToggleSave(id: int)
      requires Valid()
      modifies this
      ensures Valid()
      ensures posts == ToggleFlag(old(posts), id, Save)
      ensures Ids(posts) == Ids(old(posts))
      ensures forall k :: 0 <= k < |old(posts)| && old(posts)[k].id == id ==>
        posts == old(posts)[k := Flip(old(posts)[k], Save)]
      ensures activeTab == old(activeTab) && searchQuery == old(searchQuery)
    {
      ToggleKeepsIds(posts, id, Save);
      forall k | 0 <= k < |posts| && posts[k].id == id
        ensures ToggleFlag(posts, id, Save) == posts[k := Flip(posts[k], Save)]
      {
        ToggleTouchesOnlyOne(posts, k, Save);
      }
      posts := ToggleFlag(posts, id, Save);
    }

    /** One of the three header buttons. */
    method SetActiveTab(tab: Tab)
      requires Valid()
      modifies this
      ensures Valid()
      ensures activeTab == tab
      ensures posts == old(posts) && searchQuery == old(searchQuery)
    {
      activeTab := tab;
    }

    /** The search box's `onChange`: the typed text, untrimmed. */
    method SetSearchQuery(q: string)
      requires Valid()
      modifies this
      ensures Valid()
      ensures searchQuery == q
      ensures posts == old(posts) && activeTab == old(activeTab)
    {
      searchQuery := q;
    }

    /** What the current state renders. */
    function View(): Screen
      reads this
    {
      Render(activeTab, posts, searchQuery)
    }
  }
}

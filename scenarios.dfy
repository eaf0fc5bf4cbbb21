/** The page's behaviour on concrete inputs drawn from its seeded posts. */
module Scenarios {
  import opened Text
  import opened Posts
  import opened Views
  import opened IndexPage

  /** No two spaces in a row in `s`, whatever the case folding. */
  predicate NoDoubleSpace(s: string) {
    forall i :: 0 <= i < |s| - 1 ==> !(LowerChar(s[i]) == ' ' && LowerChar(s[i + 1]) == ' ')
  }

  /** Two space-free words joined by one space hold no two spaces in a row. */
  lemma OneSpace(a: string, b: string)
    requires ' ' !in a && ' ' !in b
    ensures NoDoubleSpace(a + " " + b)
  {
    var s := a + " " + b;
    forall i | 0 <= i < |s| && i != |a| ensures s[i] != ' ' {
      if i < |a| {
        assert s[i] == a[i] && a[i] in a;
      } else {
        assert s[i] == b[i - |a| - 1] && b[i - |a| - 1] in b;
      }
    }
  }

  /** "Mountain Serenity" by "Alex M." does not match a query of two spaces. */
  lemma MountainMissesDoubleSpace()
    ensures !Matches(Mountain, "  ")
  {
    OneSpace("Mountain", "Serenity");
    OneSpace("Alex", "M.");
    FoldedPairNeeded(Mountain.title, "  ");
    FoldedPairNeeded(Mountain.author, "  ");
  }

  /** A query of two spaces is used as typed, not trimmed to "": it hides
      "Mountain Serenity", which the empty query shows. */
  lemma WhitespaceQueryFilters()
    ensures FilteredPosts(Search, [Mountain], "  ") == []
    ensures NothingFoundNotice(Search, [Mountain], "  ")
    ensures FilteredPosts(Search, [Mountain], "") == [Mountain]
  {
    MountainMissesDoubleSpace();
  }

  /** "Urban Lines" matches the query "urban" although its first letter is
      a capital. */
  lemma UrbanMatchesQuery()
    ensures Matches(Urban, "urban")
  {
    assert Lower("urban") == "urban";
    assert Lower(Urban.title)[..5] == "urban";
  }

  /** A query holding a small letter that a post's title and author lack
      both as itself and as its capital does not match that post. The title and author are
      also passed as string literals so that the letter checks run on the
      literals: they are much cheaper for the solver than the same checks
      on a seeded post's fields. */
  lemma MissesQueryWithLetter(p: Post, title: string, author: string, q: string, c: char, upper: char)
    requires p.title == title && p.author == author
    requires SmallOf(upper, c) && c in q
    requires c !in title && upper !in title
    requires c !in author && upper !in author
    ensures !Keeps(Query(q), p)
  {
    var j :| 0 <= j < |q| && q[j] == c;
    assert Lower(q)[j] == c;
    FoldedLetterAbsent(title, upper, c);
    FoldedLetterAbsent(author, upper, c);
    MissingCharExcludes(Lower(title), Lower(q), c);
    MissingCharExcludes(Lower(author), Lower(q), c);
  }

  /** The seeded posts other than "Urban Lines" have no b in title or
      author, so they miss every query holding a b. There is one lemma per
      post because proving all five in one lemma is too costly for the
      solver. */
  lemma MountainMissesB(q: string)
    requires 'b' in q
    ensures !Keeps(Query(q), Mountain)
  {
    MissesQueryWithLetter(Mountain, "Mountain Serenity", "Alex M.", q, 'b', 'B');
  }

  lemma CoffeeMissesB(q: string)
    requires 'b' in q
    ensures !Keeps(Query(q), Coffee)
  {
    MissesQueryWithLetter(Coffee, "Coffee Moments", "Mike R.", q, 'b', 'B');
  }

  lemma NatureMissesB(q: string)
    requires 'b' in q
    ensures !Keeps(Query(q), Nature)
  {
    MissesQueryWithLetter(Nature, "Nature Escape", "Emma L.", q, 'b', 'B');
  }

  lemma CityMissesB(q: string)
    requires 'b' in q
    ensures !Keeps(Query(q), City)
  {
    MissesQueryWithLetter(City, "City Views", "John D.", q, 'b', 'B');
  }

  lemma CozyMissesB(q: string)
    requires 'b' in q
    ensures !Keeps(Query(q), Cozy)
  {
    MissesQueryWithLetter(Cozy, "Cozy Space", "Lisa W.", q, 'b', 'B');
  }

  /** On the search tab, a query that holds a b and matches "Urban Lines"
      finds that post alone among the seeded posts. */
  lemma QueryWithBFindsOnlyUrban(q: string)
    requires 'b' in q && Matches(Urban, q)
    ensures FilteredPosts(Search, InitialPosts(), q) == [Urban]
    ensures !NothingFoundNotice(Search, InitialPosts(), q)
  {
    MountainMissesB(q);
    CoffeeMissesB(q);
    NatureMissesB(q);
    CityMissesB(q);
    CozyMissesB(q);
    SelectSingle(InitialPosts(), Query(q), 1);
  }

  /** On the search tab, the query "urban" finds exactly "Urban Lines" among
      the seeded posts, although the title starts with a capital. */
  lemma UrbanQueryFindsUrban()
    ensures FilteredPosts(Search, InitialPosts(), "urban") == [Urban]
    ensures !NothingFoundNotice(Search, InitialPosts(), "urban")
  {
    assert "urban"[2] == 'b';
    UrbanMatchesQuery();
    QueryWithBFindsOnlyUrban("urban");
  }

  /** Any query spelled "urban" up to case, such as "URBAN" or "Urban",
      finds exactly "Urban Lines" among the seeded posts. */
  lemma UrbanInAnyCaseFindsUrban(q: string)
    requires SameUpToCase(q, "urban")
    ensures FilteredPosts(Search, InitialPosts(), q) == [Urban]
  {
    UrbanQueryFindsUrban();
    SameUpToCaseSelectsSame(InitialPosts(), q, "urban");
  }

  /** Saving post 2 in the seeded list makes it the only saved post. */
  lemma SaveSecondSeed()
    ensures ToggleFlag(InitialPosts(), 2, Save) == InitialPosts()[1 := Urban.(saved := true)]
    ensures SavedPosts(ToggleFlag(InitialPosts(), 2, Save)) == [Urban.(saved := true)]
  {
    InitialPostsShape();
    ToggleTouchesOnlyOne(InitialPosts(), 1, Save);
    SelectSingle(ToggleFlag(InitialPosts(), 2, Save), IsSaved, 1);
  }

  /** A usage example of the page class. On the saved tab nothing is shown
      at first; after saving post 2 exactly that post is shown; saving it
      again restores the seeded list. */
  method SavedTabScenario()
  {
    var page := new Index();
    page.SetActiveTab(Saved);
    InitialPostsShape();
    SelectEmptyIff(InitialPosts(), IsSaved);
    assert page.View() == Screen(EmptySaved, false);
    page.ToggleSave(2);
    SaveSecondSeed();
    assert page.View() == Screen(Grid([Urban.(saved := true)]), false);
    page.ToggleSave(2);
    ToggleTwice(InitialPosts(), 2, Save);
    assert page.posts == InitialPosts();
  }
}

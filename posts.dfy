/** The feed's data: the `Post` record, the seeded list, the like/save
    toggles (a `map` over the list that rewrites the post with a matching id)
    and the order-keeping `filter` used by every derived view. */
module Posts {
  import opened Text

  /** One feed entry. `image` and `aspectRatio` are carried but never inspected. */
  datatype Post = Post(
    id: int,
    image: string,
    title: string,
    author: string,
    liked: bool,
    saved: bool,
    aspectRatio: string)

  /** The three photo URLs the seeded posts point at (opaque payload). */
  const PhotoA: string := "https://cdn.poehali.dev/projects/a1b85591-5932-4ee8-9fa7-8d4bef4a4ecf/files/2f845b11-8a2e-4dcc-a4fe-66ca7b82c306.jpg"
  const PhotoB: string := "https://cdn.poehali.dev/projects/a1b85591-5932-4ee8-9fa7-8d4bef4a4ecf/files/08d3fc9d-2f9e-4972-a4a7-ed3436825f0c.jpg"
  const PhotoC: string := "https://cdn.poehali.dev/projects/a1b85591-5932-4ee8-9fa7-8d4bef4a4ecf/files/8fa240a2-beeb-42fb-b0ce-224a39780c7f.jpg"

  /** The six posts the page starts with. */
  const Mountain := Post(1, PhotoA, "Mountain Serenity", "Alex M.", false, false, "aspect-[3/4]")
  const Urban := Post(2, PhotoB, "Urban Lines", "Sarah K.", false, false, "aspect-square")
  const Coffee := Post(3, PhotoC, "Coffee Moments", "Mike R.", false, false, "aspect-[4/5]")
  const Nature := Post(4, PhotoA, "Nature Escape", "Emma L.", false, false, "aspect-[2/3]")
  const City := Post(5, PhotoB, "City Views", "John D.", false, false, "aspect-[3/4]")
  const Cozy := Post(6, PhotoC, "Cozy Space", "Lisa W.", false, false, "aspect-square")

  function InitialPosts(): seq<Post> {
    [Mountain, Urban, Coffee, Nature, City, Cozy]
  }

  /** The id sequence of a list of posts, in order. */
  function Ids(ps: seq<Post>): (r: seq<int>)
    ensures |r| == |ps|
    ensures forall i :: 0 <= i < |ps| ==> r[i] == ps[i].id
  {
    seq(|ps|, i requires 0 <= i < |ps| => ps[i].id)
  }

  /** No two posts share an id. */
  predicate DistinctIds(ps: seq<Post>) {
    forall i, j :: 0 <= i < j < |ps| ==> ps[i].id != ps[j].id
  }

  /** The seeded list has ids 1 through 6, in order, and nothing is liked or saved yet. */
  lemma InitialPostsShape()
    ensures |InitialPosts()| == 6
    ensures Ids(InitialPosts()) == [1, 2, 3, 4, 5, 6]
    ensures DistinctIds(InitialPosts())
    ensures forall p :: p in InitialPosts() ==> !p.liked && !p.saved
  {
  }

  /** The two per-post flags the viewer can toggle. */
  datatype Flag = Like | Save

  /** The value of flag `f` on post `p`. */
  function FlagOf(p: Post, f: Flag): bool {
    match f
    case Like => p.liked
    case Save => p.saved
  }

  /** A copy of `p` with flag `f` negated (src/pages/Index.tsx:81 and :87). */
  function Flip(p: Post, f: Flag): Post {
    match f
    case Like => p.(liked := !p.liked)
    case Save => p.(saved := !p.saved)
  }

  /** The list after `toggleLike` (f == Like) or `toggleSave` (f == Save),
      src/pages/Index.tsx:79-89. Every post whose
      id matches has flag `f` negated and nothing else changed; every other
      post is kept as it was; length and order are kept. */
  function ToggleFlag(ps: seq<Post>, id: int, f: Flag): (r: seq<Post>)
    ensures |r| == |ps|
    ensures forall i :: 0 <= i < |ps| && ps[i].id != id ==> r[i] == ps[i]
    ensures forall i :: 0 <= i < |ps| && ps[i].id == id ==>
      && r[i].id == ps[i].id && r[i].image == ps[i].image
      && r[i].title == ps[i].title && r[i].author == ps[i].author
      && r[i].aspectRatio == ps[i].aspectRatio
      && FlagOf(r[i], f) == !FlagOf(ps[i], f)
      && (f == Like ==> r[i].saved == ps[i].saved)
      && (f == Save ==> r[i].liked == ps[i].liked)
  {
    if ps == [] then []
    else [if ps[0].id == id then Flip(ps[0], f) else ps[0]] + ToggleFlag(ps[1..], id, f)
  }

  /** Toggling the same flag of the same id twice gives back the original list. */
  lemma {:induction false} ToggleTwice(ps: seq<Post>, id: int, f: Flag)
    ensures ToggleFlag(ToggleFlag(ps, id, f), id, f) == ps
  {
    if ps != [] {
      ToggleTwice(ps[1..], id, f);
      assert ToggleFlag(ps, id, f)[1..] == ToggleFlag(ps[1..], id, f);
    }
  }

  /** A toggle keeps the id sequence, so it keeps ids distinct. */
  lemma ToggleKeepsIds(ps: seq<Post>, id: int, f: Flag)
    ensures Ids(ToggleFlag(ps, id, f)) == Ids(ps)
    ensures DistinctIds(ps) ==> DistinctIds(ToggleFlag(ps, id, f))
  {
    var r := ToggleFlag(ps, id, f);
    assert forall i :: 0 <= i < |ps| ==> r[i].id == ps[i].id;
  }

  /** Toggling an id no post has leaves the list unchanged. */
  lemma ToggleAbsentId(ps: seq<Post>, id: int, f: Flag)
    requires id !in Ids(ps)
    ensures ToggleFlag(ps, id, f) == ps
  {
    var r := ToggleFlag(ps, id, f);
    forall i | 0 <= i < |ps| ensures r[i] == ps[i] {
      assert Ids(ps)[i] == ps[i].id;
    }
  }

  /** With distinct ids, a toggle of the id at position k touches position k and nothing else. */
  lemma ToggleTouchesOnlyOne(ps: seq<Post>, k: int, f: Flag)
    requires DistinctIds(ps)
    requires 0 <= k < |ps|
    ensures ToggleFlag(ps, ps[k].id, f) == ps[k := Flip(ps[k], f)]
  {
    var r := ToggleFlag(ps, ps[k].id, f);
    assert r[k] == Flip(ps[k], f);
  }

  /** Liking never changes which posts are saved, and saving never changes
      which are liked; the two toggles commute. */
  lemma {:induction false} TogglesCommute(ps: seq<Post>, a: int, b: int)
    ensures ToggleFlag(ToggleFlag(ps, a, Like), b, Save) == ToggleFlag(ToggleFlag(ps, b, Save), a, Like)
  {
    if ps != [] {
      TogglesCommute(ps[1..], a, b);
      assert ToggleFlag(ps, a, Like)[1..] == ToggleFlag(ps[1..], a, Like);
      assert ToggleFlag(ps, b, Save)[1..] == ToggleFlag(ps[1..], b, Save);
    }
  }

  /** What a derived view keeps: saved posts, or posts matching query `q`. */
  datatype Criterion = IsSaved | Query(q: string)

  /** The search test of src/pages/Index.tsx:96-97: the lower-cased query
      occurs in the lower-cased title or in the lower-cased author. */
  predicate Matches(p: Post, q: string) {
    Includes(Lower(p.title), Lower(q)) || Includes(Lower(p.author), Lower(q))
  }

  predicate Keeps(c: Criterion, p: Post) {
    match c
    case IsSaved => p.saved
    case Query(q) => Matches(p, q)
  }

  /** The posts of `ps` that criterion `c` keeps, in their order. */
  function Select(ps: seq<Post>, c: Criterion): (r: seq<Post>)
    ensures |r| <= |ps|
  {
    if ps == [] then []
    else if Keeps(c, ps[0]) then [ps[0]] + Select(ps[1..], c)
    else Select(ps[1..], c)
  }

  /** A post is in a filter result exactly when it is in the input and is kept. */
  lemma {:induction false} SelectMembers(ps: seq<Post>, c: Criterion)
    ensures forall p :: p in Select(ps, c) <==> p in ps && Keeps(c, p)
  {
    if ps != [] {
      SelectMembers(ps[1..], c);
      assert ps == [ps[0]] + ps[1..];
    }
  }

  /** `a` is `b` with some elements removed, the rest in their order. */
  predicate IsSubsequence(a: seq<Post>, b: seq<Post>)
    decreases |b|
  {
    a == [] ||
    (b != [] && ((a[0] == b[0] && IsSubsequence(a[1..], b[1..])) || IsSubsequence(a, b[1..])))
  }

  lemma {:induction false} SubsequenceReflexive(a: seq<Post>)
    ensures IsSubsequence(a, a)
  {
    if a != [] {
      SubsequenceReflexive(a[1..]);
    }
  }

  /** A filter result is an ordered subsequence of its input. */
  lemma {:induction false} SelectIsSubsequence(ps: seq<Post>, c: Criterion)
    ensures IsSubsequence(Select(ps, c), ps)
  {
    if ps != [] {
      SelectIsSubsequence(ps[1..], c);
      var r := Select(ps, c);
      if Keeps(c, ps[0]) {
        assert r[1..] == Select(ps[1..], c);
      }
    }
  }

  /** The filter keeps exactly the positions it should: there is a strictly
      increasing list of positions `idx` of `ps`, holding every position whose
      post is kept and only those, from which the result is read off. */
  lemma {:induction false} SelectPositions(ps: seq<Post>, c: Criterion) returns (idx: seq<int>)
    ensures |idx| == |Select(ps, c)|
    ensures forall k :: 0 <= k < |idx| ==> 0 <= idx[k] < |ps| && Select(ps, c)[k] == ps[idx[k]]
    ensures forall k, l :: 0 <= k < l < |idx| ==> idx[k] < idx[l]
    ensures forall i :: 0 <= i < |ps| ==> (i in idx <==> Keeps(c, ps[i]))
  {
    if ps == [] {
      idx := [];
    } else {
      var tail := ps[1..];
      var rest := SelectPositions(tail, c);
      var shifted := ShiftPositions(rest, |tail|);
      if Keeps(c, ps[0]) {
        idx := [0] + shifted;
        assert Select(ps, c) == [ps[0]] + Select(tail, c);
      } else {
        idx := shifted;
        assert Select(ps, c) == Select(tail, c);
      }
    }
  }

  /** Positions in a list's tail, renumbered as positions in the whole list. */
  lemma ShiftPositions(rest: seq<int>, n: int) returns (shifted: seq<int>)
    requires forall k :: 0 <= k < |rest| ==> 0 <= rest[k] < n
    requires forall k, l :: 0 <= k < l < |rest| ==> rest[k] < rest[l]
    ensures |shifted| == |rest|
    ensures forall k :: 0 <= k < |rest| ==> shifted[k] == rest[k] + 1
    ensures forall k :: 0 <= k < |rest| ==> 1 <= shifted[k] <= n
    ensures forall k, l :: 0 <= k < l < |rest| ==> shifted[k] < shifted[l]
    ensures forall i :: 0 <= i <= n ==> (i in shifted <==> 1 <= i && (i - 1) in rest)
  {
    shifted := seq(|rest|, k requires 0 <= k < |rest| => rest[k] + 1);
    forall i | 0 <= i <= n ensures i in shifted <==> 1 <= i && (i - 1) in rest {
      if i in shifted {
        var k :| 0 <= k < |shifted| && shifted[k] == i;
        assert rest[k] == i - 1;
      }
      if 1 <= i && (i - 1) in rest {
        var k :| 0 <= k < |rest| && rest[k] == i - 1;
        assert shifted[k] == i;
      }
    }
  }

  /** A filter result is empty exactly when no post is kept. */
  lemma SelectEmptyIff(ps: seq<Post>, c: Criterion)
    ensures Select(ps, c) == [] <==> forall p :: p in ps ==> !Keeps(c, p)
  {
    SelectMembers(ps, c);
    if Select(ps, c) != [] {
      assert Select(ps, c)[0] in Select(ps, c);
    }
  }

  /** When exactly one post, at position k, is kept, the filter yields that post alone. */
  lemma {:induction false} SelectSingle(ps: seq<Post>, c: Criterion, k: int)
    requires 0 <= k < |ps| && Keeps(c, ps[k])
    requires forall i :: 0 <= i < |ps| && i != k ==> !Keeps(c, ps[i])
    ensures Select(ps, c) == [ps[k]]
  {
    var tail := ps[1..];
    if k == 0 {
      forall p | p in tail ensures !Keeps(c, p) {
        var i :| 0 <= i < |tail| && tail[i] == p;
        assert p == ps[i + 1];
      }
      SelectEmptyIff(tail, c);
    } else {
      assert !Keeps(c, ps[0]);
      assert tail[k - 1] == ps[k];
      forall i | 0 <= i < |tail| && i != k - 1 ensures !Keeps(c, tail[i]) {
        assert tail[i] == ps[i + 1];
      }
      SelectSingle(tail, c, k - 1);
    }
  }

  /** When every post is kept, the filter is the identity. */
  lemma {:induction false} SelectAll(ps: seq<Post>, c: Criterion)
    requires forall p :: p in ps ==> Keeps(c, p)
    ensures Select(ps, c) == ps
  {
    if ps != [] {
      assert forall p :: p in ps[1..] ==> p in ps;
      SelectAll(ps[1..], c);
    }
  }

  /** A toggle never changes which ids a filter keeps, when the criterion does
      not read the toggled flag: searching ignores both flags, and the saved
      filter ignores `liked`. */
  lemma {:induction false} ToggleKeepsSelectedIds(ps: seq<Post>, id: int, f: Flag, c: Criterion)
    requires c.Query? || f == Like
    ensures Ids(Select(ToggleFlag(ps, id, f), c)) == Ids(Select(ps, c))
  {
    if ps != [] {
      var r := ToggleFlag(ps, id, f);
      ToggleKeepsSelectedIds(ps[1..], id, f, c);
      assert r[1..] == ToggleFlag(ps[1..], id, f);
      assert Keeps(c, r[0]) == Keeps(c, ps[0]);
    }
  }

  /** A query and its lower-cased form select the same posts. */
  lemma {:induction false} SelectQueryCaseInsensitive(ps: seq<Post>, q: string)
    ensures Select(ps, Query(q)) == Select(ps, Query(Lower(q)))
  {
    LowerIdempotent(q);
    if ps != [] {
      SelectQueryCaseInsensitive(ps[1..], q);
    }
  }

  /** Searching ignores the case of the query: two queries spelled the same
      up to case select the same posts. */
  lemma {:induction false} SameUpToCaseSelectsSame(ps: seq<Post>, q1: string, q2: string)
    requires SameUpToCase(q1, q2)
    ensures Select(ps, Query(q1)) == Select(ps, Query(q2))
  {
    LowerEqIffSameUpToCase(q1, q2);
    if ps != [] {
      SameUpToCaseSelectsSame(ps[1..], q1, q2);
    }
  }
}

/**
 * The read-only views of the posts app as queries over the store: the global
 * listing (`index`), a group's listing (`group_posts`), an author's profile
 * (`profile`), a post with its comments (`post_detail`) and the follow feed
 * (`follow_index`). Each listing is handed to the paginator unchanged, so
 * what is modelled here is the ordered list before it is cut into pages.
 */
module Queries {
  import opened Seqs
  import opened Models
  import Pagination

  /** What a read-only view answers: the data it renders, a 404, or the login redirect. */
  datatype Reply<T> = Ok(value: T) | NotFound | RedirectLogin

  datatype GroupListing = GroupListing(group: Group, posts: seq<Post>, head: seq<Post>)

  datatype ProfileView = ProfileView(author: UserName, posts: seq<Post>, following: bool)

  datatype PostDetailView = PostDetailView(post: Post, comments: seq<Comment>)

  // ----- listings ----------------------------------------------------------------

  /** `index`: every post, newest first. */
  function Index(db: Db): (r: seq<Post>)
    ensures forall p :: p in r <==> p in db.posts
    ensures Consistent(db) ==> NewestFirst(r)
  {
    db.posts
  }

  /** `group_posts`: the posts of the group the slug names; `head` is its first `perPage` posts. */
  function GroupPosts(db: Db, slug: string, perPage: nat): (r: Reply<GroupListing>)
    ensures !r.RedirectLogin?
    ensures r.NotFound? <==> !exists g :: g in db.groups && g.slug == slug
    ensures r.Ok? ==>
      && r.value.group in db.groups
      && r.value.group.slug == slug
      && (forall p :: p in r.value.posts <==> p in db.posts && p.group == Some(r.value.group.id))
      && |r.value.head| == Pagination.Min(perPage, |r.value.posts|)
      && r.value.head <= r.value.posts
  {
    match FindGroup(db.groups, slug)
    case None => NotFound
    case Some(g) =>
      var posts := Where(db.posts, (p: Post) => p.group == Some(g.id));
      Ok(GroupListing(g, posts, posts[..Pagination.Min(perPage, |posts|)]))
  }

  /** `profile`: the author's posts and whether the viewer follows the author. */
  function Profile(db: Db, viewer: Actor, username: UserName): (r: ProfileView)
    requires username in db.users
    ensures r.author == username
    ensures forall p :: p in r.posts <==> p in db.posts && p.author == Some(username)
    ensures r.following ==> viewer.Member?
    ensures viewer.Member? ==> (r.following <==> Follow(viewer.name, username) in db.follows)
  {
    var posts := Where(db.posts, (p: Post) => p.author == Some(username));
    var following := viewer.Member? && Follow(viewer.name, username) in db.follows;
    ProfileView(username, posts, following)
  }

  /** `post_detail`: the post and its comments, newest first. */
  function PostDetail(db: Db, id: PostId): (r: Reply<PostDetailView>)
    ensures !r.RedirectLogin?
    ensures r.NotFound? <==> !PostExists(db.posts, id)
    ensures r.Ok? ==>
      && r.value.post in db.posts
      && r.value.post.id == id
      && (forall c :: c in r.value.comments <==> c in db.comments && c.post == id)
  {
    match FindPost(db.posts, id)
    case None => NotFound
    case Some(p) => Ok(PostDetailView(p, Where(db.comments, (c: Comment) => c.post == id)))
  }

  // ----- the follow feed -----------------------------------------------------------

  /** `viewer` has a follow row for the post's author. */
  predicate Followed(follows: seq<Follow>, viewer: UserName, p: Post) {
    p.author.Some? && Follow(viewer, p.author.value) in follows
  }

  /** How many follow rows join the viewer to the post's author. */
  function MatchingRows(follows: seq<Follow>, viewer: UserName, p: Post): nat {
    if p.author.None? then 0 else multiset(follows)[Follow(viewer, p.author.value)]
  }

  /**
   * `Post.objects.filter(author__following__user=viewer)`: a join of posts with
   * follow rows, so a post appears once per matching follow row.
   */
  function FeedJoin(posts: seq<Post>, follows: seq<Follow>, viewer: UserName): (r: seq<Post>)
    ensures forall p :: p in r <==> p in posts && Followed(follows, viewer, p)
    decreases |posts|
  {
    if posts == [] then []
    else
      var head := seq(MatchingRows(follows, viewer, posts[0]), _ => posts[0]);
      assert forall x :: x in head <==> x == posts[0] && Followed(follows, viewer, posts[0]) by {
        if |head| > 0 {
          assert head[0] == posts[0];
        }
      }
      assert posts == [posts[0]] + posts[1..];
      head + FeedJoin(posts[1..], follows, viewer)
  }

  /** `follow_index`: signed-in viewers only. */
  function FollowIndex(db: Db, viewer: Actor): (r: Reply<seq<Post>>)
    ensures r.RedirectLogin? <==> viewer.Anonymous?
    ensures !r.NotFound?
    ensures r.Ok? ==> forall p :: p in r.value <==> p in db.posts && Followed(db.follows, viewer.name, p)
  {
    match viewer
    case Anonymous => RedirectLogin
    case Member(name) => Ok(FeedJoin(db.posts, db.follows, name))
  }

  /** Without duplicate follow rows the join is the plain filter: each followed post once. */
  lemma {:induction false} FeedJoinIsFilter(posts: seq<Post>, follows: seq<Follow>, viewer: UserName)
    requires NoDuplicates(follows)
    ensures FeedJoin(posts, follows, viewer) == Where(posts, (p: Post) => Followed(follows, viewer, p))
    decreases |posts|
  {
    if posts != [] {
      var p := posts[0];
      FeedJoinIsFilter(posts[1..], follows, viewer);
      var n := MatchingRows(follows, viewer, p);
      if p.author.Some? {
        OccursAtMostOnce(follows, Follow(viewer, p.author.value));
      }
      assert n == (if Followed(follows, viewer, p) then 1 else 0);
      assert seq(n, _ => p) == (if Followed(follows, viewer, p) then [p] else []);
    }
  }

  /** What a duplicated follow row does to the feed: the post is listed twice. */
  lemma DuplicateRowRepeatsPost(p: Post, viewer: UserName)
    requires p.author.Some?
    ensures var f := Follow(viewer, p.author.value);
      FeedJoin([p], [f, f], viewer) == [p, p]
  {
    var f := Follow(viewer, p.author.value);
    assert multiset([f, f])[f] == 2;
    assert FeedJoin([], [f, f], viewer) == [];
  }

  lemma {:induction false} RepeatCount(n: nat, q: Post, p: Post)
    ensures multiset(seq(n, _ => q))[p] == if p == q then n else 0
  {
    if n > 0 {
      RepeatCount(n - 1, q, p);
      assert seq(n, _ => q) == seq(n - 1, _ => q) + [q];
    }
  }

  /** One step of the join: the first post's copies, then the join of the rest. */
  lemma FeedJoinStep(posts: seq<Post>, follows: seq<Follow>, viewer: UserName, p: Post)
    requires posts != []
    ensures multiset(FeedJoin(posts, follows, viewer))[p] ==
      multiset(seq(MatchingRows(follows, viewer, posts[0]), _ => posts[0]))[p] +
      multiset(FeedJoin(posts[1..], follows, viewer))[p]
  {
  }

  lemma CountStep<T>(s: seq<T>, x: T)
    requires s != []
    ensures multiset(s)[x] == (if x == s[0] then 1 else 0) + multiset(s[1..])[x]
  {
    assert s == [s[0]] + s[1..];
  }

  lemma MulStepCount(n: nat, a: nat, k: nat, m: nat)
    requires a == 1 ==> n == m
    requires a == 0 || a == 1
    ensures (if a == 1 then n else 0) + k * m == (a + k) * m
  {
  }

  /** The general rule of the join: a post is listed once per copy of it times its matching follow rows. */
  lemma {:induction false} FeedJoinCount(posts: seq<Post>, follows: seq<Follow>, viewer: UserName, p: Post)
    ensures multiset(FeedJoin(posts, follows, viewer))[p] == multiset(posts)[p] * MatchingRows(follows, viewer, p)
    decreases |posts|
  {
    if posts != [] {
      var q := posts[0];
      var n := MatchingRows(follows, viewer, q);
      FeedJoinStep(posts, follows, viewer, p);
      FeedJoinCount(posts[1..], follows, viewer, p);
      RepeatCount(n, q, p);
      CountStep(posts, p);
      MulStepCount(n, if p == q then 1 else 0, multiset(posts[1..])[p], MatchingRows(follows, viewer, p));
    }
  }

  /** The head of a newest-first list is its latest post, and the only one that recent. */
  lemma HeadIsLatest(a: seq<Post>, x: Post)
    requires NewestFirst(a) && x in a
    ensures a[0].pubDate >= x.pubDate
    ensures x.pubDate == a[0].pubDate ==> x == a[0]
  {
    var k :| 0 <= k < |a| && a[k] == x;
    if k > 0 {
      assert PublishedAfter(a[0], a[k]);
    }
  }

  /** Two newest-first lists with the same posts are the same list. */
  lemma {:induction false} NewestFirstDetermined(a: seq<Post>, b: seq<Post>)
    requires NewestFirst(a) && NewestFirst(b)
    requires forall x :: x in a <==> x in b
    ensures a == b
    decreases |a|
  {
    assert a == [] || a[0] in b;
    assert b == [] || b[0] in a;
    if a != [] && b != [] {
      OrderedTail(a, PublishedAfter);
      OrderedTail(b, PublishedAfter);
      assert a == [a[0]] + a[1..];
      assert b == [b[0]] + b[1..];
      HeadIsLatest(a, b[0]);
      HeadIsLatest(b, a[0]);
      assert a[0] !in a[1..] && b[0] !in b[1..];
      forall x ensures x in a[1..] <==> x in b[1..] {
        assert x in a <==> x in b;
      }
      NewestFirstDetermined(a[1..], b[1..]);
    }
  }

  /**
   * Every listing of a consistent store is newest first, so each is exactly
   * the matching posts in descending pub_date order.
   */
  lemma {:induction false} ListingsNewestFirst(db: Db, slug: string, perPage: nat, viewer: Actor, username: UserName)
    requires Consistent(db)
    ensures NewestFirst(Index(db))
    ensures GroupPosts(db, slug, perPage).Ok? ==> NewestFirst(GroupPosts(db, slug, perPage).value.posts)
    ensures username in db.users ==> NewestFirst(Profile(db, viewer, username).posts)
    ensures FollowIndex(db, viewer).Ok? ==>
      && NewestFirst(FollowIndex(db, viewer).value)
      && FollowIndex(db, viewer).value == Where(db.posts, (p: Post) => Followed(db.follows, viewer.name, p))
  {
    var g := FindGroup(db.groups, slug);
    if g.Some? {
      WhereOrdered(db.posts, (p: Post) => p.group == Some(g.value.id), PublishedAfter);
    }
    WhereOrdered(db.posts, (p: Post) => p.author == Some(username), PublishedAfter);
    if viewer.Member? {
      FeedJoinIsFilter(db.posts, db.follows, viewer.name);
      WhereOrdered(db.posts, (p: Post) => Followed(db.follows, viewer.name, p), PublishedAfter);
    }
  }

  /** A post's comments are listed newest first. */
  lemma {:induction false} CommentsListedNewestFirst(db: Db, id: PostId)
    requires Consistent(db)
    ensures PostDetail(db, id).Ok? ==> CommentsNewestFirst(PostDetail(db, id).value.comments)
  {
    WhereOrdered(db.comments, (c: Comment) => c.post == id, CreatedAfter);
  }

  lemma {:induction false} JoinWithoutRowsIsEmpty(posts: seq<Post>, follows: seq<Follow>, viewer: UserName)
    requires forall f :: f in follows ==> f.user != viewer
    ensures FeedJoin(posts, follows, viewer) == []
    decreases |posts|
  {
    if posts != [] {
      JoinWithoutRowsIsEmpty(posts[1..], follows, viewer);
      var p := posts[0];
      if p.author.Some? {
        assert Follow(viewer, p.author.value) !in follows;
      }
      assert MatchingRows(follows, viewer, p) == 0;
    }
  }

  /** A viewer who follows no one gets an empty feed. */
  lemma FeedEmptyWithoutFollows(db: Db, viewer: UserName)
    requires forall f :: f in db.follows ==> f.user != viewer
    ensures FollowIndex(db, Member(viewer)) == Ok([])
  {
    JoinWithoutRowsIsEmpty(db.posts, db.follows, viewer);
  }
}

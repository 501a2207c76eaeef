/**
 * The posts app's records (Group, Post, Comment, Follow), their `__str__`
 * forms, the store that holds them, the store's consistency invariant and the
 * `on_delete` rules: deleting a user or a group nulls the reference on posts
 * (SET_NULL) while deleting a post or a user removes the dependent comment and
 * follow rows (CASCADE).
 *
 * Tables are sequences. Posts and comments are in the order the ORM returns
 * them, newest first (their `Meta.ordering`). Group and follow rows have no
 * declared ordering; the model keeps them in insertion order, and nothing
 * depends on that choice. Timestamps come from a logical clock that every post or comment
 * insertion advances.
 */
module Models {
  import opened Seqs

  datatype Option<+T> = None | Some(value: T)

  type UserName = string
  type PostId = nat
  type GroupId = nat

  /** Length of the `__str__` prefix of posts and comments. */
  const TEXT_LEN: nat := 15

  /** The user behind a request: anonymous, or a signed-in account. */
  datatype Actor = Anonymous | Member(name: UserName)

  datatype Group = Group(id: GroupId, title: string, slug: string, description: string)

  datatype Post = Post(
    id: PostId,
    text: string,
    pubDate: nat,
    author: Option<UserName>,
    group: Option<GroupId>)

  datatype Comment = Comment(post: PostId, author: UserName, text: string, created: nat)

  /** A follow row: `user` sees the posts of `author` in their feed. */
  datatype Follow = Follow(user: UserName, author: UserName)

  /** The whole store: every table plus the clock and the next primary keys. */
  datatype Db = Db(
    users: set<UserName>,
    groups: seq<Group>,
    posts: seq<Post>,
    comments: seq<Comment>,
    follows: seq<Follow>,
    clock: nat,
    nextPostId: PostId,
    nextGroupId: GroupId)

  // ----- __str__ -----------------------------------------------------------

  /** The first `n` characters of `s` (all of `s` when it is shorter). */
  function Truncate(s: string, n: nat): (r: string)
    ensures |r| == if |s| < n then |s| else n
    ensures r <= s
  {
    if |s| <= n then s else s[..n]
  }

  function GroupStr(g: Group): (r: string)
    ensures r == g.title
  {
    g.title
  }

  function PostStr(p: Post): (r: string)
    ensures |r| == if |p.text| < TEXT_LEN then |p.text| else TEXT_LEN
    ensures r <= p.text
  {
    Truncate(p.text, TEXT_LEN)
  }

  function CommentStr(c: Comment): (r: string)
    ensures |r| == if |c.text| < TEXT_LEN then |c.text| else TEXT_LEN
    ensures r <= c.text
  {
    Truncate(c.text, TEXT_LEN)
  }

  /** A text of at most TEXT_LEN characters is shown whole, a longer one is cut. */
  lemma StrShowsShortTextWhole(p: Post)
    ensures |p.text| <= TEXT_LEN ==> PostStr(p) == p.text
    ensures |p.text| > TEXT_LEN ==> PostStr(p) != p.text && PostStr(p) == p.text[..TEXT_LEN]
  {
    var r := PostStr(p);
    if |p.text| <= TEXT_LEN {
      assert |r| == |p.text|;
    } else {
      assert r == p.text[..|r|];
    }
  }

  // ----- ordering --------------------------------------------------------------

  predicate PublishedAfter(a: Post, b: Post) { a.pubDate > b.pubDate }
  predicate CreatedAfter(a: Comment, b: Comment) { a.created > b.created }
  predicate OtherPost(a: Post, b: Post) { a.id != b.id }
  predicate OtherGroup(a: Group, b: Group) { a.id != b.id }
  predicate OtherSlug(a: Group, b: Group) { a.slug != b.slug }

  /** The `-pub_date` ordering of posts. */
  predicate NewestFirst(posts: seq<Post>) { Ordered(posts, PublishedAfter) }

  /** The `-created` ordering of comments. */
  predicate CommentsNewestFirst(comments: seq<Comment>) { Ordered(comments, CreatedAfter) }

  /** The `unique=True` constraint on `Group.slug`. */
  predicate SlugsUnique(groups: seq<Group>) { Ordered(groups, OtherSlug) }

  predicate PostExists(posts: seq<Post>, id: PostId) {
    exists p :: p in posts && p.id == id
  }

  predicate GroupExists(groups: seq<Group>, id: GroupId) {
    exists g :: g in groups && g.id == id
  }

  // ----- lookups ---------------------------------------------------------------

  /** `get_object_or_404(Group, slug=slug)`. */
  function FindGroup(groups: seq<Group>, slug: string): (r: Option<Group>)
    ensures r.Some? <==> exists g :: g in groups && g.slug == slug
    ensures r.Some? ==> r.value in groups && r.value.slug == slug
  {
    if groups == [] then None
    else if groups[0].slug == slug then Some(groups[0])
    else FindGroup(groups[1..], slug)
  }

  /** `get_object_or_404(Post, pk=id)`. */
  function FindPost(posts: seq<Post>, id: PostId): (r: Option<Post>)
    ensures r.Some? <==> PostExists(posts, id)
    ensures r.Some? ==> r.value in posts && r.value.id == id
  {
    if posts == [] then None
    else if posts[0].id == id then Some(posts[0])
    else FindPost(posts[1..], id)
  }

  /** With unique slugs a slug names at most one group, and resolving it finds that one. */
  lemma SlugResolvesToTheGroup(groups: seq<Group>, slug: string, g: Group)
    requires SlugsUnique(groups)
    requires g in groups && g.slug == slug
    ensures FindGroup(groups, slug) == Some(g)
  {
    var h := FindGroup(groups, slug).value;
    var i :| 0 <= i < |groups| && groups[i] == g;
    var j :| 0 <= j < |groups| && groups[j] == h;
    assert i == j;
  }

  /** With distinct ids, resolving an id finds the one post that has it. */
  lemma IdResolvesToThePost(posts: seq<Post>, p: Post)
    requires Ordered(posts, OtherPost)
    requires p in posts
    ensures FindPost(posts, p.id) == Some(p)
  {
    var q := FindPost(posts, p.id).value;
    var i :| 0 <= i < |posts| && posts[i] == p;
    var j :| 0 <= j < |posts| && posts[j] == q;
    assert i == j;
  }

  // ----- the store invariant ---------------------------------------------------

  predicate PostsValid(db: Db) {
    && NewestFirst(db.posts)
    && Ordered(db.posts, OtherPost)
    && forall p :: p in db.posts ==>
         && p.text != []
         && p.pubDate < db.clock
         && p.id < db.nextPostId
         && (p.author.Some? ==> p.author.value in db.users)
         && (p.group.Some? ==> GroupExists(db.groups, p.group.value))
  }

  predicate CommentsValid(db: Db) {
    && CommentsNewestFirst(db.comments)
    && forall c :: c in db.comments ==>
         && c.text != []
         && c.created < db.clock
         && c.author in db.users
         && PostExists(db.posts, c.post)
  }

  /** No row follows its own author, no pair is stored twice, both ends exist. */
  predicate FollowsValid(db: Db) {
    && NoDuplicates(db.follows)
    && forall f :: f in db.follows ==> f.user != f.author && f.user in db.users && f.author in db.users
  }

  predicate GroupsValid(db: Db) {
    && SlugsUnique(db.groups)
    && Ordered(db.groups, OtherGroup)
    && forall g :: g in db.groups ==> g.id < db.nextGroupId
  }

  predicate Consistent(db: Db) {
    PostsValid(db) && CommentsValid(db) && FollowsValid(db) && GroupsValid(db)
  }

  // ----- on_delete -----------------------------------------------------------

  /** SET_NULL on Post.author. */
  function Disown(p: Post, u: UserName): Post {
    if p.author == Some(u) then p.(author := None) else p
  }

  /** SET_NULL on Post.group. */
  function Ungroup(p: Post, g: GroupId): Post {
    if p.group == Some(g) then p.(group := None) else p
  }

  /**
   * Deleting an account: its posts stay with a null author, its comments and
   * every follow row naming it (either side) are deleted.
   */
  function DeleteUser(db: Db, u: UserName): (r: Db)
    ensures r.users == db.users - {u} && r.groups == db.groups
    ensures |r.posts| == |db.posts|
    ensures forall p :: p in r.posts ==> p.author != Some(u)
    ensures forall c :: c in r.comments ==> c.author != u
    ensures forall f :: f in r.follows ==> f.user != u && f.author != u
  {
    db.(users := db.users - {u},
        posts := seq(|db.posts|, i requires 0 <= i < |db.posts| => Disown(db.posts[i], u)),
        comments := Where(db.comments, (c: Comment) => c.author != u),
        follows := Where(db.follows, (f: Follow) => f.user != u && f.author != u))
  }

  /** Deleting a group: its posts stay with a null group. */
  function DeleteGroup(db: Db, g: GroupId): (r: Db)
    ensures !GroupExists(r.groups, g)
    ensures |r.posts| == |db.posts|
    ensures forall p :: p in r.posts ==> p.group != Some(g)
    ensures r.users == db.users && r.comments == db.comments && r.follows == db.follows
  {
    db.(groups := Where(db.groups, (x: Group) => x.id != g),
        posts := seq(|db.posts|, i requires 0 <= i < |db.posts| => Ungroup(db.posts[i], g)))
  }

  /** Deleting a post: the post and exactly its comments are deleted. */
  function DeletePost(db: Db, id: PostId): (r: Db)
    ensures !PostExists(r.posts, id)
    ensures forall c :: c in r.comments ==> c.post != id
    ensures r.users == db.users && r.groups == db.groups && r.follows == db.follows
  {
    db.(posts := Where(db.posts, (p: Post) => p.id != id),
        comments := Where(db.comments, (c: Comment) => c.post != id))
  }

  /** SET_NULL: the deleted account's posts stay, in place, with only the author cleared. */
  lemma DeleteUserNullsAuthor(db: Db, u: UserName)
    ensures var r := DeleteUser(db, u);
      && |r.posts| == |db.posts|
      && (forall i :: 0 <= i < |db.posts| ==>
            && r.posts[i].author == (if db.posts[i].author == Some(u) then None else db.posts[i].author)
            && r.posts[i].(author := None) == db.posts[i].(author := None))
      && r.users == db.users - {u}
      && r.groups == db.groups
  {
  }

  /** CASCADE on Comment.author: exactly the account's comments go. */
  lemma DeleteUserCascadesComments(db: Db, u: UserName)
    ensures forall c :: c in DeleteUser(db, u).comments <==> c in db.comments && c.author != u
  {
  }

  /** CASCADE on both sides of Follow: exactly the rows naming the account go. */
  lemma DeleteUserCascadesFollows(db: Db, u: UserName)
    ensures forall f :: f in DeleteUser(db, u).follows <==> f in db.follows && f.user != u && f.author != u
  {
  }

  /** SET_NULL on Post.group: the posts stay with only the group cleared; the group row goes. */
  lemma DeleteGroupEffects(db: Db, g: GroupId)
    ensures var r := DeleteGroup(db, g);
      && |r.posts| == |db.posts|
      && (forall i :: 0 <= i < |db.posts| ==>
            && r.posts[i].group == (if db.posts[i].group == Some(g) then None else db.posts[i].group)
            && r.posts[i].(group := None) == db.posts[i].(group := None))
      && (forall x :: x in r.groups <==> x in db.groups && x.id != g)
      && r.comments == db.comments
      && r.follows == db.follows
  {
  }

  /** CASCADE on Comment.post: the post and exactly its comments go. */
  lemma DeletePostEffects(db: Db, id: PostId)
    ensures var r := DeletePost(db, id);
      && (forall p :: p in r.posts <==> p in db.posts && p.id != id)
      && (forall c :: c in r.comments <==> c in db.comments && c.post != id)
      && r.follows == db.follows
      && r.groups == db.groups
  {
  }

  /** Nulling a field other than pub_date keeps the newest-first order and the ids. */
  lemma {:induction false} MapKeepsOrder(posts: seq<Post>, r: seq<Post>)
    requires |r| == |posts|
    requires forall i :: 0 <= i < |posts| ==> r[i].pubDate == posts[i].pubDate && r[i].id == posts[i].id
    requires NewestFirst(posts) && Ordered(posts, OtherPost)
    ensures NewestFirst(r) && Ordered(r, OtherPost)
  {
    forall i, j | 0 <= i < j < |r| ensures PublishedAfter(r[i], r[j]) && OtherPost(r[i], r[j]) {
      assert PublishedAfter(posts[i], posts[j]) && OtherPost(posts[i], posts[j]);
    }
  }

  lemma {:induction false} DeleteUserKeepsPosts(db: Db, u: UserName)
    requires Consistent(db)
    ensures PostsValid(DeleteUser(db, u))
    ensures forall p :: p in DeleteUser(db, u).posts ==> p.author != Some(u)
  {
    var r := DeleteUser(db, u);
    MapKeepsOrder(db.posts, r.posts);
    forall p | p in r.posts
      ensures p.text != [] && p.pubDate < r.clock && p.id < r.nextPostId
      ensures p.author.Some? ==> p.author.value in r.users
      ensures p.group.Some? ==> GroupExists(r.groups, p.group.value)
      ensures p.author != Some(u)
    {
      var i :| 0 <= i < |r.posts| && r.posts[i] == p;
      assert db.posts[i] in db.posts;
    }
  }

  lemma {:induction false} DeleteUserKeepsComments(db: Db, u: UserName)
    requires Consistent(db)
    ensures CommentsValid(DeleteUser(db, u))
  {
    var r := DeleteUser(db, u);
    WhereOrdered(db.comments, (c: Comment) => c.author != u, CreatedAfter);
    forall c | c in r.comments ensures PostExists(r.posts, c.post) {
      var q :| q in db.posts && q.id == c.post;
      var i :| 0 <= i < |db.posts| && db.posts[i] == q;
      assert r.posts[i] in r.posts && r.posts[i].id == c.post;
    }
  }

  /**
   * Deleting an account keeps the store consistent: no post is left naming
   * it, and no comment or follow row refers to it.
   */
  lemma {:induction false} DeleteUserConsistent(db: Db, u: UserName)
    requires Consistent(db)
    ensures Consistent(DeleteUser(db, u))
    ensures forall p :: p in DeleteUser(db, u).posts ==> p.author != Some(u)
  {
    DeleteUserKeepsPosts(db, u);
    DeleteUserKeepsComments(db, u);
    WhereNoDuplicates(db.follows, (f: Follow) => f.user != u && f.author != u);
  }

  lemma {:induction false} DeleteGroupConsistent(db: Db, g: GroupId)
    requires Consistent(db)
    ensures Consistent(DeleteGroup(db, g))
    ensures forall p :: p in DeleteGroup(db, g).posts ==> p.group != Some(g)
  {
    var r := DeleteGroup(db, g);
    DeleteGroupEffects(db, g);
    MapKeepsOrder(db.posts, r.posts);
    forall p | p in r.posts
      ensures p.text != [] && p.pubDate < r.clock && p.id < r.nextPostId
      ensures p.author.Some? ==> p.author.value in r.users
      ensures p.group.Some? ==> GroupExists(r.groups, p.group.value)
      ensures p.group != Some(g)
    {
      var i :| 0 <= i < |r.posts| && r.posts[i] == p;
      assert db.posts[i] in db.posts;
      if p.group.Some? {
        var x :| x in db.groups && x.id == p.group.value;
        assert x in r.groups;
      }
    }
    forall c | c in r.comments ensures PostExists(r.posts, c.post) {
      var q :| q in db.posts && q.id == c.post;
      var i :| 0 <= i < |db.posts| && db.posts[i] == q;
      assert r.posts[i] in r.posts && r.posts[i].id == c.post;
    }
    WhereOrdered(db.groups, (x: Group) => x.id != g, OtherSlug);
    WhereOrdered(db.groups, (x: Group) => x.id != g, OtherGroup);
  }

  lemma {:induction false} DeletePostConsistent(db: Db, id: PostId)
    requires Consistent(db)
    ensures Consistent(DeletePost(db, id))
    ensures !PostExists(DeletePost(db, id).posts, id)
  {
    var r := DeletePost(db, id);
    DeletePostEffects(db, id);
    WhereOrdered(db.posts, (p: Post) => p.id != id, PublishedAfter);
    WhereOrdered(db.posts, (p: Post) => p.id != id, OtherPost);
    WhereOrdered(db.comments, (c: Comment) => c.post != id, CreatedAfter);
    forall c | c in r.comments ensures PostExists(r.posts, c.post) {
      var q :| q in db.posts && q.id == c.post;
      assert q in r.posts;
    }
  }
}

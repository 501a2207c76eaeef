/**
 * The mutating views of the posts app (`post_create`, `post_edit`,
 * `add_comment`, `profile_follow`, `profile_unfollow`) as methods of a store
 * object that owns every table, plus the deletions that trigger the
 * `on_delete` rules. Each of these views is guarded by `login_required`,
 * which answers an anonymous request with a redirect to the login page before
 * the view body runs.
 */
module Handlers {
  import opened Seqs
  import opened Models

  /** What a mutating view answers. */
  datatype Outcome =
    | RedirectDetail(postId: PostId)
    | RedirectProfile(username: UserName)
    | RedirectLogin
    | Rendered
    | NotFound

  /** The submitted fields of a post form: the text and the chosen group, if any. */
  datatype PostForm = PostForm(text: string, group: Option<GroupId>)

  /** A post form validates when the text is non-empty and a chosen group exists. */
  predicate PostFormValid(db: Db, form: PostForm) {
    form.text != [] && (form.group.Some? ==> GroupExists(db.groups, form.group.value))
  }

  // ----- follow rows ---------------------------------------------------------

  /** The follow rows after `profile_follow` by `user` for `author`. */
  function FollowEdges(follows: seq<Follow>, user: UserName, author: UserName): (r: seq<Follow>)
    ensures Follow(user, author) in r <==> user != author || Follow(user, author) in follows
    ensures forall e :: e != Follow(user, author) ==> (e in r <==> e in follows)
    ensures user == author || Follow(user, author) in follows ==> r == follows
    ensures multiset(r) == multiset(follows) +
      if user != author && Follow(user, author) !in follows then multiset{Follow(user, author)} else multiset{}
    ensures follows <= r
  {
    if user != author && Follow(user, author) !in follows then follows + [Follow(user, author)]
    else follows
  }

  /** The follow rows after `profile_unfollow` by `user` for `author`. */
  function UnfollowEdges(follows: seq<Follow>, user: UserName, author: UserName): (r: seq<Follow>)
    ensures user != author ==> Follow(user, author) !in r
    ensures forall e :: e != Follow(user, author) ==> (e in r <==> e in follows)
    ensures Follow(user, author) !in follows || user == author ==> r == follows
    ensures forall e :: e != Follow(user, author) ==> multiset(r)[e] == multiset(follows)[e]
    ensures |r| <= |follows|
  {
    if user != author && Follow(user, author) in follows then
      var keep := (e: Follow) => e != Follow(user, author);
      WhereCount(follows, keep);
      Where(follows, keep)
    else follows
  }

  /** Neither follow nor unfollow creates a self-follow or a repeated pair. */
  lemma {:induction false} EdgesStayValid(follows: seq<Follow>, user: UserName, author: UserName)
    requires NoDuplicates(follows)
    ensures NoDuplicates(FollowEdges(follows, user, author))
    ensures NoDuplicates(UnfollowEdges(follows, user, author))
    ensures (forall f :: f in follows ==> f.user != f.author) ==>
      && (forall f :: f in FollowEdges(follows, user, author) ==> f.user != f.author)
      && (forall f :: f in UnfollowEdges(follows, user, author) ==> f.user != f.author)
  {
    var e := Follow(user, author);
    var r := FollowEdges(follows, user, author);
    if r != follows {
      forall i, j | 0 <= i < j < |r| ensures r[i] != r[j] {
        if j == |follows| {
          assert r[i] == follows[i] && follows[i] in follows;
        }
      }
    }
    if user != author && e in follows {
      WhereNoDuplicates(follows, (x: Follow) => x != e);
    }
  }

  /** Following twice leaves the store as following once: exactly one row for the pair. */
  lemma {:induction false} FollowTwiceOneRow(follows: seq<Follow>, user: UserName, author: UserName)
    requires NoDuplicates(follows)
    requires user != author
    ensures FollowEdges(FollowEdges(follows, user, author), user, author) == FollowEdges(follows, user, author)
    ensures multiset(FollowEdges(follows, user, author))[Follow(user, author)] == 1
  {
    var r := FollowEdges(follows, user, author);
    EdgesStayValid(follows, user, author);
    OccursAtMostOnce(r, Follow(user, author));
  }

  /** Unfollowing after following removes the pair again. */
  lemma FollowThenUnfollow(follows: seq<Follow>, user: UserName, author: UserName)
    requires user != author
    ensures Follow(user, author) !in UnfollowEdges(FollowEdges(follows, user, author), user, author)
    ensures forall e :: e != Follow(user, author) ==>
      (e in UnfollowEdges(FollowEdges(follows, user, author), user, author) <==> e in follows)
  {
  }

  // ----- post and comment rows ---------------------------------------------------

  /** The store after `post_create` saves a valid form for `author`. */
  function Publish(db: Db, author: UserName, form: PostForm): (r: Db)
    ensures |r.posts| == |db.posts| + 1 && r.posts[1..] == db.posts
    ensures r.posts[0].author == Some(author) && r.posts[0].text == form.text && r.posts[0].group == form.group
    ensures r.posts[0].pubDate == db.clock < r.clock
    ensures r.users == db.users && r.groups == db.groups && r.comments == db.comments && r.follows == db.follows
  {
    db.(posts := [Post(db.nextPostId, form.text, db.clock, Some(author), form.group)] + db.posts,
        clock := db.clock + 1,
        nextPostId := db.nextPostId + 1)
  }

  /** The store after `post_edit` saves a valid form for post `id`. */
  function Revise(db: Db, id: PostId, form: PostForm): (r: Db)
    ensures |r.posts| == |db.posts|
    ensures forall i :: 0 <= i < |db.posts| ==>
      r.posts[i].id == db.posts[i].id && r.posts[i].author == db.posts[i].author && r.posts[i].pubDate == db.posts[i].pubDate
    ensures forall i :: 0 <= i < |db.posts| && db.posts[i].id == id ==>
      r.posts[i].text == form.text && r.posts[i].group == form.group
    ensures forall i :: 0 <= i < |db.posts| && db.posts[i].id != id ==> r.posts[i] == db.posts[i]
    ensures r.(posts := db.posts) == db
  {
    db.(posts := seq(|db.posts|, i requires 0 <= i < |db.posts| =>
          if db.posts[i].id == id then db.posts[i].(text := form.text, group := form.group)
          else db.posts[i]))
  }

  /** The store after `add_comment` saves a valid comment by `author` on post `id`. */
  function Remark(db: Db, author: UserName, id: PostId, text: string): (r: Db)
    ensures |r.comments| == |db.comments| + 1 && r.comments[1..] == db.comments
    ensures r.comments[0].author == author && r.comments[0].post == id && r.comments[0].text == text
    ensures r.comments[0].created == db.clock < r.clock
    ensures r.(comments := db.comments, clock := db.clock) == db
  {
    db.(comments := [Comment(id, author, text, db.clock)] + db.comments,
        clock := db.clock + 1)
  }

  /**
   * Creating a post adds exactly one row, newest, authored by the current
   * user, under a fresh id; every other post and table is untouched.
   */
  lemma {:induction false} PublishAddsOnePost(db: Db, author: UserName, form: PostForm)
    requires Consistent(db) && author in db.users && PostFormValid(db, form)
    ensures var r := Publish(db, author, form);
      && Consistent(r)
      && |r.posts| == |db.posts| + 1
      && r.posts[1..] == db.posts
      && r.posts[0].author == Some(author)
      && r.posts[0].text == form.text && r.posts[0].group == form.group
      && !PostExists(db.posts, r.posts[0].id)
      && (forall p :: p in db.posts ==> p.pubDate < r.posts[0].pubDate)
      && r.comments == db.comments && r.follows == db.follows && r.groups == db.groups
  {
    var r := Publish(db, author, form);
    var p := r.posts[0];
    assert r.posts == [p] + db.posts;
    OrderedCons(p, db.posts, PublishedAfter);
    OrderedCons(p, db.posts, OtherPost);
    forall c | c in r.comments ensures PostExists(r.posts, c.post) {
      var q :| q in db.posts && q.id == c.post;
      assert q in r.posts;
    }
  }

  /**
   * Editing changes only the text and group of the post with that id; its id,
   * author and pub_date, and every other post, stay as they were.
   */
  lemma {:induction false} ReviseEditsOnePost(db: Db, id: PostId, form: PostForm)
    requires Consistent(db) && PostFormValid(db, form)
    ensures var r := Revise(db, id, form);
      && Consistent(r)
      && |r.posts| == |db.posts|
      && (forall i :: 0 <= i < |db.posts| ==>
            && r.posts[i].id == db.posts[i].id
            && r.posts[i].author == db.posts[i].author
            && r.posts[i].pubDate == db.posts[i].pubDate
            && (db.posts[i].id == id ==> r.posts[i].text == form.text && r.posts[i].group == form.group)
            && (db.posts[i].id != id ==> r.posts[i] == db.posts[i]))
      && r.comments == db.comments && r.follows == db.follows && r.groups == db.groups
  {
    var r := Revise(db, id, form);
    MapKeepsOrder(db.posts, r.posts);
    forall p | p in r.posts
      ensures p.text != [] && p.pubDate < r.clock && p.id < r.nextPostId
      ensures p.author.Some? ==> p.author.value in r.users
      ensures p.group.Some? ==> GroupExists(r.groups, p.group.value)
    {
      var i :| 0 <= i < |r.posts| && r.posts[i] == p;
      assert db.posts[i] in db.posts;
    }
    forall c | c in r.comments ensures PostExists(r.posts, c.post) {
      var q :| q in db.posts && q.id == c.post;
      var i :| 0 <= i < |db.posts| && db.posts[i] == q;
      assert r.posts[i] in r.posts && r.posts[i].id == c.post;
    }
  }

  /** Commenting adds exactly one row, newest, by the current user on the resolved post. */
  lemma {:induction false} RemarkAddsOneComment(db: Db, author: UserName, id: PostId, text: string)
    requires Consistent(db) && author in db.users && PostExists(db.posts, id) && text != []
    ensures var r := Remark(db, author, id, text);
      && Consistent(r)
      && |r.comments| == |db.comments| + 1
      && r.comments[1..] == db.comments
      && r.comments[0].author == author && r.comments[0].post == id && r.comments[0].text == text
      && r.posts == db.posts && r.follows == db.follows && r.groups == db.groups
  {
    var r := Remark(db, author, id, text);
    var c := r.comments[0];
    assert r.comments == [c] + db.comments;
    OrderedCons(c, db.comments, CreatedAfter);
  }

  // ----- the store -----------------------------------------------------------------

  class Store {
    var users: set<UserName>
    var groups: seq<Group>
    var posts: seq<Post>
    var comments: seq<Comment>
    var follows: seq<Follow>
    var clock: nat
    var nextPostId: PostId
    var nextGroupId: GroupId

    /** The tables as one value, for the queries and the on_delete rules. */
    function Snapshot(): Db
      reads this
    {
      Db(users, groups, posts, comments, follows, clock, nextPostId, nextGroupId)
    }

    ghost predicate Valid()
      reads this
    {
      Consistent(Snapshot())
    }

    /** A signed-in request comes from an existing account. */
    predicate SignedIn(actor: Actor)
      reads this
    {
      actor.Member? ==> actor.name in users
    }

    constructor (accounts: set<UserName>)
      ensures Valid()
      ensures Snapshot() == Db(accounts, [], [], [], [], 0, 0, 0)
    {
      users := accounts;
      groups, posts, comments, follows := [], [], [], [];
      clock, nextPostId, nextGroupId := 0, 0, 0;
    }

    /** Sets every table to the given consistent value. */
    method Become(db: Db)
      requires Consistent(db)
      modifies this
      ensures Valid()
      ensures Snapshot() == db
    {
      users, groups, posts, comments, follows := db.users, db.groups, db.posts, db.comments, db.follows;
      clock, nextPostId, nextGroupId := db.clock, db.nextPostId, db.nextGroupId;
    }

    /** Creating a group; a slug already in use violates the unique constraint and nothing is stored. */
    method CreateGroup(title: string, slug: string, description: string) returns (created: bool)
      requires Valid()
      modifies this
      ensures Valid()
      ensures created <==> !exists g :: g in old(groups) && g.slug == slug
      ensures Snapshot() == if created then
          old(Snapshot()).(groups := old(groups) + [Group(old(nextGroupId), title, slug, description)],
                           nextGroupId := old(nextGroupId) + 1)
        else old(Snapshot())
    {
      created := FindGroup(groups, slug).None?;
      if created {
        var g := Group(nextGroupId, title, slug, description);
        ghost var before := groups;
        groups := groups + [g];
        nextGroupId := nextGroupId + 1;
        forall i, j | 0 <= i < j < |groups|
          ensures OtherSlug(groups[i], groups[j]) && OtherGroup(groups[i], groups[j])
        {
          if j < |before| {
            assert OtherSlug(before[i], before[j]) && OtherGroup(before[i], before[j]);
          } else {
            assert groups[i] in before;
          }
        }
        forall p | p in posts && p.group.Some? ensures GroupExists(groups, p.group.value) {
          var x :| x in before && x.id == p.group.value;
          assert x in groups;
        }
      }
    }

    /** `profile_follow`. */
    method ProfileFollow(actor: Actor, username: UserName) returns (o: Outcome)
      requires Valid() && SignedIn(actor)
      modifies this
      ensures Valid()
      ensures o == if actor.Anonymous? then RedirectLogin
                   else if username !in old(users) then NotFound
                   else RedirectProfile(username)
      ensures Snapshot() == old(Snapshot()).(follows :=
        if o.RedirectProfile? then FollowEdges(old(follows), actor.name, username) else old(follows))
    {
      if actor.Anonymous? {
        return RedirectLogin;
      }
      if username !in users {
        return NotFound;
      }
      var user := actor.name;
      EdgesStayValid(follows, user, username);
      var isFollower := Follow(user, username) in follows;
      if user != username && !isFollower {
        follows := follows + [Follow(user, username)];
      }
      return RedirectProfile(username);
    }

    /** `profile_unfollow`. */
    method ProfileUnfollow(actor: Actor, username: UserName) returns (o: Outcome)
      requires Valid() && SignedIn(actor)
      modifies this
      ensures Valid()
      ensures o == if actor.Anonymous? then RedirectLogin
                   else if username !in old(users) then NotFound
                   else RedirectProfile(username)
      ensures Snapshot() == old(Snapshot()).(follows :=
        if o.RedirectProfile? then UnfollowEdges(old(follows), actor.name, username) else old(follows))
    {
      if actor.Anonymous? {
        return RedirectLogin;
      }
      if username !in users {
        return NotFound;
      }
      var user := actor.name;
      EdgesStayValid(follows, user, username);
      var isFollower := Follow(user, username) in follows;
      if user != username && isFollower {
        follows := Where(follows, (e: Follow) => e != Follow(user, username));
      }
      return RedirectProfile(username);
    }

    /** `post_create`; `form` is None for a request without submitted data. */
    method PostCreate(actor: Actor, form: Option<PostForm>) returns (o: Outcome)
      requires Valid() && SignedIn(actor)
      modifies this
      ensures Valid()
      ensures actor.Anonymous? ==> o == RedirectLogin && Snapshot() == old(Snapshot())
      ensures actor.Member? && form.Some? && PostFormValid(old(Snapshot()), form.value) ==>
        o == RedirectProfile(actor.name) && Snapshot() == Publish(old(Snapshot()), actor.name, form.value)
      ensures actor.Member? && !(form.Some? && PostFormValid(old(Snapshot()), form.value)) ==>
        o == Rendered && Snapshot() == old(Snapshot())
    {
      if actor.Anonymous? {
        return RedirectLogin;
      }
      if form.Some? && PostFormValid(Snapshot(), form.value) {
        PublishAddsOnePost(Snapshot(), actor.name, form.value);
        var post := Post(nextPostId, form.value.text, clock, Some(actor.name), form.value.group);
        posts := [post] + posts;
        clock := clock + 1;
        nextPostId := nextPostId + 1;
        return RedirectProfile(actor.name);
      }
      return Rendered;
    }

    /** `post_edit`: only the author may change the post; anyone else is sent to its page. */
    method PostEdit(actor: Actor, postId: PostId, form: Option<PostForm>) returns (o: Outcome)
      requires Valid() && SignedIn(actor)
      modifies this
      ensures Valid()
      ensures actor.Anonymous? ==> o == RedirectLogin && Snapshot() == old(Snapshot())
      ensures actor.Member? && !PostExists(old(posts), postId) ==> o == NotFound && Snapshot() == old(Snapshot())
      ensures actor.Member? && PostExists(old(posts), postId) &&
              FindPost(old(posts), postId).value.author != Some(actor.name) ==>
        o == RedirectDetail(postId) && Snapshot() == old(Snapshot())
      ensures actor.Member? && PostExists(old(posts), postId) &&
              FindPost(old(posts), postId).value.author == Some(actor.name) ==>
        if form.Some? && PostFormValid(old(Snapshot()), form.value) then
          o == RedirectDetail(postId) && Snapshot() == Revise(old(Snapshot()), postId, form.value)
        else
          o == Rendered && Snapshot() == old(Snapshot())
    {
      if actor.Anonymous? {
        return RedirectLogin;
      }
      var found := FindPost(posts, postId);
      if found.None? {
        return NotFound;
      }
      if found.value.author != Some(actor.name) {
        return RedirectDetail(postId);
      }
      if form.Some? && PostFormValid(Snapshot(), form.value) {
        ReviseEditsOnePost(Snapshot(), postId, form.value);
        var edited := Revise(Snapshot(), postId, form.value);
        posts := edited.posts;
        return RedirectDetail(postId);
      }
      return Rendered;
    }

    /** `add_comment`; `text` is None for a request without submitted data. */
    method AddComment(actor: Actor, postId: PostId, text: Option<string>) returns (o: Outcome)
      requires Valid() && SignedIn(actor)
      modifies this
      ensures Valid()
      ensures actor.Anonymous? ==> o == RedirectLogin && Snapshot() == old(Snapshot())
      ensures actor.Member? && !PostExists(old(posts), postId) ==> o == NotFound && Snapshot() == old(Snapshot())
      ensures actor.Member? && PostExists(old(posts), postId) ==>
        if text.Some? && text.value != [] then
          o == RedirectDetail(postId) && Snapshot() == Remark(old(Snapshot()), actor.name, postId, text.value)
        else
          o == Rendered && Snapshot() == old(Snapshot())
    {
      if actor.Anonymous? {
        return RedirectLogin;
      }
      var found := FindPost(posts, postId);
      if found.None? {
        return NotFound;
      }
      if text.Some? && text.value != [] {
        RemarkAddsOneComment(Snapshot(), actor.name, postId, text.value);
        comments := [Comment(postId, actor.name, text.value, clock)] + comments;
        clock := clock + 1;
        return RedirectDetail(postId);
      }
      return Rendered;
    }

    /** Deleting an account (SET_NULL on its posts, CASCADE on its comments and follow rows). */
    method RemoveUser(u: UserName)
      requires Valid()
      modifies this
      ensures Valid()
      ensures Snapshot() == DeleteUser(old(Snapshot()), u)
    {
      DeleteUserConsistent(Snapshot(), u);
      Become(DeleteUser(Snapshot(), u));
    }

    /** Deleting a group (SET_NULL on its posts). */
    method RemoveGroup(g: GroupId)
      requires Valid()
      modifies this
      ensures Valid()
      ensures Snapshot() == DeleteGroup(old(Snapshot()), g)
    {
      DeleteGroupConsistent(Snapshot(), g);
      Become(DeleteGroup(Snapshot(), g));
    }

    /** Deleting a post (CASCADE on its comments). */
    method RemovePost(id: PostId)
      requires Valid()
      modifies this
      ensures Valid()
      ensures Snapshot() == DeletePost(old(Snapshot()), id)
    {
      DeletePostConsistent(Snapshot(), id);
      Become(DeletePost(Snapshot(), id));
    }
  }
}

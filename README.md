# Yatube posts: a verified model of the store and its views

Yatube is a blogging site: users write posts, file them under groups, comment on
posts and follow other authors to get a personal feed. This project models the
domain logic of its `posts` app in Dafny, with the ORM and the templates taken
away:

- `seqs.dfy` (module `Seqs`): an order-preserving filter (`Where`) and the
  pairwise properties (`Ordered`, `NoDuplicates`) it keeps.
- `models.dfy` (module `Models`): the Group, Post, Comment and Follow records,
  their `__str__` forms, the store (`Db`) with its consistency invariant
  (`Consistent`), the lookups behind `get_object_or_404`, and the `on_delete`
  rules. Deleting a user or a group nulls the reference on posts (SET_NULL).
  Deleting a post or a user deletes the dependent comments and follow rows
  (CASCADE).
- `pagination.dfy` (module `Pagination`): a listing cut into pages of a given
  size.
- `queries.dfy` (module `Queries`): the read-only views `index`,
  `group_posts`, `profile`, `post_detail` and `follow_index` as functions
  over the store.
- `handlers.dfy` (module `Handlers`): a `Store` class that owns every table.
  Its methods are the mutating views `post_create`, `post_edit`,
  `add_comment`, `profile_follow` and `profile_unfollow`, plus the deletions.
  Each method answers with an `Outcome`: `RedirectDetail(id)`,
  `RedirectProfile(name)`, `RedirectLogin`, `Rendered` or `NotFound`.

Posts and comments are sequences in the order the ORM returns them: newest
first (their `Meta.ordering`). `Group` and `Follow` declare no ordering, so the
ORM promises none for them; keeping their rows in insertion order is the
model's own choice, and nothing in the model depends on it. `pub_date` and
`created` come from a logical clock that every post or comment insertion
advances, so a new post or comment is put at the front. A listing is then a
filter of the post table. Follow rows are a sequence, not a set, because the
table has no uniqueness constraint. That "no self-follow and no repeated pair"
holds is proved as an invariant the handlers keep. Users are identified by
their (unique) username. A request's user is an `Actor`: `Anonymous` or
`Member(name)`. `login_required` is the first branch of every mutating view:
anonymous requests get `RedirectLogin` and the store is unchanged.

Form validation is written out explicitly. A post form is valid when its text
is non-empty (`blank=False`, `yatube/posts/models.py:30-31`) and the chosen
group, if any, exists. The group field is a choice over the existing groups.
A comment is valid when its text is non-empty. A request without submitted data
(`request.POST or None` is None) is a `None` form, and the view re-renders
(`Rendered`).

## Model

| member | source | states |
|---|---|---|
| `Models.PostStr` | yatube/posts/models.py:66-67 | a post shows as a prefix of its text of length min(len(text), TEXT_LEN) |
| `Models.CommentStr` | yatube/posts/models.py:99-100 | a comment shows as a prefix of its text of length min(len(text), TEXT_LEN) |
| `Models.GroupStr` | yatube/posts/models.py:25-26 | a group shows as its whole title, however long |
| `Models.Truncate` | yatube/posts/models.py:67 | `s[:n]`: a prefix of `s` whose length is min(len(s), n) |
| `Models.StrShowsShortTextWhole` | yatube/posts/tests/test_models.py:23-27 | with TEXT_LEN = 15, a text of at most 15 characters is shown whole; a longer one is cut to its first 15 and differs from the text |
| `Models.FindGroup` | yatube/posts/views.py:22 | finds a group exactly when some group has the slug; the one found is in the table and has that slug |
| `Models.SlugResolvesToTheGroup` | yatube/posts/models.py:15-19 | with unique slugs, any group carrying the slug is the one the lookup returns: a slug names at most one group |
| `Models.FindPost` | yatube/posts/views.py:84 | finds a post exactly when some post has the id; the one found is in the table and has that id |
| `Models.IdResolvesToThePost` | yatube/posts/views.py:110 | with distinct ids, looking up a stored post's id returns that post |
| `Models.Consistent` | yatube/posts/models.py:15-113 | the store invariant: posts newest first with distinct ids, non-empty text and existing author and group; comments newest first on existing posts by existing users; follow rows distinct, not self-follows, between existing users; slugs and group ids distinct. `Models.Delete*Consistent` and `Handlers.*Adds*`/`ReviseEditsOnePost` prove every modelled change keeps it |
| `Models.DeleteUser` | yatube/posts/models.py:40-47 | deleting a user: the account goes, post count and groups stay, and no post, comment or follow row names the user afterwards (exact effects in the three `DeleteUser*` lemmas below) |
| `Models.DeleteGroup` | yatube/posts/models.py:48-56 | deleting a group: the group no longer exists, post count stays, no post is in it, users, comments and follows are untouched |
| `Models.DeletePost` | yatube/posts/models.py:71-77 | deleting a post: the id no longer resolves and no comment is on it; users, groups and follows are untouched |
| `Models.DeleteUserNullsAuthor` | yatube/posts/models.py:40-47 | deleting a user keeps every post in place; the ones they wrote get a null author and nothing else about any post changes |
| `Models.DeleteUserCascadesComments` | yatube/posts/models.py:78-84 | deleting a user removes exactly the comments they wrote |
| `Models.DeleteUserCascadesFollows` | yatube/posts/models.py:103-113 | deleting a user removes exactly the follow rows where they are the follower or the author |
| `Models.DeleteUserConsistent` | yatube/posts/models.py:40-113 | deleting a user from a consistent store leaves it consistent (order, ids, no dangling author, comment or follow references) and no post names them |
| `Models.DeleteGroupEffects` | yatube/posts/models.py:48-56 | deleting a group keeps every post in place with only a matching group reference cleared; exactly that group row goes; comments and follows are untouched |
| `Models.DeleteGroupConsistent` | yatube/posts/models.py:48-56 | deleting a group keeps the store consistent and leaves no post in that group |
| `Models.DeletePostEffects` | yatube/posts/models.py:71-77 | deleting a post removes that post and exactly the comments on it; groups and follows are untouched |
| `Models.DeletePostConsistent` | yatube/posts/models.py:71-77 | deleting a post keeps the store consistent (no comment is left on a missing post) and the id no longer resolves |
| `Pagination.Page` | yatube/posts/views.py:13 | page k holds min(perPage, M - perPage*(k-1)) rows, namely the rows that follow the earlier pages |
| `Pagination.Pages` | yatube/posts/views.py:13 | the listing cut into pages: at least one page, every page but the last is full, and the last is non-empty unless the listing is |
| `Pagination.PiecesAreValidPages` | yatube/posts/views.py:13 | every piece of the cut has a valid page number, the converse of `PageIsPiece`: pages and pieces are in one-to-one correspondence |
| `Pagination.PagesCoverList` | yatube/posts/tests/test_views.py:95-104 | reading the pages in turn gives back the whole listing: nothing lost, nothing repeated |
| `Pagination.PageIsPiece` | yatube/posts/views.py:13 | every valid page number names one of the consecutive pieces, and that page is that piece |
| `Pagination.SecondPageHoldsRest` | yatube/posts/tests/test_views.py:95-104 | with between one and two pages' worth of posts, page 1 is full, page 2 holds the rest, and there are two pages |
| `Queries.Index` | yatube/posts/views.py:11-18 | the global listing holds exactly the stored posts, newest first on a consistent store (`ListingsNewestFirst` gives the order too) |
| `Queries.GroupPosts` | yatube/posts/views.py:21-31 | 404 exactly when no group has the slug; otherwise the listing holds exactly the posts whose group is the resolved group, and `posts` is its first PER_PAGE posts |
| `Queries.Profile` | yatube/posts/views.py:34-48 | lists exactly the author's posts; `following` is false for an anonymous viewer and otherwise equals the presence of the (viewer, author) follow row |
| `Queries.PostDetail` | yatube/posts/views.py:51-60 | 404 exactly when no post has the id; otherwise that post and exactly its comments |
| `Queries.FeedJoin` | yatube/posts/views.py:124 | the join of posts with the viewer's follow rows contains exactly the posts whose author the viewer follows |
| `Queries.FollowIndex` | yatube/posts/views.py:122-127 | anonymous viewers are sent to login; otherwise the feed holds exactly the posts of followed authors |
| `Queries.FeedJoinIsFilter` | yatube/posts/views.py:124 | without repeated follow rows the join is the plain newest-first filter: each followed post appears once |
| `Queries.FeedJoinCount` | yatube/posts/views.py:124 | for every input, the join lists a post as many times as it occurs in the posts multiplied by the number of follow rows joining the viewer to its author |
| `Queries.DuplicateRowRepeatsPost` | yatube/posts/views.py:124 | with the same follow row stored twice, the join lists the author's post twice, which is why the handlers must keep pairs distinct |
| `Queries.HeadIsLatest` | yatube/posts/models.py:63-64 | the first post of a newest-first list has the latest pub_date and is the only one with it |
| `Queries.NewestFirstDetermined` | yatube/posts/models.py:63-64 | two newest-first lists with the same posts are equal, so a listing is fixed by which posts it contains |
| `Queries.ListingsNewestFirst` | yatube/posts/models.py:63-64 | on a consistent store the global, group, profile and feed listings are in descending pub_date order, and the feed equals the filter of followed authors |
| `Queries.CommentsListedNewestFirst` | yatube/posts/models.py:96-97 | a post's comments are listed in descending creation order |
| `Queries.JoinWithoutRowsIsEmpty` | yatube/posts/views.py:124 | with no follow row for the viewer the join is empty |
| `Queries.FeedEmptyWithoutFollows` | yatube/posts/tests/test_views.py:288-298 | a viewer who follows no one gets an empty feed |
| `Handlers.FollowEdges` | yatube/posts/views.py:134-136 | after following, the pair is present unless it is a self-follow; as a multiset the rows gain exactly one (user, author) row when the pair is new and not a self-follow, and nothing otherwise; existing rows keep their order |
| `Handlers.UnfollowEdges` | yatube/posts/views.py:146-148 | after unfollowing, the (user, author) pair is absent when user and author differ; every other row keeps its number of copies; a self-unfollow or an absent pair leaves the rows unchanged |
| `Handlers.EdgesStayValid` | yatube/posts/views.py:134-148 | follow and unfollow never create a repeated pair or a self-follow |
| `Handlers.FollowTwiceOneRow` | yatube/posts/tests/test_views.py:265-275 | following is idempotent and leaves exactly one row for the pair |
| `Handlers.FollowThenUnfollow` | yatube/posts/views.py:130-151 | follow then unfollow removes the pair and restores the presence of every other pair |
| `Handlers.PostFormValid` | yatube/posts/views.py:73 | `form.is_valid()` for a post form: non-empty text and, if a group is chosen, an existing group; `PublishAddsOnePost` and `ReviseEditsOnePost` prove a valid form keeps the store consistent |
| `Handlers.Publish` | yatube/posts/views.py:74-76 | saving a new post puts one row in front of the others, authored by the current user with the form's text and group, stamped with the current time; the other tables are untouched |
| `Handlers.Revise` | yatube/posts/views.py:95-96 | saving an edit: the post with that id takes the form's text and group; every post keeps its id, author and pub_date, every other post stays as it was, and nothing but the post table changes |
| `Handlers.Remark` | yatube/posts/views.py:112-116 | saving a comment puts one row by the current user on the post in front of the others, stamped with the current time; nothing but the comment table and the clock changes |
| `Handlers.PublishAddsOnePost` | yatube/posts/views.py:73-77 | a created post is exactly one new row, newest, with a fresh id, authored by the current user with the submitted text and group; the other posts and tables are untouched; the store stays consistent |
| `Handlers.ReviseEditsOnePost` | yatube/posts/views.py:95-97 | a saved edit replaces only text and group of that post; its id, author and pub_date and every other post stay; the store stays consistent |
| `Handlers.RemarkAddsOneComment` | yatube/posts/views.py:112-117 | a saved comment is exactly one new row, newest, by the current user on the resolved post; the store stays consistent |
| `Handlers.Store.CreateGroup` | yatube/posts/models.py:15-19 | a group is stored only when its slug is not in use; otherwise nothing changes |
| `Handlers.Store.ProfileFollow` | yatube/posts/views.py:130-139 | anonymous: login redirect; unknown author: 404; otherwise redirect to the author's profile with the follow rows updated as `FollowEdges` says and nothing else changed |
| `Handlers.Store.ProfileUnfollow` | yatube/posts/views.py:142-151 | same outcomes as follow, with the rows updated as `UnfollowEdges` says; an absent pair is a no-op, not an error |
| `Handlers.Store.PostCreate` | yatube/posts/views.py:63-79 | anonymous: login redirect; valid form: one post added by the current user, then redirect to their profile; otherwise re-render with nothing stored |
| `Handlers.Store.PostEdit` | yatube/posts/views.py:82-105 | anonymous: login redirect; unknown id: 404; non-author: redirect to the post with the store unchanged; author with a valid form: post revised, redirect to it; author otherwise: re-render, unchanged |
| `Handlers.Store.AddComment` | yatube/posts/views.py:108-119 | anonymous: login redirect with no comment added; unknown post: 404; valid text: one comment added, redirect to the post; invalid: re-render with nothing stored |
| `Handlers.Store.RemoveUser` | yatube/posts/models.py:40-47 | the store after deleting a user is `Models.DeleteUser` of the one before, and stays consistent |
| `Handlers.Store.RemoveGroup` | yatube/posts/models.py:48-56 | the store after deleting a group is `Models.DeleteGroup` of the one before, and stays consistent |
| `Handlers.Store.RemovePost` | yatube/posts/models.py:71-77 | the store after deleting a post is `Models.DeletePost` of the one before, and stays consistent |

## Left out

- The page cache on the global listing. No cache decorator or cache call is in `yatube/posts/views.py`; the caching the tests observe is configured outside the modelled code.
- Templates, HTTP status codes, URL reversing and the custom 404 page: responses are the `Outcome` and `Reply` datatypes.
- Images and file storage (`Post.image`): the model assumes every upload is a valid image (or none is sent). An upload that is not a valid image makes `form.is_valid()` false in `post_create` and `post_edit` (`yatube/posts/views.py:73`, `:95`), and the view re-renders; that branch is reached in the model only through an invalid text or group.
- `paginate_page` itself (`utils` is not part of this model): pages are plain slices. Only page numbers that name an existing page are modelled. How an out-of-range or non-numeric `page` parameter is treated is not modelled.
- The value of `PER_PAGE` (`posts/constants.py` is not part of this model): it is the `perPage` parameter. `TEXT_LEN` (also in `posts/constants.py`) is 15, the value `yatube/posts/tests/test_models.py:27` writes; that test passes for any value of at least 13.
- Handlers.PostFormValid: checks the text only for being non-empty. Django's form cleaning strips surrounding whitespace first, so a whitespace-only text is rejected and a saved text is stored trimmed; the model keeps the text as submitted. The same holds for the comment text in `Handlers.Store.AddComment`.
- Queries.Profile: requires the username to exist. The source does not answer 404 for an unknown username: `.first()` yields None and `author.posts` then fails (`yatube/posts/views.py:36-37`).
- The check-then-insert race of `profile_follow` under concurrent requests: the model runs one request at a time. `Queries.DuplicateRowRepeatsPost` shows what a duplicated row would do to the feed.
- Timestamps are a logical clock, so no two posts (or comments) share a `pub_date` (`created`). The order of equal timestamps is not modelled.
- Account sign-up and login (`yatube/users/views.py`, framework views): the store starts from a given set of accounts. A signed-in actor is assumed to be an existing account (`Store.SignedIn`).
- Group creation is modelled only as far as the slug's uniqueness constraint; group editing through the admin is not modelled.
- The `about` app: static pages only.

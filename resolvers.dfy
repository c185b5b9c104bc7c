/** The resolver map of the API: the root `Query` fields and the
    relational fields of `Post`, `User` and `Comment`. Each resolver reads
    the collections in `db` and returns a value; none returns a new `Db`,
    so no query changes the collections. */
module Resolvers {
  import opened Wrappers
  import opened Text
  import opened Seqs
  import opened Data

  // ---------------------------------------------------------------------
  // Search

  /** A `query` argument filters only when it is present and non-empty
      (JavaScript treats a missing argument and `""` alike as falsy). */
  predicate HasFilter(query: Option<string>) {
    query.Some? && query.value != ""
  }

  /** The user search test: the lower-cased name contains the lower-cased query. */
  predicate NameMatches(u: User, q: string) {
    Contains(Lower(u.name), Lower(q))
  }

  function NameMatcher(q: string): User -> bool {
    u => NameMatches(u, q)
  }

  /** The post search test: the lower-cased title or the lower-cased body
      contains the lower-cased query. */
  predicate PostMatches(p: Post, q: string) {
    Contains(Lower(p.title), Lower(q)) || Contains(Lower(p.body), Lower(q))
  }

  function PostMatcher(q: string): Post -> bool {
    p => PostMatches(p, q)
  }

  /** `Query.users(query)`. */
  function QueryUsers(db: Db, query: Option<string>): (r: seq<User>)
    ensures !HasFilter(query) ==> r == db.users
    ensures HasFilter(query) ==> forall u | u in r :: u in db.users && NameMatches(u, query.value)
    ensures HasFilter(query) ==> forall u | u in db.users && NameMatches(u, query.value) :: u in r
    ensures HasFilter(query) ==>
      forall u | u in db.users :: Count(r, u) == if NameMatches(u, query.value) then Count(db.users, u) else 0
    ensures IsSubsequence(r, db.users) && |r| <= |db.users|
  {
    if !HasFilter(query) then
      SubsequenceReflexive(db.users);
      db.users
    else
      Filter(db.users, NameMatcher(query.value))
  }

  /** `Query.posts(query)`. */
  function QueryPosts(db: Db, query: Option<string>): (r: seq<Post>)
    ensures !HasFilter(query) ==> r == db.posts
    ensures HasFilter(query) ==> forall p | p in r :: p in db.posts && PostMatches(p, query.value)
    ensures HasFilter(query) ==> forall p | p in db.posts && PostMatches(p, query.value) :: p in r
    ensures HasFilter(query) ==>
      forall p | p in db.posts :: Count(r, p) == if PostMatches(p, query.value) then Count(db.posts, p) else 0
    ensures IsSubsequence(r, db.posts) && |r| <= |db.posts|
  {
    if !HasFilter(query) then
      SubsequenceReflexive(db.posts);
      db.posts
    else
      Filter(db.posts, PostMatcher(query.value))
  }

  /** The contract of `QueryUsers` determines its result for a non-empty query:
      any subsequence of the users holding every occurrence of each matching
      user and no other user is the search result. */
  lemma QueryUsersExact(db: Db, q: string, r: seq<User>)
    requires q != ""
    requires IsSubsequence(r, db.users)
    requires forall u | u in db.users :: Count(r, u) == if NameMatches(u, q) then Count(db.users, u) else 0
    ensures r == QueryUsers(db, Some(q))
  {
    FilterUnique(db.users, NameMatcher(q), r);
  }

  /** The contract of `QueryPosts` determines its result for a non-empty query. */
  lemma QueryPostsExact(db: Db, q: string, r: seq<Post>)
    requires q != ""
    requires IsSubsequence(r, db.posts)
    requires forall p | p in db.posts :: Count(r, p) == if PostMatches(p, q) then Count(db.posts, p) else 0
    ensures r == QueryPosts(db, Some(q))
  {
    FilterUnique(db.posts, PostMatcher(q), r);
  }

  /** User search ignores case: queries that fold to the same string give the same users. */
  lemma QueryUsersIgnoresCase(db: Db, q1: string, q2: string)
    requires Lower(q1) == Lower(q2)
    ensures QueryUsers(db, Some(q1)) == QueryUsers(db, Some(q2))
  {
    if q1 != "" {
      QueryUsersExact(db, q2, QueryUsers(db, Some(q1)));
    }
  }

  /** Post search ignores case: queries that fold to the same string give the same posts. */
  lemma QueryPostsIgnoresCase(db: Db, q1: string, q2: string)
    requires Lower(q1) == Lower(q2)
    ensures QueryPosts(db, Some(q1)) == QueryPosts(db, Some(q2))
  {
    if q1 != "" {
      QueryPostsExact(db, q2, QueryPosts(db, Some(q1)));
    }
  }

  /** Searching for a query or for its lower-cased form is the same search. */
  lemma SearchOfLoweredQuery(db: Db, q: string)
    ensures QueryUsers(db, Some(Lower(q))) == QueryUsers(db, Some(q))
    ensures QueryPosts(db, Some(Lower(q))) == QueryPosts(db, Some(q))
  {
    LowerIdempotent(q);
    QueryUsersIgnoresCase(db, Lower(q), q);
    QueryPostsIgnoresCase(db, Lower(q), q);
  }

  // ---------------------------------------------------------------------
  // Constant roots

  /** `Query.comments`: every comment, in stored order. */
  function QueryComments(db: Db): (r: seq<Comment>)
    ensures r == db.comments
  {
    db.comments
  }

  /** `Query.me`: a fixed record that does not depend on the collections. */
  function QueryMe(): (u: User)
    ensures u == User("123098", "Mike", "mike@example.com", None)
  {
    User("123098", "Mike", "mike@example.com", None)
  }

  // ---------------------------------------------------------------------
  // Relational traversal: one record, first match or nothing

  /** `Post.author`: the first user whose id is the post's `author`. */
  function PostAuthor(db: Db, parent: Post): (r: Option<User>)
    ensures r.None? <==> forall u | u in db.users :: u.id != parent.author
    ensures r.Some? ==> r.value in db.users && r.value.id == parent.author
    ensures forall i | 0 <= i < |db.users| && db.users[i].id == parent.author &&
                       (forall k | 0 <= k < i :: db.users[k].id != parent.author) :: r == Some(db.users[i])
  {
    Find(db.users, (u: User) => u.id == parent.author)
  }

  /** `Comment.author`: the first user whose id is the comment's `author`. */
  function CommentAuthor(db: Db, parent: Comment): (r: Option<User>)
    ensures r.None? <==> forall u | u in db.users :: u.id != parent.author
    ensures r.Some? ==> r.value in db.users && r.value.id == parent.author
    ensures forall i | 0 <= i < |db.users| && db.users[i].id == parent.author &&
                       (forall k | 0 <= k < i :: db.users[k].id != parent.author) :: r == Some(db.users[i])
  {
    Find(db.users, (u: User) => u.id == parent.author)
  }

  /** `Comment.post`: the first post whose id is the comment's `post`. */
  function CommentPost(db: Db, parent: Comment): (r: Option<Post>)
    ensures r.None? <==> forall p | p in db.posts :: p.id != parent.post
    ensures r.Some? ==> r.value in db.posts && r.value.id == parent.post
    ensures forall i | 0 <= i < |db.posts| && db.posts[i].id == parent.post &&
                       (forall k | 0 <= k < i :: db.posts[k].id != parent.post) :: r == Some(db.posts[i])
  {
    Find(db.posts, (p: Post) => p.id == parent.post)
  }

  // ---------------------------------------------------------------------
  // Relational traversal: all matches, in order

  /** `Post.comments`: the comments whose `post` is the post's id. */
  function PostComments(db: Db, parent: Post): (r: seq<Comment>)
    ensures forall c | c in r :: c in db.comments && c.post == parent.id
    ensures forall c | c in db.comments && c.post == parent.id :: c in r
    ensures forall c | c in db.comments :: Count(r, c) == if c.post == parent.id then Count(db.comments, c) else 0
    ensures IsSubsequence(r, db.comments) && |r| <= |db.comments|
  {
    Filter(db.comments, (c: Comment) => c.post == parent.id)
  }

  /** `User.posts`: the posts whose `author` is the user's id. */
  function UserPosts(db: Db, parent: User): (r: seq<Post>)
    ensures forall p | p in r :: p in db.posts && p.author == parent.id
    ensures forall p | p in db.posts && p.author == parent.id :: p in r
    ensures forall p | p in db.posts :: Count(r, p) == if p.author == parent.id then Count(db.posts, p) else 0
    ensures IsSubsequence(r, db.posts) && |r| <= |db.posts|
  {
    Filter(db.posts, (p: Post) => p.author == parent.id)
  }

  /** `User.comments`: the comments whose `author` is the user's id. */
  function UserComments(db: Db, parent: User): (r: seq<Comment>)
    ensures forall c | c in r :: c in db.comments && c.author == parent.id
    ensures forall c | c in db.comments && c.author == parent.id :: c in r
    ensures forall c | c in db.comments :: Count(r, c) == if c.author == parent.id then Count(db.comments, c) else 0
    ensures IsSubsequence(r, db.comments) && |r| <= |db.comments|
  {
    Filter(db.comments, (c: Comment) => c.author == parent.id)
  }

  // ---------------------------------------------------------------------
  // The two directions of each relation agree

  /** With distinct post ids, a stored comment is among a stored post's
      comments exactly when the comment's post resolves to that post. */
  lemma PostCommentsMatchCommentPost(db: Db, p: Post, c: Comment)
    requires UniquePostIds(db.posts)
    requires p in db.posts && c in db.comments
    ensures c in PostComments(db, p) <==> CommentPost(db, c) == Some(p)
  {
  }

  /** With distinct user ids, a stored post is among a stored user's posts
      exactly when the post's author resolves to that user. */
  lemma UserPostsMatchPostAuthor(db: Db, u: User, p: Post)
    requires UniqueUserIds(db.users)
    requires u in db.users && p in db.posts
    ensures p in UserPosts(db, u) <==> PostAuthor(db, p) == Some(u)
  {
  }

  /** With distinct user ids, a stored comment is among a stored user's
      comments exactly when the comment's author resolves to that user. */
  lemma UserCommentsMatchCommentAuthor(db: Db, u: User, c: Comment)
    requires UniqueUserIds(db.users)
    requires u in db.users && c in db.comments
    ensures c in UserComments(db, u) <==> CommentAuthor(db, c) == Some(u)
  {
  }

  // ---------------------------------------------------------------------
  // The seed data

  /** Every reference in the seed data resolves, so the non-null `author`
      and `post` fields never meet a missing record there. */
  lemma SeedReferencesResolve()
    ensures forall p | p in Seed.posts :: PostAuthor(Seed, p).Some?
    ensures forall c | c in Seed.comments :: CommentAuthor(Seed, c).Some? && CommentPost(Seed, c).Some?
  {
  }

  /** In the seed data, whose ids are distinct, each one-to-many field and
      the matching foreign-key lookup agree in both directions. */
  lemma SeedRelationsAgree(u: User, p: Post, c: Comment)
    requires u in Seed.users && p in Seed.posts && c in Seed.comments
    ensures c in PostComments(Seed, p) <==> CommentPost(Seed, c) == Some(p)
    ensures p in UserPosts(Seed, u) <==> PostAuthor(Seed, p) == Some(u)
    ensures c in UserComments(Seed, u) <==> CommentAuthor(Seed, c) == Some(u)
  {
    SeedIdsUnique();
    PostCommentsMatchCommentPost(Seed, p, c);
    UserPostsMatchPostAuthor(Seed, u, p);
    UserCommentsMatchCommentAuthor(Seed, u, c);
  }

  /** The `me` record is not one of the stored users, and nothing refers to it. */
  lemma MeIsDetached()
    ensures QueryMe() !in Seed.users
    ensures UserPosts(Seed, QueryMe()) == [] && UserComments(Seed, QueryMe()) == []
  {
  }
}

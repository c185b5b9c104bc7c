/** The three record kinds the API serves and the in-memory collections
    the resolvers read. */
module Data {
  import opened Wrappers

  /** A user; `age` is optional, as only the first seed user has one. */
  datatype User = User(id: string, name: string, email: string, age: Option<int>)

  /** A post; `author` is the id of a user. */
  datatype Post = Post(id: string, title: string, body: string, published: bool, author: string)

  /** A comment; `author` is the id of a user and `post` the id of a post. */
  datatype Comment = Comment(id: string, text: string, author: string, post: string)

  /** The three collections every resolver reads. Nothing in the API assigns
      to them, so they are one immutable value. */
  datatype Db = Db(users: seq<User>, posts: seq<Post>, comments: seq<Comment>)

  const SeedUsers: seq<User> := [
    User("1", "Andrew", "andrew@example.com", Some(27)),
    User("2", "Sarah", "sarah@example.com", None),
    User("3", "Mike", "mike@example.com", None)
  ]

  const SeedPosts: seq<Post> := [
    Post("10", "GraphQL 101", "This is how to use GraphQL...", true, "1"),
    Post("11", "GraphQL 201", "This is an advanced GraphQL post...", false, "1"),
    Post("12", "Programming Music", "", false, "2")
  ]

  const SeedComments: seq<Comment> := [
    Comment("1c", "i commented 1", "2", "10"),
    Comment("2c", "i commented trgrtg 2", "2", "10"),
    Comment("3c", "i commrfrtgented 3", "1", "12"),
    Comment("4c", "i wdwedcommented 4", "3", "11")
  ]

  /** The data the server starts with and keeps for its whole run. */
  const Seed: Db := Db(SeedUsers, SeedPosts, SeedComments)

  /** No two users share an id. */
  predicate UniqueUserIds(users: seq<User>) {
    forall i, j :: 0 <= i < j < |users| ==> users[i].id != users[j].id
  }

  /** No two posts share an id. */
  predicate UniquePostIds(posts: seq<Post>) {
    forall i, j :: 0 <= i < j < |posts| ==> posts[i].id != posts[j].id
  }

  /** No two comments share an id. */
  predicate UniqueCommentIds(comments: seq<Comment>) {
    forall i, j :: 0 <= i < j < |comments| ==> comments[i].id != comments[j].id
  }

  /** The seed collections have distinct ids within each collection. */
  lemma SeedIdsUnique()
    ensures UniqueUserIds(Seed.users)
    ensures UniquePostIds(Seed.posts)
    ensures UniqueCommentIds(Seed.comments)
  {
  }
}

# GraphQL resolver layer, modelled in Dafny

The repository is a small GraphQL API over three in-memory collections —
users, posts and comments — held in module-level arrays for the life of
the process. Its only logic is the resolver map in `src/index.js`:

- two search roots, `Query.users` and `Query.posts`, that keep the records
  whose name (or title or body) contains the `query` argument ignoring case,
  and return the whole collection when `query` is missing or empty;
- two constant roots, `Query.comments` (the comments array as it is) and
  `Query.me` (a fixed user record);
- relational fields that follow a foreign key: `Post.author`,
  `Comment.author` and `Comment.post` return the first matching record or
  nothing (`Array.prototype.find`); `Post.comments`, `User.posts` and
  `User.comments` return every matching record in stored order
  (`Array.prototype.filter`).

The model is purely functional, as the resolvers are:

- `wrappers.dfy` — `Option`, standing for a value or JavaScript's `undefined`.
- `text.dfy` — `Lower` (ASCII case folding, for `toLowerCase`) and
  `Contains` (for `String.prototype.includes`), the latter proved equal to
  "the query occurs at some position" (`ContainsIffOccurs`).
- `seqs.dfy` — `Filter` and `Find`, the two array operations every resolver
  is built from. `Filter` is characterised completely: its result is a
  subsequence of the input that keeps every occurrence of each element that
  passes the test and nothing else, and `FilterUnique` proves that this
  contract admits only one result. `Find` returns the element at the first
  index that passes the test.
- `data.dfy` — the `User`, `Post` and `Comment` records, the `Db` value that
  bundles the three collections, and the seed data of `src/index.js:3-71`.
- `resolvers.dfy` — the ten resolvers, each as a function of `db` and of the
  parent record or arguments, and the lemmas relating them.

Every resolver that reads the collections takes them as an immutable `Db`
value and returns only its answer, never a new `Db`; `QueryMe` reads none. So no query changes the users, posts or
comments: before and after any query they are the same value. This holds by
construction and needs no lemma.

## Model

| member | source | states |
|---|---|---|
| Text.LowerChar | src/index.js:115 | an ASCII upper-case letter becomes its lower-case letter; every other character is unchanged |
| Text.Lower | src/index.js:115 | folding keeps the length, folds each character independently, and leaves no upper-case letter |
| Text.LowerIdempotent | src/index.js:131-136 | lower-casing an already lower-cased string changes nothing |
| Text.ContainsIffOccurs | src/index.js:115 | `includes` holds exactly when the query occurs in the string at some position |
| Seqs.SubsequenceBound | src/index.js:114 | a filtered result is no longer than the collection it came from and holds no element more often |
| Seqs.Filter | src/index.js:114-116 | `filter` keeps exactly the elements that pass the test (each passing element is kept, each kept element passes), keeps every occurrence of them, and keeps stored order |
| Seqs.FilterUnique | src/index.js:152-154 | any order-preserving selection that keeps every occurrence of each passing element and nothing else equals `filter`'s result |
| Seqs.Find | src/index.js:147-149 | `find` returns nothing exactly when no element passes; otherwise a stored element that passes, namely the one at the first passing index |
| Seqs.FindIsFirstOfFilter | src/index.js:171-173 | `find` returns the first element of what `filter` returns with the same test, or nothing when that is empty |
| Data.SeedIdsUnique | src/index.js:3-71 | ids are distinct within each seed collection |
| Resolvers.QueryUsers | src/index.js:110-118 | missing or empty query: all users unchanged; otherwise exactly the users whose lower-cased name contains the lower-cased query, every occurrence, in stored order, never more than there are users |
| Resolvers.QueryPosts | src/index.js:126-140 | missing or empty query: all posts unchanged; otherwise exactly the posts whose lower-cased title or body contains the lower-cased query, every occurrence, in stored order, never more than there are posts |
| Resolvers.QueryUsersExact | src/index.js:114-116 | the properties stated for user search leave only one possible result |
| Resolvers.QueryPostsExact | src/index.js:130-138 | the properties stated for post search leave only one possible result |
| Resolvers.QueryUsersIgnoresCase | src/index.js:115 | two queries with the same lower-cased form find the same users |
| Resolvers.QueryPostsIgnoresCase | src/index.js:131-136 | two queries with the same lower-cased form find the same posts |
| Resolvers.SearchOfLoweredQuery | src/index.js:110-140 | searching for a query or for its lower-cased form gives the same users and the same posts |
| Resolvers.QueryComments | src/index.js:141-143 | the comments collection is returned unchanged |
| Resolvers.QueryMe | src/index.js:119-125 | always the same record: id "123098", name "Mike", email "mike@example.com", no age |
| Resolvers.PostAuthor | src/index.js:146-150 | nothing exactly when no user has the post's author id; otherwise the first stored user with that id |
| Resolvers.CommentAuthor | src/index.js:170-174 | nothing exactly when no user has the comment's author id; otherwise the first stored user with that id |
| Resolvers.CommentPost | src/index.js:175-179 | nothing exactly when no post has the comment's post id; otherwise the first stored post with that id |
| Resolvers.PostComments | src/index.js:151-155 | exactly the comments whose post is the parent's id, every occurrence, in stored order |
| Resolvers.UserPosts | src/index.js:158-162 | exactly the posts whose author is the parent's id, every occurrence, in stored order |
| Resolvers.UserComments | src/index.js:163-167 | exactly the comments whose author is the parent's id, every occurrence, in stored order |
| Resolvers.PostCommentsMatchCommentPost | src/index.js:151-179 | with distinct post ids, a stored comment is among a stored post's comments exactly when the comment's post resolves to that post |
| Resolvers.UserPostsMatchPostAuthor | src/index.js:146-162 | with distinct user ids, a stored post is among a stored user's posts exactly when the post's author resolves to that user |
| Resolvers.UserCommentsMatchCommentAuthor | src/index.js:163-174 | with distinct user ids, a stored comment is among a stored user's comments exactly when the comment's author resolves to that user |
| Resolvers.SeedReferencesResolve | src/index.js:22-71 | in the seed data every post's author and every comment's author and post resolve to a record |
| Resolvers.SeedRelationsAgree | src/index.js:145-180 | in the seed data, whose ids are distinct, each one-to-many field and the matching foreign-key lookup agree in both directions |
| Resolvers.MeIsDetached | src/index.js:119-125 | the `me` record is not a stored user, and no seed post or comment names it as author |

## Left out

- Server construction and start-up (`GraphQLServer`, `server.start`, the log line): I/O and a library call.
- The schema string `typeDefs`: it is parsed and enforced by the GraphQL library, including non-null checks such as `author: User!` when a lookup finds nothing; the model returns `None` there, as the resolver does.
- Text.Contains and Text.Lower work on Dafny strings, sequences of Unicode scalar values, where JavaScript's `includes` and `toLowerCase` work on UTF-16 code units; on well-formed strings substring search answers the same, but strings holding a lone surrogate, which JavaScript allows, cannot be represented.
- Unicode case mapping: `Lower` folds only the ASCII letters A-Z, where JavaScript's `toLowerCase` maps all of Unicode.
- JavaScript truthiness of `args.query`: the argument is an `Option<string>`: `None` stands for a missing or `null` argument, and `None` and `Some("")` both mean "no filter"; no other falsy value can arrive through a `String` argument.
- The unused resolver parameters `ctx` and `info`, and `args` where a resolver ignores it.
- Mutations and referential-integrity checks: the source defines no mutation resolvers, so none are modelled.

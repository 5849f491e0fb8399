# Forum data-access layer in Dafny

This project models the `DataBase` class of `sqlalchemy_bd.py`, the data-access layer of a small
discussion forum. Users write categories, categories hold topics, and topics hold posts.

The model is an in-memory relational store: the class `Database.DataBase` has four tables
(`users`, `categories`, `topics`, `posts`), each a map from row id to a row datatype (`Models.User`,
`Models.Category`, `Models.Topic`, `Models.Post`), and a counter `clock` that stands for
`datetime.utcnow`. Each insert stamps the new row with the clock and advances it, so a row inserted
later is newer than every row before it.

Every create, update and delete is a `method` with `modifies this`. Each one states its whole new
state and keeps the class invariant `Valid()`:
- ids are positive;
- timestamps lie before the clock;
- usernames and emails are unique;
- no two topics, and no two posts, share a timestamp.

Each one also keeps the foreign-key invariant `Linked()` (every topic's category and every post's
topic exist), as long as a create is given an existing parent.

The single-row lookups and `get_forum_stats` are functions over the state. The list-building reads
(`get_categories`, `get_topics`, `get_all_*`, `get_recent_posts`) are read-only methods with loops.
Each is proved against a ghost predicate that says what one output row is.

Behaviour of the store underneath that the model follows:
- New ids follow SQLite's rowid rule for an `INTEGER PRIMARY KEY` without `AUTOINCREMENT`: one more
  than the largest id in the table, or 1 for an empty table (`Models.NextRowId`).
- SQLite does not enforce foreign keys unless asked to, and nothing here asks. So the creates accept
  any parent id, and rows whose parent is missing can exist. Every read is specified for that case too.
  - The joined reads (`get_category`, `get_topic`, `get_post`, `get_categories`, `get_topics`) are
    inner joins, so they drop such rows.
  - The reads that follow a relationship attribute (`category.author.username`, `post.topic.title`)
    raise when it is `None`. That is modelled as `Raised(NoneAttribute)`.
- The UNIQUE constraints on `username` and `email` are enforced. An `update_user` that would
  duplicate one fails at commit and is rolled back; the model returns `Raised(UniqueViolation)` and
  leaves the store unchanged.
- `ORDER BY created_at DESC LIMIT n` is specified as a selection (`Ordering.IsNewestSelection`):
  - at most `n` rows;
  - strictly newest first;
  - a row is left out only when the result is full of newer rows.

  `Ordering.SelectedIffFewerNewer` proves that a row is selected exactly when fewer than `n` rows
  are newer.
- `ORDER BY name` uses SQLite's default BINARY collation, which on UTF-8 text is code-point order
  (`Ordering.LexLe`).

Nothing in the class checks that a parent row exists before a create, and neither do the handlers
that call it. For example, a form posted to a category that was deleted meanwhile still creates its
topic. The model keeps that behaviour.

Modules:
- `wrappers.dfy`: `Option` (Python's `None` for an absent argument or row) and `Result` (a raised
  error).
- `sets.dfy`: small set and sequence lemmas.
- `models.dfy`: the row types, the relationship sets behind `category.topics`, `topic.posts`,
  `user.topics` and `user.posts`, the table invariants, the cascade lemmas and the id allocator.
- `ordering.dfy`: newest-first selection and name ordering.
- `rows.dfy`: the shapes of the rows and dictionaries that the reads return.
- `database.dfy`: the `DataBase` class.

## Model

| member | source | states |
|---|---|---|
| Models.NextRowId | sqlalchemy_bd.py:14 | the new id is positive and greater than every id in the table, so it is fresh; it is 1 for an empty table, otherwise one more than an existing id; the same rule allocates the keys of categories, topics and posts (lines 32, 47, 63) |
| Models.TopicsOf | sqlalchemy_bd.py:39 | `category.topics`: exactly the topics whose category_id is the category, all of them rows of the table |
| Models.PostsOf | sqlalchemy_bd.py:55 | `topic.posts`: exactly the posts whose topic_id is the topic, all of them rows of the table |
| Models.TopicsBy | sqlalchemy_bd.py:23 | `user.topics`: exactly the topics whose user_id is the user, all of them rows of the table |
| Models.PostsBy | sqlalchemy_bd.py:24 | `user.posts`: exactly the posts whose user_id is the user, all of them rows of the table |
| Models.PostsInAddTopic | sqlalchemy_bd.py:457 | adding one more topic to a set of topics adds exactly that topic's posts, disjoint from the others; the post count of the union is the sum of the counts |
| Models.CategoryCascadeKeeps | sqlalchemy_bd.py:39 | removing a category, its topics and those topics' posts keeps every table well-formed and keeps the foreign keys linked |
| Models.TopicCascadeKeeps | sqlalchemy_bd.py:55 | removing a topic and its posts keeps every table well-formed and keeps the foreign keys linked |
| Ordering.NewestSlot | sqlalchemy_bd.py:254 | the insertion point of a row in a newest-first list: every row before it is newer and every row after it is older |
| Ordering.InsertNewest | sqlalchemy_bd.py:254 | inserting a row with a fresh timestamp at its slot keeps a list strictly newest first |
| Ordering.SelectNewest | sqlalchemy_bd.py:254 | `ORDER BY created_at DESC LIMIT n` over rows with distinct timestamps gives a newest selection: at most n distinct rows of the table, strictly newest first, and a row left out only when the list is full of newer rows |
| Ordering.SelectedIffFewerNewer | sqlalchemy_bd.py:485 | in a newest selection, a row is listed if and only if fewer than `limit` rows are newer than it |
| Ordering.LexLeTotal | sqlalchemy_bd.py:139 | any two names are comparable in code-point order |
| Ordering.LexLeTransitive | sqlalchemy_bd.py:139 | code-point order is transitive |
| Ordering.ByNameEverywhere | sqlalchemy_bd.py:139 | a list in name order between neighbours is in name order between any two positions |
| Ordering.NameSlot | sqlalchemy_bd.py:139 | the insertion point of a name: every name before it is strictly smaller, and the name right after it is at least as large, so a tie puts the new name first |
| Ordering.InsertByName | sqlalchemy_bd.py:139 | inserting a row at its name slot keeps the list in name order |
| Ordering.SortByName | sqlalchemy_bd.py:139 | `ORDER BY name` lists every row of the set once and nothing else, in name order |
| Database.Preview | sqlalchemy_bd.py:490 | content of at most 100 characters is kept as is; longer content becomes its first 100 characters followed by "...", so every preview is at most 103 long |
| Database.DataBase.constructor | sqlalchemy_bd.py:74-77 | a new store has empty tables and satisfies both invariants |
| Database.DataBase.GetCategory | sqlalchemy_bd.py:155-173 | a row exactly when the category and its author exist, and then it is that category joined to its author's username |
| Database.DataBase.GetTopic | sqlalchemy_bd.py:221-242 | a row exactly when the topic, its author and its category exist, and then it is the topic with the author's username and the category's name |
| Database.DataBase.GetPost | sqlalchemy_bd.py:270-290 | a row exactly when the post, its author and its topic exist, and then it is the post with the author's username and the topic's title |
| Database.DataBase.GetUserById | sqlalchemy_bd.py:420-433 | a record exactly when the id is a user, and then it holds that user's columns |
| Database.DataBase.FindUser | sqlalchemy_bd.py:408 | `filter_by(...).first()`: a found user matches the filter; None means no user matches |
| Database.DataBase.GetUserByUsername | sqlalchemy_bd.py:406-418 | a record exactly when some user has the username, and then it is that user's record |
| Database.DataBase.LoginUser | sqlalchemy_bd.py:358-372 | only a password with a username or an email can log in; the username is tried first; the result is the credentials of a user whose username (or, without a username, email) and password both match; such a user always logs in |
| Database.DataBase.GetForumStats | sqlalchemy_bd.py:497-509 | the four counts are the sizes of the four tables |
| Database.DataBase.CreateCategory | sqlalchemy_bd.py:89-102 | adds exactly one category with a fresh id and the next timestamp; nothing else changes; `get_category` then returns it when the author exists |
| Database.DataBase.UpdateCategory | sqlalchemy_bd.py:104-120 | False and no change for an absent id; otherwise only the given fields of that category change |
| Database.DataBase.DeleteCategory | sqlalchemy_bd.py:122-132 | always True; an absent id changes nothing; a present category goes with exactly its topics and their posts; the counts drop by those numbers; none of them can be looked up afterwards |
| Database.DataBase.RemoveCategoryTree | sqlalchemy_bd.py:39 | the cascade of a category delete: removes the category, its topics and their posts, and nothing else |
| Database.DataBase.CreateTopic | sqlalchemy_bd.py:175-189 | adds exactly one topic with a fresh id, newer than every other topic; nothing else changes; the foreign keys stay linked when the category exists |
| Database.DataBase.UpdateTopic | sqlalchemy_bd.py:191-207 | False and no change for an absent id; otherwise only the given fields of that topic change |
| Database.DataBase.DeleteTopic | sqlalchemy_bd.py:209-219 | always True; an absent id changes nothing; a present topic goes with exactly its posts, and categories and users are untouched |
| Database.DataBase.AddPost | sqlalchemy_bd.py:292-305 | adds exactly one post with a fresh id, newer than every other post; nothing else changes; the foreign keys stay linked when the topic exists |
| Database.DataBase.UpdatePost | sqlalchemy_bd.py:307-321 | False and no change for an absent id; otherwise only the content changes, and only when given |
| Database.DataBase.DeletePost | sqlalchemy_bd.py:323-333 | always True; removes exactly that post, if present |
| Database.DataBase.RegisterUser | sqlalchemy_bd.py:335-356 | refuses, with the "already exists" message and no change, exactly when some user has the username or the email; otherwise adds one non-admin user with a fresh id, who can then log in with that username and password when both are non-empty |
| Database.DataBase.InsertUser | sqlalchemy_bd.py:346-352 | the insert of `register_user`: exactly one new non-admin user with a fresh id and the next timestamp, the tables staying well formed; nothing else changes |
| Database.DataBase.UpdateUser | sqlalchemy_bd.py:374-392 | False for an absent id; a UNIQUE violation, with no change, when the new username or email belongs to another user; otherwise only the given fields change |
| Database.DataBase.DeleteUser | sqlalchemy_bd.py:394-404 | always True; removes the user row, if present |
| Database.DataBase.DeleteUserAdmin | sqlalchemy_bd.py:524-536 | True exactly when the user existed; removes the user row |
| Database.DataBase.UpdateUserAdminStatus | sqlalchemy_bd.py:511-522 | False and no change for an absent id; otherwise sets admin to 1 for a true status and 0 for a false one, changing nothing else |
| Database.DataBase.GetCategories | sqlalchemy_bd.py:134-153 | every category whose author exists, each exactly once, joined to the author's username, in name order |
| Database.DataBase.GetTopics | sqlalchemy_bd.py:244-268 | at most `limit` topics that have their author and category, in the given category unless it is None or 0, strictly newest first; a qualifying topic is left out only when the list is full of newer ones; Python's default limit is `DEFAULT_TOPICS_LIMIT` (10) |
| Database.DataBase.TopicRows | sqlalchemy_bd.py:256-268 | the `for ... append` loop: one joined row per selected topic, in the selected order |
| Database.DataBase.GetRecentPosts | sqlalchemy_bd.py:483-495 | raises exactly when one of the `limit` newest posts lacks its author or topic; otherwise at most `limit` posts, newest first, each with its preview (at most 103 characters), author and topic title, and a post left out only when the list is full of newer ones; Python's default limit is `DEFAULT_RECENT_POSTS_LIMIT` (20) |
| Database.DataBase.RecentRows | sqlalchemy_bd.py:486-495 | the loop over the selected posts: raises exactly when one of them lacks its author or topic, otherwise one entry per post, in order, with its preview, author and topic title |
| Database.DataBase.GetAllUsers | sqlalchemy_bd.py:435-449 | every user exactly once, with the number of topics and of posts it wrote |
| Database.DataBase.CategoryPostsCount | sqlalchemy_bd.py:457 | the sum of the post counts of a category's topics equals the number of posts under the category |
| Database.DataBase.GetAllCategoriesWithStats | sqlalchemy_bd.py:451-466 | raises exactly when some category's author is missing; otherwise every category exactly once, with its author, its number of topics and the number of posts in those topics |
| Database.DataBase.GetAllTopicsWithStats | sqlalchemy_bd.py:468-481 | raises exactly when some topic's author or category is missing; otherwise every topic exactly once, with its author, its category's name and its number of posts |

## Left out

- `init_app`, the configuration it reads, and `db.create_all` (sqlalchemy_bd.py:79-87) are database
  bootstrap I/O. The constructor starts from empty tables.
- Flask request handlers (`app3.py`, `test/app.py`) and `bd_app3.py` are not part of this model.
- Passwords are stored and compared as the strings the caller passes, as `login_user` and
  `register_user` do. The handlers that call this class pass the password from the form unchanged.
  Hashing appears only in a separate handler file that does not use this class.
- Real timestamps are replaced by the counter `clock`. Equal timestamps, which `datetime.utcnow`
  could produce, cannot occur in the model, so ties in `ORDER BY created_at` are not modelled.
- Exceptions raised by the ORM or SQLite, other than the UNIQUE violation of `update_user` and the
  missing-relationship reads, are not modelled. This includes lost connections and NOT NULL
  violations. So are the rollback-and-re-raise paths.
- Database.DataBase.RegisterUser: the `except` path is not modelled. That path would return
  `(None, "Ошибка регистрации: ...")` after a failed commit. The uniqueness check before the insert
  already rules out a UNIQUE failure.
- `None` for a NOT NULL column passed to a create (for example `create_topic(None, ...)`) would fail
  at commit. The model takes plain strings and ints for those parameters. `description` is
  nullable and is an `Option`.
- SQLite's optional foreign-key enforcement is not modelled, because this application never turns
  it on. `Linked()` holds as long as every create names an existing parent. The handlers do not
  check that: they pass the category or topic id taken from the URL.
- Database.DataBase.DeleteUser and Database.DataBase.DeleteUserAdmin model only the removal of the
  user row and leave the user's categories, topics and posts in place. The author relationships declare no cascade (sqlalchemy_bd.py:22-24). SQLAlchemy's
  default for such a relationship is to set the children's `user_id` to NULL when the parent is
  deleted. The `user_id` columns are NOT NULL (sqlalchemy_bd.py:33, 48, 64), so for a user who wrote
  anything the real call most likely fails at commit, rolls back and raises.
- Database.DataBase.GetTopics and Database.DataBase.GetRecentPosts take `limit` as a natural number.
  SQLite reads a negative LIMIT as "no limit", and that case is not modelled.
- Database.DataBase.GetAllUsers, Database.DataBase.GetAllCategoriesWithStats and
  Database.DataBase.GetAllTopicsWithStats do not state the order of their output. `query.all()`
  without ORDER BY has no order that SQL promises.
- Which row `filter_by(...).first()` returns among several matches does not arise. Usernames and
  emails are unique, so at most one user matches.
- The `__main__` block (sqlalchemy_bd.py:539-547) calls a method that does not exist and is not
  modelled.
- Integer ids are unbounded. SQLite's 64-bit rowid limit is not modelled.

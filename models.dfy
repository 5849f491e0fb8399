/** The four mapped tables of the forum schema and the relationships between them. */
module Models {
  import opened Wrappers
  import Sets

  /** A row of `users`. `admin` is an integer column whose default is 0. */
  datatype User = User(username: string, email: string, password: string, admin: int, createdAt: nat)

  /** A row of `categories`; `description` is the one nullable text column. */
  datatype Category = Category(userId: int, name: string, description: Option<string>, createdAt: nat)

  /** A row of `topics`. */
  datatype Topic = Topic(userId: int, categoryId: int, title: string, content: string, createdAt: nat)

  /** A row of `posts`. */
  datatype Post = Post(userId: int, topicId: int, content: string, createdAt: nat)

  /** Python truthiness of an optional string: neither `None` nor empty. */
  predicate Truthy(s: Option<string>) {
    s.Some? && s.value != ""
  }

  // ---------------------------------------------------------------------------
  // Relationships. A relationship is the set of child ids whose foreign key
  // holds the parent's id, which is what a lazy relationship load selects.
  // ---------------------------------------------------------------------------

  /** `category.topics`. */
  function TopicsOf(topics: map<int, Topic>, categoryId: int): (r: set<int>)
    ensures r <= topics.Keys
    ensures forall t :: t in topics ==> (t in r <==> topics[t].categoryId == categoryId)
  {
    set t | t in topics && topics[t].categoryId == categoryId
  }

  /** `topic.posts`. */
  function PostsOf(posts: map<int, Post>, topicId: int): (r: set<int>)
    ensures r <= posts.Keys
    ensures forall p :: p in posts ==> (p in r <==> posts[p].topicId == topicId)
  {
    set p | p in posts && posts[p].topicId == topicId
  }

  /** The posts that belong to any of the topics `topicIds`. */
  function PostsIn(posts: map<int, Post>, topicIds: set<int>): set<int> {
    set p | p in posts && posts[p].topicId in topicIds
  }

  /** The posts of every topic of a category: what the cascade reaches below a category. */
  function PostsUnder(topics: map<int, Topic>, posts: map<int, Post>, categoryId: int): set<int> {
    PostsIn(posts, TopicsOf(topics, categoryId))
  }

  /** Each post has one topic, so adding a topic adds exactly that topic's posts, and none twice. */
  lemma PostsInAddTopic(posts: map<int, Post>, topicIds: set<int>, t: int)
    requires t !in topicIds
    ensures PostsIn(posts, topicIds + {t}) == PostsIn(posts, topicIds) + PostsOf(posts, t)
    ensures PostsIn(posts, topicIds) !! PostsOf(posts, t)
    ensures |PostsIn(posts, topicIds + {t})| == |PostsIn(posts, topicIds)| + |PostsOf(posts, t)|
  {
    assert PostsIn(posts, topicIds + {t}) == PostsIn(posts, topicIds) + PostsOf(posts, t);
  }

  /** `user.topics`. */
  function TopicsBy(topics: map<int, Topic>, userId: int): (r: set<int>)
    ensures r <= topics.Keys
    ensures forall t :: t in topics ==> (t in r <==> topics[t].userId == userId)
  {
    set t | t in topics && topics[t].userId == userId
  }

  /** `user.posts`. */
  function PostsBy(posts: map<int, Post>, userId: int): (r: set<int>)
    ensures r <= posts.Keys
    ensures forall p :: p in posts ==> (p in r <==> posts[p].userId == userId)
  {
    set p | p in posts && posts[p].userId == userId
  }

  // ---------------------------------------------------------------------------
  // Well-formed tables: positive ids, every created_at below the clock, and,
  // where the source relies on it, created_at distinct and logins unique.
  // ---------------------------------------------------------------------------

  ghost predicate UsersWellFormed(users: map<int, User>, clock: nat) {
    && (forall u :: u in users ==> 0 < u && users[u].createdAt < clock)
    && (forall a, b :: a in users && b in users && a != b ==>
          users[a].username != users[b].username && users[a].email != users[b].email)
  }

  ghost predicate CategoriesWellFormed(categories: map<int, Category>, clock: nat) {
    forall c :: c in categories ==> 0 < c && categories[c].createdAt < clock
  }

  ghost predicate TopicsWellFormed(topics: map<int, Topic>, clock: nat) {
    && (forall t :: t in topics ==> 0 < t && topics[t].createdAt < clock)
    && (forall a, b :: a in topics && b in topics && a != b ==> topics[a].createdAt != topics[b].createdAt)
  }

  ghost predicate PostsWellFormed(posts: map<int, Post>, clock: nat) {
    && (forall p :: p in posts ==> 0 < p && posts[p].createdAt < clock)
    && (forall a, b :: a in posts && b in posts && a != b ==> posts[a].createdAt != posts[b].createdAt)
  }

  /** The foreign keys the cascades follow hold: every topic's category and every post's topic exist. */
  ghost predicate Linked(categories: map<int, Category>, topics: map<int, Topic>, posts: map<int, Post>) {
    && (forall t :: t in topics ==> topics[t].categoryId in categories)
    && (forall p :: p in posts ==> posts[p].topicId in topics)
  }

  /** Deleting a category with its topics and their posts keeps the tables well formed and linked. */
  lemma CategoryCascadeKeeps(categories: map<int, Category>, topics: map<int, Topic>, posts: map<int, Post>, clock: nat, id: int)
    requires CategoriesWellFormed(categories, clock) && TopicsWellFormed(topics, clock) && PostsWellFormed(posts, clock)
    ensures CategoriesWellFormed(categories - {id}, clock)
    ensures TopicsWellFormed(topics - TopicsOf(topics, id), clock)
    ensures PostsWellFormed(posts - PostsUnder(topics, posts, id), clock)
    ensures Linked(categories, topics, posts) ==>
      Linked(categories - {id}, topics - TopicsOf(topics, id), posts - PostsUnder(topics, posts, id))
  {
  }

  /** The row counts after a category cascade. */
  lemma CategoryCascadeCounts(categories: map<int, Category>, topics: map<int, Topic>, posts: map<int, Post>, id: int)
    requires id in categories
    ensures |categories - {id}| == |categories| - 1
    ensures |topics - TopicsOf(topics, id)| == |topics| - |TopicsOf(topics, id)|
    ensures |posts - PostsUnder(topics, posts, id)| == |posts| - |PostsUnder(topics, posts, id)|
  {
    Sets.MapMinusCard(categories, {id});
    Sets.MapMinusCard(topics, TopicsOf(topics, id));
    Sets.MapMinusCard(posts, PostsUnder(topics, posts, id));
  }

  /** Deleting a topic with its posts keeps the tables well formed and linked. */
  lemma TopicCascadeKeeps(categories: map<int, Category>, topics: map<int, Topic>, posts: map<int, Post>, clock: nat, id: int)
    requires TopicsWellFormed(topics, clock) && PostsWellFormed(posts, clock)
    ensures TopicsWellFormed(topics - {id}, clock)
    ensures PostsWellFormed(posts - PostsOf(posts, id), clock)
    ensures Linked(categories, topics, posts) ==> Linked(categories, topics - {id}, posts - PostsOf(posts, id))
  {
  }

  /** Advancing the clock keeps every table well formed. */
  lemma ClockTick(users: map<int, User>, categories: map<int, Category>, topics: map<int, Topic>, posts: map<int, Post>, clock: nat)
    requires UsersWellFormed(users, clock) && CategoriesWellFormed(categories, clock)
    requires TopicsWellFormed(topics, clock) && PostsWellFormed(posts, clock)
    ensures UsersWellFormed(users, clock + 1) && CategoriesWellFormed(categories, clock + 1)
    ensures TopicsWellFormed(topics, clock + 1) && PostsWellFormed(posts, clock + 1)
  {
  }

  /** Inserting a user stamped with the clock whose username and email are new keeps the users table well formed. */
  lemma InsertUserKeeps(users: map<int, User>, clock: nat, id: int, u: User)
    requires UsersWellFormed(users, clock) && 0 < id && id !in users && u.createdAt == clock
    requires forall v :: v in users ==> users[v].username != u.username && users[v].email != u.email
    ensures UsersWellFormed(users[id := u], clock + 1)
  {
  }

  /** Inserting a category stamped with the clock keeps the table well formed and the keys linked. */
  lemma InsertCategoryKeeps(categories: map<int, Category>, topics: map<int, Topic>, posts: map<int, Post>,
                            clock: nat, id: int, c: Category)
    requires CategoriesWellFormed(categories, clock) && 0 < id && c.createdAt == clock
    ensures CategoriesWellFormed(categories[id := c], clock + 1)
    ensures Linked(categories, topics, posts) ==> Linked(categories[id := c], topics, posts)
  {
  }

  /**
   * Inserting a topic stamped with the clock keeps the table well formed, and
   * keeps the keys linked when its category exists.
   */
  lemma InsertTopicKeeps(categories: map<int, Category>, topics: map<int, Topic>, posts: map<int, Post>,
                         clock: nat, id: int, t: Topic)
    requires TopicsWellFormed(topics, clock) && 0 < id && id !in topics && t.createdAt == clock
    ensures TopicsWellFormed(topics[id := t], clock + 1)
    ensures forall q :: q in topics ==> topics[q].createdAt < t.createdAt
    ensures Linked(categories, topics, posts) && t.categoryId in categories ==> Linked(categories, topics[id := t], posts)
  {
  }

  /**
   * Inserting a post stamped with the clock keeps the table well formed, and
   * keeps the keys linked when its topic exists.
   */
  lemma InsertPostKeeps(categories: map<int, Category>, topics: map<int, Topic>, posts: map<int, Post>,
                        clock: nat, id: int, p: Post)
    requires PostsWellFormed(posts, clock) && 0 < id && id !in posts && p.createdAt == clock
    ensures PostsWellFormed(posts[id := p], clock + 1)
    ensures forall q :: q in posts ==> posts[q].createdAt < p.createdAt
    ensures Linked(categories, topics, posts) && p.topicId in topics ==> Linked(categories, topics, posts[id := p])
  {
  }

  /** The row counts after a topic cascade. */
  lemma TopicCascadeCounts(topics: map<int, Topic>, posts: map<int, Post>, id: int)
    requires id in topics
    ensures |topics - {id}| == |topics| - 1
    ensures |posts - PostsOf(posts, id)| == |posts| - |PostsOf(posts, id)|
  {
    Sets.MapMinusCard(topics, {id});
    Sets.MapMinusCard(posts, PostsOf(posts, id));
  }

  /**
   * The id SQLite gives a new row of a table whose key is an INTEGER PRIMARY
   * KEY: one more than the largest id in the table, or 1 when it is empty.
   */
  method NextRowId<T>(table: map<int, T>) returns (id: int)
    requires forall k :: k in table ==> 0 < k
    ensures 0 < id && id !in table
    ensures forall k :: k in table ==> k < id
    ensures if table.Keys == {} then id == 1 else id - 1 in table
  {
    var largest := 0;
    var todo := table.Keys;
    while todo != {}
      invariant todo <= table.Keys
      invariant forall k :: k in table && k !in todo ==> k <= largest
      invariant largest == 0 || largest in table
      decreases todo
    {
      ghost var some := Sets.Member(todo);
      var k :| k in todo;
      if k > largest {
        largest := k;
      }
      todo := todo - {k};
    }
    if table.Keys != {} {
      ghost var k := Sets.Member(table.Keys);
      assert 0 < k <= largest;
    }
    id := largest + 1;
  }

  // ---------------------------------------------------------------------------
  // `User.query.filter_by(...)` conditions.
  // ---------------------------------------------------------------------------

  datatype UserFilter =
    | ByUsername(username: string)
    | ByUsernamePassword(username: string, password: string)
    | ByEmailPassword(email: string, password: string)

  predicate Matches(u: User, f: UserFilter) {
    match f
    case ByUsername(n) => u.username == n
    case ByUsernamePassword(n, p) => u.username == n && u.password == p
    case ByEmailPassword(e, p) => u.email == e && u.password == p
  }
}

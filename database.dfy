/**
 * The `DataBase` data-access class: create, update, delete and query
 * operations over the users, categories, topics and posts tables.
 *
 * The tables are maps from id to row. `clock` stands for `datetime.utcnow`:
 * each insert stamps the new row with the clock and advances it, so a row
 * inserted later is always newer.
 */
module Database {
  import opened Wrappers
  import opened Models
  import opened Rows
  import Ordering
  import Sets

  /** The messages `register_user` returns. */
  const REGISTERED: string := "Регистрация успешна"
  const ALREADY_REGISTERED: string := "Пользователь с таким именем или email уже существует"

  /** The `limit` that `get_topics` uses when the caller gives none. */
  const DEFAULT_TOPICS_LIMIT: nat := 10

  /** The `limit` that `get_recent_posts` uses when the caller gives none. */
  const DEFAULT_RECENT_POSTS_LIMIT: nat := 20

  /** Characters of a post kept by `get_recent_posts` before the ellipsis. */
  const PREVIEW_LENGTH: nat := 100

  /** The preview `get_recent_posts` shows: long content is cut to 100 characters and marked with "...". */
  function Preview(content: string): (p: string)
    ensures |p| <= PREVIEW_LENGTH + 3
    ensures |content| <= PREVIEW_LENGTH ==> p == content
    ensures |content| > PREVIEW_LENGTH ==>
      |p| == PREVIEW_LENGTH + 3 && p[..PREVIEW_LENGTH] == content[..PREVIEW_LENGTH] && p[PREVIEW_LENGTH..] == "..."
  {
    if |content| > PREVIEW_LENGTH then content[..PREVIEW_LENGTH] + "..." else content
  }

  class DataBase {
    var users: map<int, User>
    var categories: map<int, Category>
    var topics: map<int, Topic>
    var posts: map<int, Post>
    var clock: nat

    /** What every operation keeps: well-formed tables, unique usernames and emails. */
    ghost predicate Valid()
      reads this
    {
      && UsersWellFormed(users, clock)
      && CategoriesWellFormed(categories, clock)
      && TopicsWellFormed(topics, clock)
      && PostsWellFormed(posts, clock)
    }

    /**
     * The foreign keys the schema declares for the cascade hold: every topic's
     * category and every post's topic exist. SQLite does not enforce them, so
     * this holds as long as callers create children of existing parents only.
     */
    ghost predicate Linked()
      reads this
    {
      Models.Linked(categories, topics, posts)
    }

    /** A store with empty tables. */
    constructor ()
      ensures Valid() && Linked()
      ensures users == map[] && categories == map[] && topics == map[] && posts == map[]
    {
      users, categories, topics, posts := map[], map[], map[], map[];
      clock := 0;
    }

    // -------------------------------------------------------------------------
    // What a joined row holds
    // -------------------------------------------------------------------------

    /** `r` is category `r.id` joined to its author. */
    ghost predicate IsCategoryRow(r: CategoryRow)
      reads this
    {
      r.id in categories && categories[r.id].userId in users && r == CategoryRowAt(r.id)
    }

    function CategoryRowAt(id: int): (r: CategoryRow)
      reads this
      requires id in categories && categories[id].userId in users
    {
      var c := categories[id];
      CategoryRow(id, c.userId, c.name, c.description, c.createdAt, users[c.userId].username)
    }

    /** `r` is topic `r.id` joined to its author and its category. */
    ghost predicate IsTopicRow(r: TopicRow)
      reads this
    {
      && r.id in topics && topics[r.id].userId in users && topics[r.id].categoryId in categories
      && r == TopicRowAt(r.id)
    }

    function TopicRowAt(id: int): (r: TopicRow)
      reads this
      requires id in topics && topics[id].userId in users && topics[id].categoryId in categories
    {
      var t := topics[id];
      TopicRow(id, t.userId, t.categoryId, t.title, t.content, t.createdAt,
               users[t.userId].username, categories[t.categoryId].name)
    }

    /** `r` is post `r.id` joined to its author and its topic. */
    ghost predicate IsPostRow(r: PostRow)
      reads this
    {
      r.id in posts && posts[r.id].userId in users && posts[r.id].topicId in topics && r == PostRowAt(r.id)
    }

    function PostRowAt(id: int): (r: PostRow)
      reads this
      requires id in posts && posts[id].userId in users && posts[id].topicId in topics
    {
      var p := posts[id];
      PostRow(id, p.userId, p.topicId, p.content, p.createdAt, users[p.userId].username, topics[p.topicId].title)
    }

    /** `r` is user `r.id`. */
    ghost predicate IsUserRecord(r: UserRecord)
      reads this
    {
      r.id in users && r == UserRecordAt(r.id)
    }

    function UserRecordAt(id: int): (r: UserRecord)
      reads this
      requires id in users
    {
      var u := users[id];
      UserRecord(id, u.username, u.email, u.password, u.admin, u.createdAt)
    }

    // -------------------------------------------------------------------------
    // Single-row lookups
    // -------------------------------------------------------------------------

    /** `get_category`: the category joined to its author, or None when either is missing. */
    function GetCategory(id: int): (r: Option<CategoryRow>)
      reads this
      ensures r.Some? <==> id in categories && categories[id].userId in users
      ensures r.Some? ==> r.value.id == id && IsCategoryRow(r.value)
    {
      if id in categories && categories[id].userId in users then Some(CategoryRowAt(id)) else None
    }

    /** `get_topic`: the topic joined to its author and category, or None when any of them is missing. */
    function GetTopic(id: int): (r: Option<TopicRow>)
      reads this
      ensures r.Some? <==> id in topics && topics[id].userId in users && topics[id].categoryId in categories
      ensures r.Some? ==> r.value.id == id && IsTopicRow(r.value)
    {
      if id in topics && topics[id].userId in users && topics[id].categoryId in categories
      then Some(TopicRowAt(id)) else None
    }

    /** `get_post`: the post joined to its author and topic, or None when any of them is missing. */
    function GetPost(id: int): (r: Option<PostRow>)
      reads this
      ensures r.Some? <==> id in posts && posts[id].userId in users && posts[id].topicId in topics
      ensures r.Some? ==> r.value.id == id && IsPostRow(r.value)
    {
      if id in posts && posts[id].userId in users && posts[id].topicId in topics then Some(PostRowAt(id)) else None
    }

    /** `get_user_by_id`. */
    function GetUserById(id: int): (r: Option<UserRecord>)
      reads this
      ensures r.Some? <==> id in users
      ensures r.Some? ==> r.value.id == id && IsUserRecord(r.value)
    {
      if id in users then Some(UserRecordAt(id)) else None
    }

    /** `User.query.filter_by(...).first()`: the one user the filter selects, if any. */
    function FindUser(f: UserFilter): (r: Option<int>)
      reads this
      requires Valid()
      ensures r.Some? ==> r.value in users && Matches(users[r.value], f)
      ensures r.None? ==> forall u :: u in users ==> !Matches(users[u], f)
    {
      if exists u :: u in users && Matches(users[u], f) then
        var u :| u in users && Matches(users[u], f);
        Some(u)
      else None
    }

    /** `get_user_by_username`. */
    function GetUserByUsername(username: string): (r: Option<UserRecord>)
      reads this
      requires Valid()
      ensures r.Some? <==> exists u :: u in users && users[u].username == username
      ensures r.Some? ==> r.value.username == username && IsUserRecord(r.value)
    {
      match FindUser(ByUsername(username))
      case Some(u) => Some(UserRecordAt(u))
      case None => None
    }

    /**
     * `login_user`: with a password and a username, the user with both;
     * otherwise with a password and an email, the user with both; otherwise
     * nobody. A missing or empty argument counts as not given.
     */
    function LoginUser(username: Option<string>, email: Option<string>, password: Option<string>): (r: Option<Credentials>)
      reads this
      requires Valid()
      ensures r.Some? ==> Truthy(password) && (Truthy(username) || Truthy(email))
      ensures r.Some? ==>
        && r.value.id in users
        && var u := users[r.value.id];
        && r.value == Credentials(r.value.id, u.username, u.email, u.password)
        && u.password == password.value
        && (if Truthy(username) then u.username == username.value else u.email == email.value)
      ensures Truthy(username) && Truthy(password) &&
        (exists u :: u in users && users[u].username == username.value && users[u].password == password.value)
        ==> r.Some?
      ensures !Truthy(username) && Truthy(email) && Truthy(password) &&
        (exists u :: u in users && users[u].email == email.value && users[u].password == password.value)
        ==> r.Some?
    {
      var found :=
        if Truthy(username) && Truthy(password) then FindUser(ByUsernamePassword(username.value, password.value))
        else if Truthy(email) && Truthy(password) then FindUser(ByEmailPassword(email.value, password.value))
        else None;
      match found
      case Some(u) => Some(Credentials(u, users[u].username, users[u].email, users[u].password))
      case None => None
    }

    /** `get_forum_stats`: the number of rows of each table. */
    function GetForumStats(): (r: ForumStats)
      reads this
      ensures r.usersCount == |users| && r.categoriesCount == |categories|
      ensures r.topicsCount == |topics| && r.postsCount == |posts|
    {
      ForumStats(|users|, |categories|, |topics|, |posts|)
    }

    // -------------------------------------------------------------------------
    // Categories
    // -------------------------------------------------------------------------

    /** `create_category`: inserts a category stamped with the clock and returns its new id. */
    method CreateCategory(name: string, description: Option<string>, userId: int) returns (id: int)
      requires Valid()
      modifies this
      ensures Valid()
      ensures id !in old(categories) && forall c :: c in old(categories) ==> c < id
      ensures if old(categories).Keys == {} then id == 1 else id - 1 in old(categories)
      ensures categories == old(categories)[id := Category(userId, name, description, old(clock))]
      ensures users == old(users) && topics == old(topics) && posts == old(posts)
      ensures clock == old(clock) + 1
      ensures GetForumStats() == old(GetForumStats()).(categoriesCount := |old(categories)| + 1)
      ensures userId in users ==> GetCategory(id) == Some(CategoryRow(id, userId, name, description, old(clock), users[userId].username))
      ensures old(Linked()) ==> Linked()
    {
      id := NextRowId(categories);
      var row := Category(userId, name, description, clock);
      InsertCategoryKeeps(categories, topics, posts, clock, id, row);
      ClockTick(users, categories, topics, posts, clock);
      categories, clock := categories[id := row], clock + 1;
    }

    /**
     * `update_category`: False and no change for an absent id; otherwise sets
     * each given field, keeps the others, and returns True.
     */
    method UpdateCategory(id: int, name: Option<string>, description: Option<string>) returns (ok: bool)
      requires Valid()
      modifies this
      ensures Valid()
      ensures ok <==> id in old(categories)
      ensures !ok ==> unchanged(this)
      ensures ok ==> categories == old(categories)[id := old(categories)[id].(
        name := name.GetOr(old(categories)[id].name),
        description := if description.Some? then description else old(categories)[id].description)]
      ensures users == old(users) && topics == old(topics) && posts == old(posts) && clock == old(clock)
      ensures old(Linked()) ==> Linked()
    {
      if id !in categories {
        return false;
      }
      var c := categories[id];
      if name.Some? {
        c := c.(name := name.value);
      }
      if description.Some? {
        c := c.(description := Some(description.value));
      }
      categories := categories[id := c];
      ok := true;
    }

    /**
     * `delete_category`: always True. A present category goes together with
     * its topics and their posts (the `all, delete-orphan` cascades of
     * Category.topics and Topic.posts); an absent id changes nothing.
     */
    method DeleteCategory(id: int) returns (ok: bool)
      requires Valid()
      modifies this
      ensures Valid()
      ensures ok
      ensures id !in old(categories) ==> unchanged(this)
      ensures id in old(categories) ==>
        && categories == old(categories) - {id}
        && topics == old(topics) - TopicsOf(old(topics), id)
        && posts == old(posts) - PostsUnder(old(topics), old(posts), id)
      ensures users == old(users) && clock == old(clock)
      ensures id in old(categories) ==> GetForumStats() == old(GetForumStats()).(
        categoriesCount := |old(categories)| - 1,
        topicsCount := |old(topics)| - |TopicsOf(old(topics), id)|,
        postsCount := |old(posts)| - |PostsUnder(old(topics), old(posts), id)|)
      ensures GetCategory(id) == None
      ensures forall t :: t in old(topics) && old(topics)[t].categoryId == id && id in old(categories) ==> GetTopic(t) == None
      ensures forall p :: p in PostsUnder(old(topics), old(posts), id) && id in old(categories) ==> GetPost(p) == None
      ensures old(Linked()) ==> Linked()
    {
      if id in categories {
        CategoryCascadeCounts(categories, topics, posts, id);
        RemoveCategoryTree(id);
      }
      ok := true;
    }

    /** The flush of `db.session.delete(category)`: the category, its topics and their posts go. */
    method RemoveCategoryTree(id: int)
      requires Valid() && id in categories
      modifies this
      ensures Valid()
      ensures categories == old(categories) - {id}
      ensures topics == old(topics) - TopicsOf(old(topics), id)
      ensures posts == old(posts) - PostsUnder(old(topics), old(posts), id)
      ensures users == old(users) && clock == old(clock)
      ensures old(Linked()) ==> Linked()
    {
      var doomed := TopicsOf(topics, id);
      var doomedPosts := PostsUnder(topics, posts, id);
      categories, topics, posts := categories - {id}, topics - doomed, posts - doomedPosts;
      assert Valid() && (old(Linked()) ==> Linked()) by {
        CategoryCascadeKeeps(old(categories), old(topics), old(posts), clock, id);
      }
    }

    // -------------------------------------------------------------------------
    // Topics
    // -------------------------------------------------------------------------

    /** `create_topic`: inserts a topic stamped with the clock and returns its new id. */
    method CreateTopic(title: string, content: string, userId: int, categoryId: int) returns (id: int)
      requires Valid()
      modifies this
      ensures Valid()
      ensures id !in old(topics) && forall t :: t in old(topics) ==> t < id
      ensures if old(topics).Keys == {} then id == 1 else id - 1 in old(topics)
      ensures topics == old(topics)[id := Topic(userId, categoryId, title, content, old(clock))]
      ensures users == old(users) && categories == old(categories) && posts == old(posts)
      ensures clock == old(clock) + 1
      ensures forall t :: t in old(topics) ==> topics[t].createdAt < topics[id].createdAt
      ensures GetForumStats() == old(GetForumStats()).(topicsCount := |old(topics)| + 1)
      ensures old(Linked()) && categoryId in categories ==> Linked()
    {
      id := NextRowId(topics);
      var row := Topic(userId, categoryId, title, content, clock);
      InsertTopicKeeps(categories, topics, posts, clock, id, row);
      ClockTick(users, categories, topics, posts, clock);
      topics, clock := topics[id := row], clock + 1;
    }

    /**
     * `update_topic`: False and no change for an absent id; otherwise sets
     * each given field, keeps the others, and returns True.
     */
    method UpdateTopic(id: int, title: Option<string>, content: Option<string>) returns (ok: bool)
      requires Valid()
      modifies this
      ensures Valid()
      ensures ok <==> id in old(topics)
      ensures !ok ==> unchanged(this)
      ensures ok ==> topics == old(topics)[id := old(topics)[id].(
        title := title.GetOr(old(topics)[id].title),
        content := content.GetOr(old(topics)[id].content))]
      ensures users == old(users) && categories == old(categories) && posts == old(posts) && clock == old(clock)
      ensures old(Linked()) ==> Linked()
    {
      if id !in topics {
        return false;
      }
      var t := topics[id];
      if title.Some? {
        t := t.(title := title.value);
      }
      if content.Some? {
        t := t.(content := content.value);
      }
      topics := topics[id := t];
      ok := true;
    }

    /**
     * `delete_topic`: always True. A present topic goes together with exactly
     * its posts (the cascade of Topic.posts); an absent id changes nothing.
     */
    method DeleteTopic(id: int) returns (ok: bool)
      requires Valid()
      modifies this
      ensures Valid()
      ensures ok
      ensures id !in old(topics) ==> unchanged(this)
      ensures id in old(topics) ==> topics == old(topics) - {id} && posts == old(posts) - PostsOf(old(posts), id)
      ensures users == old(users) && categories == old(categories) && clock == old(clock)
      ensures id in old(topics) ==> GetForumStats() == old(GetForumStats()).(
        topicsCount := |old(topics)| - 1,
        postsCount := |old(posts)| - |PostsOf(old(posts), id)|)
      ensures GetTopic(id) == None
      ensures forall p :: p in PostsOf(old(posts), id) && id in old(topics) ==> GetPost(p) == None
      ensures old(Linked()) ==> Linked()
    {
      if id in topics {
        TopicCascadeCounts(topics, posts, id);
        var doomedPosts := PostsOf(posts, id);
        topics, posts := topics - {id}, posts - doomedPosts;
        assert Valid() && (old(Linked()) ==> Linked()) by {
          TopicCascadeKeeps(old(categories), old(topics), old(posts), clock, id);
        }
      }
      ok := true;
    }

    // -------------------------------------------------------------------------
    // Posts
    // -------------------------------------------------------------------------

    /** `add_post`: inserts a post stamped with the clock and returns its new id. */
    method AddPost(content: string, userId: int, topicId: int) returns (id: int)
      requires Valid()
      modifies this
      ensures Valid()
      ensures id !in old(posts) && forall p :: p in old(posts) ==> p < id
      ensures if old(posts).Keys == {} then id == 1 else id - 1 in old(posts)
      ensures posts == old(posts)[id := Post(userId, topicId, content, old(clock))]
      ensures users == old(users) && categories == old(categories) && topics == old(topics)
      ensures clock == old(clock) + 1
      ensures forall p :: p in old(posts) ==> posts[p].createdAt < posts[id].createdAt
      ensures GetForumStats() == old(GetForumStats()).(postsCount := |old(posts)| + 1)
      ensures old(Linked()) && topicId in topics ==> Linked()
    {
      id := NextRowId(posts);
      var row := Post(userId, topicId, content, clock);
      InsertPostKeeps(categories, topics, posts, clock, id, row);
      ClockTick(users, categories, topics, posts, clock);
      posts, clock := posts[id := row], clock + 1;
    }

    /** `update_post`: False and no change for an absent id; otherwise sets the content if given and returns True. */
    method UpdatePost(id: int, content: Option<string>) returns (ok: bool)
      requires Valid()
      modifies this
      ensures Valid()
      ensures ok <==> id in old(posts)
      ensures !ok ==> unchanged(this)
      ensures ok ==> posts == old(posts)[id := old(posts)[id].(content := content.GetOr(old(posts)[id].content))]
      ensures users == old(users) && categories == old(categories) && topics == old(topics) && clock == old(clock)
      ensures old(Linked()) ==> Linked()
    {
      if id !in posts {
        return false;
      }
      var p := posts[id];
      if content.Some? {
        p := p.(content := content.value);
      }
      posts := posts[id := p];
      ok := true;
    }

    /** `delete_post`: always True; removes the post when present. */
    method DeletePost(id: int) returns (ok: bool)
      requires Valid()
      modifies this
      ensures Valid()
      ensures ok
      ensures posts == old(posts) - {id}
      ensures users == old(users) && categories == old(categories) && topics == old(topics) && clock == old(clock)
      ensures GetForumStats() == old(GetForumStats()).(postsCount := if id in old(posts) then |old(posts)| - 1 else |old(posts)|)
      ensures GetPost(id) == None
      ensures old(Linked()) ==> Linked()
    {
      if id in posts {
        Sets.MapMinusCard(posts, {id});
        posts := posts - {id};
      }
      ok := true;
    }

    // -------------------------------------------------------------------------
    // Users
    // -------------------------------------------------------------------------

    /**
     * `register_user`: refuses, with a message and no change, when some user
     * already has the username or the email; otherwise inserts the user (not
     * an admin) and returns its new id.
     */
    method RegisterUser(username: string, email: string, password: string) returns (id: Option<int>, message: string)
      requires Valid()
      modifies this
      ensures Valid()
      ensures id.None? <==> exists u :: u in old(users) && (old(users)[u].username == username || old(users)[u].email == email)
      ensures id.None? ==> message == ALREADY_REGISTERED && unchanged(this)
      ensures id.Some? ==>
        && message == REGISTERED
        && id.value !in old(users) && (forall u :: u in old(users) ==> u < id.value)
        && users == old(users)[id.value := User(username, email, password, 0, old(clock))]
        && clock == old(clock) + 1
      ensures categories == old(categories) && topics == old(topics) && posts == old(posts)
      ensures id.Some? && username != "" && password != "" ==>
        LoginUser(Some(username), None, Some(password)) == Some(Credentials(id.value, username, email, password))
      ensures id.Some? ==> GetForumStats() == old(GetForumStats()).(usersCount := |old(users)| + 1)
      ensures old(Linked()) ==> Linked()
    {
      if exists u :: u in users && (users[u].username == username || users[u].email == email) {
        return None, ALREADY_REGISTERED;
      }
      var newId := InsertUser(username, email, password);
      id, message := Some(newId), REGISTERED;
      assert Matches(users[newId], ByUsernamePassword(username, password));
      assert forall v :: v in users && v != newId ==> users[v].username != username;
    }

    /** The insert and commit of `register_user`, for a username and an email no user has. */
    method InsertUser(username: string, email: string, password: string) returns (id: int)
      requires Valid()
      requires forall u :: u in users ==> users[u].username != username && users[u].email != email
      modifies this
      ensures Valid()
      ensures id !in old(users) && forall u :: u in old(users) ==> u < id
      ensures users == old(users)[id := User(username, email, password, 0, old(clock))]
      ensures clock == old(clock) + 1
      ensures categories == old(categories) && topics == old(topics) && posts == old(posts)
    {
      id := NextRowId(users);
      var row := User(username, email, password, 0, clock);
      InsertUserKeeps(users, clock, id, row);
      ClockTick(users, categories, topics, posts, clock);
      users, clock := users[id := row], clock + 1;
    }

    /**
     * `update_user`: False and no change for an absent id. Otherwise the given
     * fields replace the old ones; when that would give the user another
     * user's username or email, the UNIQUE constraint fails, the write is
     * rolled back and the error is raised.
     */
    method UpdateUser(id: int, username: Option<string>, email: Option<string>, password: Option<string>)
      returns (r: Result<bool>)
      requires Valid()
      modifies this
      ensures Valid()
      ensures id !in old(users) ==> r == Ok(false)
      ensures r != Ok(true) ==> unchanged(this)
      ensures id in old(users) ==>
        var u := old(users)[id];
        var updated := u.(username := username.GetOr(u.username), email := email.GetOr(u.email),
                          password := password.GetOr(u.password));
        if exists v :: v in old(users) && v != id &&
             (old(users)[v].username == updated.username || old(users)[v].email == updated.email)
        then r == Raised(UniqueViolation)
        else r == Ok(true) && users == old(users)[id := updated]
      ensures categories == old(categories) && topics == old(topics) && posts == old(posts) && clock == old(clock)
      ensures old(Linked()) ==> Linked()
    {
      if id !in users {
        return Ok(false);
      }
      var u := users[id];
      if username.Some? {
        u := u.(username := username.value);
      }
      if email.Some? {
        u := u.(email := email.value);
      }
      if password.Some? {
        u := u.(password := password.value);
      }
      if exists v :: v in users && v != id && (users[v].username == u.username || users[v].email == u.email) {
        return Raised(UniqueViolation);
      }
      users := users[id := u];
      r := Ok(true);
    }

    /** `delete_user`: always True; removes the user row when present. */
    method DeleteUser(id: int) returns (ok: bool)
      requires Valid()
      modifies this
      ensures Valid()
      ensures ok
      ensures users == old(users) - {id}
      ensures categories == old(categories) && topics == old(topics) && posts == old(posts) && clock == old(clock)
      ensures GetUserById(id) == None
      ensures old(Linked()) ==> Linked()
    {
      users := users - {id};
      ok := true;
    }

    /** `delete_user_admin`: True after removing a present user, False for an absent id. */
    method DeleteUserAdmin(id: int) returns (ok: bool)
      requires Valid()
      modifies this
      ensures Valid()
      ensures ok <==> id in old(users)
      ensures users == old(users) - {id}
      ensures categories == old(categories) && topics == old(topics) && posts == old(posts) && clock == old(clock)
      ensures old(Linked()) ==> Linked()
    {
      if id !in users {
        return false;
      }
      users := users - {id};
      ok := true;
    }

    /** `update_user_admin_status`: sets the admin column to 1 or 0 and returns True, or False for an absent id. */
    method UpdateUserAdminStatus(id: int, adminStatus: bool) returns (ok: bool)
      requires Valid()
      modifies this
      ensures Valid()
      ensures ok <==> id in old(users)
      ensures !ok ==> unchanged(this)
      ensures ok ==> users == old(users)[id := old(users)[id].(admin := if adminStatus then 1 else 0)]
      ensures categories == old(categories) && topics == old(topics) && posts == old(posts) && clock == old(clock)
      ensures ok ==> GetUserById(id).value.admin == (if adminStatus then 1 else 0)
      ensures old(Linked()) ==> Linked()
    {
      if id !in users {
        return false;
      }
      users := users[id := users[id].(admin := if adminStatus then 1 else 0)];
      ok := true;
    }

    // -------------------------------------------------------------------------
    // Lists and statistics
    // -------------------------------------------------------------------------

    /** `get_categories`: every category that has its author, each once, in name order. */
    method GetCategories() returns (rows: seq<CategoryRow>)
      ensures forall i :: 0 <= i < |rows| ==> IsCategoryRow(rows[i])
      ensures forall c :: c in categories && categories[c].userId in users ==>
        exists i :: 0 <= i < |rows| && rows[i].id == c
      ensures forall i, j :: 0 <= i < j < |rows| ==> rows[i].id != rows[j].id
      ensures forall i, j :: 0 <= i < j < |rows| ==> Ordering.LexLe(rows[i].name, rows[j].name)
    {
      var joined := set c | c in categories && categories[c].userId in users;
      var table := categories;
      var name := (c: int) => if c in table then table[c].name else "";
      var ids := Ordering.SortByName(joined, name);
      rows := [];
      var i := 0;
      while i < |ids|
        invariant 0 <= i <= |ids|
        invariant |rows| == i
        invariant forall j :: 0 <= j < i ==> rows[j] == CategoryRowAt(ids[j])
      {
        rows := rows + [CategoryRowAt(ids[i])];
        i := i + 1;
      }
      forall c | c in categories && categories[c].userId in users
        ensures exists i :: 0 <= i < |rows| && rows[i].id == c
      {
        assert c in joined;
        assert c in ids;
        var i :| 0 <= i < |ids| && ids[i] == c;
        assert rows[i].id == c;
      }
      forall i, j | 0 <= i < j < |rows| ensures Ordering.LexLe(rows[i].name, rows[j].name) {
        Ordering.ByNameEverywhere(ids, name, i, j);
      }
    }

    /** The topics `get_topics` may list: those with author and category, in the requested category if one is given. */
    predicate TopicListed(t: int, categoryId: Option<int>)
      reads this
    {
      && t in topics && topics[t].userId in users && topics[t].categoryId in categories
      && (categoryId.Some? && categoryId.value != 0 ==> topics[t].categoryId == categoryId.value)
    }

    /**
     * `get_topics`: at most `limit` listed topics, newest first; a listed
     * topic is missing only when the list is full of newer ones. A category
     * id of None or 0 lists every category. Python's defaults are
     * `categoryId` None and `limit` DEFAULT_TOPICS_LIMIT.
     */
    method GetTopics(categoryId: Option<int>, limit: nat) returns (rows: seq<TopicRow>)
      requires Valid()
      ensures |rows| <= limit
      ensures forall i :: 0 <= i < |rows| ==> IsTopicRow(rows[i]) && TopicListed(rows[i].id, categoryId)
      ensures forall i, j :: 0 <= i < j < |rows| ==> rows[i].createdAt > rows[j].createdAt
      ensures forall t :: TopicListed(t, categoryId) && (forall i :: 0 <= i < |rows| ==> rows[i].id != t) ==>
        |rows| == limit && forall i :: 0 <= i < |rows| ==> rows[i].createdAt > topics[t].createdAt
    {
      var listed := set t | t in topics && TopicListed(t, categoryId);
      var table := topics;
      var stamp := (t: int) => if t in table then table[t].createdAt else 0;
      var ids := Ordering.SelectNewest(listed, stamp, limit);
      rows := TopicRows(ids);
      forall t | TopicListed(t, categoryId) && (forall i :: 0 <= i < |rows| ==> rows[i].id != t)
        ensures |rows| == limit && forall i :: 0 <= i < |rows| ==> rows[i].createdAt > topics[t].createdAt
      {
        assert t in listed;
        assert forall i :: 0 <= i < |ids| ==> ids[i] == rows[i].id;
        assert t !in ids;
      }
    }

    /** The joined rows of the topics `ids`, in that order. */
    method TopicRows(ids: seq<int>) returns (rows: seq<TopicRow>)
      requires forall i :: 0 <= i < |ids| ==> ids[i] in topics && topics[ids[i]].userId in users && topics[ids[i]].categoryId in categories
      ensures |rows| == |ids|
      ensures forall i :: 0 <= i < |ids| ==> rows[i] == TopicRowAt(ids[i])
    {
      rows := [];
      var i := 0;
      while i < |ids|
        invariant 0 <= i <= |ids|
        invariant |rows| == i
        invariant forall j :: 0 <= j < i ==> rows[j] == TopicRowAt(ids[j])
      {
        rows := rows + [TopicRowAt(ids[i])];
        i := i + 1;
      }
    }

    /** The posts newer than post `p`. */
    ghost function NewerPosts(p: int): set<int>
      reads this
      requires p in posts
    {
      set q | q in posts && posts[q].createdAt > posts[p].createdAt
    }

    /** `r` is the `get_recent_posts` entry of post `r.id`. */
    ghost predicate IsRecentPost(r: RecentPost)
      reads this
    {
      && r.id in posts
      && var p := posts[r.id];
      && p.userId in users && p.topicId in topics
      && r == RecentPost(r.id, Preview(p.content), users[p.userId].username, topics[p.topicId].title, p.createdAt)
    }

    /**
     * `get_recent_posts`: the `limit` newest posts, newest first, each with a
     * preview of its content, its author's username and its topic's title.
     * Reading the author or topic of a selected post whose row is missing
     * raises; posts outside the selection are never looked at. Python's
     * default `limit` is DEFAULT_RECENT_POSTS_LIMIT.
     */
    method GetRecentPosts(limit: nat) returns (r: Result<seq<RecentPost>>)
      requires Valid()
      ensures r.Raised? <==>
        exists p :: p in posts && |NewerPosts(p)| < limit && (posts[p].userId !in users || posts[p].topicId !in topics)
      ensures r.Raised? ==> r.failure == NoneAttribute
      ensures r.Ok? ==> |r.value| <= limit
      ensures r.Ok? ==> forall i :: 0 <= i < |r.value| ==> IsRecentPost(r.value[i]) && |r.value[i].content| <= 103
      ensures r.Ok? ==> forall i, j :: 0 <= i < j < |r.value| ==> r.value[i].createdAt > r.value[j].createdAt
      ensures r.Ok? ==> forall p :: p in posts && (forall i :: 0 <= i < |r.value| ==> r.value[i].id != p) ==>
        |r.value| == limit && forall i :: 0 <= i < |r.value| ==> r.value[i].createdAt > posts[p].createdAt
    {
      var table := posts;
      var stamp := (p: int) => if p in table then table[p].createdAt else 0;
      var ids := Ordering.SelectNewest(posts.Keys, stamp, limit);
      forall p | p in posts ensures NewerPosts(p) == Ordering.Newer(posts.Keys, stamp, p) {
      }
      r := RecentRows(ids);
      if r.Raised? {
        var i :| 0 <= i < |ids| && (posts[ids[i]].userId !in users || posts[ids[i]].topicId !in topics);
        Ordering.SelectedIffFewerNewer(ids, posts.Keys, stamp, limit, ids[i]);
      } else {
        forall p | p in posts && |NewerPosts(p)| < limit
          ensures posts[p].userId in users && posts[p].topicId in topics
        {
          Ordering.SelectedIffFewerNewer(ids, posts.Keys, stamp, limit, p);
        }
        forall p | p in posts && (forall i :: 0 <= i < |r.value| ==> r.value[i].id != p)
          ensures |r.value| == limit && forall i :: 0 <= i < |r.value| ==> r.value[i].createdAt > posts[p].createdAt
        {
          assert forall i :: 0 <= i < |ids| ==> ids[i] == r.value[i].id;
          assert p !in ids;
        }
      }
    }

    /**
     * The entries of the posts `ids`, in that order; reading the author or the
     * topic of a post whose row is missing raises.
     */
    method RecentRows(ids: seq<int>) returns (r: Result<seq<RecentPost>>)
      requires forall i :: 0 <= i < |ids| ==> ids[i] in posts
      ensures r.Raised? <==> exists i :: 0 <= i < |ids| && (posts[ids[i]].userId !in users || posts[ids[i]].topicId !in topics)
      ensures r.Raised? ==> r.failure == NoneAttribute
      ensures r.Ok? ==> |r.value| == |ids| && forall i :: 0 <= i < |ids| ==> r.value[i].id == ids[i] && IsRecentPost(r.value[i])
    {
      var out: seq<RecentPost> := [];
      var i := 0;
      while i < |ids|
        invariant 0 <= i <= |ids|
        invariant |out| == i
        invariant forall j :: 0 <= j < i ==> out[j].id == ids[j] && IsRecentPost(out[j])
      {
        var p := posts[ids[i]];
        if p.userId !in users || p.topicId !in topics {
          return Raised(NoneAttribute);
        }
        out := out + [RecentPost(ids[i], Preview(p.content), users[p.userId].username, topics[p.topicId].title, p.createdAt)];
        i := i + 1;
      }
      r := Ok(out);
    }

    /** `r` is the `get_all_users` entry of user `r.id`: its topics and posts counted through the author relationships. */
    ghost predicate IsUserStats(r: UserStats)
      reads this
    {
      && r.id in users
      && var u := users[r.id];
      && r == UserStats(r.id, u.username, u.email, u.admin, u.createdAt, |TopicsBy(topics, r.id)|, |PostsBy(posts, r.id)|)
    }

    /** `get_all_users`: one entry per user, in no particular order. */
    method GetAllUsers() returns (rows: seq<UserStats>)
      ensures forall i :: 0 <= i < |rows| ==> IsUserStats(rows[i])
      ensures forall u :: u in users ==> exists i :: 0 <= i < |rows| && rows[i].id == u
      ensures forall i, j :: 0 <= i < j < |rows| ==> rows[i].id != rows[j].id
    {
      rows := [];
      var todo := users.Keys;
      while todo != {}
        invariant todo <= users.Keys
        invariant forall i :: 0 <= i < |rows| ==> IsUserStats(rows[i]) && rows[i].id !in todo
        invariant forall u :: u in users && u !in todo ==> exists i :: 0 <= i < |rows| && rows[i].id == u
        invariant forall i, j :: 0 <= i < j < |rows| ==> rows[i].id != rows[j].id
        decreases todo
      {
        ghost var some := Sets.Member(todo);
        var u :| u in todo;
        var user := users[u];
        ghost var prev := rows;
        rows := rows + [UserStats(u, user.username, user.email, user.admin, user.createdAt,
                                  |TopicsBy(topics, u)|, |PostsBy(posts, u)|)];
        assert forall i :: 0 <= i < |prev| ==> rows[i] == prev[i];
        assert rows[|prev|].id == u;
        todo := todo - {u};
      }
    }

    /**
     * `sum(len(topic.posts) for topic in category.topics)`: adding up the post
     * counts of a category's topics counts every post under the category once.
     */
    method CategoryPostsCount(categoryId: int) returns (n: nat)
      ensures n == |PostsUnder(topics, posts, categoryId)|
    {
      n := 0;
      var todo := TopicsOf(topics, categoryId);
      while todo != {}
        invariant todo <= TopicsOf(topics, categoryId)
        invariant n == |PostsIn(posts, TopicsOf(topics, categoryId) - todo)|
        decreases todo
      {
        ghost var some := Sets.Member(todo);
        var t :| t in todo;
        PostsInAddTopic(posts, TopicsOf(topics, categoryId) - todo, t);
        assert TopicsOf(topics, categoryId) - (todo - {t}) == (TopicsOf(topics, categoryId) - todo) + {t};
        n := n + |PostsOf(posts, t)|;
        todo := todo - {t};
      }
      assert TopicsOf(topics, categoryId) - todo == TopicsOf(topics, categoryId);
    }

    /** `r` is the `get_all_categories_with_stats` entry of category `r.id`. */
    ghost predicate IsCategoryStats(r: CategoryStats)
      reads this
    {
      && r.id in categories
      && var c := categories[r.id];
      && c.userId in users
      && r == CategoryStats(r.id, c.name, users[c.userId].username,
                            |TopicsOf(topics, r.id)|, |PostsUnder(topics, posts, r.id)|, c.createdAt)
    }

    /**
     * `get_all_categories_with_stats`: one entry per category with its topic
     * count and the number of posts in those topics; a category whose author
     * row is missing makes the call raise.
     */
    method GetAllCategoriesWithStats() returns (r: Result<seq<CategoryStats>>)
      ensures r.Raised? <==> exists c :: c in categories && categories[c].userId !in users
      ensures r.Raised? ==> r.failure == NoneAttribute
      ensures r.Ok? ==> forall i :: 0 <= i < |r.value| ==> IsCategoryStats(r.value[i])
      ensures r.Ok? ==> forall c :: c in categories ==> exists i :: 0 <= i < |r.value| && r.value[i].id == c
      ensures r.Ok? ==> forall i, j :: 0 <= i < j < |r.value| ==> r.value[i].id != r.value[j].id
    {
      var rows: seq<CategoryStats> := [];
      var todo := categories.Keys;
      while todo != {}
        invariant todo <= categories.Keys
        invariant forall i :: 0 <= i < |rows| ==> IsCategoryStats(rows[i]) && rows[i].id !in todo
        invariant forall c :: c in categories && c !in todo ==> exists i :: 0 <= i < |rows| && rows[i].id == c
        invariant forall i, j :: 0 <= i < j < |rows| ==> rows[i].id != rows[j].id
        decreases todo
      {
        ghost var some := Sets.Member(todo);
        var c :| c in todo;
        var category := categories[c];
        var topicsCount := |TopicsOf(topics, c)|;
        var postsCount := CategoryPostsCount(c);
        if category.userId !in users {
          return Raised(NoneAttribute);
        }
        ghost var prev := rows;
        rows := rows + [CategoryStats(c, category.name, users[category.userId].username, topicsCount, postsCount, category.createdAt)];
        assert forall i :: 0 <= i < |prev| ==> rows[i] == prev[i];
        assert rows[|prev|].id == c;
        todo := todo - {c};
      }
      r := Ok(rows);
    }

    /** `r` is the `get_all_topics_with_stats` entry of topic `r.id`. */
    ghost predicate IsTopicStats(r: TopicStats)
      reads this
    {
      && r.id in topics
      && var t := topics[r.id];
      && t.userId in users && t.categoryId in categories
      && r == TopicStats(r.id, t.title, users[t.userId].username, categories[t.categoryId].name,
                         |PostsOf(posts, r.id)|, t.createdAt)
    }

    /**
     * `get_all_topics_with_stats`: one entry per topic with its post count; a
     * topic whose author or category row is missing makes the call raise.
     */
    method GetAllTopicsWithStats() returns (r: Result<seq<TopicStats>>)
      ensures r.Raised? <==> exists t :: t in topics && (topics[t].userId !in users || topics[t].categoryId !in categories)
      ensures r.Raised? ==> r.failure == NoneAttribute
      ensures r.Ok? ==> forall i :: 0 <= i < |r.value| ==> IsTopicStats(r.value[i])
      ensures r.Ok? ==> forall t :: t in topics ==> exists i :: 0 <= i < |r.value| && r.value[i].id == t
      ensures r.Ok? ==> forall i, j :: 0 <= i < j < |r.value| ==> r.value[i].id != r.value[j].id
    {
      var rows: seq<TopicStats> := [];
      var todo := topics.Keys;
      while todo != {}
        invariant todo <= topics.Keys
        invariant forall i :: 0 <= i < |rows| ==> IsTopicStats(rows[i]) && rows[i].id !in todo
        invariant forall t :: t in topics && t !in todo ==> exists i :: 0 <= i < |rows| && rows[i].id == t
        invariant forall i, j :: 0 <= i < j < |rows| ==> rows[i].id != rows[j].id
        decreases todo
      {
        ghost var some := Sets.Member(todo);
        var t :| t in todo;
        var topic := topics[t];
        if topic.userId !in users || topic.categoryId !in categories {
          return Raised(NoneAttribute);
        }
        ghost var prev := rows;
        rows := rows + [TopicStats(t, topic.title, users[topic.userId].username, categories[topic.categoryId].name,
                                   |PostsOf(posts, t)|, topic.createdAt)];
        assert forall i :: 0 <= i < |prev| ==> rows[i] == prev[i];
        assert rows[|prev|].id == t;
        todo := todo - {t};
      }
      r := Ok(rows);
    }
  }
}

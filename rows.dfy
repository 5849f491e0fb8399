/** The records the read operations hand back, field for field in the order the source lists them. */
module Rows {
  import opened Wrappers

  /** `get_categories` / `get_category`: a category joined to its author's username. */
  datatype CategoryRow = CategoryRow(
    id: int, userId: int, name: string, description: Option<string>, createdAt: nat, username: string)

  /** `get_topic` / `get_topics`: a topic joined to its author's username and its category's name. */
  datatype TopicRow = TopicRow(
    id: int, userId: int, categoryId: int, title: string, content: string, createdAt: nat,
    username: string, categoryName: string)

  /** `get_post`: a post joined to its author's username and its topic's title. */
  datatype PostRow = PostRow(
    id: int, userId: int, topicId: int, content: string, createdAt: nat, username: string, topicTitle: string)

  /** `get_user_by_id` / `get_user_by_username`. */
  datatype UserRecord = UserRecord(
    id: int, username: string, email: string, password: string, admin: int, createdAt: nat)

  /** The tuple `login_user` returns. */
  datatype Credentials = Credentials(id: int, username: string, email: string, password: string)

  /** An entry of `get_all_users`. */
  datatype UserStats = UserStats(
    id: int, username: string, email: string, admin: int, createdAt: nat, topicsCount: nat, postsCount: nat)

  /** An entry of `get_all_categories_with_stats`. */
  datatype CategoryStats = CategoryStats(
    id: int, name: string, author: string, topicsCount: nat, postsCount: nat, createdAt: nat)

  /** An entry of `get_all_topics_with_stats`. */
  datatype TopicStats = TopicStats(
    id: int, title: string, author: string, category: string, postsCount: nat, createdAt: nat)

  /** An entry of `get_recent_posts`; `content` is the preview. */
  datatype RecentPost = RecentPost(id: int, content: string, author: string, topic: string, createdAt: nat)

  /** `get_forum_stats`. */
  datatype ForumStats = ForumStats(usersCount: nat, categoriesCount: nat, topicsCount: nat, postsCount: nat)
}

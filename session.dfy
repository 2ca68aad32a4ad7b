/**
 * The session state the account and post forms work on: the decoded contents of
 * the "users", "posts" and "currentUser" session-storage keys.
 */
module Session {
  import opened Wrappers
  import opened Entities

  class SessionState {
    var users: seq<User>
    var posts: seq<Post>
    var currentUser: Option<User>

    constructor (users: seq<User>, posts: seq<Post>, currentUser: Option<User>)
      ensures this.users == users && this.posts == posts && this.currentUser == currentUser
    {
      this.users := users;
      this.posts := posts;
      this.currentUser := currentUser;
    }
  }
}

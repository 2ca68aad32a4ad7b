/**
 * The new-post form: checks that someone is logged in and that the trimmed
 * title and content are long enough, then appends the post, stamped with the
 * author's name and id, to the stored posts.
 */
module CreatePost {
  import opened Wrappers
  import opened JsStrings
  import opened Entities
  import opened Session

  datatype PostForm = PostForm(title: JsString, content: JsString, category: JsString)

  const NotLoggedIn: string := "You must be logged in to create a post"
  const TitleTooShort: string := "Title must be at least 5 characters long"
  const ContentTooShort: string := "Content must be at least 10 characters long"

  const MinTitleLength: nat := 5
  const MinContentLength: nat := 10

  /** `${firstName} ${lastName}`. */
  function AuthorName(user: User): (r: JsString)
    ensures |r| == |user.firstName| + 1 + |user.lastName|
    ensures r[..|user.firstName|] == user.firstName && r[|user.firstName|] == Space
    ensures r[|user.firstName| + 1..] == user.lastName
  {
    user.firstName + [Space] + user.lastName
  }

  /**
   * handleSubmit's decision: the checks in their order, then the new post. The
   * id and the creation time (a timestamp) are given by the caller.
   */
  function Compose(form: PostForm, currentUser: Option<User>, id: int, createdAt: int): (r: Result<Post>)
    ensures r.Error? ==> r.msg in {NotLoggedIn, TitleTooShort, ContentTooShort}
    ensures r.Ok? ==> currentUser.Some? && r.value.userId == currentUser.value.id && r.value.id == id
    ensures r.Ok? ==> |r.value.title| >= MinTitleLength && |r.value.content| >= MinContentLength
  {
    if currentUser.None? then Error(NotLoggedIn)
    else if |Trim(form.title)| < MinTitleLength then Error(TitleTooShort)
    else if |Trim(form.content)| < MinContentLength then Error(ContentTooShort)
    else
      var user := currentUser.value;
      Ok(Post(id, Trim(form.title), Trim(form.content), form.category, AuthorName(user), user.id, createdAt))
  }

  /**
   * Each message is shown exactly when its check is the first to fail: no user
   * wins over everything, and a short title wins over short content.
   */
  lemma ComposeMessages(form: PostForm, currentUser: Option<User>, id: int, createdAt: int)
    ensures var r := Compose(form, currentUser, id, createdAt);
      && (r == Error(NotLoggedIn) <==> currentUser.None?)
      && (r == Error(TitleTooShort) <==> currentUser.Some? && |Trim(form.title)| < MinTitleLength)
      && (r == Error(ContentTooShort) <==>
           currentUser.Some? && |Trim(form.title)| >= MinTitleLength
           && |Trim(form.content)| < MinContentLength)
      && (r.Ok? <==>
           currentUser.Some? && |Trim(form.title)| >= MinTitleLength
           && |Trim(form.content)| >= MinContentLength)
  {
  }

  /**
   * An accepted post carries the typed title and content with surrounding white
   * space removed (JsStrings.TrimPadding says what was removed), each long
   * enough, the category as chosen, and the author's name and id.
   */
  lemma ComposedPost(form: PostForm, currentUser: Option<User>, id: int, createdAt: int)
    requires Compose(form, currentUser, id, createdAt).Ok?
    ensures var p := Compose(form, currentUser, id, createdAt).value;
      && p.id == id && p.createdAt == createdAt && p.category == form.category
      && p.userId == currentUser.value.id
      && p.authorName == currentUser.value.firstName + [Space] + currentUser.value.lastName
      && p.title == Trim(form.title) && p.content == Trim(form.content)
      && |p.title| >= MinTitleLength && |p.content| >= MinContentLength
  {
    var user := currentUser.value;
    var title, content := Trim(form.title), Trim(form.content);
    assert |title| >= MinTitleLength && |content| >= MinContentLength;
    assert Compose(form, currentUser, id, createdAt)
      == Ok(Post(id, title, content, form.category, AuthorName(user), user.id, createdAt));
  }

  /**
   * The checks as the handler runs them, with early exits; nothing is stored
   * here.
   */
  method CheckPost(form: PostForm, currentUser: Option<User>, id: int, createdAt: int)
    returns (outcome: Result<Post>)
    ensures outcome == Compose(form, currentUser, id, createdAt)
  {
    if currentUser.None? {
      return Error(NotLoggedIn);
    }
    if |Trim(form.title)| < MinTitleLength {
      return Error(TitleTooShort);
    }
    if |Trim(form.content)| < MinContentLength {
      return Error(ContentTooShort);
    }
    var user := currentUser.value;
    var newPost := Post(id, Trim(form.title), Trim(form.content), form.category,
                        AuthorName(user), user.id, createdAt);
    return Ok(newPost);
  }

  /** The new-post page's own state: its error message and whether a submission is under way. */
  class CreatePostPage {
    var error: string
    var isSubmitting: bool

    constructor ()
      ensures error == "" && !isSubmitting
    {
      error, isSubmitting := "", false;
    }

    /**
     * handleSubmit. A failure shows its message and leaves the stored posts as
     * they were; success appends exactly the new post at the end and keeps the
     * page in its submitting state.
     */
    method HandleSubmit(form: PostForm, currentUser: Option<User>, session: SessionState, id: int, createdAt: int)
      returns (ghost outcome: Result<Post>)
      modifies this, session
      ensures outcome == Compose(form, currentUser, id, createdAt)
      ensures outcome.Error? ==> error == outcome.msg && !isSubmitting && session.posts == old(session.posts)
      ensures outcome.Ok? ==>
        error == "" && isSubmitting && session.posts == old(session.posts) + [outcome.value]
      ensures session.users == old(session.users) && session.currentUser == old(session.currentUser)
    {
      var result := CheckPost(form, currentUser, id, createdAt);
      outcome := result;
      Apply(result, session);
    }

    /** Shows the outcome of the checks on the page and stores an accepted post. */
    method Apply(result: Result<Post>, session: SessionState)
      modifies this, session
      ensures result.Error? ==> error == result.msg && !isSubmitting && session.posts == old(session.posts)
      ensures result.Ok? ==>
        error == "" && isSubmitting && session.posts == old(session.posts) + [result.value]
      ensures session.users == old(session.users) && session.currentUser == old(session.currentUser)
    {
      error := "";
      isSubmitting := true;
      match result {
        case Error(msg) =>
          error := msg;
          isSubmitting := false;
        case Ok(newPost) =>
          var existingPosts := session.posts;
          existingPosts := existingPosts + [newPost];
          session.posts := existingPosts;
      }
    }
  }
}

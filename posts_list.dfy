/**
 * The community posts page: the stored posts sorted newest first, each shown as
 * a card with a category colour, a sanitised author, title and preview, and a
 * "Read More" button for long posts; plus the links offered to visitors.
 */
module PostsList {
  import opened Wrappers
  import opened JsStrings
  import opened Entities
  import opened WebStorage
  import opened Helpers

  /** Newer posts (greater `createdAt`) never come after older ones. */
  predicate NewestFirstOrder(posts: seq<Post>) {
    forall i, j :: 0 <= i < j < |posts| ==> posts[i].createdAt >= posts[j].createdAt
  }

  /**
   * `storedPosts.sort((a, b) => b.createdAt - a.createdAt)`, in place: afterwards
   * the array holds the same posts, newest first.
   */
  method SortNewestFirst(a: array<Post>)
    modifies a
    ensures NewestFirstOrder(a[..])
    ensures multiset(a[..]) == multiset(old(a[..]))
  {
    var i := 0;
    while i < a.Length
      invariant 0 <= i <= a.Length
      invariant forall k, l :: 0 <= k < l < i ==> a[k].createdAt >= a[l].createdAt
      invariant multiset(a[..]) == multiset(old(a[..]))
    {
      InsertBack(a, i);
      i := i + 1;
    }
  }

  /**
   * One insertion step: the post at `i` moves back past the older posts before
   * it, so the first i + 1 posts are newest first. It is only ever swapped with
   * a strictly older neighbour, so posts with the same timestamp keep their order.
   */
  method InsertBack(a: array<Post>, i: nat)
    requires i < a.Length
    requires forall k, l :: 0 <= k < l < i ==> a[k].createdAt >= a[l].createdAt
    modifies a
    ensures forall k, l :: 0 <= k < l <= i ==> a[k].createdAt >= a[l].createdAt
    ensures forall k :: i < k < a.Length ==> a[k] == old(a[k])
    ensures multiset(a[..]) == multiset(old(a[..]))
  {
    var j := i;
    while j > 0 && a[j - 1].createdAt < a[j].createdAt
      invariant 0 <= j <= i
      invariant forall k, l :: 0 <= k < l <= i && k != j && l != j ==> a[k].createdAt >= a[l].createdAt
      invariant forall l :: j < l <= i ==> a[l].createdAt < a[j].createdAt
      invariant forall k :: i < k < a.Length ==> a[k] == old(a[k])
      invariant multiset(a[..]) == multiset(old(a[..]))
    {
      SwapBack(a, j);
      j := j - 1;
    }
  }

  /** Exchanges the posts at j - 1 and j; the array keeps the same posts. */
  method SwapBack(a: array<Post>, j: nat)
    requires 0 < j < a.Length
    modifies a
    ensures a[j - 1] == old(a[j]) && a[j] == old(a[j - 1])
    ensures forall k :: 0 <= k < a.Length && k != j - 1 && k != j ==> a[k] == old(a[k])
    ensures multiset(a[..]) == multiset(old(a[..]))
  {
    a[j - 1], a[j] := a[j], a[j - 1];
  }

  const PreviewLength: nat := 200

  /** The card text before sanitising: the content, or its first 200 code units and "..." when it is longer. */
  function Preview(content: JsString): (r: JsString)
    ensures |content| <= PreviewLength ==> r == content
    ensures |content| > PreviewLength ==>
      |r| == PreviewLength + 3 && r[..PreviewLength] == content[..PreviewLength] && r[PreviewLength..] == Ellipsis
  {
    if |content| > PreviewLength then content[..PreviewLength] + Ellipsis else content
  }

  /** "Read More" is offered exactly for content longer than 200 code units, the posts whose preview is cut. */
  predicate ShowsReadMore(content: JsString) {
    |content| > PreviewLength
  }

  /**
   * The preview is the first min(200, length) code units, followed by "..."
   * exactly when "Read More" is shown.
   */
  lemma PreviewIsHeadAndEllipsis(content: JsString)
    ensures Preview(content) == Head(content, PreviewLength) + (if ShowsReadMore(content) then Ellipsis else [])
    ensures |Preview(content)| <= PreviewLength + 3
  {
    if !ShowsReadMore(content) {
      assert Head(content, PreviewLength) == content;
    }
  }

  const General: JsString := Lit("general")
  const Events: JsString := Lit("events")
  const Training: JsString := Lit("training")
  const Social: JsString := Lit("social")
  const Equipment: JsString := Lit("equipment")

  /** getCategoryColor: the badge colour of a category, "primary" for one the table does not list. */
  function CategoryColor(category: JsString): (color: string)
    ensures category == Events <==> color == "success"
    ensures category == Training <==> color == "warning"
    ensures category == Social <==> color == "info"
    ensures category == Equipment <==> color == "secondary"
    ensures category !in {Events, Training, Social, Equipment} <==> color == "primary"
  {
    assert Events[0] != Social[0];
    if category == General then "primary"
    else if category == Events then "success"
    else if category == Training then "warning"
    else if category == Social then "info"
    else if category == Equipment then "secondary"
    else "primary"
  }

  /** What one post's card shows; the three markup fields are inserted as HTML. */
  datatype PostCard = PostCard(
    badgeColor: string,
    category: JsString,
    authorHtml: JsString,
    titleHtml: JsString,
    bodyHtml: JsString,
    readMore: bool)

  /**
   * One card. `sanitize` stands for sanitizeHtml: every piece of stored text the
   * card inserts as HTML goes through it first.
   */
  function Card(post: Post, sanitize: JsString -> JsString): (card: PostCard)
    ensures card.authorHtml == sanitize(post.authorName) && card.titleHtml == sanitize(post.title)
    ensures card.bodyHtml == sanitize(Preview(post.content))
    ensures card.readMore <==> |post.content| > PreviewLength
    ensures card.badgeColor == CategoryColor(post.category) && card.category == post.category
  {
    PostCard(CategoryColor(post.category), post.category, sanitize(post.authorName), sanitize(post.title),
             sanitize(Preview(post.content)), ShowsReadMore(post.content))
  }

  const LessThan: CodeUnit := 0x3C

  /** Markup that cannot open a tag. */
  predicate NoTagOpen(html: JsString) {
    forall i :: 0 <= i < |html| ==> html[i] != LessThan
  }

  /**
   * Whatever a post holds, its card inserts no markup that opens a tag, as long
   * as sanitizing never outputs a '<'.
   */
  lemma CardInsertsNoTags(post: Post, sanitize: JsString -> JsString)
    requires forall s :: NoTagOpen(sanitize(s))
    ensures var card := Card(post, sanitize);
      NoTagOpen(card.authorHtml) && NoTagOpen(card.titleHtml) && NoTagOpen(card.bodyHtml)
  {
    var card := Card(post, sanitize);
    assert card.authorHtml == sanitize(post.authorName);
    assert card.titleHtml == sanitize(post.title);
    assert card.bodyHtml == sanitize(Preview(post.content));
  }

  /** The links and calls to action the page offers around the cards. */
  datatype Links = Links(createPost: bool, writeFirstPost: bool, loginToPost: bool, joinBanner: bool)

  /**
   * A logged-in visitor gets the "Create New Post" link (and, with no posts yet,
   * "Write the First Post"); anyone else gets a login prompt when there are no
   * posts and the sign-up banner when there are some.
   */
  function PageLinks(currentUser: Option<User>, postCount: nat): (links: Links)
    ensures links.createPost <==> currentUser.Some?
    ensures links.writeFirstPost <==> currentUser.Some? && postCount == 0
    ensures links.loginToPost <==> currentUser.None? && postCount == 0
    ensures links.joinBanner <==> currentUser.None? && postCount > 0
    ensures links.createPost || links.loginToPost || links.joinBanner
  {
    Links(currentUser.Some?, currentUser.Some? && postCount == 0,
          currentUser.None? && postCount == 0, currentUser.None? && postCount > 0)
  }

  /** The page's own state: the posts it lists. */
  class PostsListPage {
    var posts: seq<Post>

    constructor ()
      ensures posts == []
    {
      posts := [];
    }

    /**
     * The load effect: read "posts" with safeSessionStorageGet (an empty list
     * when absent or unreadable, an unreadable entry being removed), sort the
     * array newest first, and show it.
     */
    method Load(store: SessionStorage, parse: JsString -> Option<seq<Post>>)
      modifies this, store
      ensures NewestFirstOrder(posts)
      ensures multiset(posts) == multiset(Loaded(old(store.items), Lit("posts"), [], parse))
      ensures store.items == Remaining(old(store.items), Lit("posts"), parse)
    {
      var storedPosts := SafeGet(store, Lit("posts"), [], parse);
      var a := new Post[|storedPosts|](i requires 0 <= i < |storedPosts| => storedPosts[i]);
      assert a[..] == storedPosts;
      SortNewestFirst(a);
      posts := a[..];
    }
  }
}

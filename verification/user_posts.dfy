/** The post list of `fronted/src/pages/UserPosts.jsx`: the card previews
    (title and content cut with an ellipsis) and the deletion of a post from
    its card and from the list. */
module UserPosts {
  import opened Text
  import opened Posts

  const ContentPreviewLength: nat := 100
  const TitlePreviewLength: nat := 50

  /** The preview a card shows of a post. */
  datatype Card = Card(title: string, content: string)

  function CardOf(post: Post): Card {
    Card(Ellipsize(post.title, TitlePreviewLength), Ellipsize(post.content, ContentPreviewLength))
  }

  /** A preview is the text itself when it fits; otherwise its first
      characters followed by `...`, never longer than the limit plus three. */
  lemma CardPreviews(post: Post)
    ensures var card := CardOf(post);
            && (|post.title| <= TitlePreviewLength ==> card.title == post.title)
            && (|post.title| > TitlePreviewLength ==>
                  card.title == post.title[..TitlePreviewLength] + Ellipsis)
            && (|post.content| <= ContentPreviewLength ==> card.content == post.content)
            && (|post.content| > ContentPreviewLength ==>
                  card.content == post.content[..ContentPreviewLength] + Ellipsis)
            && |card.title| <= TitlePreviewLength + 3
            && |card.content| <= ContentPreviewLength + 3
  {
    var card := CardOf(post);
    if |post.title| > TitlePreviewLength {
      assert card.title == card.title[..TitlePreviewLength] + card.title[TitlePreviewLength..];
    }
    if |post.content| > ContentPreviewLength {
      assert card.content == card.content[..ContentPreviewLength] + card.content[ContentPreviewLength..];
    }
  }

  /** `posts.filter(post => post.$id !== postId)` */
  function RemovePost(posts: seq<Post>, postId: PostId): (r: seq<Post>)
    ensures forall i :: 0 <= i < |r| ==> r[i].id != postId && r[i] in posts
    ensures forall i :: 0 <= i < |posts| && posts[i].id != postId ==> posts[i] in r
  {
    var keep := (p: Post) => p.id != postId;
    FilterKeepsKept(posts, keep);
    Filter(posts, keep)
  }

  /** The posts left keep their relative order. */
  lemma RemovePostKeepsOrder(a: seq<Post>, b: seq<Post>, postId: PostId)
    ensures RemovePost(a + b, postId) == RemovePost(a, postId) + RemovePost(b, postId)
  {
    FilterAppend(a, b, (p: Post) => p.id != postId);
  }

  /** Removing an id no post has changes nothing. */
  lemma RemoveAbsentPost(posts: seq<Post>, postId: PostId)
    requires forall i :: 0 <= i < |posts| ==> posts[i].id != postId
    ensures RemovePost(posts, postId) == posts
  {
    FilterKeepsAll(posts, (p: Post) => p.id != postId);
  }

  const DeletedMessage: string := "Post deleted successfully"
  const DeleteFailedMessage: string := "Failed to delete post"

  /** After the delete button of a card: the list, whether `deletePost` was
      called, and the toast shown (empty for none). */
  datatype CardDelete = CardDelete(posts: seq<Post>, deleteCalled: bool, toast: string)

  /** `handleDelete` of a card followed by the list's `handleDelete`: only a
      confirmed deletion that the backend accepted removes the post. */
  function DeleteFromCard(posts: seq<Post>, post: Post, confirmed: bool, deleteSucceeds: bool): (r: CardDelete)
    ensures r.deleteCalled <==> confirmed
    ensures confirmed && deleteSucceeds ==> r.posts == RemovePost(posts, post.id) && r.toast == DeletedMessage
    ensures !(confirmed && deleteSucceeds) ==> r.posts == posts
    ensures confirmed && !deleteSucceeds ==> r.toast == DeleteFailedMessage
    ensures !confirmed ==> r.toast == ""
  {
    if !confirmed then CardDelete(posts, false, "")
    else if deleteSucceeds then CardDelete(RemovePost(posts, post.id), true, DeletedMessage)
    else CardDelete(posts, true, DeleteFailedMessage)
  }

  /** Each card's `onDelete` filters the list of the render it came from. Two
      confirmed deletions started from the same list before either returns
      each filter that list, so the one that finishes last brings back the
      post the other removed; run one after the other, both posts go. */
  lemma OverlappingDeletesLoseOne(posts: seq<Post>, a: Post, b: Post)
    requires a in posts && b in posts && a.id != b.id
    ensures a in DeleteFromCard(posts, b, true, true).posts
    ensures b in DeleteFromCard(posts, a, true, true).posts
    ensures var both := DeleteFromCard(DeleteFromCard(posts, a, true, true).posts, b, true, true).posts;
            a !in both && b !in both
  {
    var i :| 0 <= i < |posts| && posts[i] == a;
    var j :| 0 <= j < |posts| && posts[j] == b;
    assert posts[i].id != b.id && posts[j].id != a.id;
  }
}

/** The post record the text-post pages exchange with the posts collection,
    and the client routes they navigate to. */
module Posts {

  type PostId = string

  /** A document of the posts collection (`$id`, title, content, slug). */
  datatype Post = Post(id: PostId, title: string, content: string, slug: string)

  const PostRoutePrefix: string := "/post/"
  const MyPostsRoute: string := "/my-posts"

  /** `/post/${slug}` */
  function PostRoute(slug: string): (path: string)
    ensures |path| == |PostRoutePrefix| + |slug|
    ensures path[..|PostRoutePrefix|] == PostRoutePrefix && path[|PostRoutePrefix|..] == slug
  {
    PostRoutePrefix + slug
  }

  /** Distinct slugs lead to distinct pages. */
  lemma PostRouteInjective(a: string, b: string)
    ensures PostRoute(a) == PostRoute(b) ==> a == b
  {
    if PostRoute(a) == PostRoute(b) {
      assert a == PostRoute(a)[|PostRoutePrefix|..];
    }
  }
}

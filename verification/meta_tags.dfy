/** `updateMetaTags` of `fronted/src/components/MetaTags.jsx`: the route
    table of page titles and descriptions, with the home entry as fallback,
    and the six head tags filled from the chosen entry. */
module MetaTags {

  datatype Meta = Meta(title: string, description: string)

  const HomeMeta := Meta(
    "ImageKit - Simple & Secure Image Upload and Sharing",
    "Upload, store, and share your images securely. Fast uploads, encrypted storage, and easy sharing features.")
  const GalleryMeta := Meta(
    "Your Image Gallery - ImageKit",
    "View and manage your uploaded images in one secure location.")
  const UploadMeta := Meta(
    "Upload Images - ImageKit",
    "Quick and secure image upload with instant sharing capabilities.")
  const LoginMeta := Meta(
    "Login - ImageKit",
    "Sign in to access your secure image storage and sharing features.")

  const Routes: map<string, Meta> :=
    map["/" := HomeMeta, "/gallery" := GalleryMeta, "/upload" := UploadMeta, "/login" := LoginMeta]

  /** `routes[path] || routes['/']` */
  function MetaFor(path: string): (m: Meta)
    ensures path in Routes ==> m == Routes[path]
    ensures path !in Routes ==> m == HomeMeta
    ensures m in Routes.Values
  {
    if path in Routes then Routes[path] else Routes["/"]
  }

  /** The document title and the five meta tags the function writes. */
  datatype Head = Head(
    documentTitle: string,
    description: string,
    ogTitle: string,
    ogDescription: string,
    twitterTitle: string,
    twitterDescription: string)

  function UpdateMetaTags(path: string): (h: Head)
    ensures h.documentTitle == h.ogTitle == h.twitterTitle == MetaFor(path).title
    ensures h.description == h.ogDescription == h.twitterDescription == MetaFor(path).description
  {
    var m := MetaFor(path);
    Head(m.title, m.description, m.title, m.description, m.title, m.description)
  }

  /** Each of the four known routes gets its own title and description. */
  lemma KnownRoutes()
    ensures UpdateMetaTags("/").documentTitle == HomeMeta.title
    ensures UpdateMetaTags("/gallery").documentTitle == GalleryMeta.title
    ensures UpdateMetaTags("/upload").documentTitle == UploadMeta.title
    ensures UpdateMetaTags("/login").documentTitle == LoginMeta.title
    ensures UpdateMetaTags("/").description == HomeMeta.description
    ensures UpdateMetaTags("/gallery").description == GalleryMeta.description
    ensures UpdateMetaTags("/upload").description == UploadMeta.description
    ensures UpdateMetaTags("/login").description == LoginMeta.description
    ensures forall p, q :: p in Routes && q in Routes && p != q ==> Routes[p].title != Routes[q].title
  {
  }

  /** Any other path, such as `/my-posts`, is described as the home page. */
  lemma OtherPathsFallBack(path: string)
    requires path != "/" && path != "/gallery" && path != "/upload" && path != "/login"
    ensures UpdateMetaTags(path) == UpdateMetaTags("/")
  {
  }
}

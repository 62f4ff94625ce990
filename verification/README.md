# ImageKit front-end logic in Dafny

ImageKit is a small image and text sharing web application: a React front end
that talks to an Appwrite backend (files, documents, accounts). Almost all of it
is UI glue. This project models the parts that hold rules:

- **Upload form** (`Upload` module): MIME-type and 5 MiB size validation, the
  display name derived from the file name (text before the first `.`, cut to 50
  characters), the guards that stop an upload, and the `{ id, name, url }`
  record emitted when the store returns the new file.
- **Local image list** (`ImageList` module): new images are merged in front of
  the list kept in local storage and deduplicated by id through a JavaScript
  `Map`. A key keeps the position of its first occurrence and the value of its
  last. The list also supports deletion by id.
- **Text posts** (`PostEditor`, `UserPosts`, `Posts` modules): the 256 and
  20000 character caps of the change handlers, the counter that shows the
  rejected attempt, the ordered submit guards of the create and edit forms,
  the load of the edit form, the card previews cut with `...`, and removal of
  a post from the list.
- **Media store client** (`MediaStore` module, `appwrite.js`): upload writes
  the file and then its metadata document with no rollback. Listing is a page
  of the user's documents projected to `{ $id: fileId, name }`. Deletion
  removes the file, then only the first document about it, and reports
  success even when no document matched. The store is abstract: a set of
  file ids and a sequence of documents. Every call may fail, and a fault
  record says which calls fail. `ID.unique()` becomes an id the caller
  supplies. A call whose id is already taken fails, as the store refuses it.
- **Page metadata** (`MetaTags` module): a route table of titles and
  descriptions, with `/` as the fallback, copied into six head tags.
- Shared helpers (`Text`, `Wrappers`): JavaScript `trim`, `split(c)[0]`,
  `slice`, `startsWith` and `filter` over `seq<char>` and `seq<T>`.

Every operation is a pure function over immutable records. The browser, the
backend and the user are parameters: a dropped file, a confirmation, a
backend response, a fault flag.

Two details of the code are kept as written. The upload guard refuses names
longer than 50 characters, although its message says "less than 50". The
edit form re-checks neither the title cap nor the content cap.

## Model

| member | source | states |
|---|---|---|
| Upload.ValidateFile | fronted/src/components/Upload.jsx:27-40 | accepted iff the MIME type starts with `image/` and the size is at most 5 MiB; a non-image gets the type message, an oversized image the size message |
| Upload.SizeBoundary | fronted/src/components/Upload.jsx:34-37 | exactly 5,242,880 bytes is accepted; one byte more, and 6 MiB, get the size message |
| Upload.TypeCheckedBeforeSize | fronted/src/components/Upload.jsx:29-37 | an oversized `text/plain` file reports the type error, not the size error |
| Upload.DeriveName | fronted/src/components/Upload.jsx:55-58 | the derived name is a prefix of the file name, has no `.`, is at most 50 long, and equals the whole pre-dot segment when that segment is at most 50 |
| Upload.DeriveNameExamples | fronted/src/components/Upload.jsx:55 | `"a.b.png"` gives `"a"`, `".png"` gives `""`, `"photo"` gives `"photo"` |
| Upload.HandleDrop | fronted/src/components/Upload.jsx:42-62 | nothing dropped: error set, file and name kept; refused file: its message, file and name kept; accepted file: held under its derived name, error cleared |
| Upload.HandleFileSelect | fronted/src/components/Upload.jsx:64-77 | as a drop, except that an empty selection only clears the error |
| Upload.DropAndSelectAgree | fronted/src/components/Upload.jsx:54-76 | dropping and selecting the same file give the same form |
| Upload.RejectedFileKeepsForm | fronted/src/components/Upload.jsx:49-76 | a missing or refused file never replaces the held file or name |
| Upload.EditName | fronted/src/components/Upload.jsx:199-202 | the name field takes any text, with no length check, and clears the error |
| Upload.HandleUpload | fronted/src/components/Upload.jsx:79-119 | refuses iff there is no file, the name is blank after trim, or it is longer than 50, with the message of the first failing guard, touching neither form nor store; on success emits the typed name, the new file id and its URL, and clears the form; on a `null` upload emits nothing and keeps file and name |
| Upload.EmitIffStoreReturns | fronted/src/components/Upload.jsx:110-119 | past the guards, something is emitted iff `uploadImage` returns the file; the store's document then carries the file's full original name |
| Upload.HoldIfValid | fronted/src/components/Upload.jsx:54-61 | no contract; the branch shared by drop and select, characterised by `HandleDrop`, `HandleFileSelect` and `DropAndSelectAgree` |
| Upload.ApplyEventKeepsHeldValid | fronted/src/components/Upload.jsx:42-202 | a single drop, selection or name edit keeps the held file valid |
| Upload.HandlersKeepHeldValid | fronted/src/components/Upload.jsx:42-202 | drop, select, name edit and upload each leave the form holding either no file or one that validation accepts |
| Upload.EventsKeepHeldValid | fronted/src/components/Upload.jsx:42-202 | any sequence of drops, selections and name edits keeps the held file valid |
| Upload.OnlyValidFilesReachStore | fronted/src/components/Upload.jsx:42-108 | from the empty form, an upload that passes the guards sends an `image/` file of at most 5 MiB; a refused file never reaches the store |
| Upload.OnUpload | fronted/src/pages/UploadPage.jsx:9 | the emitted image is appended to the page's `images`; nothing changes without one |
| Upload.UploadedImageIsListed | fronted/src/pages/UploadPage.jsx:9-10 | after a successful upload the list shows the new id, and shows the emitted record itself when its id is new to the page and to storage |
| ImageList.MergeNoDuplicates | fronted/src/components/ImageList.jsx:15-16 | no two entries of the merged list share an id |
| ImageList.MergeKeepsEveryId | fronted/src/components/ImageList.jsx:15-16 | an id is in the merge iff it is among the new images or the stored list |
| ImageList.MergeFirstOccurrenceOrder | fronted/src/components/ImageList.jsx:15-16 | entries are ranked by the first occurrence of their id in `images ++ stored`, so every new image precedes every stored-only one |
| ImageList.MergeKeepsLastValue | fronted/src/components/ImageList.jsx:16 | each entry carries the value of the last occurrence of its id; for an id in storage, the stored copy |
| ImageList.Put | fronted/src/components/ImageList.jsx:16 | no contract; `map.set(id, item)`, characterised by `PutIds` and `PutFacts` (in place when the key is present, appended otherwise) |
| ImageList.PutAll | fronted/src/components/ImageList.jsx:16 | no contract; the `Map` constructor over a list of entries, characterised by `PutAllAppend`, `PutAllExtends` and `PutAllOfExtension` |
| ImageList.Dedup | fronted/src/components/ImageList.jsx:16 | no contract; `Array.from(new Map(...).values())`, characterised by `DedupIds`, `DedupValues` and `DedupOrder` |
| ImageList.Merge | fronted/src/components/ImageList.jsx:15-16 | no contract; `[...images, ...storedImages]` deduplicated, characterised by the `Merge*` lemmas below |
| ImageList.PutAllOfExtension | fronted/src/components/ImageList.jsx:16 | setting the entries of a duplicate-free list `b`, whose ids start with those of `a`, into the Map `a` yields exactly `b` |
| ImageList.MergeIdempotent | fronted/src/components/ImageList.jsx:15-17 | merging the same images into an already merged list yields the same list |
| ImageList.MergeShowsFreshImage | fronted/src/components/ImageList.jsx:15-16 | an image whose id occurs nowhere else appears in the merge unchanged |
| ImageList.DedupIds | fronted/src/components/ImageList.jsx:16 | the values of the `Map` hold exactly the ids of its entries |
| ImageList.DedupValues | fronted/src/components/ImageList.jsx:16 | each value of the `Map` is the last entry set under its key |
| ImageList.DedupOrder | fronted/src/components/ImageList.jsx:16 | the `Map`'s values are in the order of the keys' first insertion |
| ImageList.OnImages | fronted/src/components/ImageList.jsx:8-20 | storage and display agree after the effect, and it introduces no duplicate ids into a duplicate-free storage |
| ImageList.NoImagesShowsStored | fronted/src/components/ImageList.jsx:10-14 | with no new images the stored list is shown and storage is not rewritten |
| ImageList.HandleDelete | fronted/src/components/ImageList.jsx:28-32 | storage equals the display afterwards; no entry with the id remains; every entry with another id remains |
| ImageList.DeleteKeepsOrder | fronted/src/components/ImageList.jsx:29 | deletion distributes over concatenation, so the remaining entries keep their order |
| ImageList.DeleteAbsentIdKeepsList | fronted/src/components/ImageList.jsx:29 | deleting an id nobody has leaves the list unchanged |
| ImageList.DeletedImageReturns | fronted/src/components/ImageList.jsx:14-31 | an image deleted while still among the page's `images` is shown again the next time the effect runs |
| MediaStore.UploadImage | fronted/src/appwrite.js:11-37 | returns the file iff neither write fails; on success the file is stored and one document `{fileId, userId, name: file.name}` is appended; a failed file write leaves the store unchanged; a failure adds no document; unique document ids are preserved |
| MediaStore.UploadLeavesOrphanFile | fronted/src/appwrite.js:13-36 | when the document write fails the call returns `null` but the file stays in the store |
| MediaStore.ImageUrl | fronted/src/appwrite.js:39-41 | the URL is the fixed proxy prefix followed by the id |
| MediaStore.ImageUrlRoundTrip | fronted/src/appwrite.js:39-41 | the file id can be read back from its URL |
| MediaStore.ImageUrlInjective | fronted/src/appwrite.js:39-41 | distinct files get distinct URLs |
| MediaStore.UserDocs | fronted/src/appwrite.js:49 | no contract; `Query.equal('userId', userId)` as a `Filter`, characterised by `Text.Filter` and `Text.FilterKeepsKept` |
| MediaStore.Window | fronted/src/appwrite.js:50-51 | at most `limit` elements; empty when `offset` is past the end; otherwise the `min(limit, length - offset)` elements starting at `offset` |
| MediaStore.Entries | fronted/src/appwrite.js:54-57 | one entry per document; characterised further by `EntriesAppend` and `EntryOfMember` |
| MediaStore.ListImages | fronted/src/appwrite.js:43-62 | at most `limit` entries, each the file id and name of a document of that user; `[]` when the query fails |
| MediaStore.ListImagesDefault | fronted/src/appwrite.js:43-62 | with the default limit 9 and offset 0: the user's first nine images in creation order (all of them when there are at most nine), or `[]` when the query fails |
| MediaStore.FirstDocOfAppend | fronted/src/appwrite.js:73-83 | a document appended after all others is found at the end by the file-id lookup when no earlier document is about that file |
| MediaStore.ListAllUserImages | fronted/src/appwrite.js:45-57 | with a large enough limit the listing is the projection of all the user's documents, in order, and contains every one of them |
| MediaStore.ListPagesConcatenate | fronted/src/appwrite.js:48-52 | the page of `a` at offset 0 followed by the page of `b` at offset `a` is the page of `a + b` at offset 0 |
| MediaStore.UploadThenList | fronted/src/appwrite.js:21-57 | after a successful upload a full listing ends with the new file under its original name |
| MediaStore.FirstDocOf | fronted/src/appwrite.js:73-83 | finds the first document whose `fileId` matches, or reports that none does |
| MediaStore.DeleteDocument | fronted/src/appwrite.js:80-84 | no contract; removes the documents with the given document id, characterised by `DeleteRemovesFirstDocOnly` |
| MediaStore.DeleteImage | fronted/src/appwrite.js:64-92 | throws only the fixed message and never returns false; a failed or missing file leaves the store unchanged; otherwise the file is gone, and documents change only when a document matched and the call returned |
| MediaStore.DeleteRemovesFirstDocOnly | fronted/src/appwrite.js:73-85 | with unique document ids, success removes exactly the first matching document; further matches remain |
| MediaStore.DeleteWithoutDocSucceeds | fronted/src/appwrite.js:79-87 | with no matching document the file is removed and the call returns true |
| MediaStore.DeletePartialFailure | fronted/src/appwrite.js:72-91 | a failure after the file is deleted throws, with the file gone and all documents kept |
| MediaStore.UploadThenDeleteRestores | fronted/src/appwrite.js:11-92 | deleting a freshly uploaded image restores the store it was uploaded to |
| PostEditor.TitleChange | fronted/src/pages/CreatePost.jsx:15-22 | a title is taken iff it is at most 256 long; otherwise the form is unchanged |
| PostEditor.ContentChange | fronted/src/pages/CreatePost.jsx:24-34 | the counter becomes the attempted length; the content is taken iff it is at most 20000 long |
| PostEditor.CounterRunsAhead | fronted/src/pages/CreatePost.jsx:26-33 | a rejected content change leaves a counter above the stored content's length |
| PostEditor.ReplayStaysWithinLimits | fronted/src/pages/EditPost.jsx:37-55 | any sequence of change events keeps a form within both caps once it is within them |
| PostEditor.CreateFormWithinLimits | fronted/src/pages/CreatePost.jsx:8-34 | from the empty form, any sequence of change events keeps title at most 256 and content at most 20000 |
| PostEditor.SubmitCreate | fronted/src/pages/CreatePost.jsx:36-65 | refused, without calling `createPost`, on a blank title, blank content, or content over 20000, in that order; otherwise sends title, content and user and navigates to `/post/<slug>` on success, or fails with the error's message or the default |
| PostEditor.LoadPost | fronted/src/pages/EditPost.jsx:16-27 | no post: navigate to `/my-posts`, fields kept; a post: its title and content with no length check, counter = content length |
| PostEditor.SubmitEdit | fronted/src/pages/EditPost.jsx:57-77 | refused iff title or content is blank; otherwise sends only title and content for the re-fetched post's id and navigates to `/post/<slug>`; a missing post or failed update gives the fixed failure |
| PostEditor.EditSendsWhatCreateRefuses | fronted/src/pages/EditPost.jsx:25-68 | a stored post over 20000 characters loads outside the caps and is sent back by edit, where create refuses it |
| PostEditor.EditFormWithinLimits | fronted/src/pages/EditPost.jsx:25-55 | typing in the edit form keeps the caps a loaded post already met |
| Posts.PostRoute | fronted/src/pages/CreatePost.jsx:58 | the route is `/post/` followed by the slug |
| Posts.PostRouteInjective | fronted/src/pages/EditPost.jsx:70 | distinct slugs lead to distinct routes |
| UserPosts.CardOf | fronted/src/pages/UserPosts.jsx:10-11 | no contract; the two truncations, characterised by `CardPreviews` |
| UserPosts.CardPreviews | fronted/src/pages/UserPosts.jsx:10-11 | title and content are shown unchanged when within 50 and 100; otherwise their first 50 or 100 characters followed by `...`; never longer than the limit plus 3 |
| UserPosts.RemovePost | fronted/src/pages/UserPosts.jsx:95-97 | no post with the id remains, every other post remains |
| UserPosts.RemovePostKeepsOrder | fronted/src/pages/UserPosts.jsx:96 | removal distributes over concatenation, so the others keep their order |
| UserPosts.RemoveAbsentPost | fronted/src/pages/UserPosts.jsx:96 | removing an id nobody has changes nothing |
| UserPosts.OverlappingDeletesLoseOne | fronted/src/pages/UserPosts.jsx:13-24 | two confirmed deletions completing against the same list each keep the other post, so the last to finish undoes the first; applied in turn they remove both |
| UserPosts.DeleteFromCard | fronted/src/pages/UserPosts.jsx:13-24 | `deletePost` is called iff the user confirmed; the list changes only on a confirmed, successful delete, and then by removing that post |
| MetaTags.MetaFor | fronted/src/components/MetaTags.jsx:8-27 | a known path gets its own entry, any other path the `/` entry, so the lookup is total |
| MetaTags.UpdateMetaTags | fronted/src/components/MetaTags.jsx:27-35 | document title, og:title and twitter:title are the same title; the three descriptions are the same description |
| MetaTags.KnownRoutes | fronted/src/components/MetaTags.jsx:8-25 | `/`, `/gallery`, `/upload` and `/login` each get their own title and description, and the four titles are distinct |
| MetaTags.OtherPathsFallBack | fronted/src/components/MetaTags.jsx:27 | any other path is described as `/` is |
| Text.IsSpace | fronted/src/components/Upload.jsx:85 | no contract; the ECMAScript WhiteSpace and LineTerminator code points that `trim` removes |
| Text.Trim | fronted/src/components/Upload.jsx:85 | no contract; `TrimEnd` after `TrimStart`, characterised by their contracts |
| Text.IsBlank | fronted/src/pages/CreatePost.jsx:39-44 | no contract; `!s.trim()`, characterised by `BlankIffAllSpace` |
| Text.StartsWith | fronted/src/components/Upload.jsx:29 | no contract; `s.startsWith(p)`, used by `Upload.ValidateFile` and `MediaStore.ImageUrl` |
| Text.TrimStart | fronted/src/components/Upload.jsx:85 | removes exactly the leading whitespace: a suffix whose first character is not a space, with only spaces before it |
| Text.TrimEnd | fronted/src/pages/CreatePost.jsx:39 | removes exactly the trailing whitespace |
| Text.BlankIffAllSpace | fronted/src/pages/EditPost.jsx:60 | `!s.trim()` holds iff every character of `s` is whitespace |
| Text.BeforeFirst | fronted/src/components/Upload.jsx:70 | `split(c)[0]` is a prefix without `c`, followed in the input by `c` unless it is the whole input |
| Text.Take | fronted/src/components/Upload.jsx:56-57 | `substring(0, n)` is the whole string when at most `n` long, else its first `n` characters |
| Text.Ellipsize | fronted/src/pages/UserPosts.jsx:10 | result at most limit + 3 long; ends in `...` at the limit iff the input is longer than the limit; unchanged otherwise |
| Text.Filter | fronted/src/components/ImageList.jsx:29 | every element kept comes from the input and satisfies the predicate |
| Text.FilterKeepsKept | fronted/src/components/ImageList.jsx:29 | no element satisfying the predicate is dropped |
| MediaStore.WindowsTile | fronted/src/appwrite.js:48-52 | the window of `a` at offset 0 followed by the window of `b` at offset `a` is the window of `a + b` at offset 0 |
| Text.FilterAppend | fronted/src/pages/UserPosts.jsx:96 | filtering distributes over concatenation |

## Left out

- `backend/server.js`, the image proxy, is not part of this model. It streams
  bytes over HTTP, and its one check is trivial.
- `fronted/src/services/posts.js` and `fronted/src/context/AuthContext.jsx`
  are single SDK calls. They appear only as the responses the forms receive:
  `CreateResponse`, the re-fetched post, and the delete and update success flags.
- `fronted/src/pages/Gallery.jsx` is not modelled. It calls `listImages` once
  with the defaults (`MediaStore.ListImagesDefault`). There is no pagination
  controller, sentinel or exhausted state in the code, so none is modelled.
- Toasts, the simulated progress timer, the drag highlight, the `loading` and
  `initialLoading` flags and the MB display (floating point) are not modelled.
  Each `loading` flag is reset in a `finally` on every path.
- MetaTags.UpdateMetaTags: the page is assumed to carry the `description`,
  `og:title`, `og:description`, `twitter:title` and `twitter:description`
  meta tags. When one is missing, `querySelector` returns `null` and
  `setAttribute` throws after `document.title` has already been set; that
  partial update is not modelled.
- JSON serialisation and `localStorage` are not modelled. Storage is a plain
  sequence field of `ImageList.ListState`.
- Upload.HandleUpload: the handler is one atomic step. In the source the drop
  zone and the name field stay live while `uploadImage` is awaited, and on
  success `setFile(null)` and `setName("")` also clear a file dropped or a
  name typed in the meantime.
- UserPosts.DeleteFromCard: the handler is one atomic step applied to the
  current list. In the source each card's `onDelete` filters the list of the
  render it came from, so two deletions confirmed before either returns leave
  the post deleted first on screen (`OverlappingDeletesLoseOne`).
- Upload.HandleUpload: the `catch` branch is not modelled. `uploadImage`
  never throws, so the branch is reached only when `user` is missing. A `null`
  return leaves the upload promise unsettled; the model emits nothing and
  keeps the form.
- PostEditor.LoadPost: the `catch` branch (EditPost.jsx:28-29) is not
  modelled, because `getPostBySlug` returns `null` instead of throwing.
- String lengths count Dafny characters (Unicode scalar values). JavaScript
  counts UTF-16 code units, so a character outside the Basic Multilingual
  Plane counts 2 in the source and 1 here.
- MediaStore.ListImages: the store lists documents in creation order. The
  server's caps on `limit` are not modelled.
- MediaStore.DeleteImage: `deleteDocument` removes the documents with the
  given document id. "Only the first matching document is removed" holds when
  document ids are unique, which the store guarantees (`DocIdsUnique`).
- `ID.unique()` is a parameter. Permissions and query execution inside
  Appwrite are not modelled.
- Navbar, Auth, Landing, Dashboard, ViewPost, ConfirmDialog, LoadingOverlay,
  LoadingSpinner, App and the Tailwind config are presentation only.

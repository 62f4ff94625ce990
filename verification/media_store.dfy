/** The media-store client of `fronted/src/appwrite.js` over an abstract
    store: a set of stored file ids and the sequence of image metadata
    documents, in creation order. Every SDK call may fail; which calls fail is
    a parameter (a fault record), so a property quantified over all fault
    records holds whichever calls fail. `ID.unique()` becomes a caller-chosen
    id; a call with an id already in use fails, as the store refuses it. */
module MediaStore {
  import opened Wrappers
  import opened Text

  type UserId = string
  type FileId = string
  type DocId = string

  /** A browser `File` handed to the upload: its name, MIME type and size in bytes. */
  datatype BrowserFile = BrowserFile(name: string, mimeType: string, size: nat)

  /** A document of the image metadata collection. */
  datatype ImageDoc = ImageDoc(docId: DocId, fileId: FileId, userId: UserId, name: string)

  /** One element of what `listImages` returns: `{ $id: doc.fileId, name: doc.name }`. */
  datatype ImageEntry = ImageEntry(fileId: FileId, name: string)

  datatype Store = Store(files: set<FileId>, docs: seq<ImageDoc>)

  function DocIds(docs: seq<ImageDoc>): seq<DocId> {
    seq(|docs|, i requires 0 <= i < |docs| => docs[i].docId)
  }

  /** Document ids are unique in the collection (the store assigns them). */
  predicate DocIdsUnique(docs: seq<ImageDoc>) {
    forall i, j :: 0 <= i < j < |docs| ==> docs[i].docId != docs[j].docId
  }

  // ---------------------------------------------------------------------------
  // uploadImage
  // ---------------------------------------------------------------------------

  /** Which of the two writes of an upload fail. */
  datatype UploadFaults = UploadFaults(createFileFails: bool, createDocFails: bool)

  /** The store after an upload, and the `$id` of the returned file (`null` is `None`). */
  datatype Uploaded = Uploaded(store: Store, file: Option<FileId>)

  /** `uploadImage(file, userId)`: store the file, then write a document that
      links it to the user under the file's full original name; `null` on any
      failure, with no rollback of a file already stored. */
  function UploadImage(st: Store, file: BrowserFile, userId: UserId,
                       fileId: FileId, docId: DocId, faults: UploadFaults): (r: Uploaded)
    ensures r.file.Some? <==>
              !faults.createFileFails && fileId !in st.files
              && !faults.createDocFails && docId !in DocIds(st.docs)
    ensures r.file.Some? ==>
              && r.file.value == fileId
              && r.store.files == st.files + {fileId}
              && r.store.docs == st.docs + [ImageDoc(docId, fileId, userId, file.name)]
    ensures r.file.None? ==> r.store.docs == st.docs
    ensures faults.createFileFails ==> r.store == st
    ensures r.store.files == st.files || r.store.files == st.files + {fileId}
    ensures DocIdsUnique(st.docs) ==> DocIdsUnique(r.store.docs)
  {
    if faults.createFileFails || fileId in st.files then
      Uploaded(st, None)
    else
      var stored := st.(files := st.files + {fileId});
      if faults.createDocFails || docId in DocIds(st.docs) then
        Uploaded(stored, None)
      else
        var doc := ImageDoc(docId, fileId, userId, file.name);
        assert forall i :: 0 <= i < |st.docs| ==> DocIds(st.docs)[i] == st.docs[i].docId;
        Uploaded(stored.(docs := st.docs + [doc]), Some(fileId))
  }

  /** A failed document write leaves the freshly stored file behind: the upload
      reports `null` but the store has gained the file and no document for it. */
  lemma UploadLeavesOrphanFile(st: Store, file: BrowserFile, userId: UserId,
                               fileId: FileId, docId: DocId)
    requires fileId !in st.files
    ensures var r := UploadImage(st, file, userId, fileId, docId, UploadFaults(false, true));
            && r.file == None
            && fileId in r.store.files
            && r.store.docs == st.docs
  {
  }

  // ---------------------------------------------------------------------------
  // getImageUrl
  // ---------------------------------------------------------------------------

  const ImageUrlPrefix: string := "https://imagekitbackend.vercel.app/image/"

  /** `getImageUrl(fileId)`: the proxy endpoint for the file. */
  function ImageUrl(fileId: FileId): (url: string)
    ensures StartsWith(url, ImageUrlPrefix)
    ensures |url| == |ImageUrlPrefix| + |fileId|
  {
    ImageUrlPrefix + fileId
  }

  /** The file id a proxy URL designates, if it is one. */
  function FileIdOfUrl(url: string): Option<FileId> {
    if StartsWith(url, ImageUrlPrefix) then Some(url[|ImageUrlPrefix|..]) else None
  }

  /** The URL names the file it was built from, so distinct files get distinct URLs. */
  lemma ImageUrlRoundTrip(fileId: FileId)
    ensures FileIdOfUrl(ImageUrl(fileId)) == Some(fileId)
  {
    assert (ImageUrlPrefix + fileId)[|ImageUrlPrefix|..] == fileId;
  }

  lemma ImageUrlInjective(a: FileId, b: FileId)
    ensures ImageUrl(a) == ImageUrl(b) ==> a == b
  {
    ImageUrlRoundTrip(a);
    ImageUrlRoundTrip(b);
  }

  // ---------------------------------------------------------------------------
  // listImages
  // ---------------------------------------------------------------------------

  const DefaultLimit: nat := 9
  const DefaultOffset: nat := 0

  /** `Query.equal('userId', userId)` */
  function UserDocs(docs: seq<ImageDoc>, userId: UserId): seq<ImageDoc> {
    Filter(docs, (d: ImageDoc) => d.userId == userId)
  }

  /** `Query.offset(offset)` then `Query.limit(limit)`. */
  function Window<T>(s: seq<T>, limit: nat, offset: nat): (r: seq<T>)
    ensures |r| <= limit
    ensures offset >= |s| ==> r == []
    ensures offset < |s| ==> |r| == if |s| - offset < limit then |s| - offset else limit
    ensures offset < |s| ==> r == s[offset..offset + |r|]
  {
    if offset >= |s| then []
    else if |s| - offset <= limit then s[offset..]
    else s[offset..offset + limit]
  }

  /** `documents.map(doc => ({ $id: doc.fileId, name: doc.name }))` */
  function Entries(docs: seq<ImageDoc>): (r: seq<ImageEntry>)
    ensures |r| == |docs|
  {
    seq(|docs|, i requires 0 <= i < |docs| => ImageEntry(docs[i].fileId, docs[i].name))
  }

  /** `listImages(userId, limit, offset)`: one page of the user's documents,
      projected to file id and name; `[]` when the query fails. */
  function ListImages(st: Store, userId: UserId, limit: nat, offset: nat, fails: bool): (r: seq<ImageEntry>)
    ensures |r| <= limit
    ensures fails ==> r == []
    ensures forall i :: 0 <= i < |r| ==>
              exists k :: 0 <= k < |st.docs| && st.docs[k].userId == userId
                          && r[i] == ImageEntry(st.docs[k].fileId, st.docs[k].name)
  {
    if fails then []
    else
      var page := Window(UserDocs(st.docs, userId), limit, offset);
      assert forall i :: 0 <= i < |page| ==> page[i] in st.docs && page[i].userId == userId;
      Entries(page)
  }

  /** `listImages(userId)` with its default arguments, as the gallery calls it. */
  function ListImagesDefault(st: Store, userId: UserId, fails: bool): (r: seq<ImageEntry>)
    ensures |r| <= DefaultLimit
    ensures fails ==> r == []
    ensures !fails ==> (var all := Entries(UserDocs(st.docs, userId));
                        r == (if |all| <= DefaultLimit then all else all[..DefaultLimit]))
  {
    var d := UserDocs(st.docs, userId);
    assert d[0..] == d;
    ListImages(st, userId, DefaultLimit, DefaultOffset, fails)
  }

  /** With a limit covering all of them, a listing shows every document of the
      user, in collection order. */
  lemma ListAllUserImages(st: Store, userId: UserId, limit: nat)
    requires limit >= |UserDocs(st.docs, userId)|
    ensures ListImages(st, userId, limit, 0, false) == Entries(UserDocs(st.docs, userId))
    ensures forall k :: 0 <= k < |st.docs| && st.docs[k].userId == userId ==>
              ImageEntry(st.docs[k].fileId, st.docs[k].name) in ListImages(st, userId, limit, 0, false)
  {
    var u := UserDocs(st.docs, userId);
    assert Window(u, limit, 0) == u by {
      assert u[0..|u|] == u;
    }
    FilterKeepsKept(st.docs, (d: ImageDoc) => d.userId == userId);
    forall k | 0 <= k < |st.docs| && st.docs[k].userId == userId
      ensures ImageEntry(st.docs[k].fileId, st.docs[k].name) in Entries(u)
    {
      EntryOfMember(u, st.docs[k]);
    }
  }

  /** A listed document's entry is in the projection. */
  lemma EntryOfMember(docs: seq<ImageDoc>, d: ImageDoc)
    requires d in docs
    ensures ImageEntry(d.fileId, d.name) in Entries(docs)
  {
    var j :| 0 <= j < |docs| && docs[j] == d;
    assert Entries(docs)[j] == ImageEntry(d.fileId, d.name);
  }

  /** Consecutive pages tile the listing: the page of `a` at offset 0 followed
      by the page of `b` at offset `a` is the page of `a + b` at offset 0. */
  lemma ListPagesConcatenate(st: Store, userId: UserId, a: nat, b: nat)
    ensures ListImages(st, userId, a, 0, false) + ListImages(st, userId, b, a, false)
            == ListImages(st, userId, a + b, 0, false)
  {
    var u := UserDocs(st.docs, userId);
    WindowsTile(u, a, b);
    EntriesAppend(Window(u, a, 0), Window(u, b, a));
  }

  /** Two adjacent windows make up the window covering both. */
  lemma WindowsTile<T>(u: seq<T>, a: nat, b: nat)
    ensures Window(u, a, 0) + Window(u, b, a) == Window(u, a + b, 0)
  {
    if a < |u| {
      var m := if |u| < a + b then |u| else a + b;
      assert u[0..m] == u[0..a] + u[a..m];
    }
  }

  /** Projecting a concatenation projects each part. */
  lemma EntriesAppend(a: seq<ImageDoc>, b: seq<ImageDoc>)
    ensures Entries(a + b) == Entries(a) + Entries(b)
  {
    var l, r := Entries(a + b), Entries(a) + Entries(b);
    forall i | 0 <= i < |l| ensures l[i] == r[i] {
      if i < |a| { assert (a + b)[i] == a[i]; } else { assert (a + b)[i] == b[i - |a|]; }
    }
  }

  /** After a successful upload, a listing from offset 0 long enough to hold all
      of the user's images ends with the new file under its original name. */
  lemma UploadThenList(st: Store, file: BrowserFile, userId: UserId,
                       fileId: FileId, docId: DocId, faults: UploadFaults, limit: nat)
    requires UploadImage(st, file, userId, fileId, docId, faults).file.Some?
    requires limit > |UserDocs(st.docs, userId)|
    ensures var listed := ListImages(UploadImage(st, file, userId, fileId, docId, faults).store,
                                     userId, limit, 0, false);
            && |listed| == |UserDocs(st.docs, userId)| + 1
            && listed[|listed| - 1] == ImageEntry(fileId, file.name)
  {
    var doc := ImageDoc(docId, fileId, userId, file.name);
    var keep := (d: ImageDoc) => d.userId == userId;
    FilterAppend(st.docs, [doc], keep);
    assert Filter([doc], keep) == [doc];
    ListAllUserImages(UploadImage(st, file, userId, fileId, docId, faults).store, userId, limit);
  }

  // ---------------------------------------------------------------------------
  // deleteImage
  // ---------------------------------------------------------------------------

  /** Which of the three calls of a deletion fail. */
  datatype DeleteFaults = DeleteFaults(deleteFileFails: bool, listDocsFails: bool, deleteDocFails: bool)

  const NoDeleteFaults := DeleteFaults(false, false, false)

  const DeleteErrorMessage: string := "Failed to delete image and its data"

  /** `deleteImage` either returns a boolean or throws an `Error` with a message. */
  datatype DeleteResult = Returned(value: bool) | Threw(message: string)

  datatype Deleted = Deleted(store: Store, result: DeleteResult)

  /** Index of the first document about `fileId`: `documents[0]` of the
      `Query.equal('fileId', fileId)` listing. */
  function FirstDocOf(docs: seq<ImageDoc>, fileId: FileId): (r: Option<nat>)
    ensures r.None? <==> forall k :: 0 <= k < |docs| ==> docs[k].fileId != fileId
    ensures r.Some? ==> r.value < |docs| && docs[r.value].fileId == fileId
                        && forall k :: 0 <= k < r.value ==> docs[k].fileId != fileId
  {
    if docs == [] then None
    else if docs[0].fileId == fileId then Some(0)
    else match FirstDocOf(docs[1..], fileId)
      case None => None
      case Some(k) => Some(k + 1)
  }

  /** A document appended behind every other one is found only when no
      earlier document is about the same file. */
  lemma {:induction false} FirstDocOfAppend(docs: seq<ImageDoc>, d: ImageDoc, fileId: FileId)
    requires forall k :: 0 <= k < |docs| ==> docs[k].fileId != fileId
    requires d.fileId == fileId
    ensures FirstDocOf(docs + [d], fileId) == Some(|docs|)
  {
    if docs != [] {
      assert (docs + [d])[1..] == docs[1..] + [d];
      FirstDocOfAppend(docs[1..], d, fileId);
    }
  }

  /** `databases.deleteDocument(..., docId)` */
  function DeleteDocument(docs: seq<ImageDoc>, docId: DocId): seq<ImageDoc> {
    Filter(docs, (d: ImageDoc) => d.docId != docId)
  }

  /** `deleteImage(fileId)`: delete the file, then look the documents up by
      file id and delete the first one if there is one; `true` once the file is
      gone, and one fixed error for any failing call. */
  function DeleteImage(st: Store, fileId: FileId, faults: DeleteFaults): (r: Deleted)
    ensures r.result.Threw? ==> r.result.message == DeleteErrorMessage
    ensures r.result.Returned? ==> r.result.value
    ensures (faults.deleteFileFails || fileId !in st.files) <==> r.store == st && r.result.Threw?
    ensures r.store != st ==> r.store.files == st.files - {fileId}
    ensures r.store.docs == st.docs || (r.result.Returned? && FirstDocOf(st.docs, fileId).Some?)
    ensures (r.result.Returned? && FirstDocOf(st.docs, fileId).None?) ==> r.store.docs == st.docs
  {
    if faults.deleteFileFails || fileId !in st.files then
      Deleted(st, Threw(DeleteErrorMessage))
    else
      var removed := st.(files := st.files - {fileId});
      assert fileId in st.files && fileId !in removed.files;
      if faults.listDocsFails then
        Deleted(removed, Threw(DeleteErrorMessage))
      else match FirstDocOf(st.docs, fileId)
        case None => Deleted(removed, Returned(true))
        case Some(k) =>
          if faults.deleteDocFails then Deleted(removed, Threw(DeleteErrorMessage))
          else Deleted(removed.(docs := DeleteDocument(st.docs, st.docs[k].docId)), Returned(true))
  }

  /** With unique document ids, a successful deletion removes exactly the first
      document about the file: every other document, including further ones
      about the same file, stays in place. */
  lemma DeleteRemovesFirstDocOnly(st: Store, fileId: FileId)
    requires DocIdsUnique(st.docs)
    requires fileId in st.files
    requires FirstDocOf(st.docs, fileId).Some?
    ensures var k := FirstDocOf(st.docs, fileId).value;
            var r := DeleteImage(st, fileId, NoDeleteFaults);
            && r.result == Returned(true)
            && r.store.docs == st.docs[..k] + st.docs[k + 1..]
            && DocIdsUnique(r.store.docs)
  {
    var k := FirstDocOf(st.docs, fileId).value;
    var keep := (d: ImageDoc) => d.docId != st.docs[k].docId;
    assert forall i :: 0 <= i < |st.docs| && i != k ==> keep(st.docs[i]);
    FilterDropsOne(st.docs, k, keep);
    RemoveAtKeepsIdsUnique(st.docs, k);
  }

  lemma RemoveAtKeepsIdsUnique(docs: seq<ImageDoc>, k: nat)
    requires k < |docs| && DocIdsUnique(docs)
    ensures DocIdsUnique(docs[..k] + docs[k + 1..])
  {
    var rest := docs[..k] + docs[k + 1..];
    forall i, j | 0 <= i < j < |rest| ensures rest[i].docId != rest[j].docId {
      var i' := if i < k then i else i + 1;
      var j' := if j < k then j else j + 1;
      assert rest[i] == docs[i'] && rest[j] == docs[j'];
    }
  }

  /** The file is removed and the deletion reports success even when no
      document refers to it; the documents are then left as they were. */
  lemma DeleteWithoutDocSucceeds(st: Store, fileId: FileId)
    requires fileId in st.files
    requires forall k :: 0 <= k < |st.docs| ==> st.docs[k].fileId != fileId
    ensures DeleteImage(st, fileId, NoDeleteFaults)
            == Deleted(Store(st.files - {fileId}, st.docs), Returned(true))
  {
  }

  /** A failure after the file is gone leaves the documents behind: the store
      has lost the file, kept every document, and the call throws. */
  lemma DeletePartialFailure(st: Store, fileId: FileId, faults: DeleteFaults)
    requires fileId in st.files && !faults.deleteFileFails
    requires faults.listDocsFails || (faults.deleteDocFails && FirstDocOf(st.docs, fileId).Some?)
    ensures var r := DeleteImage(st, fileId, faults);
            r.result.Threw? && r.store == Store(st.files - {fileId}, st.docs)
  {
  }

  /** Deleting a freshly uploaded image restores the store it was uploaded to. */
  lemma UploadThenDeleteRestores(st: Store, file: BrowserFile, userId: UserId,
                                 fileId: FileId, docId: DocId, faults: UploadFaults)
    requires DocIdsUnique(st.docs)
    requires forall k :: 0 <= k < |st.docs| ==> st.docs[k].fileId != fileId
    requires UploadImage(st, file, userId, fileId, docId, faults).file.Some?
    ensures DeleteImage(UploadImage(st, file, userId, fileId, docId, faults).store, fileId, NoDeleteFaults)
            == Deleted(st, Returned(true))
  {
    var up := UploadImage(st, file, userId, fileId, docId, faults).store;
    var n := |st.docs|;
    FirstDocOfAppend(st.docs, ImageDoc(docId, fileId, userId, file.name), fileId);
    DeleteRemovesFirstDocOnly(up, fileId);
    assert up.docs[..n] == st.docs;
    assert (st.files + {fileId}) - {fileId} == st.files;
  }
}

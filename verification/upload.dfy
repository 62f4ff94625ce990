/** The upload form of `fronted/src/components/Upload.jsx`: file validation,
    derivation of the display name from the file name, the guards before an
    upload and what is emitted when it succeeds. The component's state is the
    held file, the editable name and the inline error message; toasts, the
    simulated progress bar and the drag highlight are not modelled. */
module Upload {
  import opened Wrappers
  import opened Text
  import MediaStore
  import ImageList

  type BrowserFile = MediaStore.BrowserFile

  const MaxFileSize: nat := 5 * 1024 * 1024
  const MaxNameLength: nat := 50

  const NotAnImageMessage: string := "Please upload an image file"
  const TooLargeMessage: string := "File size should be less than 5MB"
  const NothingDroppedMessage: string := "Please drop a valid image file"
  const NoFileMessage: string := "Please select an image file"
  const NoNameMessage: string := "Please enter a name for the image"
  const NameTooLongMessage: string := "Image name should be less than 50 characters"

  /** `validateFile`: accepted, or refused with the message it shows. */
  datatype Validation = Accepted | Refused(message: string)

  function ValidateFile(f: BrowserFile): (v: Validation)
    ensures v == Accepted <==> StartsWith(f.mimeType, "image/") && f.size <= MaxFileSize
    ensures !StartsWith(f.mimeType, "image/") ==> v == Refused(NotAnImageMessage)
    ensures StartsWith(f.mimeType, "image/") && f.size > MaxFileSize ==> v == Refused(TooLargeMessage)
  {
    if !StartsWith(f.mimeType, "image/") then Refused(NotAnImageMessage)
    else if f.size > MaxFileSize then Refused(TooLargeMessage)
    else Accepted
  }

  /** The size bound is inclusive: exactly 5 MiB passes, one byte more does not,
      and a six MiB image is refused. */
  lemma SizeBoundary(name: string)
    ensures ValidateFile(MediaStore.BrowserFile(name, "image/png", 5242880)) == Accepted
    ensures ValidateFile(MediaStore.BrowserFile(name, "image/png", 5242881)) == Refused(TooLargeMessage)
    ensures ValidateFile(MediaStore.BrowserFile(name, "image/png", 6 * 1024 * 1024)) == Refused(TooLargeMessage)
  {
    assert "image/png"[..|"image/"|] == "image/";
  }

  /** The type check comes first: an oversized text file reports the type. */
  lemma TypeCheckedBeforeSize(name: string)
    ensures ValidateFile(MediaStore.BrowserFile(name, "text/plain", 6 * 1024 * 1024)) == Refused(NotAnImageMessage)
  {
    assert "text/plain"[..|"image/"|] != "image/" by {
      assert "text/plain"[0] != "image/"[0];
    }
  }

  /** The display name proposed for a file: `name.split('.')[0]`, cut to 50 characters. */
  function DeriveName(fileName: string): (r: string)
    ensures |r| <= MaxNameLength
    ensures StartsWith(fileName, r)
    ensures '.' !in r
    ensures |BeforeFirst(fileName, '.')| <= MaxNameLength ==> r == BeforeFirst(fileName, '.')
    ensures |BeforeFirst(fileName, '.')| > MaxNameLength ==> |r| == MaxNameLength
  {
    Take(BeforeFirst(fileName, '.'), MaxNameLength)
  }

  /** The derived name stops at the first dot; a leading dot leaves nothing. */
  lemma DeriveNameExamples()
    ensures DeriveName("a.b.png") == "a"
    ensures DeriveName(".png") == ""
    ensures DeriveName("photo") == "photo"
  {
    assert BeforeFirst("a.b.png", '.') == "a" by {
      assert BeforeFirst("a.b.png"[1..], '.') == [];
    }
    assert BeforeFirst("photo", '.') == "photo" by {
      assert "photo"[1..] == "hoto";
      assert "hoto"[1..] == "oto";
      assert "oto"[1..] == "to";
      assert "to"[1..] == "o";
      assert "o"[1..] == "";
    }
  }

  /** The form: the file held (`null` is `None`), the name field and the error line. */
  datatype Form = Form(file: Option<BrowserFile>, name: string, error: string)

  const EmptyForm := Form(None, "", "")

  /** `handleDrop`: clear the error; complain when nothing was dropped; hold
      a valid file with its derived name, or show why it was refused. */
  function HandleDrop(form: Form, dropped: Option<BrowserFile>): (r: Form)
    ensures dropped.None? ==> r == form.(error := NothingDroppedMessage)
    ensures dropped.Some? && ValidateFile(dropped.value).Refused? ==>
              r == form.(error := ValidateFile(dropped.value).message)
    ensures dropped.Some? && ValidateFile(dropped.value) == Accepted ==>
              r == Form(dropped, DeriveName(dropped.value.name), "")
  {
    var cleared := form.(error := "");
    match dropped
    case None => cleared.(error := NothingDroppedMessage)
    case Some(f) => HoldIfValid(cleared, f)
  }

  /** `handleFileSelect`: like a drop, except that an empty selection leaves
      the form as it was with the error cleared. */
  function HandleFileSelect(form: Form, selected: Option<BrowserFile>): (r: Form)
    ensures selected.None? ==> r == form.(error := "")
    ensures selected.Some? && ValidateFile(selected.value).Refused? ==>
              r == form.(error := ValidateFile(selected.value).message)
    ensures selected.Some? && ValidateFile(selected.value) == Accepted ==>
              r == Form(selected, DeriveName(selected.value.name), "")
  {
    var cleared := form.(error := "");
    match selected
    case None => cleared
    case Some(f) => HoldIfValid(cleared, f)
  }

  /** The shared branch of drop and select once a file is present. */
  function HoldIfValid(cleared: Form, f: BrowserFile): Form {
    match ValidateFile(f)
    case Accepted => cleared.(file := Some(f), name := DeriveName(f.name))
    case Refused(message) => cleared.(error := message)
  }

  /** Dropping and selecting a file hold it under the same name. */
  lemma DropAndSelectAgree(form: Form, f: BrowserFile)
    ensures HandleDrop(form, Some(f)) == HandleFileSelect(form, Some(f))
  {
  }

  /** A missing or refused file never replaces the file or name already held. */
  lemma RejectedFileKeepsForm(form: Form, f: Option<BrowserFile>)
    requires f.None? || ValidateFile(f.value).Refused?
    ensures HandleDrop(form, f).file == form.file && HandleDrop(form, f).name == form.name
    ensures HandleFileSelect(form, f).file == form.file && HandleFileSelect(form, f).name == form.name
  {
  }

  /** The name field's `onChange`: any text, with the error cleared. */
  function EditName(form: Form, value: string): (r: Form)
    ensures r.name == value && r.file == form.file && r.error == ""
  {
    form.(error := "", name := value)
  }

  /** Everything a click on the upload button produces. */
  datatype UploadStep = UploadStep(
    form: Form,
    store: MediaStore.Store,
    emitted: Option<ImageList.Image>,   // the argument of `onUpload`, if it was called
    refusal: Option<string>)            // the message when a guard stopped the upload

  /** `handleUpload`: refuse, in this order, when no file is held, when the
      name is blank and when it is longer than 50; otherwise upload the file
      and, if the store returned it, emit `{ id, name, url }` and clear the form.
      The store's fresh ids and failures are parameters. */
  function HandleUpload(form: Form, userId: MediaStore.UserId, store: MediaStore.Store,
                        fileId: MediaStore.FileId, docId: MediaStore.DocId,
                        faults: MediaStore.UploadFaults): (r: UploadStep)
    ensures r.refusal.Some? <==> form.file.None? || IsBlank(form.name) || |form.name| > MaxNameLength
    ensures r.refusal.Some? ==> r.form == form && r.store == store && r.emitted.None?
    ensures form.file.None? ==> r.refusal == Some(NoFileMessage)
    ensures form.file.Some? && IsBlank(form.name) ==> r.refusal == Some(NoNameMessage)
    ensures form.file.Some? && !IsBlank(form.name) && |form.name| > MaxNameLength ==>
              r.refusal == Some(NameTooLongMessage)
    ensures r.emitted.Some? ==>
              && r.emitted.value.name == form.name
              && r.emitted.value.url == MediaStore.ImageUrl(r.emitted.value.id)
              && r.emitted.value.id == fileId
              && r.form == Form(None, "", "")
    ensures r.refusal.None? && r.emitted.None? ==> r.form == form.(error := "")
  {
    if form.file.None? then
      UploadStep(form, store, None, Some(NoFileMessage))
    else if IsBlank(form.name) then
      UploadStep(form, store, None, Some(NoNameMessage))
    else if |form.name| > MaxNameLength then
      UploadStep(form, store, None, Some(NameTooLongMessage))
    else
      var cleared := form.(error := "");
      var up := MediaStore.UploadImage(store, form.file.value, userId, fileId, docId, faults);
      match up.file
      case Some(id) =>
        var image := ImageList.Image(id, form.name, MediaStore.ImageUrl(id));
        UploadStep(cleared.(file := None, name := ""), up.store, Some(image), None)
      case None =>
        UploadStep(cleared, up.store, None, None)
  }

  /** Something is emitted exactly when the guards pass and the store returns
      the file; the store then records the file's full original name while the
      emitted image carries the name typed into the form. */
  lemma EmitIffStoreReturns(form: Form, userId: MediaStore.UserId, store: MediaStore.Store,
                            fileId: MediaStore.FileId, docId: MediaStore.DocId,
                            faults: MediaStore.UploadFaults)
    requires form.file.Some? && !IsBlank(form.name) && |form.name| <= MaxNameLength
    ensures var r := HandleUpload(form, userId, store, fileId, docId, faults);
            var up := MediaStore.UploadImage(store, form.file.value, userId, fileId, docId, faults);
            && (r.emitted.Some? <==> up.file.Some?)
            && r.store == up.store
            && (r.emitted.Some? ==>
                  r.store.docs[|r.store.docs| - 1]
                  == MediaStore.ImageDoc(docId, fileId, userId, form.file.value.name))
  {
  }

  /** The form never holds a file that validation refuses. */
  predicate HeldValid(form: Form) {
    form.file.Some? ==> ValidateFile(form.file.value) == Accepted
  }

  /** Every handler of the form keeps the held file valid. */
  lemma HandlersKeepHeldValid(form: Form, f: Option<BrowserFile>, value: string,
                              userId: MediaStore.UserId, store: MediaStore.Store,
                              fileId: MediaStore.FileId, docId: MediaStore.DocId,
                              faults: MediaStore.UploadFaults)
    requires HeldValid(form)
    ensures HeldValid(HandleDrop(form, f))
    ensures HeldValid(HandleFileSelect(form, f))
    ensures HeldValid(EditName(form, value))
    ensures HeldValid(HandleUpload(form, userId, store, fileId, docId, faults).form)
  {
  }

  /** A user action on the form: a drop, a selection, or typing a name. */
  datatype FormEvent = Drop(dropped: Option<BrowserFile>) | Select(selected: Option<BrowserFile>) | Rename(value: string)

  function ApplyEvent(form: Form, event: FormEvent): Form {
    match event
    case Drop(f) => HandleDrop(form, f)
    case Select(f) => HandleFileSelect(form, f)
    case Rename(v) => EditName(form, v)
  }

  /** One user action keeps the held file valid. */
  lemma ApplyEventKeepsHeldValid(form: Form, event: FormEvent)
    requires HeldValid(form)
    ensures HeldValid(ApplyEvent(form, event))
  {
  }

  /** The events applied in order. */
  function ReplayEvents(form: Form, events: seq<FormEvent>): Form
    decreases |events|
  {
    if events == [] then form else ReplayEvents(ApplyEvent(form, events[0]), events[1..])
  }

  /** Whatever the user does, the form only ever holds a valid file. */
  lemma {:induction false} EventsKeepHeldValid(form: Form, events: seq<FormEvent>)
    requires HeldValid(form)
    ensures HeldValid(ReplayEvents(form, events))
    decreases |events|
  {
    if events != [] {
      ApplyEventKeepsHeldValid(form, events[0]);
      EventsKeepHeldValid(ApplyEvent(form, events[0]), events[1..]);
    }
  }

  /** Starting from the empty form, any upload that gets past the guards sends
      an image of at most 5 MiB to the store: a non-image or oversized file
      never reaches it. */
  lemma OnlyValidFilesReachStore(events: seq<FormEvent>, userId: MediaStore.UserId,
                                 store: MediaStore.Store, fileId: MediaStore.FileId,
                                 docId: MediaStore.DocId, faults: MediaStore.UploadFaults)
    ensures var form := ReplayEvents(EmptyForm, events);
            HandleUpload(form, userId, store, fileId, docId, faults).refusal.None? ==>
              && form.file.Some?
              && StartsWith(form.file.value.mimeType, "image/")
              && form.file.value.size <= MaxFileSize
  {
    EventsKeepHeldValid(EmptyForm, events);
  }

  /** `onUpload` of the upload page: the emitted image is appended to `images`. */
  function OnUpload(images: seq<ImageList.Image>, emitted: Option<ImageList.Image>): (r: seq<ImageList.Image>)
    ensures emitted.None? ==> r == images
    ensures emitted.Some? ==> |r| == |images| + 1 && r[..|images|] == images && r[|images|] == emitted.value
  {
    match emitted
    case None => images
    case Some(img) => images + [img]
  }

  /** End to end: after a successful upload the list shows the new image, and
      when its id is new to the page and to storage it is shown as emitted. */
  lemma UploadedImageIsListed(form: Form, userId: MediaStore.UserId, store: MediaStore.Store,
                              fileId: MediaStore.FileId, docId: MediaStore.DocId,
                              faults: MediaStore.UploadFaults,
                              images: seq<ImageList.Image>, list: ImageList.ListState)
    requires HandleUpload(form, userId, store, fileId, docId, faults).emitted.Some?
    ensures var img := HandleUpload(form, userId, store, fileId, docId, faults).emitted.value;
            var shown := ImageList.OnImages(list, OnUpload(images, Some(img))).shown;
            img.id in ImageList.Ids(shown)
            && (img.id !in ImageList.Ids(images) && img.id !in ImageList.Ids(list.storage) ==> img in shown)
  {
    var img := HandleUpload(form, userId, store, fileId, docId, faults).emitted.value;
    var front := OnUpload(images, Some(img));
    assert front == images + [img];
    assert ImageList.OnImages(list, front).shown == ImageList.Merge(front, list.storage);
    ImageList.IdsAppend(images, [img]);
    assert ImageList.Ids(front)[|images|] == img.id;
    ImageList.MergeKeepsEveryId(images + [img], list.storage);
    if img.id !in ImageList.Ids(images) && img.id !in ImageList.Ids(list.storage) {
      ImageList.MergeShowsFreshImage(images, img, list.storage);
    }
  }
}

/** The text-post forms of `fronted/src/pages/CreatePost.jsx` and
    `fronted/src/pages/EditPost.jsx`: the length-capped change handlers, the
    character counter, the ordered submit guards, the initial load of the edit
    form and what each submit sends and where it navigates. The backend's
    answers are parameters; toasts and the loading spinner are not modelled. */
module PostEditor {
  import opened Wrappers
  import opened Text
  import opened Posts

  const MaxTitleLength: nat := 256
  const MaxContentLength: nat := 20000

  /** The fields both forms keep: title, content and the shown character count. */
  datatype Editor = Editor(title: string, content: string, charCount: nat)

  const EmptyEditor := Editor("", "", 0)

  /** `handleTitleChange`: take the new title only when it fits. */
  function TitleChange(e: Editor, value: string): (r: Editor)
    ensures |value| <= MaxTitleLength ==> r == e.(title := value)
    ensures |value| > MaxTitleLength ==> r == e
  {
    if |value| <= MaxTitleLength then e.(title := value) else e
  }

  /** `handleContentChange`: count the attempted text, take it only when it fits. */
  function ContentChange(e: Editor, value: string): (r: Editor)
    ensures r.charCount == |value| && r.title == e.title
    ensures |value| <= MaxContentLength ==> r.content == value
    ensures |value| > MaxContentLength ==> r.content == e.content
  {
    var counted := e.(charCount := |value|);
    if |value| <= MaxContentLength then counted.(content := value) else counted
  }

  /** Title and content within their caps. */
  predicate WithinLimits(e: Editor) {
    |e.title| <= MaxTitleLength && |e.content| <= MaxContentLength
  }

  /** A change event of either field. */
  datatype Input = TitleInput(value: string) | ContentInput(value: string)

  function Apply(e: Editor, input: Input): Editor {
    match input
    case TitleInput(v) => TitleChange(e, v)
    case ContentInput(v) => ContentChange(e, v)
  }

  /** The inputs applied in order. */
  function Replay(e: Editor, inputs: seq<Input>): Editor
    decreases |inputs|
  {
    if inputs == [] then e else Replay(Apply(e, inputs[0]), inputs[1..])
  }

  /** No change event takes a field past its cap. */
  lemma {:induction false} ReplayStaysWithinLimits(e: Editor, inputs: seq<Input>)
    requires WithinLimits(e)
    ensures WithinLimits(Replay(e, inputs))
    decreases |inputs|
  {
    if inputs != [] {
      ReplayStaysWithinLimits(Apply(e, inputs[0]), inputs[1..]);
    }
  }

  /** The create form starts empty, so whatever is typed it stays within its caps. */
  lemma CreateFormWithinLimits(inputs: seq<Input>)
    ensures WithinLimits(Replay(EmptyEditor, inputs))
  {
    ReplayStaysWithinLimits(EmptyEditor, inputs);
  }

  /** The counter shows the rejected attempt: it can exceed the stored content. */
  lemma CounterRunsAhead(e: Editor, value: string)
    requires |value| > MaxContentLength && |e.content| <= MaxContentLength
    ensures ContentChange(e, value).charCount > |ContentChange(e, value).content|
  {
  }

  // ---------------------------------------------------------------------------
  // Submitting
  // ---------------------------------------------------------------------------

  /** Where a submit ends: refused by a guard, navigated away, or failed in the call. */
  datatype SubmitOutcome = Refused(message: string) | Navigated(path: string) | Failed(message: string)

  const NoTitleMessage: string := "Please enter a title"
  const NoContentMessage: string := "Please enter content"
  const ContentOverLimitMessage: string := "Content exceeds 20,000 characters limit"
  const CreateFailedMessage: string := "Failed to create post. Please try again."

  /** What `createPost` does when called: returns the stored post, or throws an
      error with a (possibly empty) message. */
  datatype CreateResponse = Created(post: Post) | CreateThrew(message: string)

  /** The arguments of the `createPost` call. */
  datatype CreateRequest = CreateRequest(title: string, content: string, userId: string)

  datatype CreateSubmit = CreateSubmit(request: Option<CreateRequest>, outcome: SubmitOutcome)

  /** `handleSubmit` of the create form. */
  function SubmitCreate(e: Editor, userId: string, response: CreateResponse): (r: CreateSubmit)
    ensures r.request.None? <==> r.outcome.Refused?
    ensures r.outcome.Refused? <==>
              IsBlank(e.title) || IsBlank(e.content) || |e.content| > MaxContentLength
    ensures IsBlank(e.title) ==> r.outcome == Refused(NoTitleMessage)
    ensures !IsBlank(e.title) && IsBlank(e.content) ==> r.outcome == Refused(NoContentMessage)
    ensures !IsBlank(e.title) && !IsBlank(e.content) && |e.content| > MaxContentLength ==>
              r.outcome == Refused(ContentOverLimitMessage)
    ensures r.request.Some? ==> r.request.value == CreateRequest(e.title, e.content, userId)
    ensures r.outcome.Navigated? <==> r.request.Some? && response.Created?
    ensures r.outcome.Navigated? ==> r.outcome.path == PostRoute(response.post.slug)
    ensures r.outcome.Failed? ==>
              r.outcome.message == if response.message == "" then CreateFailedMessage else response.message
  {
    if IsBlank(e.title) then CreateSubmit(None, Refused(NoTitleMessage))
    else if IsBlank(e.content) then CreateSubmit(None, Refused(NoContentMessage))
    else if |e.content| > MaxContentLength then CreateSubmit(None, Refused(ContentOverLimitMessage))
    else
      var request := Some(CreateRequest(e.title, e.content, userId));
      match response
      case Created(post) => CreateSubmit(request, Navigated(PostRoute(post.slug)))
      case CreateThrew(message) =>
        CreateSubmit(request, Failed(if message == "" then CreateFailedMessage else message))
  }

  /** The edit form after `loadPost`, and where it navigated if it did. */
  datatype Loaded = Loaded(editor: Editor, redirect: Option<string>)

  /** `loadPost`: without a post, go back to the user's posts and leave the
      fields alone; otherwise take the post's title and content as they are,
      with no length check, and count the content. */
  function LoadPost(e: Editor, found: Option<Post>): (r: Loaded)
    ensures found.None? ==> r == Loaded(e, Some(MyPostsRoute))
    ensures found.Some? ==> r.redirect.None?
    ensures found.Some? ==>
              && r.editor.title == found.value.title
              && r.editor.content == found.value.content
              && r.editor.charCount == |r.editor.content|
  {
    match found
    case None => Loaded(e, Some(MyPostsRoute))
    case Some(post) => Loaded(Editor(post.title, post.content, |post.content|), None)
  }

  const FillAllFieldsMessage: string := "Please fill in all fields"
  const UpdateFailedMessage: string := "Failed to update post"

  /** The `updatePost` call: the post's id and only its title and content. */
  datatype PostUpdate = PostUpdate(postId: PostId, title: string, content: string)

  datatype EditSubmit = EditSubmit(update: Option<PostUpdate>, outcome: SubmitOutcome)

  /** `handleSubmit` of the edit form: refuse blank fields; otherwise re-fetch
      the post by slug (`None` when there is none, where reading its `$id`
      throws), send the update and go to the post's page. */
  function SubmitEdit(e: Editor, slug: string, refetched: Option<Post>, updateSucceeds: bool): (r: EditSubmit)
    ensures r.outcome.Refused? <==> IsBlank(e.title) || IsBlank(e.content)
    ensures r.outcome.Refused? ==> r.outcome.message == FillAllFieldsMessage && r.update.None?
    ensures r.update.Some? <==> !r.outcome.Refused? && refetched.Some?
    ensures r.update.Some? ==> r.update.value == PostUpdate(refetched.value.id, e.title, e.content)
    ensures r.outcome.Navigated? <==> r.update.Some? && updateSucceeds
    ensures r.outcome.Navigated? ==> r.outcome.path == PostRoute(slug)
    ensures r.outcome.Failed? ==> r.outcome.message == UpdateFailedMessage
  {
    if IsBlank(e.title) || IsBlank(e.content) then
      EditSubmit(None, Refused(FillAllFieldsMessage))
    else match refetched
      case None => EditSubmit(None, Failed(UpdateFailedMessage))
      case Some(post) =>
        var update := PostUpdate(post.id, e.title, e.content);
        if updateSucceeds then EditSubmit(Some(update), Navigated(PostRoute(slug)))
        else EditSubmit(Some(update), Failed(UpdateFailedMessage))
  }

  /** Edit re-checks neither cap: a stored post over 20000 characters loads
      into the form and is sent back as it is, where the create form refuses it. */
  lemma EditSendsWhatCreateRefuses(post: Post, userId: string, response: CreateResponse)
    requires !IsBlank(post.title) && !IsBlank(post.content)
    requires |post.content| > MaxContentLength
    ensures var e := LoadPost(EmptyEditor, Some(post)).editor;
            && !WithinLimits(e)
            && SubmitEdit(e, post.slug, Some(post), true).update == Some(PostUpdate(post.id, post.title, post.content))
            && SubmitCreate(e, userId, response).outcome == Refused(ContentOverLimitMessage)
  {
  }

  /** Typing in the edit form keeps whatever caps the loaded post already met. */
  lemma EditFormWithinLimits(post: Post, inputs: seq<Input>)
    requires |post.title| <= MaxTitleLength && |post.content| <= MaxContentLength
    ensures WithinLimits(Replay(LoadPost(EmptyEditor, Some(post)).editor, inputs))
  {
    ReplayStaysWithinLimits(LoadPost(EmptyEditor, Some(post)).editor, inputs);
  }
}

/** The writer panel: a post-creation form whose images are checked locally,
    uploaded through a presigned URL and then referenced by the created post,
    plus a "My Posts" tab listing the writer's own posts. */
module WriterPanel {
  import opened Common

  datatype File = File(name: string, mime: string, size: int)

  const ValidTypes: seq<string> := ["image/jpeg", "image/png", "image/gif"]
  const MaxFileSize: int := 5 * 1024 * 1024

  const InvalidTypeMessage: string := "Invalid file type. Only JPEG, PNG, and GIF are allowed."
  const TooLargeMessage: string := "File size exceeds 5MB limit"
  const NoUploadUrlMessage: string := "Failed to get upload URL from backend"
  const UploadFailedPrefix: string := "Upload failed: "
  const RequiredFieldsMessage: string := "Please fill all required fields"
  const MissingImageMessage: string := "Please upload a post image"

  datatype Result<T> = Ok(value: T) | Err(message: string)

  /** The checks made before any request: the type is checked before the size,
      and a file of exactly 5 MiB passes. */
  function PreCheck(f: File): (r: Option<string>)
    ensures r.None? <==> f.mime in ValidTypes && f.size <= MaxFileSize
    ensures f.mime !in ValidTypes ==> r == Some(InvalidTypeMessage)
    ensures f.mime in ValidTypes && f.size > MaxFileSize ==> r == Some(TooLargeMessage)
  {
    if f.mime !in ValidTypes then Some(InvalidTypeMessage)
    else if f.size > MaxFileSize then Some(TooLargeMessage)
    else None
  }

  /** What the backend answered to the presigned-URL request; an empty
      `uploadUrl` stands for a missing one. */
  datatype PresignReply = PresignThrew(message: string) | Presigned(uploadUrl: string, publicUrl: string)

  /** What object storage answered to the PUT; `status` is the status code as
      text. */
  datatype PutReply = PutThrew(message: string) | PutAnswered(ok: bool, status: string, body: string)

  /** The network's behaviour for one upload. */
  datatype Network = Network(presign: PresignReply, put: PutReply)

  datatype Request = PresignRequest(fileName: string, fileType: string) | PutRequest(url: string, contentType: string)

  datatype Upload = Upload(result: Result<string>, requests: seq<Request>)

  /** The body of `handleFileUpload`'s `try` block, before error wrapping. */
  function UploadSteps(f: File, net: Network): (u: Upload)
    ensures PreCheck(f).Some? ==> u == Upload(Err(PreCheck(f).value), [])
    ensures u.result.Ok? ==> net.presign.Presigned? && u.result.value == net.presign.publicUrl
  {
    if PreCheck(f).Some? then Upload(Err(PreCheck(f).value), [])
    else
      var ask := [PresignRequest(f.name, f.mime)];
      match net.presign
      case PresignThrew(m) => Upload(Err(m), ask)
      case Presigned(url, publicUrl) =>
        if url == "" then Upload(Err(NoUploadUrlMessage), ask)
        else
          var sent := ask + [PutRequest(url, f.mime)];
          match net.put
          case PutThrew(m) => Upload(Err(m), sent)
          case PutAnswered(ok, status, body) =>
            if !ok then Upload(Err("S3 upload failed: " + status + " - " + body), sent)
            else Upload(Ok(publicUrl), sent)
  }

  /** `handleFileUpload`: every failure, local or remote, is re-thrown as
      "Upload failed: " followed by its message, and a file that fails the
      local checks causes no request at all. */
  function HandleFileUpload(f: File, net: Network): (u: Upload)
    ensures u.result.Err? ==> UploadFailedPrefix <= u.result.message
    ensures f.mime !in ValidTypes ==> u == Upload(Err(UploadFailedPrefix + InvalidTypeMessage), [])
    ensures f.mime in ValidTypes && f.size > MaxFileSize ==> u == Upload(Err(UploadFailedPrefix + TooLargeMessage), [])
    ensures u.result.Ok? <==>
      PreCheck(f).None? && net.presign.Presigned? && net.presign.uploadUrl != "" &&
      net.put.PutAnswered? && net.put.ok
    ensures u.result.Ok? ==> u.result.value == net.presign.publicUrl
    ensures u.result.Ok? ==>
      u.requests == [PresignRequest(f.name, f.mime), PutRequest(net.presign.uploadUrl, f.mime)]
  {
    var inner := UploadSteps(f, net);
    match inner.result
    case Ok(_) => inner
    case Err(m) => Upload(Err(UploadFailedPrefix + m), inner.requests)
  }

  datatype Post = Post(postId: string, title: string, content: string, category: string, writerName: string, viewCount: int)

  /** The post-creation form. */
  datatype Form = Form(
    title: string,
    content: string,
    category: string,
    authorName: string,
    imageFile: Option<File>,
    authorImageFile: Option<File>,
    imagePreview: Option<string>,
    authorImagePreview: Option<string>)

  datatype Payload = Payload(
    title: string,
    content: string,
    imageUrl: string,
    authorName: string,
    authorImage: string,
    category: string)

  /** The network's behaviour during one submission: the two uploads, the
      create call (`None` when it succeeds, else its error message) and the
      re-fetch of the post list (a missing `posts` field is `Ok(None)`). */
  datatype SubmitNetwork = SubmitNetwork(
    authorImage: Network,
    image: Network,
    create: Option<string>,
    refetch: Result<Option<seq<Post>>>)

  datatype Panel = Panel(form: Form, posts: seq<Post>, error: Option<string>)

  datatype Submission = Submission(panel: Panel, requests: seq<Request>, created: Option<Payload>)

  predicate MissingRequired(f: Form) {
    f.title == "" || f.content == "" || f.category == ""
  }

  /** Clears what a successful submission clears; the author name is kept. */
  function ResetForm(f: Form): (r: Form)
    ensures r.title == "" && r.content == "" && r.category == ""
    ensures r.imageFile.None? && r.authorImageFile.None?
    ensures r.imagePreview.None? && r.authorImagePreview.None?
    ensures r.authorName == f.authorName
  {
    Form("", "", "", f.authorName, None, None, None, None)
  }

  /** The end of a successful creation: the form is reset first, then the
      post list is re-fetched; a failed re-fetch only sets the error. */
  function AfterCreate(p: Panel, refetch: Result<Option<seq<Post>>>): Panel
  {
    match refetch
    case Ok(posts) => Panel(ResetForm(p.form), posts.GetOr([]), None)
    case Err(m) => Panel(ResetForm(p.form), p.posts, Some(m))
  }

  /** `handleSubmit`. */
  function HandleSubmit(p: Panel, net: SubmitNetwork): (s: Submission)
    ensures MissingRequired(p.form) ==>
      s == Submission(p.(error := Some(RequiredFieldsMessage)), [], None)
    ensures !MissingRequired(p.form) && p.form.imageFile.None? ==>
      s == Submission(p.(error := Some(MissingImageMessage)), [], None)
    ensures s.created.None? ==> s.panel.form == p.form && s.panel.posts == p.posts && s.panel.error.Some?
    ensures s.created.Some? ==> s.panel.form == ResetForm(p.form)
    ensures s.created.Some? ==>
      (s.created.value.title == p.form.title && s.created.value.content == p.form.content &&
       s.created.value.category == p.form.category && s.created.value.authorName == p.form.authorName)
  {
    var f := p.form;
    if MissingRequired(f) then Submission(p.(error := Some(RequiredFieldsMessage)), [], None)
    else if f.imageFile.None? then Submission(p.(error := Some(MissingImageMessage)), [], None)
    else
      var author :=
        if f.authorImageFile.Some? then HandleFileUpload(f.authorImageFile.value, net.authorImage)
        else Upload(Ok(""), []);
      if author.result.Err? then Submission(p.(error := Some(author.result.message)), author.requests, None)
      else
        var image := HandleFileUpload(f.imageFile.value, net.image);
        var sent := author.requests + image.requests;
        if image.result.Err? then Submission(p.(error := Some(image.result.message)), sent, None)
        else
          var payload := Payload(f.title, f.content, image.result.value, f.authorName, author.result.value, f.category);
          if net.create.Some? then Submission(p.(error := Some(net.create.value)), sent, None)
          else Submission(AfterCreate(p, net.refetch), sent, Some(payload))
  }

  /** Author name and author image are optional: a form with the three
      required fields and a post image, and nothing else, is created when the
      network cooperates, with an empty author image. */
  lemma AuthorFieldsOptional(p: Panel, img: File, net: SubmitNetwork)
    requires !MissingRequired(p.form)
    requires p.form.imageFile == Some(img) && p.form.authorImageFile.None?
    requires PreCheck(img).None?
    requires net.image.presign.Presigned? && net.image.presign.uploadUrl != ""
    requires net.image.put.PutAnswered? && net.image.put.ok
    requires net.create.None?
    ensures HandleSubmit(p, net).created.Some?
    ensures HandleSubmit(p, net).created.value.authorImage == ""
    ensures HandleSubmit(p, net).created.value.imageUrl == net.image.presign.publicUrl
  {
  }

  /** Every failed upload during a submission surfaces as "Upload failed: …". */
  lemma UploadErrorsAreWrapped(p: Panel, net: SubmitNetwork)
    requires !MissingRequired(p.form) && p.form.imageFile.Some?
    requires HandleSubmit(p, net).created.None?
    requires net.create.None?
    ensures UploadFailedPrefix <= HandleSubmit(p, net).panel.error.value
  {
  }

  /** "My Posts": exactly the fetched posts whose writer is the stored writer
      name, in fetched order. */
  function MyPosts(posts: seq<Post>, writerName: string): (r: seq<Post>)
    ensures IsSubsequence(r, posts)
    ensures forall q :: q in r <==> q in posts && q.writerName == writerName
    ensures forall i :: 0 <= i < |r| ==> r[i].writerName == writerName
  {
    Filter(posts, (q: Post) => q.writerName == writerName)
  }
}

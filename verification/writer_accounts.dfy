/** The writer list shared by the two admin pages: loading the list with the
    stored admin token, deleting a writer after confirmation, and the
    per-row action menu. A 401 answer evicts the token and sends the browser
    to the login page. */
module WriterAccounts {
  import opened Common

  datatype Writer = Writer(
    email: string,
    writerName: string,
    fullName: string,
    categories: Option<seq<string>>,
    isActive: Option<bool>)

  const LoginRoute: string := "/admin/login"
  const Unauthorized: int := 401
  const LoadFailedMessage: string := "Failed to load writers"
  const DeleteFailedMessage: string := "Failed to delete writer. Please try again."

  /** `response.ok`. */
  predicate Ok(status: int) {
    200 <= status <= 299
  }

  /** What the backend did with a request: an HTTP status with the body's
      `writers` field, or a thrown network error. */
  datatype Reply = Answered(status: int, writers: Option<seq<Writer>>) | Threw

  /** The browser-side effects: the stored admin token and where the router
      was sent, if anywhere. */
  datatype Session = Session(token: Option<string>, route: Option<string>)

  /** `localStorage.removeItem("admin-token")` then `router.push("/admin/login")`. */
  function Evict(s: Session): (r: Session)
    ensures r.token.None? && r.route == Some(LoginRoute)
  {
    Session(None, Some(LoginRoute))
  }

  /** The list part of a page's state; an empty `error` shows nothing. */
  datatype Listing = Listing(
    writers: seq<Writer>,
    loading: bool,
    error: string,
    openMenu: Option<string>,
    session: Session)

  /** On mount: without a token the page goes to login and never loads;
      with one it fetches the list. */
  function OnMount(l: Listing): (r: Listing)
    ensures !Truthy(l.session.token) ==> r == l.(session := l.session.(route := Some(LoginRoute)))
    ensures Truthy(l.session.token) ==> r == l
  {
    if Truthy(l.session.token) then l else l.(session := l.session.(route := Some(LoginRoute)))
  }

  /** `fetchWriters`: on success the list becomes the body's `writers` (none
      when missing); a 401 evicts the session without an error message; any
      other failure keeps the list and sets "Failed to load writers". Loading
      always ends. */
  function FetchWriters(l: Listing, reply: Reply): (r: Listing)
    ensures !r.loading && r.openMenu == l.openMenu
    ensures reply.Answered? && Ok(reply.status) ==>
      r.writers == reply.writers.GetOr([]) && r.error == l.error && r.session == l.session
    ensures reply.Answered? && reply.writers.None? && Ok(reply.status) ==> r.writers == []
    ensures reply.Answered? && reply.status == Unauthorized ==>
      r.writers == l.writers && r.error == l.error && r.session == Evict(l.session)
    ensures (reply.Threw? || (!Ok(reply.status) && reply.status != Unauthorized)) ==>
      r.writers == l.writers && r.error == LoadFailedMessage && r.session == l.session
  {
    match reply
    case Threw => l.(error := LoadFailedMessage, loading := false)
    case Answered(status, writers) =>
      if Ok(status) then l.(writers := writers.GetOr([]), loading := false)
      else if status == Unauthorized then l.(session := Evict(l.session), loading := false)
      else l.(error := LoadFailedMessage, loading := false)
  }

  /** The list after a successful delete: every writer with that email is
      gone and the others keep their order. */
  function RemoveByEmail(writers: seq<Writer>, email: string): (r: seq<Writer>)
    ensures IsSubsequence(r, writers)
    ensures forall w :: w in r <==> w in writers && w.email != email
    ensures forall i :: 0 <= i < |r| ==> r[i].email != email
  {
    Filter(writers, (w: Writer) => w.email != email)
  }

  /** A list without that email is left exactly as it was, so removing twice
      is removing once. */
  lemma RemoveAbsentEmail(writers: seq<Writer>, email: string)
    requires forall i :: 0 <= i < |writers| ==> writers[i].email != email
    ensures RemoveByEmail(writers, email) == writers
  {
    FilterKeepsAll(writers, (w: Writer) => w.email != email);
  }

  lemma RemoveTwiceIsRemoveOnce(writers: seq<Writer>, email: string)
    ensures RemoveByEmail(RemoveByEmail(writers, email), email) == RemoveByEmail(writers, email)
  {
    RemoveAbsentEmail(RemoveByEmail(writers, email), email);
  }

  /** The DELETE request; it names the writer by `writerName`. */
  datatype DeleteRequest = DeleteRequest(path: string, bearer: string)

  datatype Deleted = Deleted(listing: Listing, request: Option<DeleteRequest>)

  /** `handleDelete(email, writerName)`. Nothing happens unless the admin
      confirms; without a token the page goes to login without a request;
      otherwise the request is sent and its answer decides: success removes
      the writer by email and closes the menu, a 401 evicts the session, and
      anything else sets the delete error. Only success changes the list. */
  function HandleDelete(l: Listing, email: string, writerName: string, confirmed: bool, reply: Reply)
    : (d: Deleted)
    ensures !confirmed ==> d == Deleted(l, None)
    ensures confirmed && !Truthy(l.session.token) ==>
      d == Deleted(l.(session := l.session.(route := Some(LoginRoute))), None)
    ensures d.request.Some? <==> confirmed && Truthy(l.session.token)
    ensures d.request.Some? ==>
      d.request.value == DeleteRequest("/api/writer/" + writerName, l.session.token.value)
    ensures d.request.Some? && reply.Answered? && Ok(reply.status) ==>
      d.listing == l.(writers := RemoveByEmail(l.writers, email), openMenu := None)
    ensures !(d.request.Some? && reply.Answered? && Ok(reply.status)) ==> d.listing.writers == l.writers
    ensures d.request.Some? && reply.Answered? && reply.status == Unauthorized ==>
      d.listing == l.(session := Evict(l.session))
    ensures d.request.Some? && (reply.Threw? || (!Ok(reply.status) && reply.status != Unauthorized)) ==>
      d.listing == l.(error := DeleteFailedMessage)
  {
    if !confirmed then Deleted(l, None)
    else if !Truthy(l.session.token) then Deleted(l.(session := l.session.(route := Some(LoginRoute))), None)
    else
      var request := Some(DeleteRequest("/api/writer/" + writerName, l.session.token.value));
      match reply
      case Threw => Deleted(l.(error := DeleteFailedMessage), request)
      case Answered(status, _) =>
        if Ok(status) then Deleted(l.(writers := RemoveByEmail(l.writers, email), openMenu := None), request)
        else if status == Unauthorized then Deleted(l.(session := Evict(l.session)), request)
        else Deleted(l.(error := DeleteFailedMessage), request)
  }
}

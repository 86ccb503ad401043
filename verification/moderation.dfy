/** The admin moderation page: open posts are listed with a plain-text
    preview of their HTML content; a modal shows one post and lets the admin
    approve or reject it. */
module Moderation {
  import opened Common

  const PreviewLength: nat := 200
  const Ellipsis: string := "..."
  const LoadFailedMessage: string := "Failed to load posts"
  const UpdateFailedMessage: string := "Failed to update post status"

  /** At the start of `t`, a `<` followed by at least one character other
      than `>` and then a `>`: the start of a match of `/<[^>]+>/`. */
  predicate OpensTag(t: string)
    requires |t| > 0
  {
    t[0] == '<' && |t| >= 2 && t[1] != '>' && '>' in t[2..]
  }

  /** No position of `t` starts a tag. */
  predicate Clean(t: string)
    decreases |t|
  {
    |t| == 0 || (!OpensTag(t) && Clean(t[1..]))
  }

  /** `html.replace(/<[^>]+>/g, '')` as a left-to-right scan: at a `<` that
      opens a tag, everything up to and including the first following `>` is
      dropped; any other character is kept. A bare `<>` is kept. */
  function StripTags(s: string): (r: string)
    ensures |r| <= |s|
    ensures forall c :: c in r ==> c in s
    ensures |s| > 0 && !OpensTag(s) ==> |r| > 0 && r[0] == s[0]
    ensures Clean(r)
    ensures IsSubsequence(r, s)
    decreases |s|
  {
    if |s| == 0 then ""
    else if OpensTag(s) then
      var close := FirstIndex(s, '>');
      assert close >= 2 by {
        assert s[0] != '>' && s[1] != '>';
      }
      var rest := StripTags(s[close + 1..]);
      assert forall c :: c in s[close + 1..] ==> c in s;
      SubsequenceOfSuffix(rest, s, close + 1);
      rest
    else
      var rest := StripTags(s[1..]);
      assert forall c :: c in s[1..] ==> c in s;
      assert IsSubsequence([s[0]] + rest, s) by {
        assert ([s[0]] + rest)[1..] == rest;
      }
      assert Clean([s[0]] + rest) by {
        var t := [s[0]] + rest;
        assert t[1..] == rest;
        if s[0] == '<' && |s| >= 2 && s[1] != '>' {
          assert '>' !in s[2..];
          assert forall c :: c in s[1..] && c != s[1] ==> c in s[2..] by {
            assert s[1..] == [s[1]] + s[2..];
          }
          assert '>' !in rest;
          if |t| >= 2 {
            assert forall c :: c in t[2..] ==> c in rest by {
              assert t[2..] == rest[1..];
            }
          }
        }
      }
      [s[0]] + rest
  }

  /** Text without tags passes through unchanged. */
  lemma {:induction false} StripCleanIsIdentity(t: string)
    requires Clean(t)
    ensures StripTags(t) == t
    decreases |t|
  {
    if |t| > 0 {
      StripCleanIsIdentity(t[1..]);
      assert t == [t[0]] + t[1..];
    }
  }

  /** Stripping twice strips nothing more. */
  lemma StripIdempotent(s: string)
    ensures StripTags(StripTags(s)) == StripTags(s)
  {
    StripCleanIsIdentity(StripTags(s));
  }

  /** Text without `<` before the rest is kept verbatim, in order. */
  lemma {:induction false} StripKeepsPlainText(a: string, b: string)
    requires '<' !in a
    ensures StripTags(a + b) == a + StripTags(b)
    decreases |a|
  {
    if |a| > 0 {
      var s := a + b;
      assert s[0] == a[0] && s[1..] == a[1..] + b;
      assert !OpensTag(s);
      StripKeepsPlainText(a[1..], b);
      assert a == [a[0]] + a[1..];
    } else {
      assert a + b == b;
    }
  }

  /** A tag `<t>` whose body is non-empty and has no `>` is removed
      entirely, whatever follows it. */
  lemma StripRemovesTag(t: string, b: string)
    requires t != "" && '>' !in t
    ensures StripTags("<" + t + ">" + b) == StripTags(b)
  {
    var s := "<" + t + ">" + b;
    assert s[1] == t[0];
    assert s[|t| + 1] == '>';
    assert '>' in s[2..] by {
      assert s[2..][|t| - 1] == '>';
    }
    assert OpensTag(s);
    forall j | 0 <= j < |t| + 1
      ensures s[j] != '>'
    {
      if j > 0 {
        assert s[j] == t[j - 1];
      }
    }
    assert FirstIndex(s, '>') == |t| + 1;
    assert s[|t| + 2..] == b;
  }

  /** Two concrete cases of the scan: a real tag is removed, `<>` survives. */
  lemma StripExamples()
    ensures StripTags("a<b>c") == "ac"
    ensures StripTags("<>") == "<>"
  {
    assert OpensTag("<b>c");
    assert FirstIndex("<b>c", '>') == 2;
    assert "<b>c"[3..] == "c";
    assert StripTags("c") == "c";
    assert StripTags("<b>c") == "c";
    assert "a<b>c"[1..] == "<b>c";
    assert !OpensTag("<>");
    assert "<>"[1..] == ">";
    assert StripTags(">") == ">";
  }

  /** `previewText`: the stripped text when it has at most 200 characters,
      otherwise its first 200 characters followed by "...". */
  function PreviewText(html: string): (r: string)
    ensures |r| <= PreviewLength + |Ellipsis|
    ensures |StripTags(html)| <= PreviewLength ==> r == StripTags(html)
    ensures |StripTags(html)| > PreviewLength ==>
      (|r| == PreviewLength + |Ellipsis| && r[..PreviewLength] == StripTags(html)[..PreviewLength] &&
       r[PreviewLength..] == Ellipsis)
    ensures r <= StripTags(html) || (r[..|r| - |Ellipsis|] <= StripTags(html) && r[|r| - |Ellipsis|..] == Ellipsis)
  {
    var plain := StripTags(html);
    if |plain| > PreviewLength then plain[..PreviewLength] + Ellipsis else plain
  }

  datatype Post = Post(postId: string, title: string, content: string, writerName: string, category: string)

  /** On mount: without a stored admin token the page goes to the login page,
      otherwise it loads the open posts. */
  datatype MountAction = RedirectToLogin | LoadPosts

  function OnMount(token: Option<string>): (a: MountAction)
    ensures a == LoadPosts <==> Truthy(token)
  {
    if Truthy(token) then LoadPosts else RedirectToLogin
  }

  /** The two buttons of the modal. */
  datatype Decision = Approve | Reject

  /** The `post_status` value sent for a decision. */
  function StatusText(d: Decision): (s: string)
    ensures s == "approved" || s == "rejected"
    ensures s == "approved" <==> d == Approve
  {
    match d
    case Approve => "approved"
    case Reject => "rejected"
  }

  /** The PATCH that `updatePostStatus` sends; the bearer header is attached
      only when a token is stored. */
  datatype StatusRequest = StatusRequest(path: string, postStatus: string, bearer: Option<string>)

  function RequestFor(postId: string, d: Decision, token: Option<string>): (q: StatusRequest)
    ensures q.postStatus == "approved" || q.postStatus == "rejected"
    ensures q.postStatus == "approved" <==> d == Approve
    ensures q.path == "/api/posts/" + postId + "/status"
    ensures q.bearer.Some? <==> Truthy(token)
    ensures q.bearer.Some? ==> q.bearer == token
  {
    StatusRequest("/api/posts/" + postId + "/status", StatusText(d), if Truthy(token) then token else None)
  }

  datatype Page = Page(
    posts: seq<Post>,
    selected: Option<Post>,
    loading: bool,
    actionLoading: bool,
    error: Option<string>)

  /** The page right after mounting with a token: loading, nothing shown. */
  const InitialPage: Page := Page([], None, true, false, None)

  /** The backdrop click and the Close button: ignored while an action is in
      flight. */
  function CloseModal(p: Page): (r: Page)
    ensures p.actionLoading ==> r == p
    ensures !p.actionLoading ==> r == p.(selected := None)
  {
    if p.actionLoading then p else p.(selected := None)
  }

  /** The server's answer: `ok` and the body's `error` field; or a thrown
      value, with its message when it is an `Error`. */
  datatype Reply = Answered(ok: bool, errorField: Option<string>) | Threw(errorMessage: Option<string>)

  /** `data.error || fallback`. */
  function ErrorOr(field: Option<string>, fallback: string): (m: string)
    requires fallback != ""
    ensures m != ""
    ensures Truthy(field) ==> m == field.value
    ensures !Truthy(field) ==> m == fallback
  {
    if Truthy(field) then field.value else fallback
  }

  /** `err instanceof Error ? err.message : fallback`. */
  function CaughtMessage(message: Option<string>, fallback: string): (m: string)
    ensures message.Some? ==> m == message.value
    ensures message.None? ==> m == fallback
  {
    message.GetOr(fallback)
  }

  /** A click on Approve or Reject: the action goes in flight and the error
      is cleared; the request names the selected post. */
  datatype Begun = Begun(page: Page, request: StatusRequest)

  function BeginUpdate(p: Page, d: Decision, token: Option<string>): (b: Begun)
    requires p.selected.Some?
    ensures b.page == p.(actionLoading := true, error := None)
    ensures b.request == RequestFor(p.selected.value.postId, d, token)
  {
    Begun(p.(actionLoading := true, error := None), RequestFor(p.selected.value.postId, d, token))
  }

  /** The end of `updatePostStatus`: on success the selection is cleared and
      the list is to be re-fetched; on failure the selection is kept and an
      error is set; either way the action is no longer in flight. */
  datatype Settled = Settled(page: Page, refetch: bool)

  function SettleUpdate(p: Page, reply: Reply): (u: Settled)
    ensures !u.page.actionLoading
    ensures u.refetch <==> reply.Answered? && reply.ok
    ensures u.refetch ==> u.page.selected.None? && u.page.error == p.error
    ensures !u.refetch ==> u.page.selected == p.selected && u.page.error.Some?
    ensures reply.Answered? && !reply.ok ==> u.page.error == Some(ErrorOr(reply.errorField, UpdateFailedMessage))
    ensures reply.Threw? ==> u.page.error == Some(CaughtMessage(reply.errorMessage, UpdateFailedMessage))
    ensures u.page.posts == p.posts && u.page.loading == p.loading
  {
    match reply
    case Answered(ok, field) =>
      if ok then Settled(p.(selected := None, actionLoading := false), true)
      else Settled(p.(error := Some(ErrorOr(field, UpdateFailedMessage)), actionLoading := false), false)
    case Threw(m) => Settled(p.(error := Some(CaughtMessage(m, UpdateFailedMessage)), actionLoading := false), false)
  }

  /** The answer to the open-posts request. */
  datatype FetchReply = Fetched(ok: bool, posts: seq<Post>, errorField: Option<string>) | FetchThrew(errorMessage: Option<string>)

  /** `fetchOpenPosts`: the error is cleared first, and the list is replaced
      only on success. */
  function FetchOpenPosts(p: Page, reply: FetchReply): (r: Page)
    ensures !r.loading
    ensures reply.Fetched? && reply.ok ==> r.posts == reply.posts && r.error.None?
    ensures !(reply.Fetched? && reply.ok) ==> r.posts == p.posts && r.error.Some?
    ensures reply.Fetched? && !reply.ok ==> r.error == Some(ErrorOr(reply.errorField, LoadFailedMessage))
    ensures r.selected == p.selected && r.actionLoading == p.actionLoading
  {
    match reply
    case Fetched(ok, posts, field) =>
      if ok then p.(posts := posts, error := None, loading := false)
      else p.(error := Some(ErrorOr(field, LoadFailedMessage)), loading := false)
    case FetchThrew(m) => p.(error := Some(CaughtMessage(m, LoadFailedMessage)), loading := false)
  }

  /** What can happen on the page. While loading only "Loading..." is
      rendered, so no button can be clicked; the list's View Post buttons
      are covered by the modal while a post is selected; Approve and Reject
      are disabled while an action is in flight; a status request settles
      only while it is in flight and a fetch answer arrives only while a
      fetch is pending. */
  datatype Event =
    | ViewPost(post: Post)
    | Decide(d: Decision, token: Option<string>)
    | Close
    | Settle(reply: Reply)
    | Load(answer: FetchReply)

  predicate Available(p: Page, e: Event) {
    match e
    case ViewPost(post) => !p.loading && p.selected.None? && post in p.posts
    case Decide(_, _) => !p.loading && p.selected.Some? && !p.actionLoading
    case Close => !p.loading && p.selected.Some?
    case Settle(_) => p.actionLoading
    case Load(_) => p.loading
  }

  /** While an action is in flight the modal stays open on its post. */
  predicate Consistent(p: Page) {
    p.actionLoading ==> p.selected.Some?
  }

  function Step(p: Page, e: Event): (r: Page)
    requires Available(p, e)
  {
    match e
    case ViewPost(post) => p.(selected := Some(post))
    case Decide(d, token) => BeginUpdate(p, d, token).page
    case Close => CloseModal(p)
    case Settle(reply) =>
      // A successful update starts `fetchOpenPosts` without awaiting it:
      // its first two state updates land with the rest of this one.
      var u := SettleUpdate(p, reply);
      if u.refetch then u.page.(loading := true, error := None) else u.page
    case Load(answer) => FetchOpenPosts(p, answer)
  }

  /** Applies each event that is available when it arrives; others are
      ignored. */
  function Run(p: Page, events: seq<Event>): Page
    decreases |events|
  {
    if |events| == 0 then p
    else Run(if Available(p, events[0]) then Step(p, events[0]) else p, events[1..])
  }

  /** No sequence of events closes the modal under an action in flight. */
  lemma {:induction false} RunStaysConsistent(p: Page, events: seq<Event>)
    requires Consistent(p)
    ensures Consistent(Run(p, events))
    decreases |events|
  {
    if |events| > 0 {
      var next := if Available(p, events[0]) then Step(p, events[0]) else p;
      assert Consistent(next);
      RunStaysConsistent(next, events[1..]);
    }
  }

  /** After a successful update the list is re-fetched: the page shows
      "Loading..." with the modal closed, nothing can be viewed or decided
      until the fetch answers, and that answer ends the loading. */
  lemma ReloadAfterSuccess(p: Page, field: Option<string>, answer: FetchReply)
    requires Available(p, Settle(Answered(true, field)))
    ensures var q := Step(p, Settle(Answered(true, field)));
      q.loading && q.selected.None? && !q.actionLoading && q.error.None?
      && (forall post :: !Available(q, ViewPost(post)))
      && (forall d, t :: !Available(q, Decide(d, t)))
      && Available(q, Load(answer)) && !Step(q, Load(answer)).loading
  {
  }

  /** A failed update leaves the loading flag alone and keeps the modal on
      its post with an error. */
  lemma FailureKeepsModal(p: Page, reply: Reply)
    requires Available(p, Settle(reply)) && !(reply.Answered? && reply.ok)
    ensures var q := Step(p, Settle(reply));
      q.loading == p.loading && q.selected == p.selected && q.error.Some? && !q.actionLoading
  {
  }
}

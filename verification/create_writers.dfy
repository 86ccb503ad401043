/** The bulk "Create Writer Accounts" form: an in-memory list of draft writer
    records with per-field edits, publication-type checkboxes, add and remove
    buttons, and a submit that only raises a success flag. */
module CreateWriters {
  import opened Common

  /** The checkbox that reveals the free-text `other` field. */
  const OtherOption: string := "Other"

  const PublicationOptions: seq<string> := [
    "Web Articles", "Issue Briefs", "Reserach Reports", "Newsletters",
    "WCRT Journal", "Scholar Warrior", "Books", "Essays"
  ]

  /** Every checkbox a draft renders: the publication types, then "Other". */
  const Checkboxes: seq<string> := PublicationOptions + [OtherOption]

  datatype Draft = Draft(username: string, password: string, permissions: seq<string>, other: string)

  const Blank: Draft := Draft("", "", [], "")

  /** `handleChange(index, field, value)`: one field of one draft is replaced. */
  datatype Edit = SetUsername(s: string) | SetPassword(s: string) | SetPermissions(ps: seq<string>) | SetOther(s: string)

  function ApplyEdit(d: Draft, e: Edit): Draft {
    match e
    case SetUsername(s) => d.(username := s)
    case SetPassword(s) => d.(password := s)
    case SetPermissions(ps) => d.(permissions := ps)
    case SetOther(s) => d.(other := s)
  }

  /** Only the edited field of draft `index` changes; the list keeps its length
      and every other draft. */
  function HandleChange(writers: seq<Draft>, index: nat, e: Edit): (r: seq<Draft>)
    requires index < |writers|
    ensures |r| == |writers|
    ensures forall j :: 0 <= j < |r| && j != index ==> r[j] == writers[j]
    ensures e.SetUsername? ==> r[index] == writers[index].(username := e.s)
    ensures e.SetPassword? ==> r[index] == writers[index].(password := e.s)
    ensures e.SetPermissions? ==> r[index] == writers[index].(permissions := e.ps)
    ensures e.SetOther? ==> r[index] == writers[index].(other := e.s)
  {
    writers[index := ApplyEdit(writers[index], e)]
  }

  /** A checkbox click: a missing permission is appended at the end; a present
      one is removed everywhere, keeping the order of the rest. */
  function TogglePermission(perms: seq<string>, p: string): (r: seq<string>)
    ensures p !in perms ==> r == perms + [p]
    ensures p in perms ==> p !in r && IsSubsequence(r, perms)
    ensures p in perms ==> forall q :: q != p ==> (q in r <==> q in perms)
  {
    if p in perms then Filter(perms, q => q != p) else perms + [p]
  }

  /** Checking and then unchecking a box restores the original list. */
  lemma ToggleTwiceRestores(perms: seq<string>, p: string)
    requires p !in perms
    ensures TogglePermission(TogglePermission(perms, p), p) == perms
  {
    FilterAppend(perms, [p], q => q != p);
    FilterKeepsAll(perms, q => q != p);
  }

  /** A list without duplicates stays without duplicates. */
  lemma {:induction false} TogglePreservesNoDuplicates(perms: seq<string>, p: string)
    requires NoDuplicates(perms)
    ensures NoDuplicates(TogglePermission(perms, p))
  {
    if p in perms {
      FilterNoDuplicates(perms, q => q != p);
    }
  }

  lemma {:induction false} FilterNoDuplicates(s: seq<string>, keep: string -> bool)
    requires NoDuplicates(s)
    ensures NoDuplicates(Filter(s, keep))
    decreases |s|
  {
    if |s| > 0 {
      FilterNoDuplicates(s[1..], keep);
      assert s[0] !in s[1..];
    }
  }

  /** `handlePermissionToggle(index, permission)`. Unchecking "Other" also
      clears the `other` text; any other checkbox leaves it alone. */
  function HandlePermissionToggle(writers: seq<Draft>, index: nat, p: string): (r: seq<Draft>)
    requires index < |writers|
    ensures |r| == |writers|
    ensures forall j :: 0 <= j < |r| && j != index ==> r[j] == writers[j]
    ensures r[index].username == writers[index].username
    ensures r[index].password == writers[index].password
    ensures r[index].permissions == TogglePermission(writers[index].permissions, p)
    ensures p == OtherOption && OtherOption in writers[index].permissions ==> r[index].other == ""
    ensures p == OtherOption && OtherOption !in writers[index].permissions ==> r[index].other == writers[index].other
    ensures p != OtherOption ==> r[index].other == writers[index].other
  {
    var d := writers[index];
    var perms := TogglePermission(d.permissions, p);
    var other := if p == OtherOption && OtherOption !in perms then "" else d.other;
    writers[index := Draft(d.username, d.password, perms, other)]
  }

  /** `addWriter`: one blank draft at the end. */
  function AddWriter(writers: seq<Draft>): (r: seq<Draft>)
    ensures |r| == |writers| + 1
    ensures r[..|writers|] == writers
    ensures r[|writers|].username == "" && r[|writers|].password == ""
    ensures r[|writers|].permissions == [] && r[|writers|].other == ""
  {
    writers + [Blank]
  }

  /** `updated.splice(index, 1)`: deletes entry `index` and keeps the rest in
      order; an index past the end deletes nothing. */
  function RemoveWriter(writers: seq<Draft>, index: nat): (r: seq<Draft>)
    ensures index < |writers| ==> |r| == |writers| - 1
    ensures index < |writers| ==> forall j :: 0 <= j < index ==> r[j] == writers[j]
    ensures index < |writers| ==> forall j :: index <= j < |r| ==> r[j] == writers[j + 1]
    ensures index >= |writers| ==> r == writers
  {
    if index < |writers| then writers[..index] + writers[index + 1..] else writers
  }

  /** The form's state: the drafts and the success banner flag. */
  datatype Form = Form(writers: seq<Draft>, success: bool)

  const InitialForm: Form := Form([Blank], false)

  /** The user actions the form offers. Only the username, password and
      (while "Other" is checked) other-text inputs call `handleChange`, so a
      whole-list permissions edit is never offered; a checkbox toggles one of
      the rendered options; Remove buttons are only rendered when there is
      more than one draft, and only for existing indices. */
  datatype Action =
    | Change(index: nat, e: Edit)
    | Toggle(index: nat, permission: string)
    | Add
    | Remove(index: nat)
    | Submit

  /** Every draft has a username and a password: the two inputs marked
      `required`, without which the browser does not submit the form. */
  predicate Filled(writers: seq<Draft>) {
    forall i :: 0 <= i < |writers| ==> writers[i].username != "" && writers[i].password != ""
  }

  predicate Offered(f: Form, a: Action) {
    match a
    case Change(i, e) =>
      i < |f.writers| && !e.SetPermissions?
      && (e.SetOther? ==> OtherOption in f.writers[i].permissions)
    case Toggle(i, p) => i < |f.writers| && p in Checkboxes
    case Add => true
    case Remove(i) => |f.writers| > 1 && i < |f.writers|
    case Submit => Filled(f.writers)
  }

  /** `handleSubmit`: beyond the browser's `required` check no validation is
      done (no publication type is demanded); the drafts are left as they
      are and the success banner is shown. */
  function HandleSubmit(f: Form): (r: Form)
    ensures r.success
    ensures r.writers == f.writers
  {
    f.(success := true)
  }

  function Step(f: Form, a: Action): Form
    requires Offered(f, a)
  {
    match a
    case Change(i, e) => f.(writers := HandleChange(f.writers, i, e))
    case Toggle(i, p) => f.(writers := HandlePermissionToggle(f.writers, i, p))
    case Add => f.(writers := AddWriter(f.writers))
    case Remove(i) => f.(writers := RemoveWriter(f.writers, i))
    case Submit => HandleSubmit(f)
  }

  /** Applies the actions that are offered at the moment they are tried;
      an action whose button is not rendered does nothing. */
  function Run(f: Form, actions: seq<Action>): Form
    decreases |actions|
  {
    if |actions| == 0 then f
    else Run(if Offered(f, actions[0]) then Step(f, actions[0]) else f, actions[1..])
  }

  /** Starting from the single blank draft, no sequence of clicks empties the
      list. */
  lemma {:induction false} DraftsNeverEmpty(f: Form, actions: seq<Action>)
    requires |f.writers| >= 1
    ensures |Run(f, actions).writers| >= 1
    decreases |actions|
  {
    if |actions| > 0 {
      var next := if Offered(f, actions[0]) then Step(f, actions[0]) else f;
      assert |next.writers| >= 1;
      DraftsNeverEmpty(next, actions[1..]);
    }
  }

  /** A submit from a form without the banner shows it exactly when every
      draft has a username and a password. */
  lemma SubmitSucceedsIffFilled(f: Form)
    requires !f.success
    ensures Run(f, [Submit]).success <==> Filled(f.writers)
    ensures Run(f, [Submit]).writers == f.writers
  {
  }

  /** The freshly opened form, with its one blank draft, cannot be submitted. */
  lemma InitialFormCannotBeSubmitted()
    ensures !Offered(InitialForm, Submit)
    ensures Run(InitialForm, [Submit]) == InitialForm
  {
    assert InitialForm.writers[0] == Blank;
    assert [Submit][1..] == [];
  }

  /** The banner only ever appears after a submit made while every draft
      was filled in. */
  lemma {:induction false} SuccessNeedsFilledDrafts(f: Form, actions: seq<Action>)
    requires !f.success
    ensures Run(f, actions).success ==>
      exists i :: 0 <= i < |actions| && actions[i] == Submit && Filled(Run(f, actions[..i]).writers)
    decreases |actions|
  {
    if |actions| > 0 && Run(f, actions).success {
      var next := if Offered(f, actions[0]) then Step(f, actions[0]) else f;
      if next.success {
        assert actions[0] == Submit && Offered(f, Submit);
        assert actions[..0] == [];
        assert Run(f, actions[..0]) == f;
      } else {
        SuccessNeedsFilledDrafts(next, actions[1..]);
        var j :| 0 <= j < |actions[1..]| && actions[1..][j] == Submit
          && Filled(Run(next, actions[1..][..j]).writers);
        assert actions[..j + 1][0] == actions[0];
        assert actions[..j + 1][1..] == actions[1..][..j];
        assert Run(f, actions[..j + 1]) == Run(next, actions[1..][..j]);
        assert actions[j + 1] == Submit;
      }
    }
  }

  /** A draft the page can show: every permission is one of the rendered
      checkboxes, and there is other-text only while "Other" is checked. */
  predicate Sane(d: Draft) {
    (forall q :: q in d.permissions ==> q in Checkboxes)
    && (OtherOption !in d.permissions ==> d.other == "")
  }

  predicate AllSane(writers: seq<Draft>) {
    forall i :: 0 <= i < |writers| ==> Sane(writers[i])
  }

  /** One offered action keeps every draft sane. */
  lemma StepKeepsSane(f: Form, a: Action)
    requires AllSane(f.writers) && Offered(f, a)
    ensures AllSane(Step(f, a).writers)
  {
  }

  /** From a sane form, no click sequence checks a box the page does not
      render or leaves other-text behind an unchecked "Other". */
  lemma {:induction false} RunKeepsSane(f: Form, actions: seq<Action>)
    requires AllSane(f.writers)
    ensures AllSane(Run(f, actions).writers)
    decreases |actions|
  {
    if |actions| > 0 {
      var next := if Offered(f, actions[0]) then Step(f, actions[0]) else f;
      if Offered(f, actions[0]) {
        StepKeepsSane(f, actions[0]);
      }
      RunKeepsSane(next, actions[1..]);
    }
  }

  /** The opening form is sane. */
  lemma InitialFormSane()
    ensures AllSane(InitialForm.writers)
  {
  }
}

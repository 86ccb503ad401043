/** The Writers Management page: the shared writer list with a menu keyed
    by writer name, plus a dialog that changes a writer's password. */
module WritersPage {
  import opened Common
  import opened WriterAccounts

  const PasswordFailedMessage: string := "Failed to update password"

  datatype Page = Page(list: Listing, selected: Option<Writer>, newPassword: string)

  /** The row menu of this page is keyed by `writerName`. */
  function ToggleRowMenu(p: Page, w: Writer): (r: Page)
    ensures p.list.openMenu == Some(w.writerName) ==> r.list.openMenu.None?
    ensures p.list.openMenu != Some(w.writerName) ==> r.list.openMenu == Some(w.writerName)
    ensures r.selected == p.selected && r.list.writers == p.list.writers
  {
    p.(list := p.list.(openMenu := ToggleOpen(p.list.openMenu, w.writerName)))
  }

  /** "Change Password": the dialog opens on that writer with an empty
      password field. */
  function HandleChangePassword(p: Page, w: Writer): (r: Page)
    ensures r.selected == Some(w) && r.newPassword == ""
    ensures r.list == p.list
  {
    p.(selected := Some(w), newPassword := "")
  }

  /** The dialog's Cancel button. */
  function CancelDialog(p: Page): (r: Page)
    ensures r.selected.None? && r.list == p.list
  {
    p.(selected := None)
  }

  /** The PATCH that `updatePassword` sends. */
  datatype PasswordRequest = PasswordRequest(path: string, newPassword: string, bearer: string)

  datatype Updated = Updated(page: Page, request: Option<PasswordRequest>)

  /** `updatePassword`, given whether the server answered ok. Nothing happens
      without a selected writer or with an empty password; without a token
      the page goes to login; otherwise the new password is sent for the
      selected writer, success closes the dialog and failure keeps it open
      with an error. The list itself never changes. A 401 gets no special
      treatment here. */
  function UpdatePassword(p: Page, ok: bool): (u: Updated)
    ensures p.selected.None? || p.newPassword == "" ==> u == Updated(p, None)
    ensures u.request.Some? <==> p.selected.Some? && p.newPassword != "" && Truthy(p.list.session.token)
    ensures u.request.Some? ==>
      u.request.value == PasswordRequest(
        "/api/writer/" + p.selected.value.writerName + "/password", p.newPassword, p.list.session.token.value)
    ensures u.request.Some? && ok ==> u.page.selected.None? && u.page.list == p.list
    ensures u.request.Some? && !ok ==> u.page.selected == p.selected && u.page.list == p.list.(error := PasswordFailedMessage)
    ensures p.selected.Some? && p.newPassword != "" && !Truthy(p.list.session.token) ==>
      u.page == p.(list := p.list.(session := p.list.session.(route := Some(LoginRoute))))
    ensures u.page.list.writers == p.list.writers
  {
    if p.selected.None? || p.newPassword == "" then Updated(p, None)
    else if !Truthy(p.list.session.token) then
      Updated(p.(list := p.list.(session := p.list.session.(route := Some(LoginRoute)))), None)
    else
      var request := PasswordRequest(
        "/api/writer/" + p.selected.value.writerName + "/password", p.newPassword, p.list.session.token.value);
      if ok then Updated(p.(selected := None), Some(request))
      else Updated(p.(list := p.list.(error := PasswordFailedMessage)), Some(request))
  }
}

/** The admin dashboard: the shared writer list with a status badge per
    writer and a menu keyed by email; the status and change-password
    buttons are not wired to anything yet. */
module AdminDashboard {
  import opened Common
  import opened WriterAccounts

  datatype Page = Page(list: Listing)

  /** `writer.isActive ?? false`: a writer without the flag is inactive. */
  function StatusLabel(w: Writer): (text: string)
    ensures text == "Active" || text == "Inactive"
    ensures text == "Active" <==> w.isActive == Some(true)
  {
    if w.isActive.GetOr(false) then "Active" else "Inactive"
  }

  /** `handleStatusToggle`: only logs; the page state does not change. */
  function HandleStatusToggle(p: Page, email: string, currentStatus: bool): (r: Page)
    ensures r == p
  {
    p
  }

  /** `handleChangePassword`: only logs; the page state does not change. */
  function HandleChangePassword(p: Page, email: string): (r: Page)
    ensures r == p
  {
    p
  }

  /** The row menu of this page is keyed by email. */
  function ToggleRowMenu(p: Page, w: Writer): (r: Page)
    ensures p.list.openMenu == Some(w.email) ==> r.list.openMenu.None?
    ensures p.list.openMenu != Some(w.email) ==> r.list.openMenu == Some(w.email)
    ensures r.list.writers == p.list.writers
  {
    p.(list := p.list.(openMenu := ToggleOpen(p.list.openMenu, w.email)))
  }
}

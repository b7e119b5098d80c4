/**
 * The two record types of the menu application: a `Menu` (a named container)
 * and a `MenuItem` (one entry, pointing at its parent by id). Only the fields
 * the in-memory menu logic reads are kept; database concerns are not modelled.
 */
module MenuModels {
  import opened Wrappers

  /** A menu: its internal `name` and an optional human-readable `title`. */
  datatype Menu = Menu(name: string, title: string)

  /**
   * One menu item. `parentId` is the nullable foreign key to the parent item,
   * `order` the position among siblings, `rawUrl` and `namedUrl` the two ways
   * of naming a link target (empty string when blank).
   */
  datatype MenuItem = MenuItem(
    id: int,
    parentId: Option<int>,
    title: string,
    rawUrl: string,
    namedUrl: string,
    order: nat,
    openInNewTab: bool)

  /** The display text of a menu: its title when there is one, else its name. */
  function MenuLabel(m: Menu): (r: string)
    ensures r == m.title || r == m.name
    ensures m.title != "" ==> r == m.title
    ensures m.title == "" ==> r == m.name
    ensures r == "" <==> m.title == "" && m.name == ""
  {
    if m.title != "" then m.title else m.name
  }

  /**
   * The href of a menu item. `reverse` stands for URL reversal of a named
   * route: `Some(url)` when the route exists, `None` when reversal fails.
   * A failed reversal is not an error: the raw URL is used, then a "#"
   * placeholder.
   */
  function LinkUrl(item: MenuItem, reverse: string -> Option<string>): (r: string)
    ensures item.namedUrl != "" && reverse(item.namedUrl).Some? ==> r == reverse(item.namedUrl).value
    ensures (item.namedUrl == "" || reverse(item.namedUrl).None?) && item.rawUrl != "" ==> r == item.rawUrl
    ensures (item.namedUrl == "" || reverse(item.namedUrl).None?) && item.rawUrl == "" ==> r == "#"
  {
    if item.namedUrl != "" && reverse(item.namedUrl).Some? then reverse(item.namedUrl).value
    else if item.rawUrl != "" then item.rawUrl
    else "#"
  }

  /** A successfully reversed named route makes the raw URL irrelevant. */
  lemma LinkUrlIgnoresRawUrl(item: MenuItem, raw: string, reverse: string -> Option<string>)
    requires item.namedUrl != "" && reverse(item.namedUrl).Some?
    ensures LinkUrl(item.(rawUrl := raw), reverse) == LinkUrl(item, reverse)
  {
  }

  /**
   * The href is always one of the three sources, and never empty as long as
   * the reversal never yields an empty URL.
   */
  lemma LinkUrlIsOneOfThree(item: MenuItem, reverse: string -> Option<string>)
    ensures var r := LinkUrl(item, reverse);
      (item.namedUrl != "" && reverse(item.namedUrl) == Some(r)) || r == item.rawUrl || r == "#"
    ensures (forall name :: reverse(name) != Some("")) ==> LinkUrl(item, reverse) != ""
  {
  }
}

/** The group selection modal (metadata_and_group_creation/layout/group_selection.py):
    its table of groups and the two callbacks that open and close it.

    A button's click count (`n_clicks`) is `None` until the first click; the
    callbacks test it for truth, so a count of zero counts as no click.
 */
module GroupSelection {
  import opened Wrappers

  /** `n_clicks` of a button. */
  type Clicks = Option<int>

  /** Python truth of a click count. */
  predicate Clicked(c: Clicks) {
    c.Some? && c.value != 0
  }

  /** `get_biosample_id_column`: the one column of the selection table. */
  function GetBiosampleIdColumn(): (r: string)
    ensures |r| > 0
  {
    "Select all groups"
  }

  /** The `field`s of the selection table's column definitions. */
  function SelectionTableFields(): seq<string> {
    [GetBiosampleIdColumn()]
  }

  /** The rows the selection table starts with. */
  function InitialSelectionRows(): seq<seq<(string, string)>> {
    []
  }

  /** `metadata_and_group_creation_modal_open`: the Back button reopens the
      creation modal and closes the selection modal; with no click both stay
      as they are. The pair is (creation modal opened, selection modal
      opened). */
  function MetadataAndGroupCreationModalOpen(back: Clicks): (r: (Update<bool>, Update<bool>))
    ensures Clicked(back) <==> r == (Changed(true), Changed(false))
    ensures !Clicked(back) <==> r == (NoUpdate, NoUpdate)
  {
    if Clicked(back) then (Changed(true), Changed(false)) else (NoUpdate, NoUpdate)
  }

  /** `group_selection_modal_open`: the selection modal flips exactly when
      its button or the Continue button has a click count that is true. */
  function GroupSelectionModalOpen(button: Clicks, continueClicks: Clicks, isOpen: bool): (r: bool)
    ensures r != isOpen <==> Clicked(button) || Clicked(continueClicks)
  {
    if Clicked(button) then !isOpen
    else if Clicked(continueClicks) then !isOpen
    else isOpen
  }
}

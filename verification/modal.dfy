/**
 * The artist modal. Opening writes the artist's name and biography into the
 * dialog and adds the `active` class; closing only removes the class, so the
 * last artist shown stays in the dialog while it is hidden.
 */
module Modal {
  import opened Options
  import opened World

  /** `shown` is the id of the artist whose text the dialog holds, if any yet. */
  datatype ModalState = ModalState(active: bool, shown: Option<int>)

  /** The dialog as the page loads: hidden and not yet filled. */
  const CLOSED: ModalState := ModalState(false, None)

  /**
   * `openModal(id)`: looks the id up in the table; on a hit the dialog shows
   * that artist and is active, on a miss nothing changes.
   */
  function OpenModal(artists: seq<Artist>, id: int, m: ModalState): (r: ModalState)
    ensures HasId(artists, id) ==> r == ModalState(true, Some(id))
    ensures !HasId(artists, id) ==> r == m
  {
    match Find(artists, id)
    case None => m
    case Some(i) => ModalState(true, Some(artists[i].id))
  }

  /** `closeModal()`: the dialog is hidden and keeps its text. */
  function CloseModal(m: ModalState): (r: ModalState)
    ensures !r.active
    ensures r.shown == m.shown
  {
    m.(active := false)
  }

}

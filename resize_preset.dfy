/** ResizePreset: the named target sizes a client may pick for an upload.
    Each constant's width and height are final, which a datatype value gives
    by construction. */
module Presets {

  datatype ResizePreset = CUSTOM | ORIGINAL | CARD | BACKGROUND | THUMBNAIL
  {
    function Width(): int {
      match this
      case CUSTOM => -1
      case ORIGINAL => 0
      case CARD => 400
      case BACKGROUND => 1920
      case THUMBNAIL => 150
    }

    function Height(): int {
      match this
      case CUSTOM => -1
      case ORIGINAL => 0
      case CARD => 400
      case BACKGROUND => 1080
      case THUMBNAIL => 150
    }

    /** The presets that name a concrete target size. */
    predicate IsFixedSize() {
      this == CARD || this == BACKGROUND || this == THUMBNAIL
    }
  }

  /** CUSTOM carries the sentinel (-1, -1) and ORIGINAL carries (0, 0); the
      fixed sizes are 400x400, 1920x1080 and 150x150. */
  lemma PresetTable()
    ensures CUSTOM.Width() == -1 && CUSTOM.Height() == -1
    ensures ORIGINAL.Width() == 0 && ORIGINAL.Height() == 0
    ensures CARD.Width() == 400 && CARD.Height() == 400
    ensures BACKGROUND.Width() == 1920 && BACKGROUND.Height() == 1080
    ensures THUMBNAIL.Width() == 150 && THUMBNAIL.Height() == 150
  {
  }

  /** Exactly the fixed-size presets have a strictly positive width and
      height. */
  lemma PositiveExactlyForFixedSizes(p: ResizePreset)
    ensures p.Width() > 0 && p.Height() > 0 <==> p.IsFixedSize()
  {
  }
}

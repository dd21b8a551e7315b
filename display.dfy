/** The map window's state: whether the map is shown. Rendering is not part of this model. */
module Display {

  class MapDisplay {
    /** The visibility flag the display loop flips. */
    var isVisible: bool

    /** A new window starts with the map hidden. */
    constructor ()
      ensures !isVisible
    {
      isVisible := false;
    }

    /** Shows the map, whether or not it was shown: showing twice is showing once. */
    method ShowMap()
      modifies this
      ensures isVisible
    {
      isVisible := true;
    }

    /** Hides the map, whether or not it was hidden: hiding twice is hiding once. */
    method HideMap()
      modifies this
      ensures !isVisible
    {
      isVisible := false;
    }
  }
}

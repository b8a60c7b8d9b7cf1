/** `android.graphics.Rect`: integer edge coordinates, right and bottom exclusive. */
module Rects {

  datatype Rect = Rect(left: int, top: int, right: int, bottom: int) {

    /** `Rect.width()`. */
    function Width(): int { right - left }

    /** `Rect.height()`. */
    function Height(): int { bottom - top }

    /** The rectangle lies inside `[0, w] x [0, h]`. */
    predicate Within(w: int, h: int) {
      0 <= left <= right <= w && 0 <= top <= bottom <= h
    }
  }
}

/** How the analyzer's listener turns the display's rotation into the number of
    degrees it rotates each gray bitmap by before showing it. */
module Rotation {

  // android.view.Surface rotation constants
  const ROTATION_0: int := 0
  const ROTATION_90: int := 1
  const ROTATION_180: int := 2
  const ROTATION_270: int := 3

  /** The `when` over the display rotation: total, with a default of 0 degrees
      for any value that is not one of the four Surface constants. */
  function BitmapRotation(displayRotation: int): (degrees: int)
    ensures degrees in {0, 90, 180, 270}
    ensures displayRotation !in {ROTATION_0, ROTATION_90, ROTATION_180, ROTATION_270} ==> degrees == 0
  {
    if displayRotation == ROTATION_0 then 90
    else if displayRotation == ROTATION_90 then 0
    else if displayRotation == ROTATION_180 then 270
    else if displayRotation == ROTATION_270 then 180
    else 0
  }

  /** For each of the four Surface rotations the degrees are (90 - 90 * rotation)
      mod 360, so the degrees plus 90 times the rotation are always 90 mod 360. */
  lemma RotationCompensatesDisplay(displayRotation: int)
    requires ROTATION_0 <= displayRotation <= ROTATION_270
    ensures BitmapRotation(displayRotation) == (90 - 90 * displayRotation) % 360
    ensures (BitmapRotation(displayRotation) + 90 * displayRotation) % 360 == 90
  {
  }

  /** The bitmap is shown as it is (no Matrix rotation) exactly when the display is
      at ROTATION_90 or reports a value outside the four constants. */
  lemma ShownUnrotatedIff(displayRotation: int)
    ensures BitmapRotation(displayRotation) == 0 <==>
            displayRotation == ROTATION_90 || displayRotation !in {ROTATION_0, ROTATION_90, ROTATION_180, ROTATION_270}
  {
  }
}

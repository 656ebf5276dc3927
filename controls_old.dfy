/**
 * The control rules of release 0.4's main loop: an unclamped sine
 * oscillator for dynamic mode and the keyboard rules without the HUD key.
 * Its lightning trigger is the current release's `Controls.LightningFlash`,
 * written the same way.
 */
module ControlsV04 {
  import opened Controls

  /**
   * Dynamic mode of 0.4: `intensity = 0.5 + 0.4 * sin(cycle)` and
   * `wind = int(3 * sin(cycle / 2))`, with no clamp. For sine values in
   * [-1, 1] the intensity stays in [0.1, 0.9] and the wind in [-3, 3].
   */
  function Oscillate(s: Settings, sine: real, windSine: real): (r: Settings)
    ensures -1.0 <= sine <= 1.0 ==> 0.1 <= r.intensity <= 0.9
    ensures -1.0 <= windSine <= 1.0 ==> -3 <= r.wind <= 3
    ensures r.lightning == s.lightning && r.showHud == s.showHud
  {
    s.(intensity := 0.5 + 0.4 * sine, wind := Trunc(3.0 * windSine))
  }

  /**
   * The keyboard rules of 0.4: those of the current release, except that
   * there is no `h` key, so it changes nothing.
   */
  function ApplyKeyV04(s: Settings, key: int): (r: KeyResult)
    ensures key == KeyHud ==> r == Continue(s)
    ensures key != KeyHud ==> r == ApplyKey(s, key)
  {
    if key == KeyQuit then Quit
    else if key == KeyMore then Continue(s.(intensity := MinReal(1.0, s.intensity + 0.1)))
    else if key == KeyLess then Continue(s.(intensity := MaxReal(0.1, s.intensity - 0.1)))
    else if key == KeyWindLeft then Continue(s.(wind := MaxInt(-10, s.wind - 1)))
    else if key == KeyWindRight then Continue(s.(wind := MinInt(10, s.wind + 1)))
    else if key == KeyLightning then Continue(s.(lightning := !s.lightning))
    else Continue(s)
  }
}

/**
 * Release 0.3 has no keyboard controls besides `q` and no dynamic mode: its
 * only control rule is a fixed-chance lightning trigger.
 */
module ControlsV03 {
  import opened Controls

  /** A flash needs lightning on and a draw below 0.01; the intensity plays no part. */
  function LightningFlashV03(lightning: bool, draw: real): bool
  {
    lightning && draw < 0.01
  }

  /**
   * 0.3's fixed 1 % chance against the current intensity-dependent trigger:
   * at intensity at most 0.7 every current flash is also a 0.3 flash (0.005 <
   * 0.01), above 0.7 every 0.3 flash is also a current flash (0.01 < 0.02),
   * and neither trigger flashes with lightning off.
   */
  lemma LightningV03AgainstCurrent(lightning: bool, draw: real, intensity: real)
    ensures intensity <= 0.7 && LightningFlash(lightning, draw, intensity) ==> LightningFlashV03(lightning, draw)
    ensures intensity > 0.7 && LightningFlashV03(lightning, draw) ==> LightningFlash(lightning, draw, intensity)
    ensures !lightning ==> !LightningFlashV03(lightning, draw) && !LightningFlash(lightning, draw, intensity)
  {
  }
}

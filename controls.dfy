/**
 * The control rules inside raintty's main loop, current release: the
 * keyboard updates with their clamps, the dynamic-weather update and the
 * lightning trigger. Random draws and sine values are inputs.
 */
module Controls {

  /** The loop's weather variables. */
  datatype Settings = Settings(intensity: real, wind: int, lightning: bool, showHud: bool)

  /** What a keypress does: leave the loop, or go on with new settings. */
  datatype KeyResult = Quit | Continue(settings: Settings)

  const KeyQuit: int := 'q' as int
  const KeyMore: int := '+' as int
  const KeyLess: int := '-' as int
  const KeyWindLeft: int := '[' as int
  const KeyWindRight: int := ']' as int
  const KeyLightning: int := 'l' as int
  const KeyHud: int := 'h' as int

  function MinReal(a: real, b: real): real { if a <= b then a else b }
  function MaxReal(a: real, b: real): real { if a >= b then a else b }
  function MinInt(a: int, b: int): int { if a <= b then a else b }
  function MaxInt(a: int, b: int): int { if a >= b then a else b }

  /** The manual ranges: intensity in [0.1, 1.0], wind in [-10, 10]. */
  predicate InRange(s: Settings)
  {
    0.1 <= s.intensity <= 1.0 && -10 <= s.wind <= 10
  }

  /**
   * One keypress (`getch` code), applied to the settings. `+`/`-` move the
   * intensity by 0.1 and `[`/`]` the wind by 1, each clamped on the side it
   * moves toward, where it saturates at the bound; `l` and `h` toggle their flag; `q` quits; every other code,
   * -1 for "no key" included, changes nothing.
   */
  function ApplyKey(s: Settings, key: int): (r: KeyResult)
    ensures r.Quit? <==> key == KeyQuit
    ensures key == KeyMore ==>
              && r.Continue? && r.settings.intensity <= 1.0
              && (s.intensity + 0.1 <= 1.0 ==> r.settings.intensity == s.intensity + 0.1)
              && (s.intensity + 0.1 > 1.0 ==> r.settings.intensity == 1.0)
              && r.settings == s.(intensity := r.settings.intensity)
    ensures key == KeyLess ==>
              && r.Continue? && r.settings.intensity >= 0.1
              && (s.intensity - 0.1 >= 0.1 ==> r.settings.intensity == s.intensity - 0.1)
              && (s.intensity - 0.1 < 0.1 ==> r.settings.intensity == 0.1)
              && r.settings == s.(intensity := r.settings.intensity)
    ensures key == KeyWindLeft ==>
              && r.Continue? && r.settings.wind >= -10
              && (s.wind - 1 >= -10 ==> r.settings.wind == s.wind - 1)
              && (s.wind - 1 < -10 ==> r.settings.wind == -10)
              && r.settings == s.(wind := r.settings.wind)
    ensures key == KeyWindRight ==>
              && r.Continue? && r.settings.wind <= 10
              && (s.wind + 1 <= 10 ==> r.settings.wind == s.wind + 1)
              && (s.wind + 1 > 10 ==> r.settings.wind == 10)
              && r.settings == s.(wind := r.settings.wind)
    ensures key == KeyLightning ==> r == Continue(s.(lightning := !s.lightning))
    ensures key == KeyHud ==> r == Continue(s.(showHud := !s.showHud))
    ensures key !in {KeyQuit, KeyMore, KeyLess, KeyWindLeft, KeyWindRight, KeyLightning, KeyHud} ==> r == Continue(s)
  {
    if key == KeyQuit then Quit
    else if key == KeyMore then Continue(s.(intensity := MinReal(1.0, s.intensity + 0.1)))
    else if key == KeyLess then Continue(s.(intensity := MaxReal(0.1, s.intensity - 0.1)))
    else if key == KeyWindLeft then Continue(s.(wind := MaxInt(-10, s.wind - 1)))
    else if key == KeyWindRight then Continue(s.(wind := MinInt(10, s.wind + 1)))
    else if key == KeyLightning then Continue(s.(lightning := !s.lightning))
    else if key == KeyHud then Continue(s.(showHud := !s.showHud))
    else Continue(s)
  }

  /** A run of keypresses, one per loop iteration, up to the first `q`. */
  function ApplyKeys(s: Settings, keys: seq<int>): KeyResult
    decreases |keys|
  {
    if keys == [] then Continue(s)
    else match ApplyKeys(s, keys[..|keys| - 1])
      case Quit => Quit
      case Continue(p) => ApplyKey(p, keys[|keys| - 1])
  }

  /** Settings that start in the manual ranges stay there under any key sequence. */
  lemma {:induction false} KeysKeepRange(s: Settings, keys: seq<int>)
    requires InRange(s)
    ensures ApplyKeys(s, keys).Continue? ==> InRange(ApplyKeys(s, keys).settings)
    decreases |keys|
  {
    if keys != [] {
      KeysKeepRange(s, keys[..|keys| - 1]);
    }
  }

  /** The run stops at the first `q`: it quits iff some key is `q`. */
  lemma {:induction false} KeysQuitAtQ(s: Settings, keys: seq<int>)
    ensures ApplyKeys(s, keys).Quit? <==> exists k :: 0 <= k < |keys| && keys[k] == KeyQuit
    decreases |keys|
  {
    if keys != [] {
      var n := |keys| - 1;
      KeysQuitAtQ(s, keys[..n]);
      if exists k :: 0 <= k < n && keys[..n][k] == KeyQuit {
        var k :| 0 <= k < n && keys[..n][k] == KeyQuit;
        assert keys[k] == KeyQuit;
      }
      if exists k :: 0 <= k < |keys| && keys[k] == KeyQuit {
        var k :| 0 <= k < |keys| && keys[k] == KeyQuit;
        if k < n {
          assert keys[..n][k] == KeyQuit;
        }
      }
    }
  }

  /** Python's `int()` of a float: truncation toward zero. */
  function Trunc(r: real): (t: int)
    ensures 0.0 <= r ==> 0 <= t && t as real <= r < t as real + 1.0
    ensures r < 0.0 ==> t <= 0 && t as real - 1.0 < r <= t as real
  {
    if r >= 0.0 then r.Floor else -((-r).Floor)
  }

  /**
   * Dynamic-mode intensity: `0.5 + 0.2 * sin(cycle) + jitter`, clamped to
   * [0.1, 1.0]; inside the range it is the raw value, outside it the bound.
   */
  function DynamicIntensity(sine: real, jitter: real): (i: real)
    ensures 0.1 <= i <= 1.0
    ensures 0.1 <= 0.5 + 0.2 * sine + jitter <= 1.0 ==> i == 0.5 + 0.2 * sine + jitter
    ensures 0.5 + 0.2 * sine + jitter > 1.0 ==> i == 1.0
    ensures 0.5 + 0.2 * sine + jitter < 0.1 ==> i == 0.1
  {
    MaxReal(0.1, MinReal(1.0, 0.5 + 0.2 * sine + jitter))
  }

  /**
   * Dynamic-mode wind: `int(2 * sin(cycle / 3) + jitter)`, truncated toward
   * zero and then clamped to [-5, 5]; inside the range it is the truncation,
   * outside it the bound.
   */
  function DynamicWind(sine: real, jitter: real): (w: int)
    ensures -5 <= w <= 5
    ensures -5 <= Trunc(2.0 * sine + jitter) <= 5 ==> w == Trunc(2.0 * sine + jitter)
    ensures Trunc(2.0 * sine + jitter) > 5 ==> w == 5
    ensures Trunc(2.0 * sine + jitter) < -5 ==> w == -5
  {
    MaxInt(-5, MinInt(5, Trunc(2.0 * sine + jitter)))
  }

  /** Dynamic mode replaces intensity and wind; the flags are kept. */
  function Dynamic(s: Settings, sine: real, jitter: real, windSine: real, windJitter: real): (r: Settings)
    ensures 0.1 <= r.intensity <= 1.0 && -5 <= r.wind <= 5
    ensures r.lightning == s.lightning && r.showHud == s.showHud
  {
    s.(intensity := DynamicIntensity(sine, jitter), wind := DynamicWind(windSine, windJitter))
  }

  /**
   * The lightning trigger: only with lightning on, and only for a draw below
   * 0.02 when the intensity exceeds 0.7, below 0.005 otherwise.
   */
  function LightningFlash(lightning: bool, draw: real, intensity: real): (f: bool)
    ensures f ==> lightning
    ensures f && intensity <= 0.7 ==> draw < 0.005
    ensures f ==> draw < 0.02
    ensures lightning && draw < 0.005 ==> f
    ensures lightning && intensity > 0.7 && draw < 0.02 ==> f
  {
    lightning && draw < (if intensity > 0.7 then 0.02 else 0.005)
  }
}

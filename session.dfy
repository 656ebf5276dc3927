/**
 * The main loops of raintty. Each iteration of the current release and of
 * 0.4: dynamic mode replaces intensity and wind, the lightning decision is
 * drawn from those values, the keypress is applied (and may end the loop),
 * and one tick of `generate_rain` runs at the post-key intensity and wind.
 * Release 0.3 ticks first and checks for `q` afterwards; release 0.1 only
 * ticks, without wind. The clock, the keyboard and the random source are
 * inputs: one `Frame` per iteration.
 */
module Session {
  import opened Rain
  import opened RainFacts
  import opened Controls
  import ControlsV04
  import ControlsV03
  import opened Simulator

  /** The two releases whose loop has interactive controls. */
  datatype Release = Current | V04

  /**
   * What one iteration reads from outside: the screen and clock for the tick,
   * the `getch` code, the lightning draw, and the sine and jitter values of
   * dynamic mode.
   */
  datatype Frame = Frame(tick: TickInput, key: int, flashDraw: real,
                         sine: real, jitter: real, windSine: real, windJitter: real)

  /** The settings after the dynamic-mode step of an iteration. */
  function Weather(rel: Release, s: Settings, dynamic: bool, fr: Frame): Settings
  {
    if !dynamic then s
    else match rel
      case Current => Dynamic(s, fr.sine, fr.jitter, fr.windSine, fr.windJitter)
      case V04 => ControlsV04.Oscillate(s, fr.sine, fr.windSine)
  }

  /** The keyboard rules of a release. */
  function Key(rel: Release, s: Settings, key: int): KeyResult
  {
    match rel
    case Current => ApplyKey(s, key)
    case V04 => ControlsV04.ApplyKeyV04(s, key)
  }

  /**
   * Where a session stands: the settings, the rain, the lightning decision of
   * every iteration that ticked, and whether `q` ended it.
   */
  datatype Outcome = Outcome(settings: Settings, scene: Scene, flashes: seq<bool>, quit: bool)

  /** The main loop over a sequence of frames, on values. */
  function Loop(rel: Release, init: Settings, scene: Scene, dynamic: bool, frames: seq<Frame>): Outcome
    requires forall k :: 0 <= k < |frames| ==> frames[k].tick.width > 0
    decreases |frames|
  {
    if frames == [] then Outcome(init, scene, [], false)
    else
      var o := Loop(rel, init, scene, dynamic, frames[..|frames| - 1]);
      var fr := frames[|frames| - 1];
      if o.quit then o
      else
        var w := Weather(rel, o.settings, dynamic, fr);
        var flash := LightningFlash(w.lightning, fr.flashDraw, w.intensity);
        match Key(rel, w, fr.key)
        case Quit => Outcome(w, o.scene, o.flashes, true)
        case Continue(s) =>
          Outcome(s, Step(o.scene, fr.tick, s.intensity, Wind(s.wind)), o.flashes + [flash], false)
  }

  /** Once `q` has ended the loop, later frames change nothing. */
  lemma {:induction false} LoopQuitSticks(rel: Release, init: Settings, scene: Scene, dynamic: bool,
                                          frames: seq<Frame>, i: nat)
    requires forall k :: 0 <= k < |frames| ==> frames[k].tick.width > 0
    requires i <= |frames|
    requires Loop(rel, init, scene, dynamic, frames[..i]).quit
    ensures Loop(rel, init, scene, dynamic, frames) == Loop(rel, init, scene, dynamic, frames[..i])
    decreases |frames|
  {
    if i == |frames| {
      assert frames[..i] == frames;
    } else {
      var n := |frames| - 1;
      assert frames[..n][..i] == frames[..i];
      LoopQuitSticks(rel, init, scene, dynamic, frames[..n], i);
    }
  }

  /** An iteration ends the loop exactly when its key is `q`. */
  lemma LoopQuitSnoc(rel: Release, init: Settings, scene: Scene, dynamic: bool, frames: seq<Frame>)
    requires forall k :: 0 <= k < |frames| ==> frames[k].tick.width > 0
    requires frames != []
    ensures Loop(rel, init, scene, dynamic, frames).quit
        <==> Loop(rel, init, scene, dynamic, frames[..|frames| - 1]).quit || frames[|frames| - 1].key == KeyQuit
  {
  }

  /** The loop ends early exactly when some frame's key is `q`. */
  lemma {:induction false} LoopQuitsAtQ(rel: Release, init: Settings, scene: Scene, dynamic: bool, frames: seq<Frame>)
    requires forall k :: 0 <= k < |frames| ==> frames[k].tick.width > 0
    ensures Loop(rel, init, scene, dynamic, frames).quit
        <==> exists k :: 0 <= k < |frames| && frames[k].key == KeyQuit
    decreases |frames|
  {
    if frames != [] {
      var n := |frames| - 1;
      LoopQuitsAtQ(rel, init, scene, dynamic, frames[..n]);
      LoopQuitSnoc(rel, init, scene, dynamic, frames);
      if exists k :: 0 <= k < n && frames[..n][k].key == KeyQuit {
        var k :| 0 <= k < n && frames[..n][k].key == KeyQuit;
        assert frames[k].key == KeyQuit;
      }
      if exists k :: 0 <= k < |frames| && frames[k].key == KeyQuit {
        var k :| 0 <= k < |frames| && frames[k].key == KeyQuit;
        if k < n {
          assert frames[..n][k].key == KeyQuit;
        }
      }
    }
  }

  /**
   * Settings that start in the manual ranges stay there for the whole
   * session. The current release's dynamic mode clamps; 0.4's does not, so
   * there the sine values must be those of a sine, in [-1, 1].
   */
  lemma {:induction false} LoopKeepsRange(rel: Release, init: Settings, scene: Scene, dynamic: bool, frames: seq<Frame>)
    requires forall k :: 0 <= k < |frames| ==> frames[k].tick.width > 0
    requires InRange(init)
    requires rel == V04 && dynamic ==>
               forall k :: 0 <= k < |frames| ==> -1.0 <= frames[k].sine <= 1.0 && -1.0 <= frames[k].windSine <= 1.0
    ensures InRange(Loop(rel, init, scene, dynamic, frames).settings)
    decreases |frames|
  {
    if frames != [] {
      var n := |frames| - 1;
      LoopKeepsRange(rel, init, scene, dynamic, frames[..n]);
      var o := Loop(rel, init, scene, dynamic, frames[..n]);
      var w := Weather(rel, o.settings, dynamic, frames[n]);
      assert InRange(w);
      KeysKeepRange(w, [frames[n].key]);
      assert ApplyKeys(w, [frames[n].key]) == ApplyKey(w, frames[n].key) by {
        assert [frames[n].key][..0] == [];
      }
    }
  }

  /**
   * With lightning off at the start and no `l` key, lightning stays off and
   * no iteration flashes.
   */
  lemma {:induction false} NoFlashWithoutLightning(rel: Release, init: Settings, scene: Scene, dynamic: bool,
                                                  frames: seq<Frame>)
    requires forall k :: 0 <= k < |frames| ==> frames[k].tick.width > 0
    requires !init.lightning
    requires forall k :: 0 <= k < |frames| ==> frames[k].key != KeyLightning
    ensures !Loop(rel, init, scene, dynamic, frames).settings.lightning
    ensures forall j :: 0 <= j < |Loop(rel, init, scene, dynamic, frames).flashes| ==>
              !Loop(rel, init, scene, dynamic, frames).flashes[j]
    decreases |frames|
  {
    if frames != [] {
      NoFlashWithoutLightning(rel, init, scene, dynamic, frames[..|frames| - 1]);
    }
  }

  /**
   * The lightning decision is drawn before the keypress: at intensity 0.7 a
   * draw of 0.01 does not flash, even though the `+` of the same iteration
   * raises the intensity to 0.8, where that draw would flash.
   */
  lemma FlashUsesIntensityBeforeKey(tick: TickInput)
    requires tick.width > 0
    ensures Loop(Current, Settings(0.7, 0, true, true), Scene([], map[]), false,
                 [Frame(tick, KeyMore, 0.01, 0.0, 0.0, 0.0, 0.0)]).flashes == [false]
    ensures Loop(Current, Settings(0.7, 0, true, true), Scene([], map[]), false,
                 [Frame(tick, KeyMore, 0.01, 0.0, 0.0, 0.0, 0.0)]).settings.intensity == 0.8
    ensures LightningFlash(true, 0.01, 0.8)
  {
    var frames := [Frame(tick, KeyMore, 0.01, 0.0, 0.0, 0.0, 0.0)];
    assert frames[..0] == [];
  }

  /**
   * One tick of `generate_rain` on the program's rain state, followed by the
   * bright redraw when this iteration flashes it. The draws are returned in
   * the order they are issued: the advance, the fade erases, and then, only
   * when `bright`, the bright drops and the bright splashes of the new state.
   */
  method Tick(rain: Rainfall, t: TickInput, intensity: real, drift: Drift, bright: bool)
    returns (drawn: seq<Draw>, cleared: seq<Draw>, brightDrops: seq<Draw>, brightSplashes: seq<Draw>)
    requires Applicable(drift, t.width) && |t.draws| == t.width
    requires rain.Valid()
    modifies rain
    ensures rain.Valid()
    ensures Scene(rain.drops, rain.splashes) == Step(old(Scene(rain.drops, rain.splashes)), t, intensity, drift)
    ensures forall d :: d in rain.drops ==> 1 <= d.0 <= t.height - 2 && (drift.Wind? ==> 0 <= d.1 < t.width)
    ensures drawn == MoveDraws(old(rain.drops) + Spawns(t.draws, intensity), t.height, t.width, drift)
    ensures (set d | d in cleared)
         == FadeDraws(Splashed(old(rain.splashes), old(rain.drops) + Spawns(t.draws, intensity),
                               t.height, t.width, drift, t.now), t.height, t.width, t.now)
    ensures bright ==> brightDrops == FlashDropDraws(rain.drops, t.height, t.width)
    ensures bright ==> (set d | d in brightSplashes) == FlashSplashDraws(rain.splashes, t.height, t.width)
    ensures !bright ==> brightDrops == [] && brightSplashes == []
  {
    drawn, cleared := rain.Generate(t.height, t.width, t.draws, intensity, drift, t.now);
    brightDrops, brightSplashes := [], [];
    if bright {
      brightDrops, brightSplashes := rain.FlashEffect(t.height, t.width);
    }
  }

  /**
   * The main loop of the current release and of 0.4, on the program's
   * mutable rain state, which starts empty. A flash in the current release
   * redraws the rain brightly; 0.4 flashes the background instead.
   */
  method MainLoop(rel: Release, init: Settings, dynamic: bool, frames: seq<Frame>)
    returns (rain: Rainfall, s: Settings, flashes: seq<bool>, quit: bool)
    requires forall k :: 0 <= k < |frames| ==> frames[k].tick.width > 0
    requires forall k :: 0 <= k < |frames| ==> |frames[k].tick.draws| == frames[k].tick.width
    ensures rain.Valid()
    ensures Outcome(s, Scene(rain.drops, rain.splashes), flashes, quit)
         == Loop(rel, init, Scene([], map[]), dynamic, frames)
  {
    rain := new Rainfall();
    s, flashes, quit := init, [], false;
    var i := 0;
    while i < |frames| && !quit
      invariant 0 <= i <= |frames|
      invariant rain.Valid()
      invariant Outcome(s, Scene(rain.drops, rain.splashes), flashes, quit)
             == Loop(rel, init, Scene([], map[]), dynamic, frames[..i])
    {
      var fr := frames[i];
      assert frames[..i + 1][..i] == frames[..i];
      assert frames[..i + 1][i] == fr;
      s := Weather(rel, s, dynamic, fr);
      var flash := LightningFlash(s.lightning, fr.flashDraw, s.intensity);
      var r := Key(rel, s, fr.key);
      if r.Quit? {
        quit := true;
      } else {
        s := r.settings;
        var drawn, cleared, brightDrops, brightSplashes :=
          Tick(rain, fr.tick, s.intensity, Wind(s.wind), flash && rel == Current);
        flashes := flashes + [flash];
      }
      i := i + 1;
    }
    if i < |frames| {
      LoopQuitSticks(rel, init, Scene([], map[]), dynamic, frames, i);
    } else {
      assert frames[..i] == frames;
    }
  }

  /**
   * The body of 0.3's loop up to the `q` check: the lightning decision at its
   * fixed 1 % chance, one tick at the fixed settings, and the bright redraw
   * when the decision says so.
   */
  method IterationV03(rain: Rainfall, t: TickInput, intensity: real, wind: int, lightning: bool, draw: real)
    returns (flash: bool)
    requires t.width > 0 && |t.draws| == t.width
    requires rain.Valid()
    modifies rain
    ensures rain.Valid()
    ensures flash == ControlsV03.LightningFlashV03(lightning, draw)
    ensures Scene(rain.drops, rain.splashes) == Step(old(Scene(rain.drops, rain.splashes)), t, intensity, Wind(wind))
  {
    flash := false;
    if lightning && draw < 0.01 {
      flash := true;
    }
    var drawn, cleared, brightDrops, brightSplashes := Tick(rain, t, intensity, Wind(wind), flash);
  }

  /**
   * The main loop of 0.3, fed per iteration by one tick, one lightning draw
   * and one key: intensity and wind never change; each iteration draws its
   * lightning decision, ticks, and only then checks for `q`. So the loop
   * ticks through the first `q` (or through every iteration), and the rain
   * is the fixed-setting run over exactly those ticks.
   */
  method MainLoopV03(intensity: real, wind: int, lightning: bool,
                     ticks: seq<TickInput>, flashDraws: seq<real>, keys: seq<int>)
    returns (rain: Rainfall, flashes: seq<bool>)
    requires |flashDraws| == |ticks| && |keys| == |ticks|
    requires forall k :: 0 <= k < |ticks| ==> ticks[k].width > 0
    requires forall k :: 0 <= k < |ticks| ==> |ticks[k].draws| == ticks[k].width
    ensures rain.Valid()
    ensures |flashes| <= |ticks|
    ensures Scene(rain.drops, rain.splashes) == Run(Scene([], map[]), ticks[..|flashes|], intensity, Wind(wind))
    ensures forall j :: 0 <= j < |flashes| ==> flashes[j] == ControlsV03.LightningFlashV03(lightning, flashDraws[j])
    ensures !lightning ==> forall j :: 0 <= j < |flashes| ==> !flashes[j]
    ensures forall j :: 0 <= j < |flashes| - 1 ==> keys[j] != KeyQuit
    ensures |flashes| < |ticks| ==> |flashes| > 0 && keys[|flashes| - 1] == KeyQuit
  {
    rain := new Rainfall();
    flashes := [];
    var i := 0;
    var quit := false;
    while i < |ticks| && !quit
      invariant 0 <= i <= |ticks| && |flashes| == i
      invariant rain.Valid()
      invariant Scene(rain.drops, rain.splashes) == Run(Scene([], map[]), ticks[..i], intensity, Wind(wind))
      invariant forall j :: 0 <= j < i ==> flashes[j] == ControlsV03.LightningFlashV03(lightning, flashDraws[j])
      invariant forall j :: 0 <= j < i - 1 ==> keys[j] != KeyQuit
      invariant i > 0 && !quit ==> keys[i - 1] != KeyQuit
      invariant quit ==> i > 0 && keys[i - 1] == KeyQuit
    {
      assert ticks[..i + 1][..i] == ticks[..i];
      var flash := IterationV03(rain, ticks[i], intensity, wind, lightning, flashDraws[i]);
      flashes, i := flashes + [flash], i + 1;
      if keys[i - 1] == KeyQuit {
        quit := true;
      }
    }
    if !lightning {
      forall j | 0 <= j < |flashes|
        ensures !flashes[j]
      {
        assert flashes[j] == ControlsV03.LightningFlashV03(lightning, flashDraws[j]);
      }
    }
  }

  /**
   * The main loop of 0.1: no controls and no wind, one tick per frame for as
   * long as the frames last; the rain is the windless run over all of them.
   */
  method MainLoopV01(intensity: real, ticks: seq<TickInput>) returns (rain: Rainfall)
    requires forall k :: 0 <= k < |ticks| ==> |ticks[k].draws| == ticks[k].width
    ensures rain.Valid()
    ensures Scene(rain.drops, rain.splashes) == Run(Scene([], map[]), ticks, intensity, Still)
  {
    rain := new Rainfall();
    for i := 0 to |ticks|
      invariant rain.Valid()
      invariant Scene(rain.drops, rain.splashes) == Run(Scene([], map[]), ticks[..i], intensity, Still)
    {
      assert ticks[..i + 1][..i] == ticks[..i];
      var drawn, cleared, brightDrops, brightSplashes := Tick(rain, ticks[i], intensity, Still, false);
    }
    assert ticks[..|ticks|] == ticks;
  }
}

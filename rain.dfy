/**
 * The per-tick rain simulation of raintty (`generate_rain`), as functions on
 * values. The imperative loops that the program actually runs are in
 * `Simulator`; their contracts are stated in terms of these functions.
 *
 * One tick: spawn a row-0 drop in every column whose random draw is below the
 * intensity, move every drop one row down (shifting its column by the wind),
 * turn a drop that reaches the floor row into a splash, drop a drop that would
 * leave the grid, and remove splashes older than half a second.
 */
module Rain {

  /** A raindrop as the program stores it: (row, column), row 0 at the top. */
  type Drop = (int, int)

  /** The glyph kinds written to the screen. */
  datatype Glyph =
    | Blank        // ' ' : erase a cell
    | RainGlyph    // '|' in the rain colour
    | SplashGlyph  // one of '~', '.', '\'' in the splash colour
    | FlashRain    // '|' in the lightning colour
    | FlashSplash  // '~' in the lightning colour

  /** One `addch` call: the cell it targets and what it writes there. */
  datatype Draw = Draw(row: int, col: int, glyph: Glyph)

  /**
   * How a drop's column changes per tick. The releases with wind wrap the
   * shifted column modulo the width; the first release leaves it as it is.
   */
  datatype Drift = Wind(offset: int) | Still

  /** The simulation state: the drop list and the splash dictionary. */
  datatype Scene = Scene(drops: seq<Drop>, splashes: map<int, real>)

  /** What one tick reads from the outside: the screen size, one random draw
      per column, and the clock. */
  datatype TickInput = TickInput(height: int, width: int, draws: seq<real>, now: real)

  /** Seconds a splash stays on screen. */
  const SplashLifetime: real := 0.5

  /** A drift can be applied at this width (wrapping needs a positive width). */
  predicate Applicable(drift: Drift, width: int)
  {
    drift.Wind? ==> width > 0
  }

  predicate InGrid(height: int, width: int, row: int, col: int)
  {
    0 <= row < height && 0 <= col < width
  }

  /** The column a drop moves to: `(x + wind) % width`, or `x` without wind. */
  function Shift(drift: Drift, width: int, x: int): (c: int)
    requires Applicable(drift, width)
    ensures drift.Wind? ==> 0 <= c < width
    ensures drift.Wind? ==> exists q: int :: x + drift.offset == q * width + c
    ensures drift.Wind? && 0 <= x + drift.offset < width ==> c == x + drift.offset
    ensures drift.Wind? && width <= x + drift.offset < 2 * width ==> c == x + drift.offset - width
    ensures drift.Wind? && -width <= x + drift.offset < 0 ==> c == x + drift.offset + width
    ensures drift.Still? ==> c == x
  {
    match drift
    case Wind(w) =>
      WrapQuotient(x + w, width);
      WrapInside(x + w, width);
      WrapAbove(x + w, width);
      WrapBelow(x + w, width);
      (x + w) % width
    case Still => x
  }

  /** Euclidean `%` leaves a remainder that differs from `a` by a multiple of `n`. */
  lemma WrapQuotient(a: int, n: int)
    requires n > 0
    ensures exists q: int :: a == q * n + a % n
  {
    assert a == (a / n) * n + a % n;
  }

  lemma WrapInside(a: int, n: int)
    requires n > 0
    ensures 0 <= a < n ==> a % n == a
  {
  }

  lemma WrapAbove(a: int, n: int)
    requires n > 0
    ensures n <= a < 2 * n ==> a % n == a - n
  {
  }

  lemma WrapBelow(a: int, n: int)
    requires n > 0
    ensures -n <= a < 0 ==> a % n == a + n
  {
  }

  // ---------------------------------------------------------------- spawn

  /**
   * The drops spawned this tick: one (0, x) for every column x whose draw is
   * below the intensity, in ascending column order.
   */
  function Spawns(draws: seq<real>, intensity: real): (r: seq<Drop>)
    ensures |r| <= |draws|
    decreases |draws|
  {
    if draws == [] then []
    else
      var x := |draws| - 1;
      Spawns(draws[..x], intensity) + (if draws[x] < intensity then [(0, x)] else [])
  }

  // -------------------------------------------------------------- advance

  /**
   * The shape every drop list of the program has: rows are non-negative and
   * do not increase along the list (older drops, lower on screen, first).
   */
  predicate Settled(ds: seq<Drop>)
  {
    && (forall k :: 0 <= k < |ds| ==> ds[k].0 >= 0)
    && (forall i, j :: 0 <= i < j < |ds| ==> ds[j].0 <= ds[i].0)
  }

  /** The drop keeps falling: its next row is above the floor row. */
  predicate Falls(height: int, d: Drop)
  {
    d.0 + 1 < height - 1
  }

  /** The drop enters the floor row this tick and becomes a splash. */
  predicate Lands(height: int, d: Drop)
  {
    d.0 + 1 == height - 1
  }

  /** Where a falling drop goes: one row down, column shifted. */
  function Fallen(drift: Drift, width: int, d: Drop): Drop
    requires Applicable(drift, width)
  {
    (d.0 + 1, Shift(drift, width, d.1))
  }

  /** The next generation of drops (`new_raindrops`), built in list order. */
  function Advanced(ds: seq<Drop>, height: int, width: int, drift: Drift): (r: seq<Drop>)
    requires Applicable(drift, width)
    ensures |r| <= |ds|
    decreases |ds|
  {
    if ds == [] then []
    else
      var d := ds[|ds| - 1];
      Advanced(ds[..|ds| - 1], height, width, drift)
        + (if Falls(height, d) then [Fallen(drift, width, d)] else [])
  }

  /** The (shifted) columns where a drop of `ds` lands this tick. */
  function Hits(ds: seq<Drop>, height: int, width: int, drift: Drift): set<int>
    requires Applicable(drift, width)
  {
    set k | 0 <= k < |ds| && Lands(height, ds[k]) :: Shift(drift, width, ds[k].1)
  }

  /** The splash dictionary after the landings of `ds`, in list order. */
  function Splashed(m: map<int, real>, ds: seq<Drop>, height: int, width: int, drift: Drift, now: real): map<int, real>
    requires Applicable(drift, width)
    decreases |ds|
  {
    if ds == [] then m
    else
      var d := ds[|ds| - 1];
      var before := Splashed(m, ds[..|ds| - 1], height, width, drift, now);
      if Lands(height, d) then before[Shift(drift, width, d.1) := now] else before
  }

  /** An `addch` behind the program's full bounds check `0 <= row < height and 0 <= col < width`. */
  function Guarded(height: int, width: int, w: Draw): seq<Draw>
  {
    if InGrid(height, width, w.row, w.col) then [w] else []
  }

  /** An `addch` behind a check of the column only, `0 <= col < width`. */
  function ColumnGuarded(width: int, w: Draw): seq<Draw>
  {
    if 0 <= w.col < width then [w] else []
  }

  /**
   * The draws issued for a drop at row y whose column, already shifted, is x:
   * the erase of its old row (at the shifted column, not the stored one) and
   * the glyph on its new row, each behind the guard the
   * program writes; the splash glyph is guarded by its column only.
   */
  function DropDraws(height: int, width: int, y: int, x: int): seq<Draw>
  {
    if y + 1 >= height then []
    else if y + 1 == height - 1 then
      Guarded(height, width, Draw(y, x, Blank)) + ColumnGuarded(width, Draw(y + 1, x, SplashGlyph))
    else
      Guarded(height, width, Draw(y, x, Blank)) + Guarded(height, width, Draw(y + 1, x, RainGlyph))
  }

  /** All draws of the advance loop, in list order. */
  function MoveDraws(ds: seq<Drop>, height: int, width: int, drift: Drift): seq<Draw>
    requires Applicable(drift, width)
    decreases |ds|
  {
    if ds == [] then []
    else
      var d := ds[|ds| - 1];
      MoveDraws(ds[..|ds| - 1], height, width, drift) + DropDraws(height, width, d.0, Shift(drift, width, d.1))
  }

  // ----------------------------------------------------------------- fade

  /** Strict expiry: a splash of age exactly the lifetime is kept. */
  predicate Expired(t: real, now: real)
  {
    now - t > SplashLifetime
  }

  /** The splash dictionary with the expired entries popped. */
  function Faded(m: map<int, real>, now: real): map<int, real>
  {
    map c | c in m && !Expired(m[c], now) :: m[c]
  }

  /** The erases of the fade loop: one per expired, in-range column. */
  function FadeDraws(m: map<int, real>, height: int, width: int, now: real): set<Draw>
  {
    set c | c in m && Expired(m[c], now) && 0 <= c < width :: Draw(height - 1, c, Blank)
  }

  // ----------------------------------------------------------------- tick

  /** The whole tick on values: spawn, advance, land, fade. */
  function Step(s: Scene, t: TickInput, intensity: real, drift: Drift): Scene
    requires Applicable(drift, t.width)
  {
    var all := s.drops + Spawns(t.draws, intensity);
    Scene(Advanced(all, t.height, t.width, drift),
          Faded(Splashed(s.splashes, all, t.height, t.width, drift, t.now), t.now))
  }

  /** A run of ticks at fixed intensity and drift, in order. */
  function Run(s: Scene, ts: seq<TickInput>, intensity: real, drift: Drift): Scene
    requires forall k :: 0 <= k < |ts| ==> Applicable(drift, ts[k].width)
    decreases |ts|
  {
    if ts == [] then s
    else Step(Run(s, ts[..|ts| - 1], intensity, drift), ts[|ts| - 1], intensity, drift)
  }

  // ------------------------------------------------------------ lightning

  /** The bright redraw of the drops: one glyph per in-grid drop, in order. */
  function FlashDropDraws(ds: seq<Drop>, height: int, width: int): seq<Draw>
    decreases |ds|
  {
    if ds == [] then []
    else
      var d := ds[|ds| - 1];
      FlashDropDraws(ds[..|ds| - 1], height, width)
        + (if InGrid(height, width, d.0, d.1) then [Draw(d.0, d.1, FlashRain)] else [])
  }

  /** The bright redraw of the splashes: one glyph per in-range column. */
  function FlashSplashDraws(m: map<int, real>, height: int, width: int): set<Draw>
  {
    set c | c in m && 0 <= c < width :: Draw(height - 1, c, FlashSplash)
  }
}

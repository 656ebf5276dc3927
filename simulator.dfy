/**
 * The rain state the program mutates in place: the `raindrops` list and the
 * `splashes` dictionary, held by one object. `Generate` is `generate_rain`
 * (every release: `Wind(w)` for the releases with wind, `Still` for the first
 * one), split into its three loops; `FlashEffect` is `lightning_flash_effect`.
 * Every curses call becomes a `Draw` in a returned sequence.
 */
module Simulator {
  import opened Rain
  import opened RainFacts

  /** A non-empty set has an element (what the loops below pick next). */
  lemma SomeElement(s: set<int>)
    requires s != {}
    ensures exists c :: c in s
  {
    if forall c :: c !in s {
      assert false;
    }
  }

  class Rainfall {
    var drops: seq<Drop>
    var splashes: map<int, real>

    /** Drops sit at non-negative rows, oldest (lowest on screen) first. */
    ghost predicate Valid()
      reads this
    {
      Settled(drops)
    }

    constructor ()
      ensures Valid() && drops == [] && splashes == map[]
    {
      drops := [];
      splashes := map[];
    }

    /** Append a row-0 drop for every column whose draw is below the intensity, in place. */
    method Spawn(width: int, draws: seq<real>, intensity: real)
      requires |draws| == width
      modifies this`drops
      ensures drops == old(drops) + Spawns(draws, intensity)
    {
      for x := 0 to width
        invariant drops == old(drops) + Spawns(draws[..x], intensity)
      {
        assert draws[..x + 1][..x] == draws[..x];
        ghost var spawned := Spawns(draws[..x], intensity);
        assert Spawns(draws[..x + 1], intensity)
            == spawned + (if draws[x] < intensity then [(0, x)] else []);
        if draws[x] < intensity {
          drops := drops + [(0, x)];
          assert drops == old(drops) + (spawned + [(0, x)]);
        }
      }
      assert draws[..width] == draws;
    }

    /**
     * Move every drop one row down, record a splash for every drop that
     * enters the floor row, and build the next generation. `splashes` is
     * updated in place; the drop list itself is left as it is.
     */
    method Advance(height: int, width: int, drift: Drift, now: real) returns (next: seq<Drop>, drawn: seq<Draw>)
      requires Applicable(drift, width)
      modifies this`splashes
      ensures next == Advanced(drops, height, width, drift)
      ensures drawn == MoveDraws(drops, height, width, drift)
      ensures splashes == Splashed(old(splashes), drops, height, width, drift, now)
    {
      var ds, m0 := drops, splashes;
      next, drawn := [], [];
      for i := 0 to |ds|
        invariant next == Advanced(ds[..i], height, width, drift)
        invariant drawn == MoveDraws(ds[..i], height, width, drift)
        invariant splashes == Splashed(m0, ds[..i], height, width, drift, now)
      {
        var (y, x) := ds[i];
        x := Shift(drift, width, x);
        if y + 1 >= height {
          DropDiscarded(ds, i, m0, height, width, drift, now);
          continue;
        }
        if y + 1 == height - 1 {
          DropLands(ds, i, m0, height, width, drift, now, y, x);
          splashes := splashes[x := now];
          drawn := drawn + (Guarded(height, width, Draw(y, x, Blank))
                            + ColumnGuarded(width, Draw(y + 1, x, SplashGlyph)));
        } else {
          DropFalls(ds, i, m0, height, width, drift, now, y, x);
          drawn := drawn + (Guarded(height, width, Draw(y, x, Blank))
                            + Guarded(height, width, Draw(y + 1, x, RainGlyph)));
          next := next + [(y + 1, x)];
        }
      }
      assert ds[..|ds|] == ds;
    }

    /**
     * Pop every splash whose age exceeds the lifetime, erasing the in-range
     * ones. The loop walks a snapshot of the entries, as the program's
     * `list(splashes.items())` does; each erase targets a different column.
     */
    method Fade(height: int, width: int, now: real) returns (cleared: seq<Draw>)
      modifies this`splashes
      ensures splashes == Faded(old(splashes), now)
      ensures (set d | d in cleared) == FadeDraws(old(splashes), height, width, now)
      ensures forall i, j :: 0 <= i < j < |cleared| ==> cleared[i].col != cleared[j].col
    {
      var snapshot := splashes;
      var pending := snapshot.Keys;
      cleared := [];
      while pending != {}
        invariant pending <= snapshot.Keys
        invariant splashes == map c | c in snapshot && (c in pending || !Expired(snapshot[c], now)) :: snapshot[c]
        invariant forall i :: 0 <= i < |cleared| ==>
                    && cleared[i] == Draw(height - 1, cleared[i].col, Blank)
                    && cleared[i].col in snapshot && cleared[i].col !in pending
                    && Expired(snapshot[cleared[i].col], now) && 0 <= cleared[i].col < width
        invariant forall c :: c in snapshot && c !in pending && Expired(snapshot[c], now) && 0 <= c < width ==>
                    Draw(height - 1, c, Blank) in cleared
        invariant forall i, j :: 0 <= i < j < |cleared| ==> cleared[i].col != cleared[j].col
        decreases pending
      {
        SomeElement(pending);
        var x :| x in pending;
        var splashTime := snapshot[x];
        if now - splashTime > SplashLifetime {
          splashes := splashes - {x};
          if 0 <= x < width {
            cleared := cleared + [Draw(height - 1, x, Blank)];
          }
        }
        pending := pending - {x};
      }
      assert (set d | d in cleared) == FadeDraws(snapshot, height, width, now);
    }

    /**
     * One call of `generate_rain`: spawn, advance, fade, and hand the next
     * generation back to the caller, which stores it as the new drop list.
     */
    method Generate(height: int, width: int, draws: seq<real>, intensity: real, drift: Drift, now: real)
      returns (drawn: seq<Draw>, cleared: seq<Draw>)
      requires Applicable(drift, width) && |draws| == width
      requires Valid()
      modifies this
      ensures Valid()
      ensures Scene(drops, splashes)
           == Step(Scene(old(drops), old(splashes)), TickInput(height, width, draws, now), intensity, drift)
      ensures drawn == MoveDraws(old(drops) + Spawns(draws, intensity), height, width, drift)
      ensures (set d | d in cleared)
           == FadeDraws(Splashed(old(splashes), old(drops) + Spawns(draws, intensity), height, width, drift, now),
                        height, width, now)
      ensures forall d :: d in drops ==> 1 <= d.0 <= height - 2 && (drift.Wind? ==> 0 <= d.1 < width)
    {
      ghost var all := old(drops) + Spawns(draws, intensity);
      SpawnsShape(draws, intensity);
      assert forall k :: 0 <= k < |all| ==> all[k].0 >= 0 by {
        forall k | 0 <= k < |all|
          ensures all[k].0 >= 0
        {
          if k >= |old(drops)| {
            assert all[k] == Spawns(draws, intensity)[k - |old(drops)|];
          }
        }
      }
      AdvancedInGrid(all, height, width, drift);
      Spawn(width, draws, intensity);
      var next;
      next, drawn := Advance(height, width, drift, now);
      cleared := Fade(height, width, now);
      StepKeepsSettled(Scene(old(drops), old(splashes)), TickInput(height, width, draws, now), intensity, drift);
      drops := next;
    }

    /** The bright redraw of the drops: one glyph per in-grid drop, in list order. */
    method FlashDrops(height: int, width: int) returns (brightDrops: seq<Draw>)
      ensures brightDrops == FlashDropDraws(drops, height, width)
    {
      var ds := drops;
      brightDrops := [];
      for i := 0 to |ds|
        invariant brightDrops == FlashDropDraws(ds[..i], height, width)
      {
        assert ds[..i + 1][..i] == ds[..i];
        var (y, x) := ds[i];
        if 0 <= y < height && 0 <= x < width {
          brightDrops := brightDrops + [Draw(y, x, FlashRain)];
        }
      }
      assert ds[..|ds|] == ds;
    }

    /** The bright redraw of the splashes: one glyph per in-range column, each column once. */
    method FlashSplashes(height: int, width: int) returns (brightSplashes: seq<Draw>)
      ensures (set d | d in brightSplashes) == FlashSplashDraws(splashes, height, width)
      ensures forall i, j :: 0 <= i < j < |brightSplashes| ==> brightSplashes[i].col != brightSplashes[j].col
    {
      var m := splashes;
      var pending := m.Keys;
      brightSplashes := [];
      while pending != {}
        invariant pending <= m.Keys
        invariant forall i :: 0 <= i < |brightSplashes| ==>
                    && brightSplashes[i] == Draw(height - 1, brightSplashes[i].col, FlashSplash)
                    && brightSplashes[i].col in m && brightSplashes[i].col !in pending
                    && 0 <= brightSplashes[i].col < width
        invariant forall c :: c in m && c !in pending && 0 <= c < width ==>
                    Draw(height - 1, c, FlashSplash) in brightSplashes
        invariant forall i, j :: 0 <= i < j < |brightSplashes| ==> brightSplashes[i].col != brightSplashes[j].col
        decreases pending
      {
        SomeElement(pending);
        var x :| x in pending;
        if 0 <= x < width {
          brightSplashes := brightSplashes + [Draw(height - 1, x, FlashSplash)];
        }
        pending := pending - {x};
      }
      assert (set d | d in brightSplashes) == FlashSplashDraws(m, height, width);
    }

    /**
     * `lightning_flash_effect`: the bright redraw of the drops, then of the
     * splashes. It changes nothing.
     */
    method FlashEffect(height: int, width: int) returns (brightDrops: seq<Draw>, brightSplashes: seq<Draw>)
      ensures brightDrops == FlashDropDraws(drops, height, width)
      ensures (set d | d in brightSplashes) == FlashSplashDraws(splashes, height, width)
      ensures forall i, j :: 0 <= i < j < |brightSplashes| ==> brightSplashes[i].col != brightSplashes[j].col
    {
      brightDrops := FlashDrops(height, width);
      brightSplashes := FlashSplashes(height, width);
    }
  }
}

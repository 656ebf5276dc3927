/**
 * What one tick of the rain simulation guarantees, proved about the functions
 * of `Rain`: which drops are spawned, where the survivors go, how many leave
 * and why, how the splash dictionary changes, that every draw lands on the
 * grid, and how long a splash lives over a run of ticks.
 */
module RainFacts {
  import opened Rain

  // ---------------------------------------------------------------- spawn

  /**
   * Every spawned drop is a (0, x) for a column x of the grid whose draw is
   * below the intensity, and the columns strictly ascend: no column twice.
   */
  lemma {:induction false} SpawnsShape(draws: seq<real>, intensity: real)
    ensures forall k :: 0 <= k < |Spawns(draws, intensity)| ==>
              && Spawns(draws, intensity)[k].0 == 0
              && 0 <= Spawns(draws, intensity)[k].1 < |draws|
              && draws[Spawns(draws, intensity)[k].1] < intensity
    ensures forall i, j :: 0 <= i < j < |Spawns(draws, intensity)| ==>
              Spawns(draws, intensity)[i].1 < Spawns(draws, intensity)[j].1
    decreases |draws|
  {
    if draws != [] {
      var n := |draws| - 1;
      SpawnsShape(draws[..n], intensity);
      var p := Spawns(draws[..n], intensity);
      forall k | 0 <= k < |p| ensures draws[p[k].1] < intensity {
        assert draws[..n][p[k].1] == draws[p[k].1];
      }
    }
  }

  /** Every column whose draw is below the intensity gets its row-0 drop. */
  lemma {:induction false} SpawnsComplete(draws: seq<real>, intensity: real, x: int)
    requires 0 <= x < |draws| && draws[x] < intensity
    ensures (0, x) in Spawns(draws, intensity)
    decreases |draws|
  {
    var n := |draws| - 1;
    if x < n {
      assert draws[..n][x] == draws[x];
      SpawnsComplete(draws[..n], intensity, x);
    }
  }

  /** When every draw is below the intensity, every column spawns, in order. */
  lemma {:induction false} SpawnsEveryColumn(draws: seq<real>, intensity: real)
    requires forall x :: 0 <= x < |draws| ==> draws[x] < intensity
    ensures Spawns(draws, intensity) == seq(|draws|, x => (0, x))
    decreases |draws|
  {
    if draws != [] {
      var n := |draws| - 1;
      SpawnsEveryColumn(draws[..n], intensity);
      assert seq(|draws|, x => (0, x)) == seq(n, x => (0, x)) + [(0, n)];
    }
  }

  // -------------------------------------------------------------- advance

  /** The next generation of a concatenation is the concatenation of the next generations. */
  lemma {:induction false} AdvancedAppend(a: seq<Drop>, b: seq<Drop>, height: int, width: int, drift: Drift)
    requires Applicable(drift, width)
    ensures Advanced(a + b, height, width, drift) == Advanced(a, height, width, drift) + Advanced(b, height, width, drift)
    decreases |b|
  {
    if b == [] {
      assert a + b == a;
    } else {
      var p := b[..|b| - 1];
      AdvancedAppend(a, p, height, width, drift);
      assert (a + b)[..|a + b| - 1] == a + p;
    }
  }

  /** A drop is in the next generation iff it is the shifted, one-row-down image of a drop that keeps falling. */
  lemma {:induction false} AdvancedMembers(ds: seq<Drop>, height: int, width: int, drift: Drift)
    requires Applicable(drift, width)
    ensures forall e :: e in Advanced(ds, height, width, drift)
                    <==> exists k :: 0 <= k < |ds| && Falls(height, ds[k]) && e == Fallen(drift, width, ds[k])
    decreases |ds|
  {
    if ds != [] {
      var n := |ds| - 1;
      var p := ds[..n];
      AdvancedMembers(p, height, width, drift);
      forall e | e in Advanced(ds, height, width, drift)
        ensures exists k :: 0 <= k < |ds| && Falls(height, ds[k]) && e == Fallen(drift, width, ds[k])
      {
        if e in Advanced(p, height, width, drift) {
          var k :| 0 <= k < |p| && Falls(height, p[k]) && e == Fallen(drift, width, p[k]);
          assert ds[k] == p[k];
        } else {
          assert Falls(height, ds[n]) && e == Fallen(drift, width, ds[n]);
        }
      }
      forall e | exists k :: 0 <= k < |ds| && Falls(height, ds[k]) && e == Fallen(drift, width, ds[k])
        ensures e in Advanced(ds, height, width, drift)
      {
        var k :| 0 <= k < |ds| && Falls(height, ds[k]) && e == Fallen(drift, width, ds[k]);
        if k < n {
          assert p[k] == ds[k];
        }
      }
    }
  }

  /**
   * Every drop of the next generation is inside the grid: row in
   * [1, height - 2] and, with wind, column in [0, width), for any wind.
   */
  lemma AdvancedInGrid(ds: seq<Drop>, height: int, width: int, drift: Drift)
    requires Applicable(drift, width)
    requires forall k :: 0 <= k < |ds| ==> ds[k].0 >= 0
    ensures forall e :: e in Advanced(ds, height, width, drift) ==>
              1 <= e.0 <= height - 2 && (drift.Wind? ==> 0 <= e.1 < width)
  {
    AdvancedMembers(ds, height, width, drift);
  }

  /** Without wind a surviving drop keeps its column exactly, in or out of range. */
  lemma CalmKeepsColumns(ds: seq<Drop>, height: int, width: int)
    ensures forall e :: e in Advanced(ds, height, width, Still) <==>
              exists k :: 0 <= k < |ds| && Falls(height, ds[k]) && e == (ds[k].0 + 1, ds[k].1)
  {
    AdvancedMembers(ds, height, width, Still);
  }

  /** One more drop of the advance loop: what it adds to the next generation. */
  lemma AdvancedSnoc(ds: seq<Drop>, i: int, height: int, width: int, drift: Drift)
    requires Applicable(drift, width) && 0 <= i < |ds|
    ensures Advanced(ds[..i + 1], height, width, drift)
         == Advanced(ds[..i], height, width, drift) + (if Falls(height, ds[i]) then [Fallen(drift, width, ds[i])] else [])
  {
    assert ds[..i + 1][..i] == ds[..i];
  }

  /** One more drop of the advance loop: what it adds to the draws. */
  lemma MoveDrawsSnoc(ds: seq<Drop>, i: int, height: int, width: int, drift: Drift)
    requires Applicable(drift, width) && 0 <= i < |ds|
    ensures MoveDraws(ds[..i + 1], height, width, drift)
         == MoveDraws(ds[..i], height, width, drift) + DropDraws(height, width, ds[i].0, Shift(drift, width, ds[i].1))
  {
    assert ds[..i + 1][..i] == ds[..i];
  }

  /** One more drop of the advance loop: what it does to the splash dictionary. */
  lemma SplashedSnoc(ds: seq<Drop>, i: int, m: map<int, real>, height: int, width: int, drift: Drift, now: real)
    requires Applicable(drift, width) && 0 <= i < |ds|
    ensures Splashed(m, ds[..i + 1], height, width, drift, now)
         == if Lands(height, ds[i])
            then Splashed(m, ds[..i], height, width, drift, now)[Shift(drift, width, ds[i].1) := now]
            else Splashed(m, ds[..i], height, width, drift, now)
  {
    assert ds[..i + 1][..i] == ds[..i];
  }

  /** A drop whose next row is outside the grid adds nothing to any result of the advance loop. */
  lemma DropDiscarded(ds: seq<Drop>, i: int, m: map<int, real>, height: int, width: int, drift: Drift, now: real)
    requires Applicable(drift, width) && 0 <= i < |ds|
    requires ds[i].0 + 1 >= height
    ensures Advanced(ds[..i + 1], height, width, drift) == Advanced(ds[..i], height, width, drift)
    ensures MoveDraws(ds[..i + 1], height, width, drift) == MoveDraws(ds[..i], height, width, drift)
    ensures Splashed(m, ds[..i + 1], height, width, drift, now) == Splashed(m, ds[..i], height, width, drift, now)
  {
    AdvancedSnoc(ds, i, height, width, drift);
    MoveDrawsSnoc(ds, i, height, width, drift);
    SplashedSnoc(ds, i, m, height, width, drift, now);
  }

  /**
   * A drop at row y entering the floor row at shifted column x: no new drop,
   * an erase and a splash glyph, and a splash stamped `now` at x.
   */
  lemma DropLands(ds: seq<Drop>, i: int, m: map<int, real>, height: int, width: int, drift: Drift, now: real,
                  y: int, x: int)
    requires Applicable(drift, width) && 0 <= i < |ds|
    requires y == ds[i].0 && x == Shift(drift, width, ds[i].1) && y + 1 == height - 1
    ensures Advanced(ds[..i + 1], height, width, drift) == Advanced(ds[..i], height, width, drift)
    ensures MoveDraws(ds[..i + 1], height, width, drift)
         == MoveDraws(ds[..i], height, width, drift)
            + (Guarded(height, width, Draw(y, x, Blank)) + ColumnGuarded(width, Draw(y + 1, x, SplashGlyph)))
    ensures Splashed(m, ds[..i + 1], height, width, drift, now) == Splashed(m, ds[..i], height, width, drift, now)[x := now]
  {
    AdvancedSnoc(ds, i, height, width, drift);
    MoveDrawsSnoc(ds, i, height, width, drift);
    SplashedSnoc(ds, i, m, height, width, drift, now);
  }

  /**
   * A drop at row y falling to a row above the floor at shifted column x:
   * the new drop (y + 1, x), an erase and a rain glyph, no splash.
   */
  lemma DropFalls(ds: seq<Drop>, i: int, m: map<int, real>, height: int, width: int, drift: Drift, now: real,
                  y: int, x: int)
    requires Applicable(drift, width) && 0 <= i < |ds|
    requires y == ds[i].0 && x == Shift(drift, width, ds[i].1) && y + 1 < height - 1
    ensures Advanced(ds[..i + 1], height, width, drift) == Advanced(ds[..i], height, width, drift) + [(y + 1, x)]
    ensures MoveDraws(ds[..i + 1], height, width, drift)
         == MoveDraws(ds[..i], height, width, drift)
            + (Guarded(height, width, Draw(y, x, Blank)) + Guarded(height, width, Draw(y + 1, x, RainGlyph)))
    ensures Splashed(m, ds[..i + 1], height, width, drift, now) == Splashed(m, ds[..i], height, width, drift, now)
  {
    AdvancedSnoc(ds, i, height, width, drift);
    MoveDrawsSnoc(ds, i, height, width, drift);
    SplashedSnoc(ds, i, m, height, width, drift, now);
  }

  /** The number of drops that enter the floor row. */
  function Landings(ds: seq<Drop>, height: int): nat
    decreases |ds|
  {
    if ds == [] then 0
    else Landings(ds[..|ds| - 1], height) + (if Lands(height, ds[|ds| - 1]) then 1 else 0)
  }

  /** The number of drops whose next row is outside the grid. */
  function Discards(ds: seq<Drop>, height: int): nat
    decreases |ds|
  {
    if ds == [] then 0
    else Discards(ds[..|ds| - 1], height) + (if ds[|ds| - 1].0 + 1 >= height then 1 else 0)
  }

  /** Drops leave only by landing or by being discarded: none is lost otherwise. */
  lemma {:induction false} AdvancedCount(ds: seq<Drop>, height: int, width: int, drift: Drift)
    requires Applicable(drift, width)
    ensures |Advanced(ds, height, width, drift)| + Landings(ds, height) + Discards(ds, height) == |ds|
    decreases |ds|
  {
    if ds != [] {
      AdvancedCount(ds[..|ds| - 1], height, width, drift);
    }
  }

  /** Rows stay non-negative and non-increasing from one generation to the next. */
  lemma {:induction false} AdvancedSettled(ds: seq<Drop>, height: int, width: int, drift: Drift)
    requires Applicable(drift, width)
    requires Settled(ds)
    ensures Settled(Advanced(ds, height, width, drift))
    decreases |ds|
  {
    if ds != [] {
      var n := |ds| - 1;
      var p := ds[..n];
      AdvancedSettled(p, height, width, drift);
      AdvancedMembers(p, height, width, drift);
      var a := Advanced(p, height, width, drift);
      forall i | 0 <= i < |a| ensures ds[n].0 + 1 <= a[i].0 {
        assert a[i] in a;
        var k :| 0 <= k < |p| && Falls(height, p[k]) && a[i] == Fallen(drift, width, p[k]);
        assert p[k] == ds[k];
      }
    }
  }

  /** A whole tick keeps the drop list settled. */
  lemma StepKeepsSettled(s: Scene, t: TickInput, intensity: real, drift: Drift)
    requires Applicable(drift, t.width)
    requires Settled(s.drops)
    ensures Settled(Step(s, t, intensity, drift).drops)
  {
    var all := s.drops + Spawns(t.draws, intensity);
    SpawnsShape(t.draws, intensity);
    assert Settled(all) by {
      forall k | 0 <= k < |all| ensures all[k].0 >= 0 {
        if k < |s.drops| { assert all[k] == s.drops[k]; }
      }
    }
    AdvancedSettled(all, t.height, t.width, drift);
  }

  // ------------------------------------------------------------- splashes

  lemma HitsSnoc(ds: seq<Drop>, d: Drop, height: int, width: int, drift: Drift)
    requires Applicable(drift, width)
    ensures Hits(ds + [d], height, width, drift)
         == Hits(ds, height, width, drift) + (if Lands(height, d) then {Shift(drift, width, d.1)} else {})
  {
    var e := ds + [d];
    forall c | c in Hits(e, height, width, drift)
      ensures c in Hits(ds, height, width, drift) || (Lands(height, d) && c == Shift(drift, width, d.1))
    {
      var k :| 0 <= k < |e| && Lands(height, e[k]) && c == Shift(drift, width, e[k].1);
      if k < |ds| {
        assert e[k] == ds[k];
      }
    }
    forall c | c in Hits(ds, height, width, drift) ensures c in Hits(e, height, width, drift) {
      var k :| 0 <= k < |ds| && Lands(height, ds[k]) && c == Shift(drift, width, ds[k].1);
      assert e[k] == ds[k];
    }
    if Lands(height, d) {
      assert e[|ds|] == d;
    }
  }

  /**
   * Landing writes the current time at the shifted column of each landing
   * drop, overwriting whatever was there; every other entry is untouched.
   */
  lemma {:induction false} SplashedEntries(m: map<int, real>, ds: seq<Drop>, height: int, width: int, drift: Drift, now: real)
    requires Applicable(drift, width)
    ensures Splashed(m, ds, height, width, drift, now).Keys == m.Keys + Hits(ds, height, width, drift)
    ensures forall c :: c in Hits(ds, height, width, drift) ==> Splashed(m, ds, height, width, drift, now)[c] == now
    ensures forall c :: c in m && c !in Hits(ds, height, width, drift) ==> Splashed(m, ds, height, width, drift, now)[c] == m[c]
    decreases |ds|
  {
    if ds == [] {
      assert Hits(ds, height, width, drift) == {};
    } else {
      var n := |ds| - 1;
      SplashedEntries(m, ds[..n], height, width, drift, now);
      assert ds == ds[..n] + [ds[n]];
      HitsSnoc(ds[..n], ds[n], height, width, drift);
    }
  }

  /**
   * The splash dictionary after a tick: a column is present iff a drop landed
   * there this tick, or it was present and has not expired. A column hit this
   * tick holds the current time; any other entry keeps its old timestamp.
   */
  lemma StepSplashes(s: Scene, t: TickInput, intensity: real, drift: Drift, c: int)
    requires Applicable(drift, t.width)
    ensures var hits := Hits(s.drops + Spawns(t.draws, intensity), t.height, t.width, drift);
            var r := Step(s, t, intensity, drift).splashes;
            && (c in r <==> c in hits || (c in s.splashes && !Expired(s.splashes[c], t.now)))
            && (c in hits ==> r[c] == t.now)
            && (c in r && c !in hits ==> r[c] == s.splashes[c])
  {
    SplashedEntries(s.splashes, s.drops + Spawns(t.draws, intensity), t.height, t.width, drift, t.now);
  }

  /** Column `c` gets no landing in any tick of the run. */
  ghost predicate Unhit(s: Scene, ts: seq<TickInput>, intensity: real, drift: Drift, c: int)
    requires forall k :: 0 <= k < |ts| ==> Applicable(drift, ts[k].width)
    decreases |ts|
  {
    if ts == [] then true
    else
      var n := |ts| - 1;
      var before := Run(s, ts[..n], intensity, drift);
      && Unhit(s, ts[..n], intensity, drift, c)
      && c !in Hits(before.drops + Spawns(ts[n].draws, intensity), ts[n].height, ts[n].width, drift)
  }

  /**
   * The lifetime of a splash over a run of ticks in which its column is not
   * hit again: it is still there, with its timestamp, exactly when no tick so
   * far saw it older than the lifetime. So it goes at the first tick whose
   * clock exceeds its timestamp by more than the lifetime, and never before.
   */
  lemma {:induction false} SplashLifetimeOverRun(s: Scene, ts: seq<TickInput>, intensity: real, drift: Drift, c: int)
    requires forall k :: 0 <= k < |ts| ==> Applicable(drift, ts[k].width)
    requires c in s.splashes
    requires Unhit(s, ts, intensity, drift, c)
    ensures c in Run(s, ts, intensity, drift).splashes
        <==> forall k :: 0 <= k < |ts| ==> !Expired(s.splashes[c], ts[k].now)
    ensures c in Run(s, ts, intensity, drift).splashes ==> Run(s, ts, intensity, drift).splashes[c] == s.splashes[c]
    decreases |ts|
  {
    if ts != [] {
      var n := |ts| - 1;
      var p := ts[..n];
      assert forall k :: 0 <= k < |p| ==> p[k] == ts[k];
      SplashLifetimeOverRun(s, p, intensity, drift, c);
      StepSplashes(Run(s, p, intensity, drift), ts[n], intensity, drift, c);
    }
  }

  /** A splash recorded this tick is still there after the tick's fade. */
  lemma FreshSplashSurvives(s: Scene, t: TickInput, intensity: real, drift: Drift, c: int)
    requires Applicable(drift, t.width)
    requires c in Hits(s.drops + Spawns(t.draws, intensity), t.height, t.width, drift)
    ensures c in Step(s, t, intensity, drift).splashes && Step(s, t, intensity, drift).splashes[c] == t.now
  {
    StepSplashes(s, t, intensity, drift, c);
  }

  // ---------------------------------------------------------------- draws

  lemma DropDrawsInGrid(height: int, width: int, y: int, x: int)
    requires height >= 1
    ensures forall w :: w in DropDraws(height, width, y, x) ==> InGrid(height, width, w.row, w.col)
  {
  }

  /** On a grid of at least one row, every draw of the advance loop hits a cell of the grid. */
  lemma {:induction false} MoveDrawsInGrid(ds: seq<Drop>, height: int, width: int, drift: Drift)
    requires Applicable(drift, width) && height >= 1
    ensures forall w :: w in MoveDraws(ds, height, width, drift) ==> InGrid(height, width, w.row, w.col)
    decreases |ds|
  {
    if ds != [] {
      MoveDrawsInGrid(ds[..|ds| - 1], height, width, drift);
      DropDrawsInGrid(height, width, ds[|ds| - 1].0, Shift(drift, width, ds[|ds| - 1].1));
    }
  }

  /** Every draw of a tick, moves and fade erases alike, hits a cell of the grid. */
  lemma TickDrawsInGrid(s: Scene, t: TickInput, intensity: real, drift: Drift)
    requires Applicable(drift, t.width) && t.height >= 1
    ensures var all := s.drops + Spawns(t.draws, intensity);
            && (forall w :: w in MoveDraws(all, t.height, t.width, drift) ==> InGrid(t.height, t.width, w.row, w.col))
            && (forall w :: w in FadeDraws(Splashed(s.splashes, all, t.height, t.width, drift, t.now), t.height, t.width, t.now)
                  ==> InGrid(t.height, t.width, w.row, w.col))
  {
    MoveDrawsInGrid(s.drops + Spawns(t.draws, intensity), t.height, t.width, drift);
  }

  /**
   * The flash draws exactly the in-grid drops, one bright glyph each, in
   * list order, and only on a grid cell.
   */
  lemma {:induction false} FlashDropDrawsExact(ds: seq<Drop>, height: int, width: int)
    ensures forall w :: w in FlashDropDraws(ds, height, width) <==>
              exists k :: 0 <= k < |ds| && InGrid(height, width, ds[k].0, ds[k].1) && w == Draw(ds[k].0, ds[k].1, FlashRain)
    ensures forall w :: w in FlashDropDraws(ds, height, width) ==> InGrid(height, width, w.row, w.col)
    decreases |ds|
  {
    if ds != [] {
      var n := |ds| - 1;
      var p := ds[..n];
      FlashDropDrawsExact(p, height, width);
      forall w | exists k :: 0 <= k < |ds| && InGrid(height, width, ds[k].0, ds[k].1) && w == Draw(ds[k].0, ds[k].1, FlashRain)
        ensures w in FlashDropDraws(ds, height, width)
      {
        var k :| 0 <= k < |ds| && InGrid(height, width, ds[k].0, ds[k].1) && w == Draw(ds[k].0, ds[k].1, FlashRain);
        if k < n {
          assert p[k] == ds[k];
        }
      }
      forall w | w in FlashDropDraws(p, height, width)
        ensures exists k :: 0 <= k < |ds| && InGrid(height, width, ds[k].0, ds[k].1) && w == Draw(ds[k].0, ds[k].1, FlashRain)
      {
        var k :| 0 <= k < |p| && InGrid(height, width, p[k].0, p[k].1) && w == Draw(p[k].0, p[k].1, FlashRain);
        assert ds[k] == p[k];
      }
    }
  }

  /**
   * The flash draws one bright glyph on the floor row for exactly the
   * in-range splash columns; on a grid of at least one row each is a cell.
   */
  lemma FlashSplashDrawsExact(m: map<int, real>, height: int, width: int)
    ensures forall w :: w in FlashSplashDraws(m, height, width) <==>
              w.row == height - 1 && w.col in m && 0 <= w.col < width && w.glyph == FlashSplash
    ensures height >= 1 ==> forall w :: w in FlashSplashDraws(m, height, width) ==> InGrid(height, width, w.row, w.col)
  {
  }

  // ------------------------------------------------------- first release

  /**
   * When every stored column is inside the grid, the first release's tick
   * (no wind, no wrap) and a windless tick of the later releases agree on
   * the new state and on every draw.
   */
  lemma {:induction false} CalmAgreesWithZeroWind(ds: seq<Drop>, m: map<int, real>, height: int, width: int, now: real)
    requires width > 0
    requires forall k :: 0 <= k < |ds| ==> 0 <= ds[k].1 < width
    ensures Advanced(ds, height, width, Still) == Advanced(ds, height, width, Wind(0))
    ensures Splashed(m, ds, height, width, Still, now) == Splashed(m, ds, height, width, Wind(0), now)
    ensures MoveDraws(ds, height, width, Still) == MoveDraws(ds, height, width, Wind(0))
    decreases |ds|
  {
    if ds != [] {
      var n := |ds| - 1;
      CalmAgreesWithZeroWind(ds[..n], m, height, width, now);
      assert Shift(Still, width, ds[n].1) == Shift(Wind(0), width, ds[n].1);
    }
  }

  /** The same agreement for a whole tick, spawned drops included. */
  lemma CalmStepAgreesWithZeroWind(s: Scene, t: TickInput, intensity: real)
    requires t.width > 0 && |t.draws| == t.width
    requires forall k :: 0 <= k < |s.drops| ==> 0 <= s.drops[k].1 < t.width
    ensures Step(s, t, intensity, Still) == Step(s, t, intensity, Wind(0))
  {
    var all := s.drops + Spawns(t.draws, intensity);
    SpawnsShape(t.draws, intensity);
    forall k | 0 <= k < |all| ensures 0 <= all[k].1 < t.width {
      if k < |s.drops| { assert all[k] == s.drops[k]; }
    }
    CalmAgreesWithZeroWind(all, s.splashes, t.height, t.width, t.now);
  }
}

# raintty in Dafny

raintty is a terminal rain animation. Every tick it does four things in place:
- spawns a drop on row 0 in each column whose random draw is below the intensity;
- moves every drop one row down, shifting its column by the wind modulo the width;
- turns a drop that enters the floor row into a splash, a timestamp kept per column;
- removes the splashes older than half a second.

Around this tick, the main loop applies three kinds of control rules: keyboard controls, a dynamic-weather mode and a random lightning flash that redraws the rain brightly.

This project models that core in four releases: the current `raintty.py`, and `oldversions/raintty-0.4.py`, `-0.3.py` and `-0.1.py`.

- `rain.dfy` (`Rain`): the tick as functions on values.
  - `Spawns`, `Advanced`, `Splashed`, `Faded`, `Step` and `Run`.
  - The draws each part of the tick issues: `MoveDraws`, `FadeDraws`, `FlashDropDraws` and `FlashSplashDraws`.
  - A curses `addch` becomes a `Draw(row, col, glyph)`.
- `rain_facts.dfy` (`RainFacts`): what a tick guarantees, proved about those functions.
- `simulator.dfy` (`Simulator`): the program's mutable state. Class `Rainfall` holds the drop list and the splash dictionary.
  - `generate_rain` is `Generate`, split into its three loops, `Spawn`, `Advance` and `Fade`.
  - `lightning_flash_effect` is `FlashEffect`.
  - Each loop is proved against the matching `Rain` function.
- `controls.dfy` (`Controls`): the current release's key rules, dynamic clamps and lightning trigger.
- `controls_old.dfy` (`ControlsV04`, `ControlsV03`): 0.4's unclamped oscillator and its key rules without `h`, and 0.3's fixed 1 % lightning chance.
- `session.dfy` (`Session`): the main loops.
  - `Loop` is the loop of the current release and of 0.4 as a fold.
  - `MainLoop` is the same loop on a `Rainfall` object.
  - `MainLoopV03` and `MainLoopV01` are the older loops.

How the releases relate:
- The four `generate_rain` bodies are the same algorithm.
- The current release, 0.4 (`oldversions/raintty-0.4.py:8-56`) and 0.3 (`oldversions/raintty-0.3.py:7-56`) all wrap the column with `(x + wind) % width`. This is `Drift.Wind(w)`.
- 0.1 (`oldversions/raintty-0.1.py:14-60`) has no wind line, so columns are kept as they are. This is `Drift.Still`.
- So every `Rain`, `RainFacts` and `Simulator` member covers all four releases. The table cites the current file.
- 0.3's `lightning_flash_effect` (`oldversions/raintty-0.3.py:59-76`) draws exactly what the current one draws.
- 0.4's lightning trigger (`oldversions/raintty-0.4.py:91`) is the current one, so it is `Controls.LightningFlash`.
- 0.4's loop (`oldversions/raintty-0.4.py:80-124`) is `Session.Loop` / `Session.MainLoop` with `Release.V04`.

Inputs and outputs:
- The terminal size, the random draws, the clock, the key codes and the sine values of dynamic mode are inputs. Each tick gets a `TickInput`; in the controlled loops each iteration gets a `Frame`.
- The curses calls are outputs: sequences or sets of `Draw`.

Two details of the code that the model keeps:
- The dynamic wind uses `int()`, which truncates toward zero (`Controls.Trunc`). For example, `int(-2.7)` is -2.
- The erase a moving drop issues uses its wind-shifted column, because `raintty.py:22` reassigns `x` before the draw.

## Model

| member | source | states |
|---|---|---|
| Rain.Shift | raintty.py:22 | With wind, the new column is always in [0, width), for any column and any wind, negative included. It differs from `x + wind` by a multiple of the width, so it is the one residue of `x + wind` in the grid, also for a column stored before the terminal shrank or a wind wider than the grid. It is exactly `x + wind` when that is in range, and one width less or more when it wraps once. Without wind (0.1) the column is unchanged. |
| Rain.Spawns | raintty.py:15-17 | A tick spawns no more drops than the grid has columns. |
| Rain.Advanced | raintty.py:20-45 | The next generation is never longer than the drop list it comes from. |
| RainFacts.SpawnsShape | raintty.py:15-17 | Every spawned drop is `(0, x)` for a column x whose draw is below the intensity. The columns strictly ascend, so no column appears twice. |
| RainFacts.SpawnsComplete | raintty.py:15-17 | Every column whose draw is below the intensity gets its row-0 drop. |
| RainFacts.SpawnsEveryColumn | raintty.py:15-17 | When every draw is below the intensity, the spawns are exactly `(0, 0), …, (0, width - 1)`, in order. |
| RainFacts.AdvancedAppend | raintty.py:20-45 | The advance loop works drop by drop in list order: the next generation of `a + b` is that of `a` followed by that of `b`. |
| RainFacts.AdvancedMembers | raintty.py:21-45 | A drop is in the next generation iff it is `(y + 1, shifted x)` of an input drop with `y + 1 < height - 1`. |
| RainFacts.AdvancedInGrid | raintty.py:22-45 | From drops at non-negative rows, every drop of the next generation has its row in [1, height - 2] and, with wind, its column in [0, width). |
| RainFacts.CalmKeepsColumns | oldversions/raintty-0.1.py:26-47 | Without wind, the next generation is exactly the `(y + 1, x)` of the input drops that keep falling. Columns are preserved, in range or not. |
| RainFacts.DropDiscarded | raintty.py:24-25 | A drop with `y + 1 >= height` is dropped with no draw and no splash. |
| RainFacts.DropLands | raintty.py:27-35 | A drop entering the floor row is not carried over. It issues the guarded erase at its shifted column and the column-guarded splash glyph, and stamps `now` at the shifted column. |
| RainFacts.DropFalls | raintty.py:36-45 | A drop above the floor row becomes `(y + 1, shifted x)` and issues the guarded erase and rain glyph. It adds no splash. |
| RainFacts.AdvancedCount | raintty.py:21-45 | Survivors plus floor hits plus discards equal the number of input drops. Drops leave only through the discard or the splash branch. |
| RainFacts.AdvancedSettled | raintty.py:20-45 | Rows stay non-negative and non-increasing along the list from one generation to the next. |
| RainFacts.StepKeepsSettled | raintty.py:10-58 | A whole tick, spawns included, keeps the drop list in that shape. |
| RainFacts.SplashedEntries | raintty.py:27-28 | After the landings the splash keys are the old keys plus the hit columns. A hit column holds `now`, overwriting any older entry. Every other entry is unchanged. |
| RainFacts.StepSplashes | raintty.py:27-56 | After a tick a column has a splash iff a drop landed there this tick, or it had an unexpired splash (`now - t > 0.5` is false). A hit holds `now`; any other surviving entry keeps its timestamp. |
| RainFacts.SplashLifetimeOverRun | raintty.py:47-51 | Over a run of ticks that do not hit its column again, a splash stays, with its timestamp, exactly as long as no tick's clock exceeds its timestamp by more than 0.5. |
| RainFacts.FreshSplashSurvives | raintty.py:27-51 | A splash recorded this tick survives this tick's fade. |
| RainFacts.DropDrawsInGrid | raintty.py:29-44 | On a grid of at least one row, every draw for one drop targets a cell of the grid. |
| RainFacts.MoveDrawsInGrid | raintty.py:29-44 | The same holds for every draw of the advance loop. |
| RainFacts.TickDrawsInGrid | raintty.py:29-56 | The same holds for every draw of a tick: moves, splash glyphs and fade erases. |
| RainFacts.FlashDropDrawsExact | raintty.py:67-69 | The flash draws a bright glyph exactly for the in-grid drops, and only on grid cells. |
| RainFacts.FlashSplashDrawsExact | raintty.py:70-75 | The flash draws one bright glyph on the floor row for exactly the in-range splash columns, each a grid cell when the grid has a row. |
| RainFacts.CalmAgreesWithZeroWind | oldversions/raintty-0.1.py:26-47 | With every stored column in range, 0.1's windless advance and a zero-wind advance of the later releases agree on the next generation, the splashes and every draw. |
| RainFacts.CalmStepAgreesWithZeroWind | oldversions/raintty-0.1.py:14-60 | The same agreement for a whole tick, spawns included. |
| Simulator.Rainfall.constructor | raintty.py:99-100 | The session starts with no drops and no splashes, a valid state. |
| Simulator.Rainfall.Spawn | raintty.py:15-17 | The drop list is extended in place by exactly the spawns, after the existing drops. Nothing else changes. |
| Simulator.Rainfall.Advance | raintty.py:20-45 | The loop returns the next generation and the draws of the advance, and updates the splash dictionary in place by the landings. |
| Simulator.Rainfall.Fade | raintty.py:47-56 | Exactly the expired splashes are popped. The erases are exactly the expired in-range columns, one per column; out-of-range keys are removed without a draw. |
| Simulator.Rainfall.Generate | raintty.py:10-58 | One call keeps the state valid and leaves it equal to `Rain.Step`, with the advance draws and fade erases of that step. Every stored drop is then at a row in [1, height - 2] and, with wind, a column in [0, width). |
| Simulator.Rainfall.FlashDrops | raintty.py:67-69 | The bright drops are drawn in list order, one per in-grid drop. |
| Simulator.Rainfall.FlashSplashes | raintty.py:70-75 | The bright splashes are one per in-range column, each column once. |
| Simulator.Rainfall.FlashEffect | raintty.py:61-80 | The flash redraw issues exactly those draws and changes neither the drops nor the splashes. |
| Controls.ApplyKey | raintty.py:121-135 | `q` quits, and it is the only key that does. `+` adds 0.1 to the intensity and saturates at 1.0, `-` subtracts 0.1 and saturates at 0.1, `[` and `]` move the wind by 1 and saturate at -10 and 10; each changes only its own field. `l` and `h` toggle their flag and nothing else. Any other code changes nothing. |
| Controls.KeysKeepRange | raintty.py:121-135 | Settings starting in [0.1, 1.0] × [-10, 10] stay there under any key sequence. |
| Controls.KeysQuitAtQ | raintty.py:121-123 | A key sequence ends the loop iff it contains `q`. |
| Controls.Trunc | raintty.py:114 | Python's `int()` of a float: truncation toward zero, within one of the value on the side of zero. |
| Controls.DynamicIntensity | raintty.py:112-113 | The dynamic intensity is in [0.1, 1.0] for any sine and jitter. It equals the raw value when that is in range, and is 1.0 above the range and 0.1 below it. |
| Controls.DynamicWind | raintty.py:114-115 | The dynamic wind is in [-5, 5] for any sine and jitter. It equals the truncation when that is in range, and is 5 above the range and -5 below it. |
| Controls.Dynamic | raintty.py:110-115 | Dynamic mode puts intensity in [0.1, 1.0] and wind in [-5, 5], and keeps both flags. |
| Controls.LightningFlash | raintty.py:118 | A flash needs lightning on and a draw below 0.02; at intensity ≤ 0.7 the draw must be below 0.005. Conversely, a draw below the threshold for the intensity always flashes. |
| ControlsV04.Oscillate | oldversions/raintty-0.4.py:85-88 | 0.4's unclamped oscillator keeps intensity in [0.1, 0.9] and wind in [-3, 3] when the sine values are in [-1, 1], and keeps both flags. |
| ControlsV04.ApplyKeyV04 | oldversions/raintty-0.4.py:94-106 | 0.4's keys are the current rules except `h`, which changes nothing. |
| ControlsV03.LightningV03AgainstCurrent | oldversions/raintty-0.3.py:100-102 | At intensity ≤ 0.7 every flash of the current trigger is also a 0.3 flash; above 0.7 every 0.3 flash is also a current flash; with lightning off neither flashes. |
| Session.LoopQuitSticks | raintty.py:122-123 | Once `q` has ended the loop, later frames change nothing. |
| Session.LoopQuitSnoc | raintty.py:121-123 | An iteration ends the loop exactly when its key is `q`. |
| Session.LoopQuitsAtQ | raintty.py:105-151 | A session ends early iff some frame's key is `q`. |
| Session.LoopKeepsRange | raintty.py:110-135 | Settings starting in the manual ranges stay there for a whole session, with or without dynamic mode. For 0.4's unclamped oscillator this needs sine values in [-1, 1]. |
| Session.NoFlashWithoutLightning | raintty.py:118-133 | With lightning off at the start and no `l` key, lightning stays off and no iteration flashes. |
| Session.FlashUsesIntensityBeforeKey | raintty.py:117-125 | The flash is drawn from the pre-key intensity: at 0.7 a draw of 0.01 does not flash even though the same iteration's `+` raises the intensity to 0.8, where it would. |
| Session.Tick | raintty.py:139-144 | One iteration's tick on the mutable rain state equals `Rain.Step`, keeps it valid and leaves every drop on the grid's rows (and, with wind, columns). It returns the draws in issue order: the advance draws and fade erases of the old state and, only when the iteration flashes, the bright drops and bright splashes of the new state. |
| Session.MainLoop | raintty.py:105-151 | The loop on the mutable rain state ends with exactly the settings, rain, flash decisions and quit flag of `Loop`: dynamic step, then flash decision, then key, then tick at the post-key intensity and wind. |
| Session.MainLoopV03 | oldversions/raintty-0.3.py:95-119 | 0.3 ticks before checking `q`, so it ticks through the first `q`. The rain is the fixed-intensity, fixed-wind run over exactly those ticks, and each flash is 0.3's fixed-chance trigger, so with lightning off no iteration flashes. |
| Session.IterationV03 | oldversions/raintty-0.3.py:99-112 | One iteration of 0.3 before its `q` check: the flash decision is 0.3's trigger and the rain advances by one fixed-setting `Rain.Step`, whether or not the flash redraw runs. |
| Session.MainLoopV01 | oldversions/raintty-0.1.py:79-83 | 0.1's rain is the windless run over all its ticks. |

## Left out

- Curses I/O is not modelled: screen setup, colours, `clear`, `refresh`, `bkgd` and `getch` itself. A key is an input code and a draw is a `Draw` value. The splash glyph chosen by `random.choice` is one `SplashGlyph` kind.
- `try`/`except curses.error` around a draw is not modelled: every guarded draw is taken to succeed.
- 0.4's flash, which sets the background colour and sleeps, is a decision only: with `Release.V04`, `MainLoop` records it and calls `Tick` without the bright redraw.
- Session.MainLoop, Session.MainLoopV03 and Session.MainLoopV01 do not return the draws of a session: each iteration's draws are what `Session.Tick` returns, and the loops discard them, keeping the rain state, the settings and the flash decisions.
- `time.sleep`, the frame rate and the duration check are not modelled. A session is the finite sequence of frames it gets.
- The clock is one `now` per tick. `generate_rain` reads the clock once per landing drop and once before the fade. All these reads are taken to be one `now`, so every splash of a tick gets the same timestamp and a fresh splash has age 0.
- The random source is an input: the per-column spawn draws, the lightning draw and the jitter values. Only their values matter; their distribution and the `randomness` scale are not modelled.
- `math.sin` and the `cycle_time` accumulator are not modelled: each frame's sine values are inputs. Bounds that depend on a sine being in [-1, 1] take that as a precondition.
- Floating point is modelled as exact reals. `intensity ± 0.1`, the 0.5 s threshold and the lightning thresholds are compared exactly, without binary rounding.
- Dictionary order is not modelled. The fade and flash loops walk the splash keys in an unspecified order, so their draws are stated as sets, each column once.
- `display_settings` and the HUD line are not modelled: string formatting and `addstr` are I/O. Only the `h` toggle of `show_hud` is modelled.
- 0.1's `clear_and_show` end message is not modelled.
- Command-line parsing and its range checks with `exit(1)` are not modelled: they configure the initial settings, which are inputs.
- `Session.MainLoopV03` and `Session.MainLoopV01` take their inputs as separate sequences (ticks, lightning draws, keys). They do not model the dynamic mode or keys other than `q`, because those releases have neither.
- RainFacts.DropDrawsInGrid, MoveDrawsInGrid and TickDrawsInGrid require a height of at least 1. With height 0 the fade erase row `height - 1` is -1, which curses would reject.

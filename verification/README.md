# pysdl2-harness, modelled in Dafny

pysdl2-harness is a small Python game harness on top of SDL2. It has two
modules:

- The `harness` package (`harness/__init__.py`) is the current one. Its
  `Harness` object keeps lists of update and draw handlers. It runs update
  handlers on a fixed timestep of 1/80 s, fed by the loop's elapsed time. It
  draws a frame on every loop iteration. It finds resources along a search
  path and loads them by file extension. It keeps one release action per
  loaded name and runs them all when the loop ends; reloading a name drops
  the earlier handle's action, so that handle is never freed. Its `Renderer`
  draws textures, subtextures and bitmap-font text. Each `Controller` polls
  game-controller buttons and writes changes into the shared keyboard state.
- The older single-file module `harness.py` has a `Game` class with an
  integer-millisecond update accumulator, a frame gate, the same resource
  search and a simpler `Renderer.draw`.

The model replaces every SDL call with plain data:
- native handles are opaque numbers;
- the file system is a set of existing paths;
- what SDL decodes from a file is a parameter;
- a draw is the list of `SDL_SetTextureColorMod` and `SDL_RenderCopy` calls
  it makes;
- a loop iteration is the list of handler calls it makes, plus clear and
  present.

Modules:

- `Outcomes`: `Option`, `Result` and the errors the harness raises (resource
  not found, a load SDL cannot decode, a bad `set_mapping` keyword, a font
  from something that is not a `Texture`).
- `Native`: opaque SDL handles, and what a load hands back.
- `Seqs`: first-index search, returning -1 when the value is absent, as
  `str.find` does. The contract of `list.remove` is stated with it.
- `Handlers`: handler lists, `remove`, rounds of handler calls, and the
  events of one loop iteration.
- `FixedStep`: the package's fixed-timestep accumulator, over exact reals.
- `Registry`: the `resources` dict from file name to release action, kept in
  insertion order.
- `Search`: the search-path lookup and the extension dispatch. Both Python
  modules share these.
- `Render`: `Texture`, `BitmapFont`, `Renderer.draw` and
  `Renderer.draw_text`.
- `Controls`: controller actions, key mappings, `poll`, `close` and the
  `set_mapping` check.
- `Harness`: the `Harness` object's state and operations, one loop
  iteration, and the whole loop with its shutdown.
- `Game`: the `harness.py` module.

Some behaviours of the code are easy to miss, and the model keeps them as
written:

- **Number of update rounds.** The package's `_update` drains the
  accumulator only while it is strictly above the interval. So an exact
  multiple of the interval keeps one interval back: 2/80 s runs one round,
  not two. See `FixedStep.ExactMultipleCarriesOver`.
- **Frame cap.** The package draws on every iteration, with no frame cap of
  its own. Only the older `Game.loop` gates drawing. That gate compares
  integer milliseconds against 1/60, so it opens after one millisecond.
  See `Game.DrawGateOneMillisecond`.
- **`Game._update`.** It subtracts the tick it was given, not the interval.
  From the state its loop keeps, it therefore runs at most one round per
  tick, however long the tick was. See `Game.AtMostOneRound` and
  `Game.RoundsDependOnSplit`.
- **Drawing a `.bmp`.** `load_resource` returns the bare SDL texture for a
  `.bmp`, and `Renderer.draw` reads a `texture` attribute that only a
  `Texture` has. So a loaded `.bmp` cannot be drawn. See
  `Harness.LoadedDraw`.
- **`set_mapping`.** Its write looks each action keyword up as an attribute
  of the `sdl2` module, which has none by those names. That is recorded under
  "Findings" below.

## Model

| member | source | states |
|---|---|---|
| Handlers.Register | harness/__init__.py:206-212 | the handler joins the end of the list, earlier handlers keep their places, and it is handed back unchanged |
| Handlers.RemoveFirstSplits | harness/__init__.py:193-204 | removal deletes the first occurrence only and keeps the order of the rest; an absent handler leaves the list unchanged |
| Handlers.RemoveFirstCount | harness/__init__.py:193-204 | removal takes exactly one copy of the handler out, when there is one |
| Handlers.RoundsCallOnlyListed | harness/__init__.py:139-142 | k rounds make k calls for each position of the list, and every call goes to a listed handler with the round's argument |
| Handlers.RoundsCallAt | harness/__init__.py:139-142 | the call at position i of round r goes to the i-th handler, so every listed handler is called once per round, in list order |
| Handlers.RemoveUndoesRegister | harness/__init__.py:193-212 | removing a handler just registered, and present nowhere else, restores the list it was added to |
| Handlers.RemovedHandlerNotCalled | harness/__init__.py:193-212 | a handler registered once is called by no round after its removal; registering it again puts it at the end of every one of the next rounds |
| FixedStep.DrainedUnique | harness/__init__.py:136-142 | the strict-test drain of a total (last value not above one interval, positive after any round) has exactly one outcome |
| FixedStep.RoundsDrain | harness/__init__.py:136-142 | the closed-form round count and leftover are such a drain |
| FixedStep.Update | harness/__init__.py:136-142 | `_update` runs the drain's rounds of every update handler with 1/80 s, leaves the drain's leftover, keeps the accumulator at most one interval, and non-negative for non-negative time |
| FixedStep.LeftoverInRange | harness/__init__.py:136-142 | the accumulator stays within [0, 1/80] from one call to the next |
| FixedStep.DriveSnoc | harness/__init__.py:171-173 | feeding one more tick continues from the accumulator the earlier ticks left |
| FixedStep.StepComposes | harness/__init__.py:136-142 | two calls drain exactly as one call on the joined time: same leftover, same total rounds |
| FixedStep.DriveTotal | harness/__init__.py:171-173 | any tick sequence fed after some time behaves as one call on the whole time |
| FixedStep.RoundsDependOnTotalOnly | harness/__init__.py:136-142 | from an empty accumulator, rounds and leftover depend only on total elapsed time, not on how it is split into ticks |
| FixedStep.ExampleTicks | harness/__init__.py:136-142 | ticks of 5, 3, 2 and 11 ms run one round and leave 8.5 ms |
| FixedStep.ExactMultipleCarriesOver | harness/__init__.py:139-142 | exactly two intervals run one round and carry one interval over |
| Registry.Names | harness/__init__.py:179 | the key list holds the entries' names, in insertion order |
| Registry.Releases | harness/__init__.py:179-180 | the release actions of the entries, in insertion order |
| Registry.Put | harness/__init__.py:305 | afterwards the name finds the new release, every other name finds what it found before, keys stay unique, and a new name is appended to the key order |
| Registry.Remove | harness/__init__.py:239 | afterwards the name finds nothing, every other name is unchanged, keys stay unique, and an absent name changes nothing; a present name's entry is cut out and the other entries keep their order |
| Registry.Free | harness/__init__.py:230-239 | an unregistered name runs nothing and changes nothing; a registered one runs its release exactly once and its entry is cut out, the other entries keeping their lookups and their order |
| Registry.FreeOldest | harness/__init__.py:230-239 | freeing the oldest name runs its release and leaves exactly the later entries |
| Registry.ShutdownStep | harness/__init__.py:179-180 | with the first i names freed, freeing the next one runs the i-th release and leaves the entries after it |
| Registry.Shutdown | harness/__init__.py:179-180 | freeing every key of a copy of the keys runs every registered release exactly once, in load order, and empties the registry |
| Registry.PutTwiceForgetsFirst | harness/__init__.py:305 | registering a name a second time leaves the dict exactly as registering only the second action: the first is gone |
| Registry.FreeUndoesPut | harness/__init__.py:230-239 | freeing a name just registered runs exactly the release registered with it and restores every other name |
| Search.FirstHit | harness/__init__.py:241-247 | the position found holds the file and no earlier directory does; -1 means no directory does |
| Search.FindPath | harness/__init__.py:241-252 | a path is found exactly when some directory holds the file; it is the path in the first such directory; otherwise resource-not-found for that name |
| Search.FindPathIgnoresLaterDirs | harness/__init__.py:243-247 | once a directory holds the file, directories appended after it never change the result |
| Search.Suffix | harness/__init__.py:274 | Python `s[-4:]`: the longest ending of the name that has at most four characters |
| Search.ClassifyByExtension | harness/__init__.py:274-303 | each kind is exactly the names ending in its extensions; names shorter than four characters are raw |
| Search.ClassifyIgnoresPrefix | harness/__init__.py:274-303 | only the last four characters decide the kind |
| Search.ClassifyCaseSensitive | harness/__init__.py:283 | an upper-case extension is not recognised: `logo.PNG` is raw while `logo.png` is an image |
| Render.Texture.GetTexture | harness/__init__.py:453-464 | the subtexture shares the parent's native handle and sits at the requested position with the requested size |
| Render.SubtextureCoordinatesAbsolute | harness/__init__.py:453-464 | subtexture coordinates are not offset by the parent's: a subtexture of a subtexture equals the parent's subtexture at the same rectangle |
| Render.FontOf | harness/__init__.py:466-474 | a bitmap font takes the handle and rectangle of the texture it is built from, and the glyph size and font map it is given |
| Render.TintRestored | harness/__init__.py:392-400 | a tint of four values is set before the copies and reset to white after them; any other tint adds no calls |
| Render.DrawRects | harness/__init__.py:358-400 | a draw makes one copy of the object's texture; a tuple rectangle always wins; otherwise a `Texture` uses its own rectangle, a prebuilt `SDL_Rect` included; a font passes a prebuilt `SDL_Rect` through and otherwise uses the whole image; without a destination, nonzero x and y place the object's size at (x, y) |
| Render.DrawSubtexture | harness/__init__.py:369-400 | drawing a subtexture with no rectangles copies exactly the region it was cut at, from the parent's handle, to the same place |
| Render.DrawAtZeroIgnoresY | harness/__init__.py:387-390 | drawing a 16x16 texture at (0, 10) puts it at (0, 0) |
| Render.DrawIntendedPlacesAtXY | harness/__init__.py:369-389 | with the corrected test, both coordinates given and no destination place the texture at (x, y), zero included |
| Render.GlyphCopyAt | harness/__init__.py:435-439 | the k-th copy takes the k-th character's cell and goes k glyph widths right of the first, on the same row, with the glyph's size |
| Render.DrawTextOrder | harness/__init__.py:415-442 | the calls of a text draw in order: the tint when it applies, then character k's cell copied to the k-th glyph position of the row, then white restored |
| Render.GlyphsAdjacent | harness/__init__.py:428-439 | each glyph starts one glyph width right of the previous one, on the same row, with the glyph's size |
| Render.LeftAlignedStartsAtX | harness/__init__.py:415-421 | with left or any unrecognised alignment the first glyph is at (x, y) |
| Render.RightAlignedEndsAtX | harness/__init__.py:415-421 | with right alignment the last glyph ends exactly at x, on row y |
| Render.CenteredAboutX | harness/__init__.py:415-419 | with centre alignment the text starts half its width left of x (rounded down) and half a glyph higher; an even width is split exactly about x |
| Render.GlyphCellOfCharacter | harness/__init__.py:423-437 | a mapped character's source is the column of its first slot in the font map; an unmapped one takes slot -1, just left of the image |
| Controls.ParseAction | harness/__init__.py:526-540 | a keyword parses to the action of that name, and fails exactly when no action has that name |
| Controls.ParseActionName | harness/__init__.py:489-497 | every action's keyword parses back to that action |
| Controls.DefaultMappingInjective | harness/__init__.py:479-487 | the default mapping gives each of the eight actions its own key |
| Controls.ActionListed | harness/__init__.py:489-497 | every action is in the button table a poll walks |
| Controls.OpenedFirstPoll | harness/__init__.py:499-551 | a new controller takes every button as released: its first poll remembers the pressed buttons, writes nothing when none is pressed, and writes S pressed when start is down |
| Controls.ActionsDistinct | harness/__init__.py:489-497 | the button table lists each action once |
| Controls.KeysOf | harness/__init__.py:547-551 | the keys a run of the poll loop can write are all keys of the mapping |
| Controls.KeyOutsideKeysOf | harness/__init__.py:479-487 | under a mapping that shares no keys, an action the loop does not visit has a key the loop never writes |
| Controls.PollActionsRemembers | harness/__init__.py:547-551 | after the loop each visited action remembers its current button state and every other action keeps what it remembered |
| Controls.PollActionsUntouched | harness/__init__.py:547-551 | the loop leaves every key outside those of the visited actions as it was |
| Controls.PollActionsEdges | harness/__init__.py:548-550 | with unshared keys, a visited action whose state changed writes that state under its key, and one whose state did not leaves its key alone |
| Controls.Poll | harness/__init__.py:543-551 | a closed controller changes nothing; an open one remembers exactly the pressed actions, touches no unmapped key, and writes nothing when every remembered state is already current |
| Controls.PollWritesEdges | harness/__init__.py:543-551 | with unshared keys, a poll writes the key of each changed action with its new state and leaves unchanged actions' keys alone |
| Controls.UnchangedButtonsWriteNothing | harness/__init__.py:547-551 | when every remembered state equals the current reading, the poll loop leaves the keys as they were |
| Controls.PollSteady | harness/__init__.py:543-551 | polling again with the same buttons writes nothing: only edges reach the keyboard |
| Controls.Close | harness/__init__.py:518-524 | the handle is dropped and the controller leaves the open table; other entries are unchanged |
| Controls.PollAfterCloseNoop | harness/__init__.py:518-551 | a closed controller's polls change nothing |
| Controls.ValidateMapping | harness/__init__.py:538-540 | names are accepted exactly when every one is an action keyword; otherwise the error names the first bad one and all before it are valid |
| Controls.KeyMapping.With | harness/__init__.py:541 | one action is sent to the given key and every other action keeps its key |
| Controls.SetMappingAsWritten | harness/__init__.py:538-541 | as written, a call succeeds only when no keyword is given: the first keyword ends it: a non-keyword with the same `ValueError` the check gives, a valid keyword with an attribute error naming that keyword |
| Controls.SetMappingAsWrittenRejectsStart | harness/__init__.py:538-541 | `start` passes the keyword check yet the call fails with a missing attribute |
| Controls.SetMapping | harness/__init__.py:538-541 | the corrected call changes nothing but the mapping |
| Controls.SetMappingChecksKeywords | harness/__init__.py:538-540 | the corrected call fails exactly when the keyword check does, with the same `ValueError` |
| Controls.SetMappingKeepsUnnamed | harness/__init__.py:538-541 | an action no keyword names keeps its key, even when the call fails |
| Controls.SetMappingLastWins | harness/__init__.py:538-541 | with valid keywords, each named action takes the key of the last keyword naming it |
| Controls.RemappedStartWritesReturn | harness/__init__.py:538-551 | after remapping start to Return, pressing start writes Return as pressed and leaves S alone |
| Controls.StartPressThenRelease | harness/__init__.py:543-551 | with the default mapping, pressing start then releasing it reads S pressed, then released |
| Harness.OnUpdate | harness/__init__.py:210-212 | the handler becomes the last update handler, nothing else in the harness changes, and it is returned |
| Harness.OnDraw | harness/__init__.py:206-208 | the handler becomes the last draw handler, nothing else in the harness changes, and it is returned |
| Harness.RemoveHandler | harness/__init__.py:193-204 | from each list holding the handler, its first occurrence is removed and the rest keep their order; a list without it, and the rest of the harness, are unchanged |
| Harness.FreeResource | harness/__init__.py:230-239 | an unregistered name changes nothing; a registered one runs its release once and its entry is cut out, the other entries keeping their order; other names and the rest of the harness are unchanged |
| Harness.LoadResource | harness/__init__.py:254-306 | resource-not-found when no directory holds the file; a load failure when SDL cannot decode it; a raw file is opened by name and registers nothing; otherwise the value matches the extension, and its release is registered under the name as dict assignment does (a new name at the end, a known name in its place) with other names unchanged; an image is wrapped over its whole size; the bare texture, the wrapped texture and the audio chunk are the handle SDL returned |
| Harness.LoadThenFree | harness/__init__.py:230-306 | freeing a name right after loading it runs exactly the new handle's release, once, and restores every other name |
| Harness.FreeThenReload | harness/__init__.py:230-306 | freeing then reloading runs the old release at most once and leaves only the new handle registered |
| Harness.LoadBitmapFont | harness/__init__.py:308-332 | the load's effect on the registry always happens; a loaded image always gives a font over the whole image with the given glyph size, and the default font map when none is given; any other loaded value fails with the attribute error for `texture`; load errors pass through |
| Harness.FontCellFromOrigin | harness/__init__.py:423-437 | for a font whose image starts at the origin, each character's cell is its slot's column on the top row |
| Harness.LoadedFontCells | harness/__init__.py:308-332 | text drawn with a loaded font copies each character's cell from the top row of the loaded image, at its slot's column, from SDL's handle |
| Harness.DrawLoaded | harness/__init__.py:384 | drawing a loaded value succeeds exactly for a `Texture`; anything else has no `texture` attribute |
| Harness.LoadedDraw | harness/__init__.py:254-306 | a loaded `.png`, `.gif` or `.jpg` draws the whole decoded image from SDL's handle; a loaded `.bmp` cannot be drawn |
| Handlers.UpdateEvents | harness/__init__.py:139-142 | each update call of an iteration appears once, in order |
| Handlers.DrawEvents | harness/__init__.py:144-147 | each draw handler is called once per frame, in registration order |
| Harness.ReloadDropsEarlierRelease | harness/__init__.py:230-306 | loading one name twice leaves the registry exactly as loading only the second handle, so the first handle's release never runs |
| Harness.FreshFrame | harness/__init__.py:74-77 | a fresh harness has no handlers: its first frame only clears and presents, and the accumulator keeps what the first elapsed time leaves |
| Harness.FreshRun | harness/__init__.py:74-95 | the loop of a fresh harness ends exactly when a quit is requested and releases nothing, with no handlers and an empty registry |
| Harness.Frame | harness/__init__.py:159-177 | one iteration: a quit event sets the flag, the accumulator drains as `_update` does, and a frame is always cleared, drawn and presented |
| Harness.Elapsed | harness/__init__.py:171-173 | the elapsed times, one per iteration |
| Harness.IterationsRun | harness/__init__.py:159-165 | iterations run up to and including the first that requests quit; the loop ends within the ticks exactly when some tick requests quit |
| Harness.IterationsRunUnique | harness/__init__.py:159-165 | a count of iterations that runs no quit before its last and ends on a quit or at the end of the ticks is the count the loop runs |
| Harness.DriveStep | harness/__init__.py:171-173 | each iteration's accumulator is the drain of the previous one's plus that iteration's elapsed time |
| Harness.Iterations | harness/__init__.py:149-177 | the loop runs until an iteration requests quit, every elapsed time of the iterations run goes through the accumulator, and nothing but the quit flag and the accumulator changes; a harness that has already quit runs no iteration and changes nothing |
| Harness.Run | harness/__init__.py:153-180 | the loop ends exactly when a quit is requested; it then runs every release once in load order and empties the registry; handlers are unchanged; the accumulator is the drain of the iterations' elapsed times; a harness that has already quit runs no iteration |
| Game.OnUpdate | harness.py:245-247 | the handler becomes the last update handler and is returned |
| Game.OnDraw | harness.py:241-243 | the handler becomes the last draw handler and is returned |
| Game.PassesUnique | harness.py:194-200 | rounds that each started at or above 80 and end below it are exactly the closed-form count |
| Game.Update | harness.py:194-200 | `_update` leaves the accumulator below 80, runs the closed-form number of rounds of every handler with 80, and subtracts the incoming tick once per round |
| Game.AtMostOneRound | harness.py:194-200 | from an accumulator below 80 and a non-negative tick, at most one round runs, exactly when the sum reaches 80, and it restores the accumulator's previous value |
| Game.RoundsDependOnSplit | harness.py:194-200 | from an empty accumulator, one `_update` of 200 ms runs one round of the handlers, while two `_update` calls of 100 ms run two |
| Game.DrawGateOneMillisecond | harness.py:228 | the frame gate opens exactly when at least one millisecond passed |
| Game.Iterate | harness.py:196-233 | one iteration: a quit event sets the flag, `_update` gets the tick difference, the accumulator keeps exactly what that drain leaves, below 80, for the next iteration; a frame is drawn exactly when the gate opens, and the next iteration measures from the new tick count |
| Game.LoadResource | harness.py:249-289 | not found when no directory holds the file; a load failure when SDL cannot decode it; every image kind gives a bare texture and audio gives a sample, both the handle SDL returned; any other file is opened by name |
| Game.LoadMatchesPackage | harness.py:249-289 | against the package's loader on the same inputs: success and error kinds coincide, and the kind and native handle of what is loaded agree |
| Game.Draw | harness.py:40-51 | one copy of the texture; a tuple rectangle is used as given; anything else, a prebuilt `SDL_Rect` included, means the whole texture or target |
| Game.DrawMatchesPackage | harness.py:40-51 | with tuple rectangles and no tint it makes the same copy as the package's draw; a prebuilt `SDL_Rect` the package uses is dropped here |

## Left out

- SDL itself: window, renderer, mixer, surfaces, `SDL_GetError`. Handles are
  opaque numbers. What a load decodes is a parameter.
- `sys.exit` on a failed load is modelled as a `LoadFailed` error. Process
  termination is not modelled.
- `os.path.realpath` normalisation and symbolic links are not modelled:
  `Search.Join` concatenates with `/`.
- The `__main__` directory heuristic that builds the default search path is
  not modelled. The search path is a parameter of `Harness.Initial`.
- FixedStep.Update: time is an exact real, not an IEEE double. Rounding
  that could add or drop a round near a multiple of 1/80 s is not modelled.
- The `KEY_*` attributes copied from SDL scancodes, `set_icon`, `play`,
  `stop_playback`, `has_controllers` and controller discovery are not
  modelled. They are SDL calls with no logic of their own.
- Controls.SetMapping: the corrected write changes this controller's mapping only.
  In the source, `key_mapping` is the class attribute `DEF_KEY_MAPPING`
  itself, shared by every controller. A write there would change every
  controller's mapping and the default. The value is taken as the key its
  `KEY_*` attribute name stands for; a name the harness lacks is not
  modelled.
- Controls.Poll: SDL is asked about one button at a time. The model
  takes the set of buttons down at the poll as one parameter. Several
  controllers polling in one iteration, and closing controllers at loop
  exit, are not composed into `Harness.Run`.
- Teardown order and vsync of the package are not modelled. Neither are the
  window and renderer teardown of `Game.loop`.
- Render.Rect: the fields are unbounded integers. The 32-bit wrap of
  `SDL_Rect`'s C ints is not modelled.
- Harness.Run: handlers are taken not to change the harness while they
  run. A handler that calls `quit` or `remove_handler` is not modelled.
- Harness.LoadResource, Game.LoadResource: the raw branch opens
  `filename` relative to the working directory, not the found path. The
  model records the name it opens. Reading the file is not modelled.
- Harness.Run: the contract does not describe the event trace across
  iterations. `Harness.Frame` states it for each iteration.
- Game.Update: requires `dt > 0 || acc + dt < 80`. On other inputs the
  source's loop (harness.py:197-200) subtracts a tick that is not positive
  and never ends. `Game.loop` never passes such a tick, because the
  accumulator stays below 80 and the tick counter does not run backwards.
- Game.Iterate: the tick counter is an unbounded integer. The 32-bit
  wrap of `SDL_GetTicks` after about 49 days is not modelled.

## Findings

| source | as written | input that shows it | evidently intended | confidence | as-written member | corrected member |
|---|---|---|---|---|---|---|
| harness/__init__.py:388 | `all([x, y])` tests the truthiness of the coordinates, so a zero coordinate counts as "not given" | `draw(texture, x=0, y=10)` on a 16x16 `Texture` at (0, 0) draws at (0, 0), not at (0, 10) | place the texture at (x, y) whenever both coordinates are given, zero included | medium, not executed | Render.DrawAtZeroIgnoresY | Render.DrawIntendedPlacesAtXY |
| harness/__init__.py:541 | `self.key_mapping[getattr(sdl2, key)] = value` looks each action keyword up as an attribute of the `sdl2` module, which has no attribute named `start`, `up` or any other action | `controller.set_mapping(start="KEY_RETURN")` passes the keyword check and then raises `AttributeError`, leaving the mapping unchanged | `self.key_mapping[key] = value`: send the action to the given key | medium, not executed | Controls.SetMappingAsWrittenRejectsStart | Controls.SetMappingLastWins |

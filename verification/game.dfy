/**
 * The older single-file module `harness.py`: class `Game` and its `Renderer`.
 * Time is integer milliseconds from `SDL_GetTicks`. Its `_update` drains the
 * accumulator by the incoming tick rather than by the update interval, and
 * nothing it loads is registered for release.
 */
module Game {
  import opened Outcomes
  import opened Native
  import opened Handlers
  import opened Search
  import Render
  import Registry
  import Harness

  /** `UPDATE_FPS`: the millisecond threshold of `_update`, and the value every update handler receives. */
  const UpdateFps: int := 80

  /** `FPS`: the draw rate the frame gate divides by. */
  const Fps: int := 60

  /** The pure state of a `Game`. */
  datatype GameState = GameState(
    dt: int,
    updateHandlers: seq<Handler>,
    drawHandlers: seq<Handler>,
    quit: bool,
    resourcePath: seq<string>)

  /** The `update` decorator: appends and hands the handler back. */
  function OnUpdate(g: GameState, fn: Handler): (r: (GameState, Handler))
    ensures r.1 == fn
    ensures r.0 == g.(updateHandlers := r.0.updateHandlers)
    ensures |r.0.updateHandlers| == |g.updateHandlers| + 1
    ensures r.0.updateHandlers[..|g.updateHandlers|] == g.updateHandlers && r.0.updateHandlers[|g.updateHandlers|] == fn
  {
    var reg := Register(g.updateHandlers, fn);
    (g.(updateHandlers := reg.0), reg.1)
  }

  /** The `draw` decorator: appends and hands the handler back. */
  function OnDraw(g: GameState, fn: Handler): (r: (GameState, Handler))
    ensures r.1 == fn
    ensures r.0 == g.(drawHandlers := r.0.drawHandlers)
    ensures |r.0.drawHandlers| == |g.drawHandlers| + 1
    ensures r.0.drawHandlers[..|g.drawHandlers|] == g.drawHandlers && r.0.drawHandlers[|g.drawHandlers|] == fn
  {
    var reg := Register(g.drawHandlers, fn);
    (g.(drawHandlers := reg.0), reg.1)
  }

  /**
   * Rounds `_update` runs once the accumulator holds `total` after adding
   * `dt`: none below the threshold, otherwise as many as it takes for
   * subtracting `dt` each time to fall below it.
   */
  function Passes(total: int, dt: int): nat
    requires dt > 0 || total < UpdateFps
  {
    if total < UpdateFps then 0 else (total - UpdateFps) / dt + 1
  }

  /** Multiplying by a positive number keeps strict order, both ways. */
  lemma MulStrict(a: int, b: int, c: int)
    requires 0 < c
    ensures a < b <==> a * c < b * c
  {
  }

  /** `k` subtractions of `dt` took `total` below the threshold, and each was taken at or above it. */
  lemma PassesUnique(total: int, dt: int, k: nat)
    requires dt > 0 || total < UpdateFps
    requires total - k * dt < UpdateFps
    requires k > 0 ==> total - (k - 1) * dt >= UpdateFps
    ensures k == Passes(total, dt)
  {
    if k > 0 {
      assert k * dt == (k - 1) * dt + dt;
      var q := (total - UpdateFps) / dt;
      var r := (total - UpdateFps) % dt;
      assert total - UpdateFps == q * dt + r && 0 <= r < dt;
      assert (q + 1) * dt == q * dt + dt;
      MulStrict(k - 1, q + 1, dt);
      MulStrict(q, k, dt);
    }
  }

  /**
   * `Game._update(dt)`: add the tick; while the accumulator is at least
   * `UpdateFps`, run every update handler with `UpdateFps` and subtract `dt`.
   * The loop ends only if `dt` is positive or the sum starts below the
   * threshold; it always leaves the accumulator below `UpdateFps`.
   */
  method Update(acc: int, dt: int, handlers: seq<Handler>) returns (acc': int, calls: seq<Call<int>>)
    requires dt > 0 || acc + dt < UpdateFps
    ensures acc' < UpdateFps
    ensures acc' == acc + dt - Passes(acc + dt, dt) * dt
    ensures calls == RoundsOf(handlers, UpdateFps, Passes(acc + dt, dt))
  {
    acc' := acc + dt;
    calls := [];
    ghost var k: nat := 0;
    while acc' >= UpdateFps
      invariant acc' == acc + dt - k * dt
      invariant calls == RoundsOf(handlers, UpdateFps, k)
      invariant dt <= 0 ==> k == 0 && acc' < UpdateFps
      invariant k > 0 ==> acc' + dt >= UpdateFps
      decreases acc'
    {
      calls := calls + Round(handlers, UpdateFps);
      acc' := acc' - dt;
      k := k + 1;
    }
    PassesUnique(acc + dt, dt, k);
  }

  /**
   * From the state the loop keeps (accumulator below the threshold) and a
   * tick that does not run backwards, `_update` runs at most one round, and
   * when it runs one it puts the accumulator back to its value on entry.
   */
  lemma AtMostOneRound(acc: int, dt: int)
    requires acc < UpdateFps && 0 <= dt
    ensures Passes(acc + dt, dt) <= 1
    ensures Passes(acc + dt, dt) == 1 <==> acc + dt >= UpdateFps
    ensures acc + dt - Passes(acc + dt, dt) * dt == (if acc + dt >= UpdateFps then acc else acc + dt)
  {
    if acc + dt >= UpdateFps {
      PassesUnique(acc + dt, dt, 1);
    }
  }

  /**
   * Unlike a fixed timestep, the rounds depend on how time is split: from an
   * empty accumulator, `_update` with one 200 ms tick runs one round of the
   * handlers, while two `_update` calls of 100 ms each run two.
   */
  method RoundsDependOnSplit(handlers: seq<Handler>) returns (one: seq<Call<int>>, two: seq<Call<int>>)
    ensures one == RoundsOf(handlers, UpdateFps, 1) && |one| == |handlers|
    ensures two == RoundsOf(handlers, UpdateFps, 2) && |two| == 2 * |handlers|
  {
    PassesUnique(200, 200, 1);
    PassesUnique(100, 100, 1);
    var acc;
    acc, one := Update(0, 200, handlers);
    var acc1, first := Update(0, 100, handlers);
    var acc2, second := Update(acc1, 100, handlers);
    two := first + second;
    assert RoundsOf(handlers, UpdateFps, 1) == Round(handlers, UpdateFps);
    RoundsCallOnlyListed(handlers, UpdateFps, 2);
  }

  /** The frame gate of `loop`: `now - current > 1 / FPS`, compared exactly. */
  predicate DrawGate(current: int, now: int)
  {
    (now - current) as real > 1.0 / Fps as real
  }

  /** With integer milliseconds the gate only asks for one elapsed millisecond, not a 60th of a second. */
  lemma DrawGateOneMillisecond(current: int, now: int)
    ensures DrawGate(current, now) <==> now - current >= 1
  {
  }

  /**
   * One iteration of `Game.loop` with the tick counter moving from `current`
   * to `now`: a quit event sets the flag, `_update` gets the difference, a
   * frame is cleared, drawn and presented only when the gate opens, and the
   * next iteration measures from `now` whether or not a frame was drawn.
   */
  method Iterate(g: GameState, current: int, quitEvent: bool, now: int) returns (g': GameState, current': int, trace: seq<Event<int>>)
    requires now - current > 0 || g.dt + (now - current) < UpdateFps
    ensures current' == now
    ensures g' == g.(quit := g.quit || quitEvent, dt := g'.dt)
    ensures g'.dt < UpdateFps
    ensures g'.dt == g.dt + (now - current) - Passes(g.dt + (now - current), now - current) * (now - current)
    ensures var calls := RoundsOf(g.updateHandlers, UpdateFps, Passes(g.dt + (now - current), now - current));
      trace == UpdateEvents(calls) + (if now - current >= 1 then [Cleared] + DrawEvents<int>(g.drawHandlers) + [Presented] else [])
  {
    var acc, calls := Update(g.dt, now - current, g.updateHandlers);
    g' := g.(quit := g.quit || quitEvent, dt := acc);
    DrawGateOneMillisecond(current, now);
    if DrawGate(current, now) {
      trace := UpdateEvents(calls) + [Cleared] + DrawEvents<int>(g.drawHandlers) + [Presented];
    } else {
      trace := UpdateEvents(calls);
    }
    current' := now;
  }

  /** What `Game.load_resource` returns; nothing is kept for release. */
  datatype Asset =
    | SdlTexture(texture: TextureHandle)  // `.bmp`, `.png`, `.gif`, `.jpg`: the bare SDL texture
    | Sample(chunk: ChunkHandle)          // `.wav`, `.ogg`
    | Stream(path: string)                // anything else: `open(filename, "rb")`

  /**
   * `Game.load_resource`: the first directory along the search path holding
   * the file, `ResourceNotFound` when none does, then dispatch on the last
   * four characters of `filename`. Every image kind gives a bare texture.
   */
  function LoadResource(resourcePath: seq<string>, files: set<string>, filename: string, native: Option<NativeLoad>): (r: Result<Asset>)
    ensures FindPath(resourcePath, files, filename).Err? ==> r == Err(ResourceNotFound(filename))
    ensures r.Ok? ==> FindPath(resourcePath, files, filename).Ok?
    ensures r.Ok? && r.value.SdlTexture? ==> Classify(filename) in {Bitmap, Image} && native.Some?
                                             && r.value.texture == TextureHandle(native.value.handle)
    ensures r.Ok? && r.value.Sample? ==> Classify(filename) == Audio && native.Some?
                                         && r.value.chunk == ChunkHandle(native.value.handle)
    ensures r.Ok? && r.value.Stream? ==> Classify(filename) == Raw && r.value.path == filename
    ensures FindPath(resourcePath, files, filename).Ok? && Classify(filename) != Raw && native.None? ==>
              r == Err(LoadFailed(filename))
    ensures FindPath(resourcePath, files, filename).Ok? && (Classify(filename) == Raw || native.Some?) ==> r.Ok?
  {
    match FindPath(resourcePath, files, filename)
    case Err(e) => Err(e)
    case Ok(_) =>
      var kind := Classify(filename);
      if kind == Raw then Ok(Stream(filename))
      else if native.None? then Err(LoadFailed(filename))
      else if kind == Audio then Ok(Sample(ChunkHandle(native.value.handle)))
      else Ok(SdlTexture(TextureHandle(native.value.handle)))
  }

  /**
   * Against the package's `load_resource` on the same search path, files and
   * decoded data: both succeed or fail together, with the same error; they
   * agree on the kind and the native handle of what they load; only the
   * package registers a release, and the module's load changes no state.
   */
  lemma LoadMatchesPackage(s: Harness.State, files: set<string>, filename: string, native: Option<NativeLoad>)
    requires Registry.Unique(s.resources)
    ensures var g := LoadResource(s.resourcePath, files, filename, native);
      var h := Harness.LoadResource(s, files, filename, native).1;
      && (g.Ok? <==> h.Ok?)
      && (g.Err? ==> g.error == h.error)
      && (g.Ok? ==> (g.value.Stream? <==> h.value.Stream?) && (g.value.Sample? <==> h.value.Sample?))
      && (g.Ok? && g.value.SdlTexture? && h.value.BareTexture? ==> g.value.texture == h.value.texture)
      && (g.Ok? && g.value.SdlTexture? && h.value.WrappedTexture? ==> g.value.texture == h.value.tex.texture)
      && (g.Ok? && g.value.Sample? ==> g.value.chunk == h.value.chunk)
  {
  }

  /** `Renderer.draw`'s argument conversion: a tuple becomes a rectangle, anything else `None`. */
  function ToRect(arg: Render.RectArg): Option<Render.Rect>
  {
    if arg.TupleRect? then Some(arg.r) else None
  }

  /**
   * `Renderer.draw` of `harness.py`: one copy of the whole texture unless
   * tuples say which part and where; a prebuilt `SDL_Rect` also counts as
   * "whole".
   */
  function Draw(texture: TextureHandle, src: Render.RectArg, dest: Render.RectArg): (op: Render.RenderOp)
    ensures op.RenderCopy? && op.texture == texture
    ensures op.src.Some? <==> src.TupleRect?
    ensures op.dest.Some? <==> dest.TupleRect?
    ensures src.TupleRect? ==> op.src.value == src.r
    ensures dest.TupleRect? ==> op.dest.value == dest.r
  {
    Render.RenderCopy(texture, ToRect(src), ToRect(dest))
  }

  /**
   * Against the package's `Renderer.draw` of a `Texture` with tuple rectangles
   * and no tint: the same single copy. Given a prebuilt `SDL_Rect` for a
   * font, the package uses it while this module draws the whole image.
   */
  lemma DrawMatchesPackage(t: Render.Texture, f: Render.BitmapFont, src: Render.Rect, dest: Render.Rect, r: Render.Rect)
    ensures Render.Draw(Render.TextureObject(t), None, None, Render.TupleRect(src), Render.TupleRect(dest), None)
              == [Draw(t.texture, Render.TupleRect(src), Render.TupleRect(dest))]
    ensures Render.Draw(Render.FontObject(f), None, None, Render.SdlRect(r), Render.NoRect, None)[0].src == Some(r)
    ensures Draw(f.texture, Render.SdlRect(r), Render.NoRect).src == None
  {
  }
}

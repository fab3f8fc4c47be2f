/**
 * The package's `Harness` object, without its SDL calls: the handler lists,
 * the fixed-step accumulator, the quit flag, the search path and the resource
 * registry, and what `load_resource`, `free_resource`, `load_bitmap_font`,
 * one loop iteration and the whole loop do to them.
 */
module Harness {
  import opened Outcomes
  import opened Native
  import opened Handlers
  import opened FixedStep
  import opened Search
  import opened Render
  import opened Seqs
  import Registry

  /** The pure state of a `Harness`. */
  datatype State = State(
    updateHandlers: seq<Handler>,
    drawHandlers: seq<Handler>,
    accumulator: real,
    quit: bool,
    resourcePath: seq<string>,
    resources: seq<Registry.Entry>)

  /** The state `__init__` leaves: no handlers, an empty accumulator and registry, not quitting. */
  function Initial(resourcePath: seq<string>): (s: State)
    ensures s.updateHandlers == [] && s.drawHandlers == [] && s.resources == []
    ensures s.accumulator == 0.0 && !s.quit && s.resourcePath == resourcePath
  {
    State([], [], 0.0, false, resourcePath, [])
  }

  /** The `update` decorator: the handler is called last in every later round, and is returned unchanged. */
  function OnUpdate(s: State, fn: Handler): (r: (State, Handler))
    ensures r.1 == fn
    ensures r.0 == s.(updateHandlers := r.0.updateHandlers)
    ensures |r.0.updateHandlers| == |s.updateHandlers| + 1
    ensures r.0.updateHandlers[..|s.updateHandlers|] == s.updateHandlers && r.0.updateHandlers[|s.updateHandlers|] == fn
  {
    var reg := Register(s.updateHandlers, fn);
    (s.(updateHandlers := reg.0), reg.1)
  }

  /** The `draw` decorator: the handler is called last in every later frame, and is returned unchanged. */
  function OnDraw(s: State, fn: Handler): (r: (State, Handler))
    ensures r.1 == fn
    ensures r.0 == s.(drawHandlers := r.0.drawHandlers)
    ensures |r.0.drawHandlers| == |s.drawHandlers| + 1
    ensures r.0.drawHandlers[..|s.drawHandlers|] == s.drawHandlers && r.0.drawHandlers[|s.drawHandlers|] == fn
  {
    var reg := Register(s.drawHandlers, fn);
    (s.(drawHandlers := reg.0), reg.1)
  }

  /**
   * `remove_handler`: one copy of `fn` leaves each list that holds it, the
   * others keep their order, and a handler in neither list changes nothing.
   */
  function RemoveHandler(s: State, fn: Handler): (r: State)
    ensures r == s.(updateHandlers := r.updateHandlers, drawHandlers := r.drawHandlers)
    ensures fn !in s.updateHandlers && fn !in s.drawHandlers ==> r == s
    ensures fn !in s.updateHandlers ==> r.updateHandlers == s.updateHandlers
    ensures fn in s.updateHandlers ==>
              var i := IndexOf(s.updateHandlers, fn);
              r.updateHandlers == s.updateHandlers[..i] + s.updateHandlers[i + 1..]
    ensures fn !in s.drawHandlers ==> r.drawHandlers == s.drawHandlers
    ensures fn in s.drawHandlers ==>
              var i := IndexOf(s.drawHandlers, fn);
              r.drawHandlers == s.drawHandlers[..i] + s.drawHandlers[i + 1..]
    ensures multiset(r.updateHandlers) == multiset(s.updateHandlers) - multiset{fn}
    ensures multiset(r.drawHandlers) == multiset(s.drawHandlers) - multiset{fn}
  {
    RemoveFirstCount(s.updateHandlers, fn);
    RemoveFirstCount(s.drawHandlers, fn);
    RemoveFirstSplits(s.updateHandlers, fn);
    RemoveFirstSplits(s.drawHandlers, fn);
    s.(updateHandlers := RemoveFirst(s.updateHandlers, fn), drawHandlers := RemoveFirst(s.drawHandlers, fn))
  }

  /** `free_resource` on the harness's registry. */
  function FreeResource(s: State, name: string): (r: (State, seq<Registry.Release>))
    requires Registry.Unique(s.resources)
    ensures Registry.Unique(r.0.resources)
    ensures r.0 == s.(resources := r.0.resources)
    ensures Registry.Lookup(s.resources, name).None? ==> r == (s, [])
    ensures Registry.Lookup(s.resources, name).Some? ==>
              r.1 == [Registry.Lookup(s.resources, name).value] && Registry.Lookup(r.0.resources, name).None?
    ensures forall n :: n != name ==> Registry.Lookup(r.0.resources, n) == Registry.Lookup(s.resources, n)
    ensures Registry.Lookup(s.resources, name).Some? ==>
              exists i :: 0 <= i < |s.resources| && s.resources[i].name == name && r.0.resources == s.resources[..i] + s.resources[i + 1..]
  {
    var f := Registry.Free(s.resources, name);
    (s.(resources := f.0), f.1)
  }

  /** What `load_resource` returns. */
  datatype Loaded =
    | BareTexture(texture: TextureHandle)   // a `.bmp`: the SDL texture itself
    | WrappedTexture(tex: Texture)          // a `.png`, `.gif` or `.jpg`: a `Texture` over the whole image
    | Sample(chunk: ChunkHandle)            // a `.wav` or `.ogg`
    | Stream(path: string)                  // anything else: `open(filename, "rb")`

  /** The branch of `load_resource` a loaded value comes from. */
  function KindOf(l: Loaded): Kind
  {
    match l
    case BareTexture(_) => Bitmap
    case WrappedTexture(_) => Image
    case Sample(_) => Audio
    case Stream(_) => Raw
  }

  /** The release action `load_resource` registers for a loaded value. */
  function ReleaseOf(l: Loaded): Registry.Release
    requires !l.Stream?
  {
    match l
    case BareTexture(t) => Registry.DestroyTexture(t)
    case WrappedTexture(t) => Registry.DestroyTexture(t.texture)
    case Sample(c) => Registry.FreeChunk(ChunkHandle(c.id))
  }

  /**
   * `load_resource`. The file is looked up along the search path first. Its
   * kind then comes from the last four characters of `filename`. `native` is
   * what SDL hands back for the found file, `None` when it cannot decode it
   * and the process exits.
   */
  function LoadResource(s: State, files: set<string>, filename: string, native: Option<NativeLoad>): (r: (State, Result<Loaded>))
    requires Registry.Unique(s.resources)
    ensures Registry.Unique(r.0.resources)
    ensures r.0 == s.(resources := r.0.resources)
    ensures FindPath(s.resourcePath, files, filename).Err? ==> r == (s, Err(ResourceNotFound(filename)))
    ensures FindPath(s.resourcePath, files, filename).Ok? && Classify(filename) != Raw && native.None? ==>
              r == (s, Err(LoadFailed(filename)))
    ensures r.1.Err? ==> r.0 == s
    ensures r.1.Ok? ==> FindPath(s.resourcePath, files, filename).Ok? && KindOf(r.1.value) == Classify(filename)
    ensures r.1.Ok? && r.1.value.Stream? ==> r.1.value.path == filename && r.0 == s
    ensures r.1.Ok? && !r.1.value.Stream? ==>
              && native.Some?
              && Registry.Lookup(r.0.resources, filename) == Some(ReleaseOf(r.1.value))
              && forall n :: n != filename ==> Registry.Lookup(r.0.resources, n) == Registry.Lookup(s.resources, n)
    ensures r.1.Ok? && !r.1.value.Stream? ==> r.0.resources == Registry.Put(s.resources, filename, ReleaseOf(r.1.value))
    ensures r.1.Ok? && r.1.value.BareTexture? ==> r.1.value.texture == TextureHandle(native.value.handle)
    ensures r.1.Ok? && r.1.value.WrappedTexture? ==>
              r.1.value.tex == Texture(TextureHandle(native.value.handle), Rect(0, 0, native.value.width, native.value.height))
    ensures r.1.Ok? && r.1.value.Sample? ==> r.1.value.chunk == ChunkHandle(native.value.handle)
    ensures FindPath(s.resourcePath, files, filename).Ok? && (Classify(filename) == Raw || native.Some?) ==> r.1.Ok?
  {
    match FindPath(s.resourcePath, files, filename)
    case Err(e) => (s, Err(e))
    case Ok(_) =>
      var kind := Classify(filename);
      if kind == Raw then (s, Ok(Stream(filename)))
      else if native.None? then (s, Err(LoadFailed(filename)))
      else
        var n := native.value;
        var loaded :=
          match kind
          case Bitmap => BareTexture(TextureHandle(n.handle))
          case Image => WrappedTexture(Texture(TextureHandle(n.handle), Rect(0, 0, n.width, n.height)))
          case Audio => Sample(ChunkHandle(n.handle));
        (s.(resources := Registry.Put(s.resources, filename, ReleaseOf(loaded))), Ok(loaded))
  }

  /**
   * Freeing a name right after loading it runs exactly the release of the
   * handle just loaded, once, and leaves every other name as it was before
   * the load.
   */
  lemma LoadThenFree(s: State, files: set<string>, filename: string, native: Option<NativeLoad>)
    requires Registry.Unique(s.resources)
    requires LoadResource(s, files, filename, native).1.Ok?
    requires !LoadResource(s, files, filename, native).1.value.Stream?
    ensures var loaded := LoadResource(s, files, filename, native);
      var freed := FreeResource(loaded.0, filename);
      && freed.1 == [ReleaseOf(loaded.1.value)]
      && Registry.Lookup(freed.0.resources, filename).None?
      && forall n :: n != filename ==> Registry.Lookup(freed.0.resources, n) == Registry.Lookup(s.resources, n)
  {
  }

  /**
   * Freeing a name and loading it again registers only the new handle: the
   * old release ran once, at the free, and the name now finds the new one.
   */
  lemma FreeThenReload(s: State, files: set<string>, filename: string, native: NativeLoad)
    requires Registry.Unique(s.resources)
    requires FindPath(s.resourcePath, files, filename).Ok? && Classify(filename) != Raw
    ensures var freed := FreeResource(s, filename);
      var reloaded := LoadResource(freed.0, files, filename, Some(native));
      && |freed.1| <= 1
      && (Registry.Lookup(s.resources, filename).Some? ==> freed.1 == [Registry.Lookup(s.resources, filename).value])
      && reloaded.1.Ok?
      && Registry.Lookup(reloaded.0.resources, filename) == Some(ReleaseOf(reloaded.1.value))
  {
  }

  /**
   * `load_bitmap_font`: the font map defaults to `DefaultFontMap` when none is
   * given. Only a `.png`, `.gif` or `.jpg` gives a font. Any other loaded value
   * has no `texture` attribute, so the call fails after the load has already
   * registered its release.
   */
  function LoadBitmapFont(s: State, files: set<string>, filename: string, width: int, height: int,
                          fontMap: Option<string>, native: Option<NativeLoad>): (r: (State, Result<BitmapFont>))
    requires Registry.Unique(s.resources)
    ensures r.0 == LoadResource(s, files, filename, native).0
    ensures r.1.Ok? ==>
              && Classify(filename) == Image && native.Some?
              && r.1.value == BitmapFont(TextureHandle(native.value.handle), Rect(0, 0, native.value.width, native.value.height),
                                         width, height, fontMap.GetOr(DefaultFontMap))
    ensures LoadResource(s, files, filename, native).1.Err? ==> r.1 == Err(LoadResource(s, files, filename, native).1.error)
    ensures LoadResource(s, files, filename, native).1.Ok? && Classify(filename) == Image ==> r.1.Ok?
    ensures LoadResource(s, files, filename, native).1.Ok? && Classify(filename) != Image ==> r.1 == Err(MissingAttribute("texture"))
  {
    var map' := if fontMap.None? then DefaultFontMap else fontMap.value;
    var loaded := LoadResource(s, files, filename, native);
    match loaded.1
    case Err(e) => (loaded.0, Err(e))
    case Ok(WrappedTexture(t)) => (loaded.0, Ok(FontOf(t, width, height, map')))
    case Ok(_) => (loaded.0, Err(MissingAttribute("texture")))
  }

  /** For a font whose image starts at the origin, the `k`-th copy's cell is the glyph slot's column of the top row. */
  lemma FontCellFromOrigin(font: BitmapFont, x: int, y: int, text: string, align: string, k: int)
    requires font.rect.x == 0 && font.rect.y == 0 && 0 <= k < |text|
    ensures TextCopies(font, x, y, text, align)[k].texture == font.texture
    ensures TextCopies(font, x, y, text, align)[k].src == Some(Rect(GlyphIndex(font, text[k]) * font.width, 0, font.width, font.height))
  {
    var o := Origin(font, x, y, |text|, align);
    GlyphCopyAt(font, o.0, o.1, text, k);
  }

  /**
   * Text drawn with a loaded font takes each character's cell from the top row
   * of the loaded image, at the column of the character's slot in the font
   * map, from the handle SDL returned for the image.
   */
  lemma LoadedFontCells(s: State, files: set<string>, filename: string, width: int, height: int,
                        fontMap: Option<string>, native: Option<NativeLoad>,
                        x: int, y: int, text: string, align: string, k: int)
    requires Registry.Unique(s.resources)
    requires LoadBitmapFont(s, files, filename, width, height, fontMap, native).1.Ok?
    requires 0 <= k < |text|
    ensures var font := LoadBitmapFont(s, files, filename, width, height, fontMap, native).1.value;
      var copy := TextCopies(font, x, y, text, align)[k];
      && native.Some? && copy.texture == TextureHandle(native.value.handle)
      && copy.src == Some(Rect(GlyphIndex(font, text[k]) * width, 0, width, height))
  {
    var font := LoadBitmapFont(s, files, filename, width, height, fontMap, native).1.value;
    assert font.rect.x == 0 && font.rect.y == 0 && font.width == width && font.height == height;
    FontCellFromOrigin(font, x, y, text, align, k);
  }

  /**
   * `Renderer.draw` handed what `load_resource` returned. The draw reads the
   * value's `texture` attribute, which only a `Texture` has: the bare SDL
   * texture of a `.bmp`, an audio chunk and an open file all fail there.
   */
  function DrawLoaded(l: Loaded, x: Option<int>, y: Option<int>, src: RectArg, dest: RectArg, tint: Option<seq<int>>): (r: Result<seq<RenderOp>>)
    ensures r.Ok? <==> l.WrappedTexture?
    ensures r.Err? ==> r.error == MissingAttribute("texture")
  {
    match l
    case WrappedTexture(t) => Ok(Draw(TextureObject(t), x, y, src, dest, tint))
    case _ => Err(MissingAttribute("texture"))
  }

  /**
   * Loading then drawing: a `.png`, `.gif` or `.jpg` draws the whole decoded
   * image from SDL's handle; a `.bmp` loads but cannot be drawn.
   */
  lemma LoadedDraw(s: State, files: set<string>, filename: string, native: Option<NativeLoad>, tint: Option<seq<int>>)
    requires Registry.Unique(s.resources)
    requires LoadResource(s, files, filename, native).1.Ok?
    ensures var d := DrawLoaded(LoadResource(s, files, filename, native).1.value, None, None, NoRect, NoRect, tint);
      && (Classify(filename) == Bitmap ==> d == Err(MissingAttribute("texture")))
      && (Classify(filename) == Image ==>
            && native.Some? && d.Ok? && |d.value| == (if TintApplies(tint) then 3 else 1)
            && var whole := Rect(0, 0, native.value.width, native.value.height);
               DrawnCopy(d.value, tint) == RenderCopy(TextureHandle(native.value.handle), Some(whole), Some(whole)))
  {
    var l := LoadResource(s, files, filename, native).1.value;
    if l.WrappedTexture? {
      DrawRects(TextureObject(l.tex), None, None, NoRect, NoRect, tint);
    }
  }

  /**
   * One iteration of `loop`: a quit event sets the flag (the iteration still
   * finishes), the elapsed time goes through `_update`, and then a frame is
   * always cleared, drawn and presented.
   */
  method Frame(s: State, quitEvent: bool, dt: real) returns (s': State, trace: seq<Event<real>>)
    ensures s' == s.(quit := s'.quit, accumulator := s'.accumulator)
    ensures s'.quit == (s.quit || quitEvent)
    ensures s'.accumulator == Leftover(s.accumulator + dt)
    ensures trace == UpdateEvents(RoundsOf(s.updateHandlers, UfpsDt, Rounds(s.accumulator + dt)))
                     + [Cleared] + DrawEvents<real>(s.drawHandlers) + [Presented]
  {
    var acc, calls := Update(s.accumulator, dt, s.updateHandlers);
    s' := s.(quit := s.quit || quitEvent, accumulator := acc);
    trace := UpdateEvents(calls) + [Cleared] + DrawEvents<real>(s.drawHandlers) + [Presented];
  }

  /** What a loop iteration observes: whether a quit was requested, and the elapsed seconds. */
  datatype Tick = Tick(quitEvent: bool, dt: real)

  /** The elapsed times of some iterations. */
  function Elapsed(ticks: seq<Tick>): (dts: seq<real>)
    ensures |dts| == |ticks|
    ensures forall i :: 0 <= i < |ticks| ==> dts[i] == ticks[i].dt
  {
    if |ticks| == 0 then [] else [ticks[0].dt] + Elapsed(ticks[1..])
  }

  /** The number of iterations `loop` runs over `ticks`: up to and including the first that requests quit. */
  function IterationsRun(ticks: seq<Tick>): (n: nat)
    ensures n <= |ticks|
    ensures forall i :: 0 <= i < n - 1 ==> !ticks[i].quitEvent
    ensures n < |ticks| ==> n > 0 && ticks[n - 1].quitEvent
    ensures (exists i :: 0 <= i < |ticks| && ticks[i].quitEvent) <==> n > 0 && ticks[n - 1].quitEvent
  {
    if |ticks| == 0 then 0
    else if ticks[0].quitEvent then 1
    else
      var n := IterationsRun(ticks[1..]);
      assert forall i :: 0 < i < |ticks| ==> ticks[i] == ticks[1..][i - 1];
      if n == 0 then |ticks| else n + 1
  }

  /**
   * `i` iterations that stop as `loop` does, at the first one requesting quit
   * or when the ticks run out, are exactly `IterationsRun(ticks)`.
   */
  lemma {:induction false} IterationsRunUnique(ticks: seq<Tick>, i: nat)
    requires i <= |ticks|
    requires forall j :: 0 <= j < i - 1 ==> !ticks[j].quitEvent
    requires i == |ticks| || (i > 0 && ticks[i - 1].quitEvent)
    ensures i == IterationsRun(ticks)
    decreases |ticks|
  {
    if |ticks| > 0 && !ticks[0].quitEvent {
      assert forall j :: 0 <= j < i - 2 ==> ticks[1..][j] == ticks[j + 1];
      IterationsRunUnique(ticks[1..], i - 1);
    }
  }

  /** One more iteration feeds its elapsed time to the accumulator the earlier ones left. */
  lemma DriveStep(acc: real, ticks: seq<Tick>, i: nat)
    requires i < |ticks|
    ensures Drive(acc, Elapsed(ticks[..i + 1])).0 == Leftover(Drive(acc, Elapsed(ticks[..i])).0 + ticks[i].dt)
  {
    assert Elapsed(ticks[..i + 1]) == Elapsed(ticks[..i]) + [ticks[i].dt];
    DriveSnoc(acc, Elapsed(ticks[..i]), ticks[i].dt);
  }

  /**
   * The iterations of `loop` before it ends: they run until one requests
   * quit, and every elapsed time goes through the accumulator. Only the quit
   * flag and the accumulator change.
   */
  method Iterations(s: State, ticks: seq<Tick>) returns (s': State, trace: seq<Event<real>>)
    ensures s' == s.(quit := s'.quit, accumulator := s'.accumulator)
    ensures s'.quit <==> s.quit || exists i :: 0 <= i < |ticks| && ticks[i].quitEvent
    ensures var n := if s.quit then 0 else IterationsRun(ticks);
      s'.accumulator == Drive(s.accumulator, Elapsed(ticks[..n])).0
    ensures s.quit ==> s' == s && trace == []
  {
    var n := if s.quit then 0 else IterationsRun(ticks);
    var quit := s.quit;
    var acc := s.accumulator;
    trace := [];
    var i := 0;
    while !quit && i < |ticks|
      invariant 0 <= i <= n <= |ticks|
      invariant quit == (s.quit || (i > 0 && ticks[i - 1].quitEvent))
      invariant quit ==> i == n
      invariant acc == Drive(s.accumulator, Elapsed(ticks[..i])).0
      invariant s.quit ==> i == 0 && trace == []
    {
      var next, frame := Frame(s.(quit := quit, accumulator := acc), ticks[i].quitEvent, ticks[i].dt);
      DriveStep(s.accumulator, ticks, i);
      quit, acc := next.quit, next.accumulator;
      trace := trace + frame;
      i := i + 1;
    }
    s' := s.(quit := quit, accumulator := acc);
  }

  /**
   * Loading a name twice registers only the second handle: the registry is
   * exactly what loading the second one alone would give, so the release of
   * the first handle is dropped and no later free or shutdown runs it.
   */
  lemma ReloadDropsEarlierRelease(s: State, files: set<string>, filename: string, first: NativeLoad, second: NativeLoad)
    requires Registry.Unique(s.resources)
    requires FindPath(s.resourcePath, files, filename).Ok? && Classify(filename) != Raw
    ensures var once := LoadResource(s, files, filename, Some(first));
      var twice := LoadResource(once.0, files, filename, Some(second));
      && once.1.Ok? && twice.1.Ok?
      && twice.0 == LoadResource(s, files, filename, Some(second)).0
  {
    var once := LoadResource(s, files, filename, Some(first));
    var twice := LoadResource(once.0, files, filename, Some(second));
    Registry.PutTwiceForgetsFirst(s.resources, filename, ReleaseOf(once.1.value), ReleaseOf(twice.1.value));
  }

  /**
   * `loop`, over the iterations `ticks` describes: iterations run until one
   * requests quit, feeding every elapsed time to the accumulator; on leaving,
   * every registered release runs once, in load order, and the registry ends
   * empty. When no iteration requests quit the loop has not ended and
   * nothing is released.
   */
  method Run(s: State, ticks: seq<Tick>) returns (s': State, trace: seq<Event<real>>, released: seq<Registry.Release>)
    requires Registry.Unique(s.resources)
    ensures s'.quit <==> s.quit || exists i :: 0 <= i < |ticks| && ticks[i].quitEvent
    ensures s'.quit ==> s'.resources == [] && released == Registry.Releases(s.resources)
    ensures !s'.quit ==> s'.resources == s.resources && released == []
    ensures s'.updateHandlers == s.updateHandlers && s'.drawHandlers == s.drawHandlers
    ensures var n := if s.quit then 0 else IterationsRun(ticks);
      s'.accumulator == Drive(s.accumulator, Elapsed(ticks[..n])).0
    ensures s.quit ==> trace == [] && s'.accumulator == s.accumulator
  {
    s', trace := Iterations(s, ticks);
    if s'.quit {
      var rest;
      rest, released := Registry.Shutdown(s'.resources);
      s' := s'.(resources := rest);
    } else {
      released := [];
    }
  }
  /**
   * The first frame of a fresh harness: with no handlers registered it only
   * clears and presents, and the accumulator holds what is left of the
   * first elapsed time.
   */
  method FreshFrame(resourcePath: seq<string>, quitEvent: bool, dt: real) returns (s': State, trace: seq<Event<real>>)
    ensures trace == [Cleared, Presented]
    ensures s'.accumulator == Leftover(dt) && s'.quit == quitEvent
    ensures s'.resources == [] && s'.resourcePath == resourcePath
  {
    s', trace := Frame(Initial(resourcePath), quitEvent, dt);
    RoundsCallOnlyListed<real>([], UfpsDt, Rounds(0.0 + dt));
    assert DrawEvents<real>([]) == [];
  }

  /**
   * The loop of a fresh harness with nothing loaded: it ends exactly when a
   * quit is requested, and releases nothing, since nothing was registered.
   */
  method FreshRun(resourcePath: seq<string>, ticks: seq<Tick>) returns (s': State, trace: seq<Event<real>>, released: seq<Registry.Release>)
    ensures s'.quit <==> exists i :: 0 <= i < |ticks| && ticks[i].quitEvent
    ensures released == [] && s'.resources == []
    ensures s'.updateHandlers == [] && s'.drawHandlers == []
  {
    s', trace, released := Run(Initial(resourcePath), ticks);
  }
}

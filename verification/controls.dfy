/**
 * Game controllers: each poll reads the eight mapped buttons and writes a
 * button's state into the shared keyboard state only when it differs from
 * the state read at the previous poll.
 */
module Controls {
  import opened Outcomes
  import opened Native

  /** The eight controller actions. */
  datatype Action = Up | Down | Left | Right | A | B | Start | Back

  /** The actions in the order the button table lists them; a poll visits them in this order. */
  const Actions: seq<Action> := [Up, Down, Left, Right, A, B, Start, Back]

  /** The keyword naming each action in `set_mapping`. */
  function ActionName(a: Action): string
  {
    match a
    case Up => "up"
    case Down => "down"
    case Left => "left"
    case Right => "right"
    case A => "a"
    case B => "b"
    case Start => "start"
    case Back => "back"
  }

  /** The action a keyword names, if it names one. */
  function ParseAction(name: string): (r: Option<Action>)
    ensures r.Some? ==> ActionName(r.value) == name
    ensures r.None? ==> forall a :: ActionName(a) != name
  {
    if name == "up" then Some(Up)
    else if name == "down" then Some(Down)
    else if name == "left" then Some(Left)
    else if name == "right" then Some(Right)
    else if name == "a" then Some(A)
    else if name == "b" then Some(B)
    else if name == "start" then Some(Start)
    else if name == "back" then Some(Back)
    else None
  }

  /** Every action's keyword parses back to that action. */
  lemma ParseActionName(a: Action)
    ensures ParseAction(ActionName(a)) == Some(a)
  {
  }

  /** Controller buttons SDL reports. */
  datatype Button = DPadUp | DPadDown | DPadLeft | DPadRight | ButtonA | ButtonB | ButtonStart | ButtonBack

  /** The button read for each action. */
  function ButtonOf(a: Action): Button
  {
    match a
    case Up => DPadUp
    case Down => DPadDown
    case Left => DPadLeft
    case Right => DPadRight
    case A => ButtonA
    case B => ButtonB
    case Start => ButtonStart
    case Back => ButtonBack
  }

  /** A keyboard scancode, named as SDL names it (`SDL_SCANCODE_<name>`). */
  datatype KeyCode = Key(name: string)

  /** The shared keyboard state: scancode to pressed. */
  type KeyState = map<KeyCode, bool>

  /** A key for each of the eight actions. */
  datatype KeyMapping = KeyMapping(
    up: KeyCode, down: KeyCode, left: KeyCode, right: KeyCode,
    a: KeyCode, b: KeyCode, start: KeyCode, back: KeyCode)
  {
    /** The key an action writes. */
    function KeyFor(act: Action): KeyCode
    {
      match act
      case Up => up
      case Down => down
      case Left => left
      case Right => right
      case A => a
      case B => b
      case Start => start
      case Back => back
    }

    /** The mapping with `act` sent to `k` (`key_mapping[act] = k`); every other action keeps its key. */
    function With(act: Action, k: KeyCode): (m: KeyMapping)
      ensures m.KeyFor(act) == k
      ensures forall other :: other != act ==> m.KeyFor(other) == KeyFor(other)
    {
      match act
      case Up => this.(up := k)
      case Down => this.(down := k)
      case Left => this.(left := k)
      case Right => this.(right := k)
      case A => this.(a := k)
      case B => this.(b := k)
      case Start => this.(start := k)
      case Back => this.(back := k)
    }

    /** The eight keys the mapping writes. */
    function Keys(): (ks: set<KeyCode>)
      ensures forall act :: KeyFor(act) in ks
    {
      {up, down, left, right, a, b, start, back}
    }
  }

  /** The default mapping: arrows, C, V, S and Escape. */
  const DefaultMapping: KeyMapping :=
    KeyMapping(Key("UP"), Key("DOWN"), Key("LEFT"), Key("RIGHT"), Key("C"), Key("V"), Key("S"), Key("ESCAPE"))

  /** No two actions share a key. */
  ghost predicate Injective(mapping: KeyMapping)
  {
    forall x, y :: x != y ==> mapping.KeyFor(x) != mapping.KeyFor(y)
  }

  /** The default mapping gives each action its own key. */
  lemma DefaultMappingInjective()
    ensures Injective(DefaultMapping)
  {
    forall x, y | x != y
      ensures DefaultMapping.KeyFor(x) != DefaultMapping.KeyFor(y)
    {
      var ks := DefaultMapping.KeyFor(x).name;
      var ky := DefaultMapping.KeyFor(y).name;
      assert ks[..1] != ky[..1] || |ks| != |ky| || ks != ky;
    }
  }

  /** Every action is listed in `Actions`. */
  lemma ActionListed(act: Action)
    ensures act in Actions
  {
    match act
    case Up => assert Actions[0] == Up;
    case Down => assert Actions[1] == Down;
    case Left => assert Actions[2] == Left;
    case Right => assert Actions[3] == Right;
    case A => assert Actions[4] == A;
    case B => assert Actions[5] == B;
    case Start => assert Actions[6] == Start;
    case Back => assert Actions[7] == Back;
  }

  /**
   * An open or closed controller: its name, its native handle (`None` once
   * closed), its action-to-key mapping and the actions whose button was
   * pressed at the previous poll.
   */
  datatype Controller = Controller(
    name: string,
    joyNumber: nat,
    handler: Option<ControllerHandle>,
    keyMapping: KeyMapping,
    previous: set<Action>)

  /** A freshly opened controller: the default mapping, every button taken as released. */
  function Opened(name: string, joyNumber: nat, handle: ControllerHandle): (c: Controller)
    ensures c.handler == Some(handle) && c.keyMapping == DefaultMapping && c.previous == {}
  {
    Controller(name, joyNumber, Some(handle), DefaultMapping, {})
  }

  /** The button of `a` reads as pressed. */
  predicate Pressed(pressed: set<Button>, a: Action)
  {
    ButtonOf(a) in pressed
  }

  /** `k` has the same status in both key states. */
  ghost predicate SameAt(keys: KeyState, keys': KeyState, k: KeyCode)
  {
    (k in keys <==> k in keys') && (k in keys ==> keys[k] == keys'[k])
  }

  /** No two positions of `acts` hold the same action. */
  ghost predicate Distinct(acts: seq<Action>)
  {
    |acts| == 0 || (acts[0] !in acts[1..] && Distinct(acts[1..]))
  }

  /** The eight actions are listed once each. */
  lemma ActionsDistinct()
    ensures Distinct(Actions)
  {
    assert Distinct(Actions[7..]);
    assert Distinct(Actions[6..]);
    assert Distinct(Actions[5..]);
    assert Distinct(Actions[4..]);
    assert Distinct(Actions[3..]);
    assert Distinct(Actions[2..]);
    assert Distinct(Actions[1..]);
  }

  /** The keys `acts` write under `mapping`. */
  function KeysOf(acts: seq<Action>, mapping: KeyMapping): (ks: set<KeyCode>)
    ensures ks <= mapping.Keys()
    decreases |acts|
  {
    if |acts| == 0 then {} else {mapping.KeyFor(acts[0])} + KeysOf(acts[1..], mapping)
  }

  /** Under a mapping that shares no keys, an action outside `acts` has a key no action of `acts` writes. */
  lemma {:induction false} KeyOutsideKeysOf(acts: seq<Action>, mapping: KeyMapping, a: Action)
    requires Injective(mapping) && a !in acts
    ensures mapping.KeyFor(a) !in KeysOf(acts, mapping)
    decreases |acts|
  {
    if |acts| > 0 {
      assert acts[0] != a;
      KeyOutsideKeysOf(acts[1..], mapping, a);
    }
  }

  /**
   * The loop body of `poll` over `acts`: an action whose button state changed
   * writes that state under its key; every action's new state is remembered.
   */
  function PollActions(acts: seq<Action>, mapping: KeyMapping, previous: set<Action>,
                       keys: KeyState, pressed: set<Button>): (set<Action>, KeyState)
    decreases |acts|
  {
    if |acts| == 0 then (previous, keys)
    else
      var a := acts[0];
      var state := Pressed(pressed, a);
      var keys1 := if (a in previous) != state then keys[mapping.KeyFor(a) := state] else keys;
      var previous1 := if state then previous + {a} else previous - {a};
      PollActions(acts[1..], mapping, previous1, keys1, pressed)
  }

  /** After the loop, each visited action remembers its current button state; the others keep theirs. */
  lemma {:induction false} PollActionsRemembers(acts: seq<Action>, mapping: KeyMapping, previous: set<Action>,
                                                keys: KeyState, pressed: set<Button>)
    ensures forall a :: a in PollActions(acts, mapping, previous, keys, pressed).0 <==>
                        (if a in acts then Pressed(pressed, a) else a in previous)
    decreases |acts|
  {
    if |acts| > 0 {
      var a := acts[0];
      var state := Pressed(pressed, a);
      var keys1 := if (a in previous) != state then keys[mapping.KeyFor(a) := state] else keys;
      var previous1 := if state then previous + {a} else previous - {a};
      PollActionsRemembers(acts[1..], mapping, previous1, keys1, pressed);
      assert forall b :: b in acts <==> b == a || b in acts[1..];
    }
  }

  /** The loop touches no key outside those the visited actions map to. */
  lemma {:induction false} PollActionsUntouched(acts: seq<Action>, mapping: KeyMapping, previous: set<Action>,
                                                keys: KeyState, pressed: set<Button>)
    ensures forall k :: k !in KeysOf(acts, mapping) ==> SameAt(keys, PollActions(acts, mapping, previous, keys, pressed).1, k)
    decreases |acts|
  {
    if |acts| > 0 {
      var a := acts[0];
      var state := Pressed(pressed, a);
      var keys1 := if (a in previous) != state then keys[mapping.KeyFor(a) := state] else keys;
      var previous1 := if state then previous + {a} else previous - {a};
      PollActionsUntouched(acts[1..], mapping, previous1, keys1, pressed);
    }
  }

  /**
   * Edge detection in the poll loop: when keys are not shared, the key of each
   * visited action holds the new button state if that state changed, and is
   * untouched otherwise.
   */
  lemma {:induction false} PollActionsEdges(acts: seq<Action>, mapping: KeyMapping, previous: set<Action>,
                                            keys: KeyState, pressed: set<Button>, a: Action)
    requires Injective(mapping) && Distinct(acts) && a in acts
    ensures var r := PollActions(acts, mapping, previous, keys, pressed);
      if (a in previous) != Pressed(pressed, a)
      then mapping.KeyFor(a) in r.1 && r.1[mapping.KeyFor(a)] == Pressed(pressed, a)
      else SameAt(keys, r.1, mapping.KeyFor(a))
    decreases |acts|
  {
    var h := acts[0];
    var state := Pressed(pressed, h);
    var keys1 := if (h in previous) != state then keys[mapping.KeyFor(h) := state] else keys;
    var previous1 := if state then previous + {h} else previous - {h};
    var r := PollActions(acts[1..], mapping, previous1, keys1, pressed);
    assert PollActions(acts, mapping, previous, keys, pressed) == r;
    if a == h {
      KeyOutsideKeysOf(acts[1..], mapping, a);
      PollActionsUntouched(acts[1..], mapping, previous1, keys1, pressed);
    } else {
      assert a in acts[1..];
      assert (a in previous1) == (a in previous);
      PollActionsEdges(acts[1..], mapping, previous1, keys1, pressed, a);
    }
  }

  /**
   * `Controller.poll`: a closed controller changes nothing. An open one
   * remembers every action's button state. Keys no action maps to are never
   * touched, and when no button changed since the previous poll nothing is
   * written.
   */
  function Poll(c: Controller, keys: KeyState, pressed: set<Button>): (r: (Controller, KeyState))
    ensures c.handler.None? ==> r == (c, keys)
    ensures c.handler.Some? ==> r.0 == c.(previous := r.0.previous)
    ensures c.handler.Some? ==> forall a :: a in r.0.previous <==> Pressed(pressed, a)
    ensures forall k :: k !in c.keyMapping.Keys() ==> SameAt(keys, r.1, k)
    ensures (forall a :: a in c.previous <==> Pressed(pressed, a)) ==> r.1 == keys
  {
    if c.handler.None? then (c, keys)
    else
      var r := PollActions(Actions, c.keyMapping, c.previous, keys, pressed);
      assert forall a :: a in Actions by {
        forall a ensures a in Actions { ActionListed(a); }
      }
      PollActionsRemembers(Actions, c.keyMapping, c.previous, keys, pressed);
      PollActionsUntouched(Actions, c.keyMapping, c.previous, keys, pressed);
      assert (forall a :: a in c.previous <==> Pressed(pressed, a)) ==> r.1 == keys by {
        if forall a :: a in c.previous <==> Pressed(pressed, a) {
          UnchangedButtonsWriteNothing(Actions, c.keyMapping, c.previous, keys, pressed);
        }
      }
      (c.(previous := r.0), r.1)
  }

  /**
   * With keys not shared between actions, an open controller's poll writes the
   * key of each action whose button changed since the previous poll, with the
   * new state, and leaves the key of every other action untouched.
   */
  lemma PollWritesEdges(c: Controller, keys: KeyState, pressed: set<Button>, a: Action)
    requires c.handler.Some? && Injective(c.keyMapping)
    ensures var keys' := Poll(c, keys, pressed).1;
      if (a in c.previous) != Pressed(pressed, a)
      then c.keyMapping.KeyFor(a) in keys' && keys'[c.keyMapping.KeyFor(a)] == Pressed(pressed, a)
      else SameAt(keys, keys', c.keyMapping.KeyFor(a))
  {
    ActionListed(a);
    ActionsDistinct();
    PollActionsEdges(Actions, c.keyMapping, c.previous, keys, pressed, a);
  }

  /** With every remembered state equal to the current reading, the poll loop leaves the keys alone. */
  lemma {:induction false} UnchangedButtonsWriteNothing(acts: seq<Action>, mapping: KeyMapping,
                                                        previous: set<Action>, keys: KeyState,
                                                        pressed: set<Button>)
    requires forall a :: a in previous <==> Pressed(pressed, a)
    ensures PollActions(acts, mapping, previous, keys, pressed).1 == keys
    decreases |acts|
  {
    if |acts| > 0 {
      var a := acts[0];
      var previous1 := if Pressed(pressed, a) then previous + {a} else previous - {a};
      assert previous1 == previous;
      UnchangedButtonsWriteNothing(acts[1..], mapping, previous, keys, pressed);
    }
  }

  /** Polling again with the buttons unchanged writes nothing: only edges reach the keyboard state. */
  lemma PollSteady(c: Controller, keys: KeyState, keys': KeyState, pressed: set<Button>)
    ensures Poll(Poll(c, keys, pressed).0, keys', pressed).1 == keys'
  {
  }

  /**
   * `Controller.close`: the handle is dropped and the controller leaves the
   * harness's table of open controllers; nothing else in the table changes.
   */
  function Close(c: Controller, open: map<string, Controller>): (r: (Controller, map<string, Controller>))
    ensures r.0 == c.(handler := None)
    ensures c.name !in r.1
    ensures forall n :: n != c.name ==> (n in r.1 <==> n in open) && (n in open ==> r.1[n] == open[n])
  {
    (c.(handler := None), open - {c.name})
  }

  /** A closed controller's polls are no-ops. */
  lemma PollAfterCloseNoop(c: Controller, open: map<string, Controller>, keys: KeyState, pressed: set<Button>)
    ensures Poll(Close(c, open).0, keys, pressed) == (Close(c, open).0, keys)
  {
  }

  /**
   * The check `set_mapping` makes on its keyword names, in call order: the
   * first name that is not one of the eight actions raises `ValueError`;
   * otherwise every name is an action.
   */
  function ValidateMapping(names: seq<string>): (r: Result<seq<Action>>)
    ensures r.Ok? <==> forall i :: 0 <= i < |names| ==> ParseAction(names[i]).Some?
    ensures r.Ok? ==> |r.value| == |names| && forall i :: 0 <= i < |names| ==> ActionName(r.value[i]) == names[i]
    ensures r.Err? ==> exists i :: 0 <= i < |names| && ParseAction(names[i]).None?
                                && r.error == InvalidMappingKey(names[i])
                                && forall j :: 0 <= j < i ==> ParseAction(names[j]).Some?
    decreases |names|
  {
    if |names| == 0 then Ok([])
    else match ParseAction(names[0])
      case None => Err(InvalidMappingKey(names[0]))
      case Some(a) =>
        var rest := ValidateMapping(names[1..]);
        if rest.Err? then
          var i :| 0 <= i < |names[1..]| && ParseAction(names[1..][i]).None?
                 && rest.error == InvalidMappingKey(names[1..][i])
                 && forall j :: 0 <= j < i ==> ParseAction(names[1..][j]).Some?;
          assert forall j :: 0 < j <= i ==> names[j] == names[1..][j - 1];
          assert names[i + 1] == names[1..][i];
          Err(rest.error)
        else
          assert forall i :: 0 < i < |names| ==> names[i] == names[1..][i - 1];
          Ok([a] + rest.value)
  }

  /** The keywords of a `set_mapping` call, in call order. */
  function Keywords(pairs: seq<(string, KeyCode)>): (names: seq<string>)
    ensures |names| == |pairs|
    ensures forall i :: 0 <= i < |pairs| ==> names[i] == pairs[i].0
  {
    seq(|pairs|, i requires 0 <= i < |pairs| => pairs[i].0)
  }

  /**
   * `set_mapping` as written: after a keyword passes the check, the write
   * looks the keyword up as an attribute of the `sdl2` module
   * (`getattr(sdl2, key)`). No action keyword names such an attribute, so the
   * first keyword ends the call with an error whether it is valid or not.
   */
  function SetMappingAsWritten(c: Controller, pairs: seq<(string, KeyCode)>): (r: Result<Controller>)
    ensures r.Ok? <==> |pairs| == 0
    ensures r.Ok? ==> r.value == c
    ensures |pairs| > 0 ==> (r.error.MissingAttribute? <==> ParseAction(pairs[0].0).Some?)
    ensures |pairs| > 0 && ParseAction(pairs[0].0).None? ==> r.error == ValidateMapping(Keywords(pairs)).error
    ensures r.Err? && r.error.MissingAttribute? ==> r.error.name == pairs[0].0
  {
    if |pairs| == 0 then Ok(c)
    else if ParseAction(pairs[0].0).None? then Err(InvalidMappingKey(pairs[0].0))
    else Err(MissingAttribute(pairs[0].0))
  }

  /** The discrepancy: a mapping the keyword check accepts is still refused. */
  lemma SetMappingAsWrittenRejectsStart(c: Controller)
    ensures ValidateMapping(Keywords([("start", Key("RETURN"))])).Ok?
    ensures SetMappingAsWritten(c, [("start", Key("RETURN"))]) == Err(MissingAttribute("start"))
  {
    assert Keywords([("start", Key("RETURN"))]) == ["start"];
  }

  /**
   * `set_mapping` as evidently intended (`key_mapping[key] = value`): in call
   * order, each keyword is checked and its action is sent to the given key.
   * The first keyword that names no action stops the call with `ValueError`;
   * the writes before it stay done. Only the mapping changes.
   */
  function SetMapping(c: Controller, pairs: seq<(string, KeyCode)>): (r: (Controller, Option<Error>))
    ensures r.0 == c.(keyMapping := r.0.keyMapping)
    decreases |pairs|
  {
    if |pairs| == 0 then (c, None)
    else match ParseAction(pairs[0].0)
      case None => (c, Some(InvalidMappingKey(pairs[0].0)))
      case Some(a) => SetMapping(c.(keyMapping := c.keyMapping.With(a, pairs[0].1)), pairs[1..])
  }

  /** The corrected `set_mapping` fails exactly as the keyword check does, with the same error. */
  lemma {:induction false} SetMappingChecksKeywords(c: Controller, pairs: seq<(string, KeyCode)>)
    ensures SetMapping(c, pairs).1.None? <==> ValidateMapping(Keywords(pairs)).Ok?
    ensures SetMapping(c, pairs).1.Some? ==> SetMapping(c, pairs).1.value == ValidateMapping(Keywords(pairs)).error
    decreases |pairs|
  {
    if |pairs| > 0 {
      assert Keywords(pairs)[1..] == Keywords(pairs[1..]);
      match ParseAction(pairs[0].0)
      case None =>
      case Some(a) =>
        SetMappingChecksKeywords(c.(keyMapping := c.keyMapping.With(a, pairs[0].1)), pairs[1..]);
    }
  }

  /** An action no keyword names keeps its key, whether or not the call fails. */
  lemma {:induction false} SetMappingKeepsUnnamed(c: Controller, pairs: seq<(string, KeyCode)>, act: Action)
    requires forall i :: 0 <= i < |pairs| ==> pairs[i].0 != ActionName(act)
    ensures SetMapping(c, pairs).0.keyMapping.KeyFor(act) == c.keyMapping.KeyFor(act)
    decreases |pairs|
  {
    if |pairs| > 0 {
      match ParseAction(pairs[0].0)
      case None =>
      case Some(a) =>
        SetMappingKeepsUnnamed(c.(keyMapping := c.keyMapping.With(a, pairs[0].1)), pairs[1..], act);
    }
  }

  /**
   * With every keyword valid, an action takes the key of the last keyword
   * naming it.
   */
  lemma {:induction false} SetMappingLastWins(c: Controller, pairs: seq<(string, KeyCode)>, act: Action, i: nat)
    requires forall j :: 0 <= j < |pairs| ==> ParseAction(pairs[j].0).Some?
    requires i < |pairs| && pairs[i].0 == ActionName(act)
    requires forall j :: i < j < |pairs| ==> pairs[j].0 != ActionName(act)
    ensures SetMapping(c, pairs).0.keyMapping.KeyFor(act) == pairs[i].1
    decreases |pairs|
  {
    var a := ParseAction(pairs[0].0).value;
    var c' := c.(keyMapping := c.keyMapping.With(a, pairs[0].1));
    if i == 0 {
      assert a == act;
      SetMappingKeepsUnnamed(c', pairs[1..], act);
    } else {
      SetMappingLastWins(c', pairs[1..], act, i - 1);
    }
  }

  /** The default mapping with start sent to Return. */
  const ReturnMapping: KeyMapping := DefaultMapping.(start := Key("RETURN"))

  /** Remapping start to Return from the default mapping gives `ReturnMapping` and nothing else. */
  lemma RemapStart(c: Controller)
    requires c.keyMapping == DefaultMapping
    ensures SetMapping(c, [("start", Key("RETURN"))]) == (c.(keyMapping := ReturnMapping), None)
  {
    var pairs := [("start", Key("RETURN"))];
    assert ParseAction(pairs[0].0) == Some(Start);
    assert pairs[1..] == [];
  }

  /** `ReturnMapping` still gives each action its own key. */
  lemma ReturnMappingInjective()
    ensures Injective(ReturnMapping)
  {
    forall x, y | x != y
      ensures ReturnMapping.KeyFor(x) != ReturnMapping.KeyFor(y)
    {
      var kx := ReturnMapping.KeyFor(x).name;
      var ky := ReturnMapping.KeyFor(y).name;
      assert kx[..1] != ky[..1] || |kx| != |ky| || kx != ky;
    }
  }

  /**
   * After the corrected `set_mapping(start="KEY_RETURN")` on a controller with
   * the default mapping, pressing start writes Return as pressed and leaves
   * the S key alone.
   */
  lemma RemappedStartWritesReturn(c: Controller, keys: KeyState)
    requires c.handler.Some? && c.keyMapping == DefaultMapping && Start !in c.previous
    ensures var c' := SetMapping(c, [("start", Key("RETURN"))]).0;
      var keys' := Poll(c', keys, {ButtonStart}).1;
      && c'.keyMapping.KeyFor(Start) == Key("RETURN")
      && Key("RETURN") in keys' && keys'[Key("RETURN")]
      && SameAt(keys, keys', Key("S"))
  {
    RemapStart(c);
    ReturnMappingInjective();
    var c' := c.(keyMapping := ReturnMapping);
    assert Key("S") !in ReturnMapping.Keys();
    assert Pressed({ButtonStart}, Start);
    PollWritesEdges(c', keys, {ButtonStart}, Start);
  }

  /**
   * A freshly opened controller takes every button as released: its first
   * poll remembers the pressed buttons, writes nothing when none is pressed,
   * and with the start button down writes the S key as pressed.
   */
  lemma OpenedFirstPoll(name: string, joyNumber: nat, handle: ControllerHandle, keys: KeyState, pressed: set<Button>)
    ensures var r := Poll(Opened(name, joyNumber, handle), keys, pressed);
      && r.0.handler == Some(handle) && r.0.keyMapping == DefaultMapping
      && (forall a :: a in r.0.previous <==> Pressed(pressed, a))
      && (pressed == {} ==> r.1 == keys)
      && (ButtonStart in pressed ==> Key("S") in r.1 && r.1[Key("S")])
  {
    DefaultMappingInjective();
    if ButtonStart in pressed {
      assert Pressed(pressed, Start);
      PollWritesEdges(Opened(name, joyNumber, handle), keys, pressed, Start);
    }
  }

  /**
   * The start button pressed at one poll and released at the next, with the
   * default mapping: the S key reads pressed after the first and released after
   * the second.
   */
  lemma StartPressThenRelease(c: Controller, keys: KeyState)
    requires c.handler.Some? && c.keyMapping == DefaultMapping && Start !in c.previous
    ensures var first := Poll(c, keys, {ButtonStart});
      && Key("S") in first.1 && first.1[Key("S")]
      && Key("S") in Poll(first.0, first.1, {}).1 && !Poll(first.0, first.1, {}).1[Key("S")]
  {
    DefaultMappingInjective();
    var first := Poll(c, keys, {ButtonStart});
    assert Pressed({ButtonStart}, Start);
    PollWritesEdges(c, keys, {ButtonStart}, Start);
    assert Start in first.0.previous;
    PollWritesEdges(first.0, first.1, {}, Start);
  }
}

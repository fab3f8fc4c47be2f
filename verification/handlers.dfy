/**
 * Update and draw handler lists: registration by appending, removal of the
 * first occurrence, and the calls one round of handlers makes.
 */
module Handlers {
  import opened Seqs

  /**
   * A callback. Python's `in` and `list.remove` compare callbacks with `==`;
   * the model gives each distinct callback its own number, so equal callbacks
   * are equal values here.
   */
  datatype Handler = Handler(id: nat)

  /** One invocation of a handler with its argument. */
  datatype Call<A> = Call(handler: Handler, arg: A)

  /** The `update`/`draw` decorators: the handler joins the end of the list and is handed back unchanged. */
  function Register(hs: seq<Handler>, fn: Handler): (r: (seq<Handler>, Handler))
    ensures |r.0| == |hs| + 1 && r.0[..|hs|] == hs && r.0[|hs|] == fn
    ensures r.1 == fn
  {
    (hs + [fn], fn)
  }

  /** `if fn in hs: hs.remove(fn)`: scan the list and drop the first element equal to `fn`. */
  function RemoveFirst(hs: seq<Handler>, fn: Handler): seq<Handler>
  {
    if |hs| == 0 then []
    else if hs[0] == fn then hs[1..]
    else [hs[0]] + RemoveFirst(hs[1..], fn)
  }

  /**
   * Removal cuts the list at the first occurrence of `fn`: the elements before
   * and after it keep their order, and an absent handler leaves the list as it
   * was.
   */
  lemma {:induction false} RemoveFirstSplits(hs: seq<Handler>, fn: Handler)
    ensures fn !in hs ==> RemoveFirst(hs, fn) == hs
    ensures fn in hs ==> RemoveFirst(hs, fn) == hs[..IndexOf(hs, fn)] + hs[IndexOf(hs, fn) + 1..]
    decreases |hs|
  {
    if |hs| > 0 && hs[0] != fn {
      RemoveFirstSplits(hs[1..], fn);
      if fn in hs[1..] {
        var j := IndexOf(hs[1..], fn);
        assert IndexOf(hs, fn) == j + 1;
        assert hs[..j + 1] == [hs[0]] + hs[1..][..j];
        assert hs[j + 2..] == hs[1..][j + 1..];
      } else {
        assert hs == [hs[0]] + hs[1..];
      }
    }
  }

  /** Removal takes exactly one copy of the handler out of the list, when there is one. */
  lemma {:induction false} RemoveFirstCount(hs: seq<Handler>, fn: Handler)
    ensures multiset(RemoveFirst(hs, fn)) == multiset(hs) - multiset{fn}
  {
    RemoveFirstSplits(hs, fn);
    if fn in hs {
      var i := IndexOf(hs, fn);
      var before, after := hs[..i], hs[i + 1..];
      assert hs == before + [fn] + after;
      assert multiset(RemoveFirst(hs, fn)) == multiset(before) + multiset(after);
      assert multiset(hs) == multiset(before) + multiset{fn} + multiset(after);
    } else {
      assert multiset(hs)[fn] == 0;
    }
  }

  /** One round: every handler called once, in list order, with `arg`. */
  function Round<A>(hs: seq<Handler>, arg: A): (r: seq<Call<A>>)
  {
    seq(|hs|, i requires 0 <= i < |hs| => Call(hs[i], arg))
  }

  /** `k` consecutive rounds. */
  function RoundsOf<A>(hs: seq<Handler>, arg: A, k: nat): (r: seq<Call<A>>)
  {
    if k == 0 then [] else RoundsOf(hs, arg, k - 1) + Round(hs, arg)
  }

  /** Every call of `k` rounds goes to a handler of the list, with `arg`; there are `k` calls per handler. */
  lemma {:induction false} RoundsCallOnlyListed<A>(hs: seq<Handler>, arg: A, k: nat)
    ensures |RoundsOf(hs, arg, k)| == k * |hs|
    ensures forall c :: c in RoundsOf(hs, arg, k) ==> c.handler in hs && c.arg == arg
  {
    if k > 0 {
      RoundsCallOnlyListed(hs, arg, k - 1);
      assert (k - 1) * |hs| + |hs| == k * |hs|;
      forall c | c in RoundsOf(hs, arg, k)
        ensures c.handler in hs && c.arg == arg
      {
        if c !in RoundsOf(hs, arg, k - 1) {
          var i :| 0 <= i < |Round(hs, arg)| && Round(hs, arg)[i] == c;
        }
      }
    }
  }

  /**
   * The order inside the rounds: the call at position `i` of round `r` goes to
   * the `i`-th handler of the list, so each listed handler is called once per
   * round, at its own place.
   */
  lemma {:induction false} RoundsCallAt<A>(hs: seq<Handler>, arg: A, k: nat, r: nat, i: nat)
    requires r < k && i < |hs|
    ensures r * |hs| + i < |RoundsOf(hs, arg, k)|
    ensures RoundsOf(hs, arg, k)[r * |hs| + i] == Call(hs[i], arg)
  {
    RoundsCallOnlyListed(hs, arg, k - 1);
    assert RoundsOf(hs, arg, k) == RoundsOf(hs, arg, k - 1) + Round(hs, arg);
    if r < k - 1 {
      RoundsCallAt(hs, arg, k - 1, r, i);
    } else {
      assert r * |hs| + i == |RoundsOf(hs, arg, k - 1)| + i;
    }
  }

  /** Removing a handler just registered, and present nowhere else, gives back the list it was added to. */
  lemma RemoveUndoesRegister(hs: seq<Handler>, fn: Handler)
    requires fn !in hs
    ensures RemoveFirst(Register(hs, fn).0, fn) == hs
  {
    RemoveFirstSplits(hs + [fn], fn);
    assert IndexOf(hs + [fn], fn) == |hs| by {
      assert (hs + [fn])[..|hs|] == hs;
    }
  }

  /**
   * A handler registered once is called by no round after its removal, and
   * registering it again brings it back into every round.
   */
  lemma {:induction false} RemovedHandlerNotCalled<A>(hs: seq<Handler>, fn: Handler, arg: A, k: nat)
    requires multiset(hs)[fn] <= 1
    ensures forall c :: c in RoundsOf(RemoveFirst(hs, fn), arg, k) ==> c.handler != fn
    ensures var r' := Register(RemoveFirst(hs, fn), fn).0;
      forall j :: 0 <= j < k ==>
        var last := j * |r'| + |r'| - 1;
        last < |RoundsOf(r', arg, k)| && RoundsOf(r', arg, k)[last] == Call(fn, arg)
  {
    var r := RemoveFirst(hs, fn);
    assert fn !in r by {
      RemoveFirstCount(hs, fn);
      assert multiset(r)[fn] == 0;
    }
    RoundsCallOnlyListed(r, arg, k);
    var r' := Register(r, fn).0;
    forall j | 0 <= j < k
      ensures var last := j * |r'| + |r'| - 1;
        last < |RoundsOf(r', arg, k)| && RoundsOf(r', arg, k)[last] == Call(fn, arg)
    {
      RoundsCallAt(r', arg, k, j, |r'| - 1);
    }
  }

  /** What one iteration of a game loop does, in order: update calls, then possibly a frame. */
  datatype Event<A> = Updated(call: Call<A>) | Cleared | Drawn(handler: Handler) | Presented

  /** The update calls of an iteration, as events. */
  function UpdateEvents<A>(calls: seq<Call<A>>): (es: seq<Event<A>>)
    ensures |es| == |calls|
    ensures forall i :: 0 <= i < |calls| ==> es[i] == Updated(calls[i])
  {
    if |calls| == 0 then [] else [Updated(calls[0])] + UpdateEvents(calls[1..])
  }

  /** `_draw`: every draw handler once, in registration order. */
  function DrawEvents<A>(hs: seq<Handler>): (es: seq<Event<A>>)
    ensures |es| == |hs|
    ensures forall i :: 0 <= i < |hs| ==> es[i] == Drawn(hs[i])
  {
    if |hs| == 0 then [] else [Drawn(hs[0])] + DrawEvents(hs[1..])
  }
}

/**
 * The resource registry of the package: a Python dict from file name to the
 * release action of the native handle loaded under that name. Entries keep
 * insertion order, as the dict does; re-registering a name replaces its
 * action in place.
 */
module Registry {
  import opened Native
  import opened Outcomes

  /** The release lambdas `load_resource` stores: destroy a texture, or free an audio chunk. */
  datatype Release = DestroyTexture(texture: TextureHandle) | FreeChunk(chunk: ChunkHandle)

  datatype Entry = Entry(name: string, release: Release)

  /** `resources.get(name)`: the action registered under `name`, if any. */
  function Lookup(es: seq<Entry>, name: string): Option<Release>
  {
    if |es| == 0 then None
    else if es[0].name == name then Some(es[0].release)
    else Lookup(es[1..], name)
  }

  /** The keys in insertion order. */
  function Names(es: seq<Entry>): (ns: seq<string>)
    ensures |ns| == |es|
    ensures forall i :: 0 <= i < |es| ==> ns[i] == es[i].name
  {
    if |es| == 0 then [] else [es[0].name] + Names(es[1..])
  }

  /** The release actions in insertion order. */
  function Releases(es: seq<Entry>): (rs: seq<Release>)
    ensures |rs| == |es|
    ensures forall i :: 0 <= i < |es| ==> rs[i] == es[i].release
  {
    if |es| == 0 then [] else [es[0].release] + Releases(es[1..])
  }

  /** A dict holds each key once. */
  ghost predicate Unique(es: seq<Entry>)
  {
    |es| == 0 || (Lookup(es[1..], es[0].name).None? && Unique(es[1..]))
  }

  /**
   * `resources[name] = release`: afterwards `name` finds `release` and every
   * other name finds what it found before; an existing name keeps its
   * position, a new one joins the end.
   */
  function Put(es: seq<Entry>, name: string, release: Release): (r: seq<Entry>)
    requires Unique(es)
    ensures Unique(r)
    ensures Lookup(r, name) == Some(release)
    ensures forall n :: n != name ==> Lookup(r, n) == Lookup(es, n)
    ensures Lookup(es, name).Some? ==> Names(r) == Names(es)
    ensures Lookup(es, name).None? ==> Names(r) == Names(es) + [name]
  {
    if |es| == 0 then [Entry(name, release)]
    else if es[0].name == name then [Entry(name, release)] + es[1..]
    else
      var rest := Put(es[1..], name, release);
      var r := [es[0]] + rest;
      assert r[1..] == rest;
      r
  }

  /**
   * `del resources[name]`: afterwards `name` finds nothing, every other name
   * finds what it found before, and an absent name leaves the dict as it was.
   * A present name's entry is cut out and the others keep their order.
   */
  function Remove(es: seq<Entry>, name: string): (r: seq<Entry>)
    requires Unique(es)
    ensures Unique(r)
    ensures Lookup(r, name) == None
    ensures forall n :: n != name ==> Lookup(r, n) == Lookup(es, n)
    ensures Lookup(es, name).None? ==> r == es
    ensures Lookup(es, name).Some? ==> exists i :: 0 <= i < |es| && es[i].name == name && r == es[..i] + es[i + 1..]
  {
    if |es| == 0 then []
    else if es[0].name == name then
      assert es[..0] + es[1..] == es[1..];
      es[1..]
    else
      var rest := Remove(es[1..], name);
      var r := [es[0]] + rest;
      assert r[1..] == rest;
      if Lookup(es[1..], name).Some? then
        ConsKeepsCut(es, name, rest);
        r
      else
        r
  }

  /** Putting the head back in front of a tail with one entry cut out cuts that entry out of the whole list. */
  lemma ConsKeepsCut(es: seq<Entry>, name: string, rest: seq<Entry>)
    requires |es| > 0
    requires exists j :: 0 <= j < |es[1..]| && es[1..][j].name == name && rest == es[1..][..j] + es[1..][j + 1..]
    ensures exists i :: 0 <= i < |es| && es[i].name == name && [es[0]] + rest == es[..i] + es[i + 1..]
  {
    var j :| 0 <= j < |es[1..]| && es[1..][j].name == name && rest == es[1..][..j] + es[1..][j + 1..];
    assert es[..j + 1] == [es[0]] + es[1..][..j];
    assert es[j + 2..] == es[1..][j + 1..];
    assert es[j + 1].name == name && [es[0]] + rest == es[..j + 1] + es[j + 2..];
  }

  /**
   * `free_resource(name)`: an unregistered name changes nothing and runs
   * nothing; a registered one runs its release action once and loses its
   * entry, and every other name keeps its action.
   */
  function Free(es: seq<Entry>, name: string): (r: (seq<Entry>, seq<Release>))
    requires Unique(es)
    ensures Unique(r.0)
    ensures Lookup(es, name).None? ==> r.0 == es && r.1 == []
    ensures Lookup(es, name).Some? ==> r.1 == [Lookup(es, name).value] && Lookup(r.0, name).None?
    ensures forall n :: n != name ==> Lookup(r.0, n) == Lookup(es, n)
    ensures Lookup(es, name).Some? ==> exists i :: 0 <= i < |es| && es[i].name == name && r.0 == es[..i] + es[i + 1..]
  {
    match Lookup(es, name)
    case None => (es, [])
    case Some(release) => (Remove(es, name), [release])
  }

  /** Freeing the oldest name runs its release and leaves the entries after it. */
  lemma FreeOldest(es: seq<Entry>)
    requires Unique(es) && |es| > 0
    ensures Free(es, es[0].name) == (es[1..], [es[0].release])
  {
  }

  /** One step of the shutdown loop: freeing the `i`-th name when the first `i` are gone. */
  lemma ShutdownStep(es: seq<Entry>, i: nat)
    requires i < |es| && Unique(es[i..])
    ensures Free(es[i..], Names(es)[i]) == (es[i + 1..], [Releases(es)[i]])
    ensures Unique(es[i + 1..])
  {
    var rest := es[i..];
    assert rest[0] == es[i];
    assert Names(es)[i] == rest[0].name && Releases(es)[i] == rest[0].release;
    FreeOldest(rest);
    assert rest[1..] == es[i + 1..];
  }

  /** A prefix one longer adds the next element. */
  lemma PrefixSnoc(rs: seq<Release>, i: nat)
    requires i < |rs|
    ensures rs[..i + 1] == rs[..i] + [rs[i]]
  {
  }

  /**
   * Leaving the loop: `free_resource` on every name of a copy of the keys.
   * Every registered action runs exactly once, in load order, and the
   * registry ends empty.
   */
  method Shutdown(es: seq<Entry>) returns (rest: seq<Entry>, ran: seq<Release>)
    requires Unique(es)
    ensures rest == []
    ensures ran == Releases(es)
  {
    var names := Names(es);
    rest := es;
    ran := [];
    var i := 0;
    while i < |names|
      invariant 0 <= i <= |names| == |es|
      invariant rest == es[i..] && Unique(rest)
      invariant ran == Releases(es)[..i]
    {
      ShutdownStep(es, i);
      PrefixSnoc(Releases(es), i);
      var step := Free(rest, names[i]);
      rest := step.0;
      ran := ran + step.1;
      i := i + 1;
    }
  }

  /**
   * Registering a name twice leaves the dict exactly as registering only the
   * second action would: the first action is gone, so nothing can run it.
   */
  lemma {:induction false} PutTwiceForgetsFirst(es: seq<Entry>, name: string, first: Release, second: Release)
    requires Unique(es)
    ensures Put(Put(es, name, first), name, second) == Put(es, name, second)
  {
    if |es| > 0 && es[0].name != name {
      PutTwiceForgetsFirst(es[1..], name, first, second);
      var once := Put(es, name, first);
      assert once[0] == es[0] && once[1..] == Put(es[1..], name, first);
    }
  }

  /**
   * Freeing a name just registered runs exactly the action registered with it,
   * and leaves every other name as it was before the registration.
   */
  lemma FreeUndoesPut(es: seq<Entry>, name: string, release: Release)
    requires Unique(es)
    ensures Free(Put(es, name, release), name).1 == [release]
    ensures Lookup(Free(Put(es, name, release), name).0, name).None?
    ensures forall n :: n != name ==> Lookup(Free(Put(es, name, release), name).0, n) == Lookup(es, n)
  {
  }
}

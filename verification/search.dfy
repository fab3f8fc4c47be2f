/**
 * Finding a resource along the ordered search path, and telling its kind
 * from the last four characters of its name. Both Python modules do this
 * the same way. The file system is an abstract set of existing paths.
 */
module Search {
  import opened Outcomes

  /** The resolved path of `name` inside `dir` (`realpath(join(dir, name))`). */
  function Join(dir: string, name: string): string
  {
    dir + "/" + name
  }

  /** Position of the first directory holding `name`, or -1 when none does. */
  function FirstHit(dirs: seq<string>, files: set<string>, name: string): (i: int)
    ensures -1 <= i < |dirs|
    ensures 0 <= i ==> Join(dirs[i], name) in files
    ensures forall j :: 0 <= j < |dirs| && (i == -1 || j < i) ==> Join(dirs[j], name) !in files
  {
    if |dirs| == 0 then -1
    else if Join(dirs[0], name) in files then 0
    else
      var k := FirstHit(dirs[1..], files, name);
      assert forall j :: 0 < j < |dirs| ==> dirs[j] == dirs[1..][j - 1];
      if k == -1 then -1 else k + 1
  }

  /**
   * `_find_path`: the path of `name` in the first directory, in search-path
   * order, that holds it; `ResourceNotFound` exactly when no directory does.
   */
  function FindPath(dirs: seq<string>, files: set<string>, name: string): (r: Result<string>)
    ensures r.Ok? <==> exists i :: 0 <= i < |dirs| && Join(dirs[i], name) in files
    ensures r.Err? ==> r.error == ResourceNotFound(name)
    ensures r.Ok? ==> r.value in files
    ensures r.Ok? ==> exists i :: 0 <= i < |dirs| && r.value == Join(dirs[i], name)
                                && forall j :: 0 <= j < i ==> Join(dirs[j], name) !in files
  {
    var i := FirstHit(dirs, files, name);
    if i == -1 then Err(ResourceNotFound(name)) else Ok(Join(dirs[i], name))
  }

  /** First match wins: directories after a hit never change the result, and no merging across directories happens. */
  lemma FindPathIgnoresLaterDirs(dirs: seq<string>, more: seq<string>, files: set<string>, name: string)
    requires FindPath(dirs, files, name).Ok?
    ensures FindPath(dirs + more, files, name) == FindPath(dirs, files, name)
  {
    var i := FirstHit(dirs, files, name);
    var k := FirstHit(dirs + more, files, name);
    assert (dirs + more)[i] == dirs[i];
    assert k == i;
  }

  /** Python's `s[-4:]`: the longest ending of `s` that has at most four characters. */
  function Suffix(s: string): (r: string)
    ensures EndsWith(s, r)
    ensures |r| == if |s| < 4 then |s| else 4
  {
    if |s| >= 4 then s[|s| - 4..] else s
  }

  /** `s` ends with `suffix`. */
  predicate EndsWith(s: string, suffix: string)
  {
    |s| >= |suffix| && s[|s| - |suffix|..] == suffix
  }

  /** The branches of `load_resource`. */
  datatype Kind = Bitmap | Image | Audio | Raw

  /** Case-sensitive dispatch on `filename[-4:]`. */
  function Classify(filename: string): Kind
  {
    var ext := Suffix(filename);
    if ext == ".bmp" then Bitmap
    else if ext in [".png", ".gif", ".jpg"] then Image
    else if ext in [".wav", ".ogg"] then Audio
    else Raw
  }

  /**
   * Each kind is exactly the names ending in its extensions; every other name,
   * and every name shorter than four characters, is raw.
   */
  lemma ClassifyByExtension(filename: string)
    ensures Classify(filename) == Bitmap <==> EndsWith(filename, ".bmp")
    ensures Classify(filename) == Image <==>
              EndsWith(filename, ".png") || EndsWith(filename, ".gif") || EndsWith(filename, ".jpg")
    ensures Classify(filename) == Audio <==> EndsWith(filename, ".wav") || EndsWith(filename, ".ogg")
    ensures |filename| < 4 ==> Classify(filename) == Raw
  {
  }

  /** Only the last four characters count: a prefix never changes the kind. */
  lemma ClassifyIgnoresPrefix(prefix: string, filename: string)
    requires |filename| >= 4
    ensures Classify(prefix + filename) == Classify(filename)
  {
    assert (prefix + filename)[|prefix + filename| - 4..] == filename[|filename| - 4..];
  }

  /** The comparison is case-sensitive: an upper-case extension is raw. */
  lemma ClassifyCaseSensitive()
    ensures Classify("logo.PNG") == Raw && Classify("logo.png") == Image
  {
    assert Suffix("logo.PNG") == ".PNG";
    assert Suffix("logo.png") == ".png";
  }
}

/** The write-back loop both scripts share. The directory walk yields paths in
    some order; every path that ends in `.sol` is read, passed through a fixed
    text transform, and written back (and its path reported) only when the
    transform changed the text.

    The file tree is a map from path to text content, and the walk is the
    sequence of paths in the order the walk yields them. */
module TreeRewrite {

  const Extension := ".sol"

  /** The suffix test the scripts apply to each file name (case-sensitive). */
  predicate IsSolidity(path: string) {
    |Extension| <= |path| && path[|path| - |Extension|..] == Extension
  }

  /** Every path the walk yields is a file of the tree. */
  predicate InTree(files: map<string, string>, walk: seq<string>) {
    forall i :: 0 <= i < |walk| ==> walk[i] in files
  }

  /** The walk yields each path at most once. */
  predicate Distinct(walk: seq<string>) {
    forall i, j :: 0 <= i < j < |walk| ==> walk[i] != walk[j]
  }

  /** Visiting `path` would overwrite it: it is a `.sol` file whose text the
      transform changes. */
  predicate Changes(files: map<string, string>, path: string, fix: string -> string)
    requires path in files
  {
    IsSolidity(path) && fix(files[path]) != files[path]
  }

  /** The tree after a run and the paths reported, in the order reported. */
  datatype Outcome = Outcome(files: map<string, string>, reported: seq<string>)

  /** One visit of the loop body: read, transform, write back if changed. */
  function Visit(o: Outcome, path: string, fix: string -> string): (r: Outcome)
    requires path in o.files
    ensures r.files.Keys == o.files.Keys
  {
    if Changes(o.files, path, fix) then
      Outcome(o.files[path := fix(o.files[path])], o.reported + [path])
    else
      o
  }

  /** The state after visiting the walk's paths one after the other. */
  function Run(files: map<string, string>, walk: seq<string>, fix: string -> string): (r: Outcome)
    requires InTree(files, walk)
    ensures r.files.Keys == files.Keys
    decreases |walk|
  {
    if walk == [] then
      Outcome(files, [])
    else
      var prefix := walk[..|walk| - 1];
      assert InTree(files, prefix);
      Visit(Run(files, prefix, fix), walk[|walk| - 1], fix)
  }

  /** The paths of the walk that a visit changes, in walk order: the list the
      scripts are expected to report. */
  function ChangedPaths(files: map<string, string>, walk: seq<string>, fix: string -> string): (r: seq<string>)
    requires InTree(files, walk)
    ensures |r| <= |walk|
    ensures forall i :: 0 <= i < |r| ==> IsSolidity(r[i]) && r[i] in walk
    decreases |walk|
  {
    if walk == [] then []
    else
      assert InTree(files, walk[1..]);
      (if Changes(files, walk[0], fix) then [walk[0]] else []) + ChangedPaths(files, walk[1..], fix)
  }

  /** The loop of both scripts: for each walked `.sol` path, overwrite the
      file when the transform changes its text and report the path. */
  method RewriteTree(files: map<string, string>, walk: seq<string>, fix: string -> string)
    returns (written: map<string, string>, reported: seq<string>)
    requires InTree(files, walk)
    ensures Outcome(written, reported) == Run(files, walk, fix)
  {
    written, reported := files, [];
    for i := 0 to |walk|
      invariant InTree(files, walk[..i])
      invariant Outcome(written, reported) == Run(files, walk[..i], fix)
    {
      assert walk[..i + 1][..i] == walk[..i];
      var path := walk[i];
      if IsSolidity(path) {
        var content := written[path];
        var newContent := fix(content);
        if newContent != content {
          written := written[path := newContent];
          reported := reported + [path];
        }
      }
    }
    assert walk[..|walk|] == walk;
  }

  /** Appending one path to the walk appends at most that path to the
      changed list. */
  lemma {:induction false} ChangedPathsSnoc(files: map<string, string>, walk: seq<string>, path: string, fix: string -> string)
    requires InTree(files, walk) && path in files
    ensures InTree(files, walk + [path])
    ensures ChangedPaths(files, walk + [path], fix)
         == ChangedPaths(files, walk, fix) + (if Changes(files, path, fix) then [path] else [])
    decreases |walk|
  {
    var w := walk + [path];
    assert InTree(files, w);
    if walk != [] {
      assert w[1..] == walk[1..] + [path];
      assert InTree(files, walk[1..]);
      ChangedPathsSnoc(files, walk[1..], path, fix);
    }
  }

  /** A path is on the changed list exactly when the walk yields it and a
      visit changes it; a walk without repeats lists each such path once. */
  lemma {:induction false} ChangedPathsMembers(files: map<string, string>, walk: seq<string>, fix: string -> string)
    requires InTree(files, walk)
    ensures forall p :: p in ChangedPaths(files, walk, fix) <==> p in walk && Changes(files, p, fix)
    ensures Distinct(walk) ==> Distinct(ChangedPaths(files, walk, fix))
    decreases |walk|
  {
    if walk != [] {
      assert InTree(files, walk[1..]);
      ChangedPathsMembers(files, walk[1..], fix);
      assert forall p :: p in walk <==> p == walk[0] || p in walk[1..];
      if Distinct(walk) {
        assert Distinct(walk[1..]);
        assert walk[0] !in walk[1..];
      }
    }
  }

  /** With a walk that yields each path once, a run overwrites exactly the
      walked `.sol` files with their transformed text, leaves every other
      file as it was, and reports the changed paths once each, in walk
      order. */
  lemma {:induction false} RunEffect(files: map<string, string>, walk: seq<string>, fix: string -> string)
    requires InTree(files, walk) && Distinct(walk)
    ensures forall p :: p in files ==>
      Run(files, walk, fix).files[p] == if p in walk && IsSolidity(p) then fix(files[p]) else files[p]
    ensures Run(files, walk, fix).reported == ChangedPaths(files, walk, fix)
    decreases |walk|
  {
    if walk != [] {
      var prefix, last := walk[..|walk| - 1], walk[|walk| - 1];
      assert InTree(files, prefix) && Distinct(prefix);
      assert walk == prefix + [last];
      assert last !in prefix;
      RunEffect(files, prefix, fix);
      ChangedPathsSnoc(files, prefix, last, fix);
      var before := Run(files, prefix, fix);
      assert before.files[last] == files[last];
      forall p | p in files
        ensures Run(files, walk, fix).files[p] == if p in walk && IsSolidity(p) then fix(files[p]) else files[p]
      {
        assert p in walk <==> p in prefix || p == last;
      }
    }
  }

  /** Whatever the walk, a file that is not a `.sol` file is never
      overwritten and never reported, and only walked `.sol` files whose text
      a visit changes are reported. */
  lemma {:induction false} RunIsSelective(files: map<string, string>, walk: seq<string>, fix: string -> string)
    requires InTree(files, walk)
    ensures forall p :: p in files && (!IsSolidity(p) || p !in walk) ==> Run(files, walk, fix).files[p] == files[p]
    ensures forall p :: p in Run(files, walk, fix).reported ==> p in walk && IsSolidity(p)
    decreases |walk|
  {
    if walk != [] {
      var prefix := walk[..|walk| - 1];
      assert InTree(files, prefix);
      RunIsSelective(files, prefix, fix);
      assert forall p :: p in prefix ==> p in walk;
    }
  }

  /** When no walked `.sol` file is changed by the transform, a run writes
      nothing and reports nothing. */
  lemma {:induction false} RunWithoutChanges(files: map<string, string>, walk: seq<string>, fix: string -> string)
    requires InTree(files, walk)
    requires forall i :: 0 <= i < |walk| ==> !Changes(files, walk[i], fix)
    ensures Run(files, walk, fix) == Outcome(files, [])
    decreases |walk|
  {
    if walk != [] {
      var prefix := walk[..|walk| - 1];
      assert InTree(files, prefix);
      assert forall i :: 0 <= i < |prefix| ==> prefix[i] == walk[i];
      RunWithoutChanges(files, prefix, fix);
    }
  }

  /** Running the loop a second time over the same walk writes and reports
      nothing, provided the transform is idempotent on every walked `.sol`
      file's text. */
  lemma {:induction false} RerunIsNoOp(files: map<string, string>, walk: seq<string>, fix: string -> string)
    requires InTree(files, walk) && Distinct(walk)
    requires forall i :: 0 <= i < |walk| && IsSolidity(walk[i]) ==>
      fix(fix(files[walk[i]])) == fix(files[walk[i]])
    ensures InTree(Run(files, walk, fix).files, walk)
    ensures Run(Run(files, walk, fix).files, walk, fix) == Outcome(Run(files, walk, fix).files, [])
  {
    var once := Run(files, walk, fix).files;
    RunEffect(files, walk, fix);
    forall i | 0 <= i < |walk|
      ensures !Changes(once, walk[i], fix)
    {
      assert walk[i] in walk;
    }
    RunWithoutChanges(once, walk, fix);
  }
}

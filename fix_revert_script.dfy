/** The revert-spacing script as a whole: the substitution of the FixRevert
    module applied by the shared write-back loop. */
module FixRevertScript {
  import opened TreeRewrite
  import opened FixRevert

  /** The script: every walked `.sol` file is rewritten with the spaced
      reverts, files whose text changed are written back, and their paths
      are reported in walk order, once each. A file is reported exactly when
      the pattern matches somewhere in it. */
  method FixRevertsInTree(files: map<string, string>, walk: seq<string>)
    returns (written: map<string, string>, reported: seq<string>)
    requires InTree(files, walk) && Distinct(walk)
    ensures written.Keys == files.Keys
    ensures forall p :: p in files ==>
      written[p] == if p in walk && IsSolidity(p) then FixReverts(files[p]) else files[p]
    ensures reported == ChangedPaths(files, walk, FixReverts)
    ensures forall p :: p in reported <==> p in walk && IsSolidity(p) && HasMatch(files[p])
    ensures Distinct(reported)
  {
    written, reported := RewriteTree(files, walk, FixReverts);
    RunEffect(files, walk, FixReverts);
    ChangedPathsMembers(files, walk, FixReverts);
    forall p | p in walk
      ensures Changes(files, p, FixReverts) <==> IsSolidity(p) && HasMatch(files[p])
    {
      ChangedIffMatch(files[p]);
    }
  }

  /** Running the script twice in a row writes and reports nothing the
      second time, provided no identifier captured in a walked `.sol` file
      holds `revert` followed by an upper-case letter. */
  lemma RerunFixesNothing(files: map<string, string>, walk: seq<string>)
    requires InTree(files, walk) && Distinct(walk)
    requires forall i :: 0 <= i < |walk| && IsSolidity(walk[i]) ==> CleanCaptures(files[walk[i]])
    ensures InTree(Run(files, walk, FixReverts).files, walk)
    ensures var once := Run(files, walk, FixReverts).files;
      Run(once, walk, FixReverts) == Outcome(once, [])
  {
    forall i | 0 <= i < |walk| && IsSolidity(walk[i])
      ensures FixReverts(FixReverts(files[walk[i]])) == FixReverts(files[walk[i]])
    {
      FixRevertsIdempotentIff(files[walk[i]]);
    }
    RerunIsNoOp(files, walk, FixReverts);
  }

  /** Conversely, a walked `.sol` file with such a nested identifier is
      rewritten and reported again by a second run. */
  lemma RerunReportsNested(files: map<string, string>, walk: seq<string>, i: int)
    requires InTree(files, walk) && Distinct(walk)
    requires 0 <= i < |walk| && IsSolidity(walk[i]) && !CleanCaptures(files[walk[i]])
    ensures InTree(Run(files, walk, FixReverts).files, walk)
    ensures walk[i] in Run(Run(files, walk, FixReverts).files, walk, FixReverts).reported
  {
    var once := Run(files, walk, FixReverts).files;
    RunEffect(files, walk, FixReverts);
    assert walk[i] in walk;
    assert InTree(once, walk);
    RunEffect(once, walk, FixReverts);
    ChangedPathsMembers(once, walk, FixReverts);
    FixRevertsIdempotentIff(files[walk[i]]);
  }
}

/**
 * reducetree: when every matched path lies under (textually starts with) the
 * shortest one, the match list collapses to that single root.
 */
module PathTree {

  /**
   * The index of sorted(paths, key=len)[0]: Python's sort is stable, so this is the
   * first path of minimum length.
   */
  function ShortestIndex(paths: seq<string>): (k: nat)
    requires |paths| > 0
    ensures k < |paths|
    ensures forall j :: 0 <= j < |paths| ==> |paths[k]| <= |paths[j]|
    ensures forall j :: 0 <= j < k ==> |paths[k]| < |paths[j]|
  {
    if |paths| == 1 then 0
    else
      var k := ShortestIndex(paths[..|paths| - 1]);
      assert forall j :: 0 <= j < |paths| - 1 ==> paths[..|paths| - 1][j] == paths[j];
      if |paths[|paths| - 1]| < |paths[k]| then |paths| - 1 else k
  }

  /** Every path starts with root. */
  predicate AllUnder(paths: seq<string>, root: string) {
    forall j :: 0 <= j < |paths| ==> root <= paths[j]
  }

  /** reducetree(paths); the caller has already returned on an empty match list. */
  function ReduceTree(paths: seq<string>): seq<string>
    requires |paths| > 0
  {
    var shortest := paths[ShortestIndex(paths)];
    if AllUnder(paths, shortest) then [shortest] else paths
  }

  /**
   * The result does not depend on which shortest path sort picks: when some path is a
   * prefix of every path the list collapses to it, and otherwise it is unchanged.
   */
  lemma ReduceTreeCollapses(paths: seq<string>, i: nat)
    requires i < |paths| && AllUnder(paths, paths[i])
    ensures ReduceTree(paths) == [paths[i]]
  {
    var k := ShortestIndex(paths);
    assert paths[i] <= paths[k];
    assert |paths[i]| <= |paths[k]|;
    assert paths[k] == paths[i] by {
      assert paths[k] == paths[k][..|paths[i]|];
    }
  }

  lemma ReduceTreeKeeps(paths: seq<string>)
    requires |paths| > 0
    requires forall i :: 0 <= i < |paths| ==> !AllUnder(paths, paths[i])
    ensures ReduceTree(paths) == paths
  {
    var k := ShortestIndex(paths);
    assert !AllUnder(paths, paths[k]);
  }

  /** The result is never empty and is made of input paths only. */
  lemma ReduceTreeSubset(paths: seq<string>)
    requires |paths| > 0
    ensures |ReduceTree(paths)| > 0
    ensures forall x :: x in ReduceTree(paths) ==> x in paths
  {
  }

  /** Reducing a reduced list changes nothing more. */
  lemma ReduceTreeIdempotent(paths: seq<string>)
    requires |paths| > 0
    ensures ReduceTree(ReduceTree(paths)) == ReduceTree(paths)
  {
    var r := ReduceTree(paths);
    if r != paths {
      assert AllUnder(r, r[0]);
      ReduceTreeCollapses(r, 0);
    }
  }

  /** A directory and its sub-directories reduce to the directory. */
  lemma SubdirectoriesCollapse()
    ensures ReduceTree(["/a/b/c/", "/a/b/", "/a/b/d/"]) == ["/a/b/"]
  {
    ReduceTreeCollapses(["/a/b/c/", "/a/b/", "/a/b/d/"], 1);
  }

  /** Unrelated directories are kept. */
  lemma SiblingsKept()
    ensures ReduceTree(["/a/", "/b/"]) == ["/a/", "/b/"]
  {
    var p := ["/a/", "/b/"];
    assert !("/a/" <= "/b/") by { assert "/b/"[1] != "/a/"[1]; }
    assert !("/b/" <= "/a/") by { assert "/b/"[1] != "/a/"[1]; }
    assert !AllUnder(p, p[0]) && !AllUnder(p, p[1]) by { assert p[0] == "/a/" && p[1] == "/b/"; }
    ReduceTreeKeeps(p);
  }

  /** The test is textual, so "/a/b" absorbs its sibling "/a/bc". */
  lemma TextualPrefix()
    ensures ReduceTree(["/a/bc", "/a/b"]) == ["/a/b"]
  {
    ReduceTreeCollapses(["/a/bc", "/a/b"], 1);
  }
}

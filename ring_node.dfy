/**
 * RingNode: the solver's private copy of a ring. It keeps the candidate moves (pending paths)
 * of that ring in a list ordered by weight, lightest first.
 */
module RingNodes {

  import opened Wrappers
  import opened ExercisePaths
  import opened SelectableRings

  /** Index of the first entry at least as heavy as `w`, or |paths| when every entry is lighter. */
  function FirstNotLighter(paths: seq<ExercisePath>, w: int): (k: nat)
    ensures k <= |paths|
    ensures forall j | 0 <= j < k :: paths[j].weight < w
    ensures k < |paths| ==> w <= paths[k].weight
  {
    if paths == [] then 0
    else if w <= paths[0].weight then 0
    else 1 + FirstNotLighter(paths[1..], w)
  }

  /** Whether addPath keeps the new path: always into an empty list, otherwise only when some
      entry is at least as heavy. */
  predicate Kept(paths: seq<ExercisePath>, path: ExercisePath)
  {
    paths == [] || FirstNotLighter(paths, path.weight) < |paths|
  }

  /** The list addPath leaves: the new path goes just before the first entry at least as heavy;
      a path heavier than every entry of a non-empty list is dropped. */
  function AddedPath(paths: seq<ExercisePath>, path: ExercisePath): seq<ExercisePath>
  {
    if paths == [] then [path]
    else
      var k := FirstNotLighter(paths, path.weight);
      if k < |paths| then paths[..k] + [path] + paths[k..] else paths
  }

  /** addPath keeps the list sorted by weight. */
  lemma AddPathKeepsOrder(paths: seq<ExercisePath>, path: ExercisePath)
    requires SortedByWeight(paths)
    ensures SortedByWeight(AddedPath(paths, path))
  {
    if paths != [] {
      var k := FirstNotLighter(paths, path.weight);
      if k < |paths| {
        var r := AddedPath(paths, path);
        forall i, j | 0 <= i < j < |r| ensures r[i].weight <= r[j].weight {
          if j < k {
            assert r[i] == paths[i] && r[j] == paths[j];
          } else if j == k {
            assert r[i] == paths[i];
          } else if i == k {
            assert r[j] == paths[j - 1];
          } else if i < k {
            assert r[i] == paths[i] && r[j] == paths[j - 1];
          } else {
            assert r[i] == paths[i - 1] && r[j] == paths[j - 1];
          }
        }
      }
    }
  }

  /** What addPath does with the new path, case by case: kept at the first position whose old
      entry is at least as heavy (so before entries of equal weight), or dropped, leaving the list
      unchanged, exactly when the list is non-empty and every entry is strictly lighter. */
  lemma AddPathPlacement(paths: seq<ExercisePath>, path: ExercisePath)
    ensures !Kept(paths, path) <==> paths != [] && forall q | q in paths :: q.weight < path.weight
    ensures !Kept(paths, path) ==> AddedPath(paths, path) == paths
    ensures Kept(paths, path) ==>
      var k := FirstNotLighter(paths, path.weight);
      && |AddedPath(paths, path)| == |paths| + 1
      && AddedPath(paths, path)[k] == path
      && (forall j | 0 <= j < k :: AddedPath(paths, path)[j] == paths[j] && paths[j].weight < path.weight)
      && (forall j | k < j <= |paths| :: AddedPath(paths, path)[j] == paths[j - 1])
      && (k < |paths| ==> path.weight <= paths[k].weight)
  {
    var k := FirstNotLighter(paths, path.weight);
    if paths != [] && k == |paths| {
      forall q | q in paths ensures q.weight < path.weight {
        var j :| 0 <= j < |paths| && paths[j] == q;
      }
    }
    if k < |paths| {
      assert paths[k] in paths && path.weight <= paths[k].weight;
    }
  }

  /** addPath never loses a path and adds only the new one. */
  lemma AddPathElements(paths: seq<ExercisePath>, path: ExercisePath)
    ensures multiset(AddedPath(paths, path))
         == multiset(paths) + (if Kept(paths, path) then multiset{path} else multiset{})
  {
    if paths != [] {
      var k := FirstNotLighter(paths, path.weight);
      if k < |paths| {
        assert paths == paths[..k] + paths[k..];
        calc {
          multiset(AddedPath(paths, path));
          multiset(paths[..k] + [path] + paths[k..]);
          multiset(paths[..k]) + multiset{path} + multiset(paths[k..]);
          multiset(paths[..k] + paths[k..]) + multiset{path};
        }
      }
    }
  }

  /** Membership after addPath: old entries all stay, the only possible newcomer is the new path,
      and it is there exactly when it is kept. */
  lemma AddPathMembers(paths: seq<ExercisePath>, path: ExercisePath)
    ensures forall q | q in AddedPath(paths, path) :: q in paths || q == path
    ensures forall q | q in paths :: q in AddedPath(paths, path)
    ensures Kept(paths, path) ==> path in AddedPath(paths, path)
    ensures !Kept(paths, path) ==> paths != [] && AddedPath(paths, path) == paths
  {
    AddPathElements(paths, path);
    var r := AddedPath(paths, path);
    forall q | q in r ensures q in paths || q == path {
      assert q in multiset(r);
    }
    forall q | q in paths ensures q in r {
      assert q in multiset(paths);
      assert q in multiset(r);
    }
    if Kept(paths, path) {
      assert path in multiset(r);
    }
  }

  /** addPath of a path to a new pin keeps the destinations distinct. */
  lemma AddPathKeepsDistinct(paths: seq<ExercisePath>, path: ExercisePath)
    requires DistinctDestinations(paths)
    requires forall q | q in paths :: q.destination != path.destination
    ensures DistinctDestinations(AddedPath(paths, path))
  {
    if paths != [] {
      var k := FirstNotLighter(paths, path.weight);
      if k < |paths| {
        var r := AddedPath(paths, path);
        forall i, j | 0 <= i < j < |r| ensures r[i].destination != r[j].destination {
          if i == k {
            assert r[j] == paths[j - 1] && paths[j - 1] in paths;
          } else if j == k {
            assert r[i] == paths[i] && paths[i] in paths;
          } else {
            var i' := if i < k then i else i - 1;
            var j' := if j < k then j else j - 1;
            assert r[i] == paths[i'] && r[j] == paths[j'];
          }
        }
      }
    }
  }

  /** Some entry of the list weighs at most w. */
  predicate Dominated(paths: seq<ExercisePath>, w: int)
  {
    exists q | q in paths :: q.weight <= w
  }

  /** After addPath, the new path's weight is matched or beaten by some entry, and so is every
      weight an entry matched or beat before. */
  lemma AddPathDominates(paths: seq<ExercisePath>, path: ExercisePath, w: int)
    ensures Dominated(AddedPath(paths, path), path.weight)
    ensures Dominated(paths, w) ==> Dominated(AddedPath(paths, path), w)
  {
    AddPathMembers(paths, path);
    if !Kept(paths, path) {
      AddPathPlacement(paths, path);
      assert paths[0] in paths;
    }
    if Dominated(paths, w) {
      var q :| q in paths && q.weight <= w;
      assert q in AddedPath(paths, path);
    }
  }

  /** The solved flags of a row of ring nodes, in order. */
  function SolvedFlags(rings: seq<RingNode>): (flags: seq<bool>)
    reads rings
    ensures |flags| == |rings|
    ensures forall i | 0 <= i < |rings| :: flags[i] == rings[i].isSolved
  {
    seq(|rings|, i requires 0 <= i < |rings| reads rings => rings[i].isSolved)
  }

  class RingNode {
    const ringReference: SelectableRing
    var pendingPaths: seq<ExercisePath>
    var size: int
    var isSolved: bool
    var step: int
    var index: int

    constructor (reference: SelectableRing, ringSize: int)
      ensures ringReference == reference && size == ringSize
      ensures step == 0 && !isSolved && index == 0 && NoPendingPaths()
    {
      ringReference := reference;
      pendingPaths := [];
      size := ringSize;
      isSolved := false;
      step := 0;
      index := 0;
    }

    method EmptyPendingPaths()
      modifies this`pendingPaths
      ensures NoPendingPaths()
    {
      pendingPaths := [];
    }

    method AddPath(path: ExercisePath)
      modifies this`pendingPaths
      ensures pendingPaths == AddedPath(old(pendingPaths), path)
    {
      if |pendingPaths| == 0 {
        pendingPaths := pendingPaths + [path];
      } else {
        var i := 0;
        while i < |pendingPaths| && pendingPaths[i].weight < path.weight
          invariant 0 <= i <= |pendingPaths|
          invariant forall j | 0 <= j < i :: pendingPaths[j].weight < path.weight
        {
          i := i + 1;
        }
        assert i == FirstNotLighter(pendingPaths, path.weight);
        if i < |pendingPaths| {
          pendingPaths := pendingPaths[..i] + [path] + pendingPaths[i..];
        }
      }
    }

    /** Removes and returns the first (lightest) pending path; None on an empty list. */
    method PathShift() returns (path: Option<ExercisePath>)
      modifies this`pendingPaths
      ensures path == old(FirstPathPeek())
      ensures old(pendingPaths) == [] ==> pendingPaths == []
      ensures old(pendingPaths) != [] ==> [path.value] + pendingPaths == old(pendingPaths)
    {
      if |pendingPaths| > 0 {
        path := Some(pendingPaths[0]);
        pendingPaths := pendingPaths[1..];
      } else {
        path := None;
      }
    }

    /** The path PathShift would return, without removing it. */
    function FirstPathPeek(): (path: Option<ExercisePath>)
      reads this
      ensures path.None? <==> NoPendingPaths()
      ensures path.Some? ==> path.value in pendingPaths
      ensures path.Some? && SortedByWeight(pendingPaths) ==>
        forall q | q in pendingPaths :: path.value.weight <= q.weight
    {
      if |pendingPaths| > 0 then Some(pendingPaths[0]) else None
    }

    predicate NoPendingPaths()
      reads this
    {
      |pendingPaths| == 0
    }
  }

}

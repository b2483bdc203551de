/** The shortest namespaces that keep colliding type names apart. */
module NameResolution {
  import opened TypeNames

  predicate Distinct(names: seq<string>)
  {
    names == [] || (names[0] !in names[1..] && Distinct(names[1..]))
  }

  lemma {:induction false} DistinctExact(names: seq<string>)
    ensures Distinct(names) <==> forall i, j :: 0 <= i < j < |names| ==> names[i] != names[j]
  {
    if names != [] {
      DistinctExact(names[1..]);
      if Distinct(names) {
        forall i, j | 0 <= i < j < |names|
          ensures names[i] != names[j]
        {
          assert names[1..][j - 1] == names[j];
          assert i == 0 || names[1..][i - 1] == names[i];
        }
      } else if names[0] in names[1..] {
        var j :| 0 <= j < |names[1..]| && names[1..][j] == names[0];
        assert names[j + 1] == names[0];
      } else {
        var i, j :| 0 <= i < j < |names[1..]| && names[1..][i] == names[1..][j];
        assert names[i + 1] == names[j + 1];
      }
    }
  }

  lemma {:induction false} DistinctAppend(names: seq<string>, more: seq<string>)
    ensures Distinct(names + more) <==> Distinct(names) && Distinct(more) && forall s :: s in names ==> s !in more
  {
    if names == [] {
      assert names + more == more;
    } else {
      assert (names + more)[1..] == names[1..] + more;
      DistinctAppend(names[1..], more);
    }
  }

  function References(paths: seq<QualifiedName>, depth: nat): (refs: seq<string>)
    ensures |refs| == |paths|
  {
    if paths == [] then [] else [ReferenceAt(paths[0], depth)] + References(paths[1..], depth)
  }

  lemma {:induction false} ReferencesIndex(paths: seq<QualifiedName>, depth: nat, i: nat)
    requires i < |paths|
    ensures References(paths, depth)[i] == ReferenceAt(paths[i], depth)
  {
    if i > 0 {
      ReferencesIndex(paths[1..], depth, i - 1);
    }
  }

  /** The references at this depth are pairwise different. */
  predicate Separates(paths: seq<QualifiedName>, depth: nat)
  {
    Distinct(References(paths, depth))
  }

  lemma SeparatedReferences(paths: seq<QualifiedName>, depth: nat)
    ensures Separates(paths, depth) <==>
            forall i, j :: 0 <= i < j < |paths| ==> ReferenceAt(paths[i], depth) != ReferenceAt(paths[j], depth)
  {
    var refs := References(paths, depth);
    DistinctExact(refs);
    forall i | 0 <= i < |paths|
      ensures refs[i] == ReferenceAt(paths[i], depth)
    {
      ReferencesIndex(paths, depth, i);
    }
  }

  /** The longest namespace any of the paths has. */
  function MaxDepth(paths: seq<QualifiedName>): (depth: nat)
  {
    if paths == [] then 0 else
    var depth := MaxDepth(paths[1..]);
    if |paths[0].namespace| > depth then |paths[0].namespace| else depth
  }

  lemma {:induction false} MaxDepthCovers(paths: seq<QualifiedName>, i: nat)
    requires i < |paths|
    ensures |paths[i].namespace| <= MaxDepth(paths)
  {
    if i > 0 {
      MaxDepthCovers(paths[1..], i - 1);
    }
  }

  /** The first number from `from` on that is good, or `bound` when none before it is. */
  function FirstGood(good: nat -> bool, from: nat, bound: nat): (d: nat)
    ensures d >= from && (good(d) || bound <= d)
    ensures forall k :: from <= k < d ==> !good(k)
    decreases bound - from
  {
    if good(from) || from >= bound then from else FirstGood(good, from + 1, bound)
  }

  function Separating(paths: seq<QualifiedName>): (good: nat -> bool)
  {
    (depth: nat) => Separates(paths, depth)
  }

  lemma SeparatingIsSeparates(paths: seq<QualifiedName>, depth: nat)
    ensures Separating(paths)(depth) == Separates(paths, depth)
  {
  }

  /**
   A single path needs no namespace; several get the first depth from one component on that separates them,
   or that covers them all.
   */
  function GroupDepth(paths: seq<QualifiedName>): (d: nat)
  {
    if |paths| == 1 then 0 else FirstGood(Separating(paths), 1, MaxDepth(paths))
  }

  function ResolvedNames(paths: seq<QualifiedName>, depth: nat): (names: seq<QualifiedName>)
    ensures |names| == |paths|
  {
    if paths == [] then [] else [AtDepth(paths[0], depth)] + ResolvedNames(paths[1..], depth)
  }

  lemma {:induction false} ResolvedNamesIndex(paths: seq<QualifiedName>, depth: nat, i: nat)
    requires i < |paths|
    ensures ResolvedNames(paths, depth)[i] == AtDepth(paths[i], depth)
  {
    if i > 0 {
      ResolvedNamesIndex(paths[1..], depth, i - 1);
    }
  }

  // ---- the same in terms of the ends of namespaces ----

  ghost predicate AllDotFree(paths: seq<QualifiedName>)
  {
    forall i :: 0 <= i < |paths| ==> DotFree(paths[i])
  }

  /** The name is the path with only the last `depth` components of its namespace, or all when there are fewer. */
  ghost predicate IsShortened(path: QualifiedName, name: QualifiedName, depth: nat)
  {
    && name.typeName == path.typeName
    && |name.namespace| == (if depth < |path.namespace| then depth else |path.namespace|)
    && name.namespace == path.namespace[|path.namespace| - |name.namespace|..]
  }

  /** The paths end in the same type name, and in the same last `depth` components of their namespaces. */
  ghost predicate EndAlike(path: QualifiedName, other: QualifiedName, depth: nat)
  {
    var n, m := |path.namespace|, |other.namespace|;
    && path.typeName == other.typeName
    && path.namespace[if depth < n then n - depth else 0..] == other.namespace[if depth < m then m - depth else 0..]
  }

  ghost predicate TellsApart(paths: seq<QualifiedName>, depth: nat)
  {
    forall i, j :: 0 <= i < j < |paths| ==> !EndAlike(paths[i], paths[j], depth)
  }

  /** None for a single path; else the least from one on that tells the paths apart, or that covers them all. */
  ghost predicate IsShortestDepth(paths: seq<QualifiedName>, depth: nat)
  {
    if |paths| == 1 then depth == 0 else
    && depth >= 1
    && (forall k :: 1 <= k < depth ==> !TellsApart(paths, k))
    && (TellsApart(paths, depth) || forall i :: 0 <= i < |paths| ==> |paths[i].namespace| <= depth)
  }

  lemma AtDepthIsShortened(path: QualifiedName, depth: nat)
    ensures IsShortened(path, AtDepth(path, depth), depth)
  {
  }

  lemma SameEnds(path: QualifiedName, other: QualifiedName, depth: nat)
    ensures AtDepth(path, depth) == AtDepth(other, depth) <==> EndAlike(path, other, depth)
  {
  }

  lemma SeparatesIsTellsApart(paths: seq<QualifiedName>, depth: nat)
    requires AllDotFree(paths)
    ensures Separates(paths, depth) <==> TellsApart(paths, depth)
  {
    SeparatedReferences(paths, depth);
    forall i, j | 0 <= i < j < |paths|
      ensures ReferenceAt(paths[i], depth) == ReferenceAt(paths[j], depth) <==> EndAlike(paths[i], paths[j], depth)
    {
      SameReference(paths[i], paths[j], depth);
      SameEnds(paths[i], paths[j], depth);
    }
  }

  lemma GroupDepthIsShortest(paths: seq<QualifiedName>)
    requires AllDotFree(paths)
    ensures IsShortestDepth(paths, GroupDepth(paths))
  {
    var d := GroupDepth(paths);
    if |paths| != 1 {
      forall k: nat | 1 <= k <= d
        ensures Separating(paths)(k) <==> TellsApart(paths, k)
      {
        SeparatingIsSeparates(paths, k);
        SeparatesIsTellsApart(paths, k);
      }
      forall i | 0 <= i < |paths|
        ensures |paths[i].namespace| <= MaxDepth(paths)
      {
        MaxDepthCovers(paths, i);
      }
    }
  }

  lemma {:induction false} ResolvedAreShortened(paths: seq<QualifiedName>, depth: nat)
    ensures forall i :: 0 <= i < |paths| ==> IsShortened(paths[i], ResolvedNames(paths, depth)[i], depth)
  {
    forall i | 0 <= i < |paths|
      ensures IsShortened(paths[i], ResolvedNames(paths, depth)[i], depth)
    {
      ResolvedNamesIndex(paths, depth, i);
      AtDepthIsShortened(paths[i], depth);
    }
  }

  // ---- the search ----

  lemma {:induction false} CollisionSpreads(refs: seq<string>, i: nat)
    requires i < |refs|
    ensures Distinct(refs[..i + 1]) <==> Distinct(refs[..i]) && refs[i] !in refs[..i]
    ensures Distinct(refs) ==> Distinct(refs[..i + 1])
  {
    assert refs[..i + 1] == refs[..i] + [refs[i]];
    DistinctAppend(refs[..i], [refs[i]]);
    assert refs == refs[..i + 1] + refs[i + 1..];
    DistinctAppend(refs[..i + 1], refs[i + 1..]);
  }

  /** One round of the search: resolve every path at this depth until two references collide. */
  method TryDepth(paths: seq<QualifiedName>, depth: nat) returns (collision: bool, names: seq<QualifiedName>)
    ensures collision <==> !Separates(paths, depth)
    ensures AllDotFree(paths) ==> (collision <==> !TellsApart(paths, depth))
    ensures !collision ==> names == ResolvedNames(paths, depth)
    ensures !collision ==> forall i :: 0 <= i < |paths| ==> IsShortened(paths[i], names[i], depth)
  {
    collision, names := ResolveAt(paths, depth);
    ResolvedAreShortened(paths, depth);
    if AllDotFree(paths) {
      SeparatesIsTellsApart(paths, depth);
    }
  }

  method ResolveAt(paths: seq<QualifiedName>, depth: nat) returns (collision: bool, names: seq<QualifiedName>)
    ensures collision <==> !Separates(paths, depth)
    ensures !collision ==> names == ResolvedNames(paths, depth)
  {
    ghost var refs := References(paths, depth);
    ghost var all := ResolvedNames(paths, depth);
    names := [];
    var seen: set<string> := {};
    for i := 0 to |paths|
      invariant names == all[..i]
      invariant seen == set s | s in refs[..i]
      invariant Distinct(refs[..i])
    {
      var name := AtDepth(paths[i], depth);
      var key := Reference(name);
      ReferencesIndex(paths, depth, i);
      ResolvedNamesIndex(paths, depth, i);
      CollisionSpreads(refs, i);
      if key in seen {
        return true, names;
      }
      seen := seen + {key};
      names := names + [name];
    }
    assert refs[..|paths|] == refs && all[..|paths|] == all;
    collision := false;
  }

  lemma {:induction false} WholeNamesAreResolved(paths: seq<QualifiedName>, depth: nat)
    requires MaxDepth(paths) <= depth
    ensures ResolvedNames(paths, depth) == paths
  {
    if paths != [] {
      WholeNamesAreResolved(paths[1..], depth);
    }
  }

  /** Every name is its path cut to one depth; with dot-free components that depth is the shortest. */
  method FindShortestUniqueNamespaces(paths: seq<QualifiedName>) returns (names: seq<QualifiedName>)
    ensures names == ResolvedNames(paths, GroupDepth(paths))
    ensures forall i :: 0 <= i < |paths| ==> IsShortened(paths[i], names[i], GroupDepth(paths))
    ensures AllDotFree(paths) ==> IsShortestDepth(paths, GroupDepth(paths))
  {
    names := SearchNamespaces(paths);
    ResolvedAreShortened(paths, GroupDepth(paths));
    if AllDotFree(paths) {
      GroupDepthIsShortest(paths);
    }
  }

  method SearchNamespaces(paths: seq<QualifiedName>) returns (names: seq<QualifiedName>)
    ensures names == ResolvedNames(paths, GroupDepth(paths))
  {
    if |paths| == 1 {
      names := [QualifiedName([], paths[0].typeName)];
      assert AtDepth(paths[0], 0) == names[0];
      return;
    }
    ghost var good := Separating(paths);
    var suffixLen := 1;
    while true
      invariant suffixLen >= 1
      invariant GroupDepth(paths) == FirstGood(good, suffixLen, MaxDepth(paths))
      decreases MaxDepth(paths) - suffixLen
    {
      var collision;
      collision, names := TryDepth(paths, suffixLen);
      SeparatingIsSeparates(paths, suffixLen);
      if !collision {
        return;
      }
      suffixLen := suffixLen + 1;
      if suffixLen > MaxDepth(paths) {
        WholeNamesAreResolved(paths, suffixLen - 1);
        return paths;
      }
    }
  }

  // ---- what the chosen depth achieves ----

  /** Within a group, two definitions share a reference exactly when their stripped paths are equal. */
  lemma GroupReferencesExact(paths: seq<QualifiedName>, i: nat, j: nat)
    requires AllDotFree(paths) && i < |paths| && j < |paths|
    ensures ReferenceAt(paths[i], GroupDepth(paths)) == ReferenceAt(paths[j], GroupDepth(paths)) <==>
            paths[i] == paths[j]
  {
    if |paths| > 1 {
      var d := GroupDepth(paths);
      SeparatingIsSeparates(paths, d);
      if d >= MaxDepth(paths) {
        MaxDepthCovers(paths, i);
        MaxDepthCovers(paths, j);
        SameReference(paths[i], paths[j], d);
      } else if paths[i] != paths[j] {
        SeparatedReferences(paths, d);
      }
    }
  }

  /** Without duplicates, the chosen depth is the least one that separates a group of equal type names. */
  lemma GroupDepthIsLeast(paths: seq<QualifiedName>)
    requires |paths| >= 1 && AllDotFree(paths)
    requires forall i, j :: 0 <= i < j < |paths| ==> paths[i].typeName == paths[j].typeName && paths[i] != paths[j]
    ensures Separates(paths, GroupDepth(paths)) && TellsApart(paths, GroupDepth(paths))
    ensures forall k :: 0 <= k < GroupDepth(paths) ==> !Separates(paths, k) && !TellsApart(paths, k)
  {
    var d := GroupDepth(paths);
    forall i, j | 0 <= i < j < |paths|
      ensures ReferenceAt(paths[i], d) != ReferenceAt(paths[j], d)
    {
      GroupReferencesExact(paths, i, j);
    }
    SeparatedReferences(paths, d);
    SeparatesIsTellsApart(paths, d);
    forall k | 0 <= k < d
      ensures !Separates(paths, k) && !TellsApart(paths, k)
    {
      SeparatesIsTellsApart(paths, k);
      if k == 0 {
        assert AtDepth(paths[0], 0) == AtDepth(paths[1], 0);
        SeparatedReferences(paths, 0);
      } else {
        SeparatingIsSeparates(paths, k);
      }
    }
  }
}

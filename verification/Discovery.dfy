/** Finding a process's cgroup directory: matching cgroup2 mounts, deepest root first, tried in turn. */
module Discovery {
  import opened Wrappers
  import opened Text
  import opened Traversal
  import opened Paths

  /** A line of `/proc/<pid>/cgroup`. */
  datatype Membership = Membership(hierarchy: nat, controllers: seq<string>, pathname: string)

  /** A line of `/proc/<pid>/mountinfo`. */
  datatype Mount = Mount(fsType: string, root: string, mountPoint: string, readOnly: bool)

  datatype Candidate = Candidate(path: seq<Component>, mountPoint: seq<Component>, readOnly: bool)

  /** A mount that exposes the cgroup, with the sort key and the candidate made from it. */
  datatype Match = Match(depth: nat, mount: Mount, candidate: Candidate)

  datatype PathError = UnifiedHierarchyNotFound | UnifiedMountNotFound | DeletedCgroup(path: string)

  // ---------- candidates ----------

  /** The first membership in the unified hierarchy. */
  function FindUnified(entries: seq<Membership>): (r: Option<Membership>)
    ensures r.None? <==> forall entry <- entries :: entry.hierarchy != 0 || entry.controllers != []
    ensures r.Some? ==>
              exists i :: 0 <= i < |entries| && entries[i] == r.value
                && entries[i].hierarchy == 0 && entries[i].controllers == []
                && forall j :: 0 <= j < i ==> entries[j].hierarchy != 0 || entries[j].controllers != []
  {
    if entries == [] then None
    else if entries[0].hierarchy == 0 && entries[0].controllers == [] then Some(entries[0])
    else
      var rest := FindUnified(entries[1..]);
      assert forall i :: 0 < i < |entries| ==> entries[i] == entries[1..][i - 1];
      assert forall i :: 0 <= i < |entries| - 1 ==> entries[1..][i] == entries[i + 1];
      rest
  }

  predicate Exposes(mount: Mount, cgroup: seq<Component>) {
    mount.fsType == "cgroup2" && Components(mount.root) <= cgroup
  }

  function ToMatch(mount: Mount, cgroup: seq<Component>): Option<Match> {
    if mount.fsType != "cgroup2" then None
    else
      match StripPrefix(cgroup, Components(mount.root))
      case None => None
      case Some(relative) =>
        var mountPoint := Components(mount.mountPoint);
        Some(Match(|Components(mount.root)|, mount, Candidate(JoinPaths(mountPoint, relative), mountPoint, mount.readOnly)))
  }

  function Matching(mounts: seq<Mount>, cgroup: seq<Component>): seq<Match> {
    if mounts == [] then []
    else
      match ToMatch(mounts[0], cgroup)
      case None => Matching(mounts[1..], cgroup)
      case Some(found) => [found] + Matching(mounts[1..], cgroup)
  }

  function Insert(item: Match, sorted: seq<Match>): seq<Match> {
    if sorted == [] || sorted[0].depth <= item.depth then [item] + sorted
    else [sorted[0]] + Insert(item, sorted[1..])
  }

  /** A stable sort by descending depth; `StableSortIsUnique` makes it stand for any of them. */
  function SortByDepth(matches: seq<Match>): seq<Match> {
    if matches == [] then [] else Insert(matches[0], SortByDepth(matches[1..]))
  }

  function Ranked(mounts: seq<Mount>, cgroup: seq<Component>): seq<Match> {
    SortByDepth(Matching(mounts, cgroup))
  }

  function CandidatesOf(matches: seq<Match>): seq<Candidate> {
    seq(|matches|, i requires 0 <= i < |matches| => matches[i].candidate)
  }

  /** The components of the membership's path, unless the kernel marked it as deleted. */
  function Cgroup(entries: seq<Membership>): (r: Result<seq<Component>, PathError>)
    ensures r == Err(UnifiedHierarchyNotFound) <==> FindUnified(entries).None?
    ensures forall path: string :: r == Err(DeletedCgroup(path)) <==>
              FindUnified(entries).Some? && FindUnified(entries).value.pathname == path + " (deleted)"
    ensures r.Ok? <==>
              && FindUnified(entries).Some?
              && forall path: string :: FindUnified(entries).value.pathname != path + " (deleted)"
    ensures r.Ok? ==> r == Ok(Components(FindUnified(entries).value.pathname))
  {
    match FindUnified(entries)
    case None => Err(UnifiedHierarchyNotFound)
    case Some(membership) =>
      match StripSuffix(membership.pathname, " (deleted)")
      case Some(path) => Err(DeletedCgroup(path))
      case None => Ok(Components(membership.pathname))
  }

  function Candidates(entries: seq<Membership>, mounts: seq<Mount>): Result<seq<Candidate>, PathError> {
    var cgroup :- Cgroup(entries);
    var ranked := Ranked(mounts, cgroup);
    if ranked == [] then Err(UnifiedMountNotFound) else Ok(CandidatesOf(ranked))
  }

  // ---------- the sort ----------

  predicate Descends(matches: seq<Match>) {
    forall i, j :: 0 <= i < j < |matches| ==> matches[i].depth >= matches[j].depth
  }

  /** The elements of one depth, in the order they have. */
  function OfDepth(matches: seq<Match>, depth: nat): seq<Match> {
    if matches == [] then []
    else (if matches[0].depth == depth then [matches[0]] else []) + OfDepth(matches[1..], depth)
  }

  lemma {:induction false} InsertPermutes(item: Match, sorted: seq<Match>)
    ensures multiset(Insert(item, sorted)) == multiset{item} + multiset(sorted)
  {
    if sorted != [] && sorted[0].depth > item.depth {
      InsertPermutes(item, sorted[1..]);
      assert sorted == [sorted[0]] + sorted[1..];
    }
  }

  lemma {:induction false} InsertDescends(item: Match, sorted: seq<Match>)
    requires Descends(sorted)
    ensures Descends(Insert(item, sorted))
  {
    if sorted != [] && sorted[0].depth > item.depth {
      var rest := Insert(item, sorted[1..]);
      InsertDescends(item, sorted[1..]);
      InsertPermutes(item, sorted[1..]);
      forall i | 0 <= i < |rest| ensures rest[i].depth <= sorted[0].depth {
        assert rest[i] in multiset(rest);
        assert rest[i] == item || rest[i] in sorted[1..];
      }
    }
  }

  lemma {:induction false} InsertIsStable(item: Match, sorted: seq<Match>, depth: nat)
    ensures OfDepth(Insert(item, sorted), depth) == OfDepth([item] + sorted, depth)
  {
    if sorted != [] && sorted[0].depth > item.depth {
      var rest := sorted[1..];
      InsertIsStable(item, rest, depth);
      assert ([item] + rest)[1..] == rest && ([item] + sorted)[1..] == sorted;
      assert Insert(item, sorted)[1..] == Insert(item, rest);
    }
  }

  /** The sort is a permutation, deepest first, that keeps the order of mounts of equal depth. */
  lemma {:induction false} SortIsStable(matches: seq<Match>, depth: nat)
    ensures Descends(SortByDepth(matches))
    ensures multiset(SortByDepth(matches)) == multiset(matches)
    ensures OfDepth(SortByDepth(matches), depth) == OfDepth(matches, depth)
  {
    if matches != [] {
      SortIsStable(matches[1..], depth);
      InsertPermutes(matches[0], SortByDepth(matches[1..]));
      InsertDescends(matches[0], SortByDepth(matches[1..]));
      InsertIsStable(matches[0], SortByDepth(matches[1..]), depth);
      assert matches == [matches[0]] + matches[1..];
      assert ([matches[0]] + SortByDepth(matches[1..]))[1..] == SortByDepth(matches[1..]);
    }
  }

  lemma {:induction false} DepthIsPresent(matches: seq<Match>, depth: nat)
    ensures OfDepth(matches, depth) != [] <==> exists i :: 0 <= i < |matches| && matches[i].depth == depth
  {
    if matches != [] {
      DepthIsPresent(matches[1..], depth);
      assert forall i :: 0 < i < |matches| ==> matches[i] == matches[1..][i - 1];
    }
  }

  lemma SameFirst(one: seq<Match>, other: seq<Match>)
    requires one != [] && Descends(one) && Descends(other)
    requires OfDepth(one, one[0].depth) == OfDepth(other, one[0].depth)
    requires other != [] ==> OfDepth(one, other[0].depth) == OfDepth(other, other[0].depth)
    ensures other != [] && one[0] == other[0]
  {
    var depth := one[0].depth;
    assert OfDepth(one, depth)[0] == one[0];
    DepthIsPresent(other, depth);
    DepthIsPresent(one, other[0].depth);
    assert other[0].depth == depth;
  }

  /** Sorted by depth and stable leaves no choice: the result does not depend on the algorithm. */
  lemma {:induction false} StableSortIsUnique(one: seq<Match>, other: seq<Match>)
    requires Descends(one) && Descends(other)
    requires forall depth: nat :: OfDepth(one, depth) == OfDepth(other, depth)
    ensures one == other
  {
    if one != [] {
      SameFirst(one, other);
      forall depth: nat ensures OfDepth(one[1..], depth) == OfDepth(other[1..], depth) {
        var here := if one[0].depth == depth then 1 else 0;
        assert OfDepth(one[1..], depth) == OfDepth(one, depth)[here..];
        assert OfDepth(other[1..], depth) == OfDepth(other, depth)[here..];
      }
      StableSortIsUnique(one[1..], other[1..]);
      assert one == [one[0]] + one[1..] && other == [other[0]] + other[1..];
    } else if other != [] {
      SameFirst(other, one);
    }
  }

  // ---------- what the candidates are ----------

  lemma {:induction false} MatchingExact(mounts: seq<Mount>, cgroup: seq<Component>, found: Match)
    ensures found in Matching(mounts, cgroup) <==>
            exists mount :: mount in mounts && ToMatch(mount, cgroup) == Some(found)
  {
    if mounts != [] {
      MatchingExact(mounts[1..], cgroup, found);
      assert forall mount :: mount in mounts <==> mount == mounts[0] || mount in mounts[1..];
    }
  }

  lemma RankedMatch(mounts: seq<Mount>, cgroup: seq<Component>, i: nat)
    requires i < |Ranked(mounts, cgroup)|
    ensures var found := Ranked(mounts, cgroup)[i];
            && found.mount in mounts && Exposes(found.mount, cgroup)
            && ToMatch(found.mount, cgroup) == Some(found)
  {
    var matches := Matching(mounts, cgroup);
    var found := Ranked(mounts, cgroup)[i];
    SortIsStable(matches, 0);
    assert found in multiset(Ranked(mounts, cgroup));
    MatchingExact(mounts, cgroup, found);
  }

  /**
   Every candidate denotes the process's own cgroup: its mount's root followed by what lies
   below the mount point is the membership path, and the candidate is the mount point
   followed by the same. The kernel writes both paths from the root.
   */
  lemma CandidateDenotesTheCgroup(mounts: seq<Mount>, pathname: string, i: nat)
    requires i < |Ranked(mounts, Components(pathname))|
    requires var found := Ranked(mounts, Components(pathname))[i];
             IsAbsolute(pathname) && IsAbsolute(found.mount.root)
    ensures var found := Ranked(mounts, Components(pathname))[i];
            exists below: seq<Component> ::
              && Components(found.mount.root) + below == Components(pathname)
              && found.candidate.path == Components(found.mount.mountPoint) + below
              && found.candidate.mountPoint == Components(found.mount.mountPoint)
              && found.candidate.readOnly == found.mount.readOnly
              && found.depth == |Components(found.mount.root)|
  {
    var cgroup := Components(pathname);
    RankedMatch(mounts, cgroup, i);
    var found := Ranked(mounts, cgroup)[i];
    var below := StripPrefix(cgroup, Components(found.mount.root)).value;
    BelowIsPlain(pathname, found.mount.root, below);
  }

  /** A mount that shows the cgroup, with a root of this length. */
  function IsShownAt(cgroup: seq<Component>, depth: nat): Mount -> bool {
    (mount: Mount) => Exposes(mount, cgroup) && |Components(mount.root)| == depth
  }

  function MountsOf(matches: seq<Match>): seq<Mount> {
    if matches == [] then [] else [matches[0].mount] + MountsOf(matches[1..])
  }

  /** Among mounts whose roots are equally long, the candidates are in the order of the file. */
  lemma RankedInFileOrder(mounts: seq<Mount>, cgroup: seq<Component>, depth: nat)
    ensures MountsOf(OfDepth(Ranked(mounts, cgroup), depth)) == Filter(mounts, IsShownAt(cgroup, depth))
  {
    SortIsStable(Matching(mounts, cgroup), depth);
    MatchingInFileOrder(mounts, cgroup, depth);
  }

  lemma ToMatchExact(mount: Mount, cgroup: seq<Component>)
    ensures ToMatch(mount, cgroup).Some? <==> Exposes(mount, cgroup)
    ensures ToMatch(mount, cgroup).Some? ==>
              var found := ToMatch(mount, cgroup).value;
              found.mount == mount && found.depth == |Components(mount.root)|
  {
  }

  lemma OfDepthFirst(found: Match, rest: seq<Match>, depth: nat)
    ensures MountsOf(OfDepth([found] + rest, depth)) ==
            if found.depth == depth then [found.mount] + MountsOf(OfDepth(rest, depth)) else MountsOf(OfDepth(rest, depth))
  {
    assert ([found] + rest)[1..] == rest;
    var others := OfDepth(rest, depth);
    assert ([found] + others)[1..] == others && [] + others == others;
  }

  lemma {:induction false} MatchingInFileOrder(mounts: seq<Mount>, cgroup: seq<Component>, depth: nat)
    ensures MountsOf(OfDepth(Matching(mounts, cgroup), depth)) == Filter(mounts, IsShownAt(cgroup, depth))
  {
    if mounts != [] {
      MatchingInFileOrder(mounts[1..], cgroup, depth);
      ToMatchExact(mounts[0], cgroup);
      var found := ToMatch(mounts[0], cgroup);
      if found.Some? {
        OfDepthFirst(found.value, Matching(mounts[1..], cgroup), depth);
      }
    }
  }

  /** The candidates come from exactly the matching mounts, each as often as it is mounted. */
  lemma CandidatesAreTheMatchingMounts(mounts: seq<Mount>, cgroup: seq<Component>)
    ensures multiset(Ranked(mounts, cgroup)) == multiset(Matching(mounts, cgroup))
    ensures forall mount <- mounts :: Exposes(mount, cgroup) ==>
              exists found <- Ranked(mounts, cgroup) :: found.mount == mount
    ensures Ranked(mounts, cgroup) == [] <==> forall mount <- mounts :: !Exposes(mount, cgroup)
  {
    var matches := Matching(mounts, cgroup);
    SortIsStable(matches, 0);
    forall mount <- mounts | Exposes(mount, cgroup)
      ensures exists found <- Ranked(mounts, cgroup) :: found.mount == mount
    {
      var found := ToMatch(mount, cgroup).value;
      MatchingExact(mounts, cgroup, found);
      assert found in multiset(Ranked(mounts, cgroup));
      assert found.mount == mount;
    }
    if Ranked(mounts, cgroup) != [] {
      RankedMatch(mounts, cgroup, 0);
    }
  }

  /** Each later root is a prefix of each earlier one, so mounts of equal depth share their root. */
  lemma RootsAreNested(mounts: seq<Mount>, cgroup: seq<Component>, i: nat, j: nat)
    requires i < j < |Ranked(mounts, cgroup)|
    ensures var earlier := Components(Ranked(mounts, cgroup)[i].mount.root);
            var later := Components(Ranked(mounts, cgroup)[j].mount.root);
            later <= earlier && (|later| == |earlier| ==> later == earlier)
  {
    RankedMatch(mounts, cgroup, i);
    RankedMatch(mounts, cgroup, j);
    SortIsStable(Matching(mounts, cgroup), 0);
  }

  /** The list is that of the ranked matches, or an error exactly if no cgroup2 mount shows the cgroup. */
  lemma CandidatesExact(entries: seq<Membership>, mounts: seq<Mount>)
    requires Cgroup(entries).Ok?
    ensures Candidates(entries, mounts) == Err(UnifiedMountNotFound) <==>
            forall mount <- mounts :: mount.fsType != "cgroup2" || !(Components(mount.root) <= Cgroup(entries).value)
    ensures Candidates(entries, mounts).Err? ==> Candidates(entries, mounts) == Err(UnifiedMountNotFound)
    ensures Candidates(entries, mounts).Ok? ==>
              var ranked := Ranked(mounts, Cgroup(entries).value);
              && |Candidates(entries, mounts).value| == |ranked|
              && forall i :: 0 <= i < |ranked| ==> Candidates(entries, mounts).value[i] == ranked[i].candidate
  {
    CandidatesAreTheMatchingMounts(mounts, Cgroup(entries).value);
  }

  /** `CgroupPath::current`: the first candidate, without trying to open any. */
  function OfProcess(entries: seq<Membership>, mounts: seq<Mount>): Result<Candidate, PathError> {
    var candidates :- Candidates(entries, mounts);
    if candidates == [] then Err(UnifiedMountNotFound) else Ok(candidates[0])
  }

  /** This mount is the first in the file among those with the longest root that show the cgroup. */
  ghost predicate IsDeepestMount(mounts: seq<Mount>, cgroup: seq<Component>, i: nat) {
    && i < |mounts|
    && Exposes(mounts[i], cgroup)
    && (forall mount <- mounts :: Exposes(mount, cgroup) ==> |Components(mount.root)| <= |Components(mounts[i].root)|)
    && forall j :: 0 <= j < i && Exposes(mounts[j], cgroup) ==> |Components(mounts[j].root)| != |Components(mounts[i].root)|
  }

  lemma NoDeeperMount(mounts: seq<Mount>, cgroup: seq<Component>, mount: Mount)
    requires Ranked(mounts, cgroup) != [] && mount in mounts && Exposes(mount, cgroup)
    ensures |Components(mount.root)| <= Ranked(mounts, cgroup)[0].depth
  {
    var ranked := Ranked(mounts, cgroup);
    ToMatchExact(mount, cgroup);
    MatchingExact(mounts, cgroup, ToMatch(mount, cgroup).value);
    SortIsStable(Matching(mounts, cgroup), 0);
    assert ToMatch(mount, cgroup).value in multiset(ranked);
  }

  lemma FirstRankedMount(mounts: seq<Mount>, cgroup: seq<Component>) returns (i: nat)
    requires Ranked(mounts, cgroup) != []
    ensures IsDeepestMount(mounts, cgroup, i) && mounts[i] == Ranked(mounts, cgroup)[0].mount
  {
    var first := Ranked(mounts, cgroup)[0];
    RankedMatch(mounts, cgroup, 0);
    ToMatchExact(first.mount, cgroup);
    RankedInFileOrder(mounts, cgroup, first.depth);
    assert OfDepth(Ranked(mounts, cgroup), first.depth)[0] == first;
    i := FilterFirst(mounts, IsShownAt(cgroup, first.depth));
    forall mount <- mounts | Exposes(mount, cgroup) ensures |Components(mount.root)| <= first.depth {
      NoDeeperMount(mounts, cgroup, mount);
    }
  }

  /** It comes from the first mount in the file among those with the longest matching root. */
  lemma OfProcessIsDeepest(entries: seq<Membership>, mounts: seq<Mount>)
    requires Cgroup(entries).Ok? && OfProcess(entries, mounts).Ok?
    ensures exists i: nat ::
              && IsDeepestMount(mounts, Cgroup(entries).value, i)
              && ToMatch(mounts[i], Cgroup(entries).value).Some?
              && OfProcess(entries, mounts).value == ToMatch(mounts[i], Cgroup(entries).value).value.candidate
  {
    var cgroup := Cgroup(entries).value;
    CandidatesExact(entries, mounts);
    RankedMatch(mounts, cgroup, 0);
    var i := FirstRankedMount(mounts, cgroup);
  }

  // ---------- trying them ----------

  datatype OpenError = NotCgroupV2 | InvalidPid | Deleted(path: string) | Failed(code: int)

  /**
   Tries the candidates in order. `open(i, path)` is the outcome of the i-th attempt. The
   result is that of the first attempt that succeeds, and none is made after it; if none
   succeeds, the error is that of the first attempt, whatever the later ones were.
   */
  method OpenCandidates<T>(candidates: seq<Candidate>, open: (nat, seq<Component>) -> Result<T, OpenError>)
    returns (r: Result<T, OpenError>, attempted: seq<seq<Component>>)
    ensures |attempted| <= |candidates|
    ensures forall i :: 0 <= i < |attempted| ==> attempted[i] == candidates[i].path
    ensures forall i :: 0 <= i < |attempted| - 1 ==> open(i, attempted[i]).Err?
    ensures r.Ok? ==> attempted != [] && r == open(|attempted| - 1, attempted[|attempted| - 1])
    ensures r.Err? ==> |attempted| == |candidates| && forall i :: 0 <= i < |attempted| ==> open(i, attempted[i]).Err?
    ensures r.Err? ==> r == if candidates == [] then Err(NotCgroupV2) else open(0, candidates[0].path)
  {
    var firstError: Option<OpenError> := None;
    attempted := [];
    for n := 0 to |candidates|
      invariant |attempted| == n
      invariant forall i :: 0 <= i < n ==> attempted[i] == candidates[i].path
      invariant forall i :: 0 <= i < n ==> open(i, attempted[i]).Err?
      invariant firstError == if n == 0 then None else Some(open(0, candidates[0].path).error)
    {
      attempted := attempted + [candidates[n].path];
      match open(n, candidates[n].path) {
        case Ok(value) =>
          return Ok(value), attempted;
        case Err(error) =>
          if firstError.None? {
            firstError := Some(error);
          }
      }
    }
    r := Err(if firstError.Some? then firstError.value else NotCgroupV2);
  }

  const I32_MAX: nat := 0x7FFF_FFFF

  /** The first success among the attempts, in the order of `ranked`, is the i-th. */
  ghost predicate OpensAt<T>(ranked: seq<Match>, open: (nat, seq<Component>) -> Result<T, OpenError>,
                             r: Result<T, OpenError>, i: nat) {
    && i < |ranked|
    && r.Ok?
    && r == open(i, ranked[i].candidate.path)
    && forall j :: 0 <= j < i ==> open(j, ranked[j].candidate.path).Err?
  }

  /**
   Discovery opens the first mount, deepest root first, that can be opened; `DeepestIsTried`
   reads this off per depth. When all fail, the error is that of the deepest.
   */
  method FromPid<T>(pid: nat, entries: seq<Membership>, mounts: seq<Mount>,
                    open: (nat, seq<Component>) -> Result<T, OpenError>)
    returns (r: Result<T, OpenError>)
    ensures !(0 < pid <= 2_147_483_647) ==> r == Err(InvalidPid)
    ensures 0 < pid <= 2_147_483_647 && Cgroup(entries).Err? ==>
              r == Err(match Cgroup(entries).error
                       case DeletedCgroup(path) => Deleted(path)
                       case _ => NotCgroupV2)
    ensures 0 < pid <= 2_147_483_647 && Cgroup(entries).Ok? ==>
              var ranked := Ranked(mounts, Cgroup(entries).value);
              if r.Ok? then exists i: nat :: OpensAt(ranked, open, r, i)
              else
                && (forall i :: 0 <= i < |ranked| ==> open(i, ranked[i].candidate.path).Err?)
                && r == if ranked == [] then Err(NotCgroupV2) else open(0, ranked[0].candidate.path)
  {
    if !(0 < pid <= I32_MAX) {
      return Err(InvalidPid);
    }
    var found := Candidates(entries, mounts);
    if found.Err? {
      return Err(match found.error
                 case DeletedCgroup(path) => Deleted(path)
                 case _ => NotCgroupV2);
    }
    var attempted;
    r, attempted := OpenCandidates(found.value, open);
    ghost var ranked := Ranked(mounts, Cgroup(entries).value);
    assert forall i :: 0 <= i < |ranked| ==> found.value[i].path == ranked[i].candidate.path;
    if r.Ok? {
      assert forall j :: 0 <= j < |attempted| ==> attempted[j] == ranked[j].candidate.path;
      assert OpensAt(ranked, open, r, |attempted| - 1);
    } else {
      assert forall i :: 0 <= i < |attempted| ==> attempted[i] == ranked[i].candidate.path;
    }
  }

  /**
   If discovery settles for the i-th candidate, every mount with a longer matching root was
   tried before it and could not be opened.
   */
  lemma DeepestIsTried<T>(mounts: seq<Mount>, cgroup: seq<Component>,
                          open: (nat, seq<Component>) -> Result<T, OpenError>, r: Result<T, OpenError>, i: nat)
    requires OpensAt(Ranked(mounts, cgroup), open, r, i)
    ensures forall j :: 0 <= j < |Ranked(mounts, cgroup)| && Ranked(mounts, cgroup)[j].depth > Ranked(mounts, cgroup)[i].depth ==>
              j < i && open(j, Ranked(mounts, cgroup)[j].candidate.path).Err?
  {
    SortIsStable(Matching(mounts, cgroup), 0);
  }
}

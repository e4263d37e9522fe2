/** The greedy jare detector of `_madeNewJare`: a jare is a root piece with two
    distinct neighbouring pieces of the same player, none of the three already
    part of a jare found earlier in the same scan. Roots are visited in
    row-major order and neighbours in adjacency-table order; the first two
    free allies of a root complete its jare. */
module Jare {
  import opened Board
  import opened Pieces

  /** One jare: its root, the neighbour that completed it and the neighbour
      found first (`neighboringAlly`), in the order the three are appended to
      `piecesInJare`. */
  datatype Jare = Jare(root: Coord, second: Coord, first: Coord)

  /** `piecesInJare` once the jares js have been recorded. */
  function Marked(js: seq<Jare>): (r: seq<Coord>)
    ensures |r| == 3 * |js|
  {
    if js == [] then []
    else
      var j := js[|js| - 1];
      Marked(js[..|js| - 1]) + [j.root, j.second, j.first]
  }

  /** The scan of one root's neighbours: still looking (with the ally found so
      far, if any), or done with the two allies that complete the jare. */
  datatype Probe = Searching(ally: Option<Coord>) | Found(first: Coord, second: Coord)

  /** Visit neighbour n. A finished scan ignores the rest of the list, which
      is what the `break` does. */
  function ProbeStep(g: Grid, p: int, used: seq<Coord>, st: Probe, n: Coord): Probe {
    match st
    case Found(_, _) => st
    case Searching(ally) =>
      if n in used then st
      else if OwnedBy(g, n, p) then
        match ally
        case None => Searching(Some(n))
        case Some(a) => Found(a, n)
      else st
  }

  /** The scan over the neighbours `nbrs`, visited in order. */
  function ProbeAll(g: Grid, p: int, used: seq<Coord>, nbrs: seq<Coord>): Probe {
    if nbrs == [] then Searching(None)
    else ProbeStep(g, p, used, ProbeAll(g, p, used, nbrs[..|nbrs| - 1]), nbrs[|nbrs| - 1])
  }

  /** Examine root r after the jares js were found: a marked root is skipped;
      otherwise a completed scan records one more jare. */
  function RootStep(g: Grid, p: int, js: seq<Jare>, r: Coord): seq<Jare> {
    if r in Marked(js) then js
    else
      match ProbeAll(g, p, Marked(js), Neighbors(r))
      case Found(a, b) => js + [Jare(r, b, a)]
      case Searching(_) => js
  }

  /** The jares found by scanning the roots `roots` in order. */
  function ScanRoots(g: Grid, p: int, roots: seq<Coord>): seq<Jare> {
    if roots == [] then []
    else RootStep(g, p, ScanRoots(g, p, roots[..|roots| - 1]), roots[|roots| - 1])
  }

  /** The jares of player p that one run of the detector finds. */
  function FindJares(g: Grid, p: int): seq<Jare> {
    ScanRoots(g, p, OwnedCells(g, p))
  }

  /** `totalJare` at the end of the scan. */
  function JareCount(g: Grid, p: int): nat {
    |FindJares(g, p)|
  }

  // ------------------------------------------------------------------ facts

  predicate Distinct(s: seq<Coord>) {
    forall i, j | 0 <= i < j < |s| :: s[i] != s[j]
  }

  /** A jare as the detector defines it: three pieces of p, two of them
      distinct neighbours of the third. */
  predicate IsJare(g: Grid, p: int, j: Jare) {
    OwnedBy(g, j.root, p) && OwnedBy(g, j.first, p) && OwnedBy(g, j.second, p) &&
    j.first in Neighbors(j.root) && j.second in Neighbors(j.root) && j.first != j.second
  }

  /** What a neighbour scan has seen: an ally is a free piece of p met
      earlier, and two allies are two different free pieces of p. */
  lemma {:induction false} ProbeAllSound(g: Grid, p: int, used: seq<Coord>, nbrs: seq<Coord>)
    requires forall i, j | 0 <= i < j < |nbrs| :: nbrs[i] != nbrs[j]
    ensures ProbeAll(g, p, used, nbrs).Searching? && ProbeAll(g, p, used, nbrs).ally.Some? ==>
      var a := ProbeAll(g, p, used, nbrs).ally.value;
      a in nbrs && a !in used && OwnedBy(g, a, p)
    ensures ProbeAll(g, p, used, nbrs).Found? ==>
      var st := ProbeAll(g, p, used, nbrs);
      st.first in nbrs && st.second in nbrs && st.first != st.second &&
      st.first !in used && st.second !in used && OwnedBy(g, st.first, p) && OwnedBy(g, st.second, p)
  {
    if nbrs != [] {
      var init := nbrs[..|nbrs| - 1];
      var n := nbrs[|nbrs| - 1];
      assert nbrs == init + [n];
      ProbeAllSound(g, p, used, init);
      var before := ProbeAll(g, p, used, init);
      if before.Searching? && before.ally.Some? {
        assert before.ally.value != n;
      }
    }
  }

  /** Once a scan is done, the remaining neighbours change nothing. */
  lemma {:induction false} ProbeAllFinal(g: Grid, p: int, used: seq<Coord>, nbrs: seq<Coord>, k: nat)
    requires k <= |nbrs| && ProbeAll(g, p, used, nbrs[..k]).Found?
    ensures ProbeAll(g, p, used, nbrs) == ProbeAll(g, p, used, nbrs[..k])
    decreases |nbrs| - k
  {
    if k < |nbrs| {
      assert nbrs[..k + 1][..k] == nbrs[..k];
      ProbeAllFinal(g, p, used, nbrs, k + 1);
    } else {
      assert nbrs[..k] == nbrs;
    }
  }

  /** One step of the scan over `roots`, given the outcome of probing the
      neighbours of root i when it is not yet claimed. */
  lemma ScanRootsStep(g: Grid, p: int, roots: seq<Coord>, i: nat, probe: Probe)
    requires i < |roots|
    requires roots[i] !in Marked(ScanRoots(g, p, roots[..i])) ==>
      probe == ProbeAll(g, p, Marked(ScanRoots(g, p, roots[..i])), Neighbors(roots[i]))
    ensures ScanRoots(g, p, roots[..i + 1]) ==
      if roots[i] in Marked(ScanRoots(g, p, roots[..i])) || probe.Searching? then ScanRoots(g, p, roots[..i])
      else ScanRoots(g, p, roots[..i]) + [Jare(roots[i], probe.second, probe.first)]
  {
    assert roots[..i + 1][..i] == roots[..i];
  }

  /** Recording a jare appends its three cells to `piecesInJare`. */
  lemma MarkedAppend(js: seq<Jare>, j: Jare)
    ensures Marked(js + [j]) == Marked(js) + [j.root, j.second, j.first]
  {
    assert (js + [j])[..|js|] == js;
  }

  /** Appending three new, different cells keeps a sequence duplicate-free. */
  lemma DistinctAppend3(s: seq<Coord>, x: Coord, y: Coord, z: Coord)
    requires Distinct(s) && x !in s && y !in s && z !in s && x != y && y != z && x != z
    ensures Distinct(s + [x, y, z])
  {
    var m := s + [x, y, z];
    forall a, b | 0 <= a < b < |m|
      ensures m[a] != m[b]
    {
      if a < |s| <= b {
        assert m[a] in s;
      }
    }
  }

  /** The invariant of the scan: the recorded jares are jares of p and claim
      pairwise different cells of p on the board. */
  ghost predicate SoundScan(g: Grid, p: int, js: seq<Jare>) {
    (forall j | j in js :: IsJare(g, p, j)) &&
    Distinct(Marked(js)) &&
    (forall c | c in Marked(js) :: InBoard(c) && OwnedBy(g, c, p))
  }

  /** Examining one more root of p keeps the scan sound. */
  lemma RootStepSound(g: Grid, p: int, js: seq<Jare>, r: Coord)
    requires SoundScan(g, p, js) && InBoard(r) && OwnedBy(g, r, p)
    ensures SoundScan(g, p, RootStep(g, p, js, r))
  {
    if r !in Marked(js) {
      var st := ProbeAll(g, p, Marked(js), Neighbors(r));
      if st.Found? {
        NeighborsDistinct();
        NeighborsAreIntersections();
        ProbeAllSound(g, p, Marked(js), Neighbors(r));
        var j := Jare(r, st.second, st.first);
        MarkedAppend(js, j);
        DistinctAppend3(Marked(js), r, st.second, st.first);
        assert RootStep(g, p, js, r) == js + [j];
      }
    }
  }

  /** Every recorded jare is a jare of p, and no cell is recorded twice: each
      jare claims three distinct cells of p that no earlier jare claimed. */
  lemma {:induction false} ScanRootsSound(g: Grid, p: int, roots: seq<Coord>)
    requires forall r | r in roots :: InBoard(r) && OwnedBy(g, r, p)
    ensures forall j | j in ScanRoots(g, p, roots) :: IsJare(g, p, j)
    ensures Distinct(Marked(ScanRoots(g, p, roots)))
    ensures forall c | c in Marked(ScanRoots(g, p, roots)) :: InBoard(c) && OwnedBy(g, c, p)
  {
    if roots != [] {
      var init := roots[..|roots| - 1];
      var r := roots[|roots| - 1];
      assert roots == init + [r];
      ScanRootsSound(g, p, init);
      RootStepSound(g, p, ScanRoots(g, p, init), r);
    }
  }

  /** A sequence without repeats has as many elements as its set. */
  lemma {:induction false} DistinctSetSize(s: seq<Coord>)
    requires Distinct(s)
    ensures |set c | c in s| == |s|
  {
    if s != [] {
      var init := s[..|s| - 1];
      assert s == init + [s[|s| - 1]];
      DistinctSetSize(init);
      assert (set c | c in s) == (set c | c in init) + {s[|s| - 1]};
    }
  }

  /** A subset is no larger than its superset. */
  lemma {:induction false} SubsetSize(a: set<Coord>, b: set<Coord>)
    requires a <= b
    ensures |a| <= |b|
    decreases a
  {
    if a != {} {
      var x :| x in a;
      SubsetSize(a - {x}, b - {x});
    }
  }

  /** Each jare uses three of p's pieces and no piece serves two jares, so p
      holds at least three pieces per jare. */
  lemma JareBound(g: Grid, p: int)
    ensures 3 * JareCount(g, p) <= Count(g, p)
  {
    var cells := OwnedCells(g, p);
    var m := Marked(FindJares(g, p));
    OwnedUpToSpec(g, p, CellCount);
    ScanRootsSound(g, p, cells);
    OwnedCellsDistinct(g, p);
    DistinctSetSize(m);
    DistinctSetSize(cells);
    IndexBijection();
    forall c | c in m
      ensures c in cells
    {
      assert InBoard(c) && OwnedBy(g, c, p);
      assert IndexOf(c) < CellCount;
    }
    SubsetSize(set c | c in m, set c | c in cells);
  }

  /** The jares of a longer scan extend those of any of its prefixes. */
  lemma {:induction false} ScanRootsExtends(g: Grid, p: int, roots: seq<Coord>, k: nat)
    requires k <= |roots|
    ensures ScanRoots(g, p, roots[..k]) <= ScanRoots(g, p, roots)
    decreases |roots| - k
  {
    if k < |roots| {
      var a, b, c := ScanRoots(g, p, roots[..k]), ScanRoots(g, p, roots[..k + 1]), ScanRoots(g, p, roots);
      ScanRootsExtends(g, p, roots, k + 1);
      assert a <= b by {
        assert roots[..k + 1][..k] == roots[..k];
      }
      assert b <= c;
      assert c[..|a|] == b[..|a|];
    } else {
      assert roots[..k] == roots;
    }
  }

  /** Scanned first, the root (0, 0) with pieces of p at (0, 3) and (3, 0)
      completes a jare. */
  lemma CornerRootStep(g: Grid, p: int)
    requires OwnedBy(g, (0, 3), p) && OwnedBy(g, (3, 0), p)
    ensures ScanRoots(g, p, [(0, 0)]) == [Jare((0, 0), (3, 0), (0, 3))]
  {
    assert [(0, 0)][..0] == [];
    assert Marked([]) == [];
    assert [(0, 3), (3, 0)][..1] == [(0, 3)];
    assert [(0, 3)][..0] == [];
    assert ProbeAll(g, p, [], [(0, 3)]) == Searching(Some((0, 3)));
    assert ProbeAll(g, p, [], [(0, 3), (3, 0)]) == Found((0, 3), (3, 0));
    assert RootStep(g, p, [], (0, 0)) == [Jare((0, 0), (3, 0), (0, 3))];
  }

  /** A piece at (0, 0) comes first in row-major order. */
  lemma CornerFirst(g: Grid, p: int)
    requires OwnedBy(g, (0, 0), p)
    ensures |OwnedCells(g, p)| > 0 && OwnedCells(g, p)[0] == (0, 0)
  {
    var cells := OwnedCells(g, p);
    OwnedUpToSpec(g, p, CellCount);
    IndexBijection();
    assert (0, 0) in cells;
    assert InBoard(cells[0]) && IndexOf(cells[0]) >= 0;
  }

  /** The corner of the outer square counts as a jare although it is not a
      straight line: with pieces of p at (0, 0), (0, 3) and (3, 0), the scan
      starts with the root (0, 0) and records that L shape first. */
  lemma CornerIsJare(g: Grid, p: int)
    requires OwnedBy(g, (0, 0), p) && OwnedBy(g, (0, 3), p) && OwnedBy(g, (3, 0), p)
    ensures JareCount(g, p) >= 1
    ensures FindJares(g, p)[0] == Jare((0, 0), (3, 0), (0, 3))
  {
    var cells := OwnedCells(g, p);
    CornerFirst(g, p);
    ScanRootsExtends(g, p, cells, 1);
    assert cells[..1] == [(0, 0)];
    CornerRootStep(g, p);
  }
}

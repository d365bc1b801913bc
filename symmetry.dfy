/**
 * The symmetry-plan generators of src/lattice.cc: lattice::translation_plan
 * and lattice::c4_rotation_plan. Each decodes every site, moves its cell and
 * re-encodes it; the result, entry `site` holding the image site, is a
 * permutation of the sites.
 */
module Symmetry {
  import opened MixedRadix
  import opened Lattice
  import opened PlanAlgebra

  function AddVec(a: seq<int>, b: seq<int>): (c: seq<int>)
    requires |a| == |b|
    ensures |c| == |a|
  {
    seq(|a|, j requires 0 <= j < |a| => a[j] + b[j])
  }

  function Negate(d: seq<int>): (n: seq<int>)
    ensures |n| == |d|
  {
    seq(|d|, j requires 0 <= j < |d| => -d[j])
  }

  // ------------------------------------------------------------------
  // Translations.
  // ------------------------------------------------------------------

  /** Where translation by `disp` sends `site`: same sublattice, cell moved by `disp`. */
  function Translate(lat: Lattice, disp: seq<int>, site: nat): (t: nat)
    requires WellFormed(lat) && |disp| == lat.dim && site < lat.nSites
    ensures t < lat.nSites
  {
    SiteOf(lat, AddVec(CoorOf(lat, site), disp), SubOf(lat, site))
  }

  /** The table translation_plan returns. */
  function TranslationSpec(lat: Lattice, disp: seq<int>): (p: seq<nat>)
    requires WellFormed(lat) && |disp| == lat.dim
    ensures |p| == lat.nSites && forall s :: 0 <= s < lat.nSites ==> p[s] < lat.nSites
  {
    seq(lat.nSites, s requires 0 <= s < lat.nSites => Translate(lat, disp, s))
  }

  /** lattice::translation_plan. */
  method TranslationPlan(lat: Lattice, disp: seq<int>) returns (result: seq<nat>)
    requires WellFormed(lat) && |disp| == lat.dim
    ensures result == TranslationSpec(lat, disp)
    ensures IsPermutation(result, lat.nSites)
    ensures forall s :: 0 <= s < lat.nSites ==> SubOf(lat, result[s]) == SubOf(lat, s)
  {
    result := seq(lat.nSites, _ => 0);
    var temp := seq(lat.dim, _ => 0);
    for site := 0 to lat.nSites
      invariant |result| == lat.nSites && |temp| == lat.dim
      invariant forall s :: 0 <= s < site ==> result[s] == Translate(lat, disp, s)
    {
      var coor, sub := SiteToCoor(lat, site);
      for j := 0 to lat.dim
        invariant |temp| == lat.dim
        invariant forall i :: 0 <= i < j ==> temp[i] == coor[i] + disp[i]
      {
        temp := temp[j := coor[j] + disp[j]];
      }
      assert temp == AddVec(CoorOf(lat, site), disp);
      var t := CoorToSite(lat, temp, sub);
      result := result[site := t];
    }
    assert result == TranslationSpec(lat, disp);
    TranslationIsPermutation(lat, disp);
    forall s | 0 <= s < lat.nSites
      ensures SubOf(lat, result[s]) == SubOf(lat, s)
    {
      TranslateDigits(lat, disp, s);
    }
  }

  /** The translated site keeps its sublattice; its cell is the moved cell, wrapped. */
  lemma TranslateDigits(lat: Lattice, disp: seq<int>, site: nat)
    requires WellFormed(lat) && |disp| == lat.dim && site < lat.nSites
    ensures SubOf(lat, Translate(lat, disp, site)) == SubOf(lat, site)
    ensures CoorOf(lat, Translate(lat, disp, site)) == Wrap(AddVec(CoorOf(lat, site), disp), lat.L)
  {
    DigitsInRange(lat, site);
    ModOfInRange(SubOf(lat, site), lat.numSub);
    CoorRoundTrip(lat, AddVec(CoorOf(lat, site), disp), SubOf(lat, site));
  }

  /** Translating by `d` and then by `e` is translating by `d + e`. */
  lemma TranslateCompose(lat: Lattice, d: seq<int>, e: seq<int>, site: nat)
    requires WellFormed(lat) && |d| == lat.dim && |e| == lat.dim && site < lat.nSites
    ensures Translate(lat, e, Translate(lat, d, site)) == Translate(lat, AddVec(d, e), site)
  {
    var c := CoorOf(lat, site);
    var t := Translate(lat, d, site);
    TranslateDigits(lat, d, site);
    var ct := CoorOf(lat, t);
    var moved := AddVec(c, d);
    assert ct == Wrap(moved, lat.L);
    var lhs := AddVec(ct, e);
    var rhs := AddVec(c, AddVec(d, e));
    forall j | 0 <= j < lat.dim
      ensures lhs[j] % lat.L[j] == rhs[j] % lat.L[j]
    {
      assert ct[j] == moved[j] % lat.L[j] && moved[j] == c[j] + d[j];
      ModAddMod(moved[j], e[j], lat.L[j]);
      assert rhs[j] == moved[j] + e[j];
    }
    SiteOfCongruent(lat, lhs, SubOf(lat, t), rhs, SubOf(lat, site));
  }

  /** A displacement that is a multiple of every extent moves nothing. */
  lemma TranslatePeriodic(lat: Lattice, disp: seq<int>, site: nat)
    requires WellFormed(lat) && |disp| == lat.dim && site < lat.nSites
    requires forall j :: 0 <= j < lat.dim ==> disp[j] % lat.L[j] == 0
    ensures Translate(lat, disp, site) == site
  {
    var c := CoorOf(lat, site);
    var moved := AddVec(c, disp);
    forall j | 0 <= j < lat.dim
      ensures moved[j] % lat.L[j] == c[j] % lat.L[j]
    {
      DivModUnique(disp[j], lat.L[j], disp[j] / lat.L[j], 0);
      ModAddMultiple(c[j], disp[j] / lat.L[j], lat.L[j]);
    }
    SiteOfCongruent(lat, moved, SubOf(lat, site), c, SubOf(lat, site));
    SiteRoundTrip(lat, site);
  }

  /** Translating by `d` and then by `-d` is the identity. */
  lemma TranslateInverse(lat: Lattice, disp: seq<int>, site: nat)
    requires WellFormed(lat) && |disp| == lat.dim && site < lat.nSites
    ensures Translate(lat, Negate(disp), Translate(lat, disp, site)) == site
  {
    var zero := AddVec(disp, Negate(disp));
    forall j | 0 <= j < lat.dim
      ensures zero[j] % lat.L[j] == 0
    {
      assert zero[j] == 0;
    }
    TranslateCompose(lat, disp, Negate(disp), site);
    TranslatePeriodic(lat, zero, site);
  }

  /** Every translation table is a permutation of the sites. */
  lemma TranslationIsPermutation(lat: Lattice, disp: seq<int>)
    requires WellFormed(lat) && |disp| == lat.dim
    ensures IsPermutation(TranslationSpec(lat, disp), lat.nSites)
  {
    var p := TranslationSpec(lat, disp);
    forall i, j | 0 <= i < lat.nSites && 0 <= j < lat.nSites && p[i] == p[j]
      ensures i == j
    {
      TranslateInverse(lat, disp, i);
      TranslateInverse(lat, disp, j);
    }
    forall t | 0 <= t < lat.nSites
      ensures t in p
    {
      var back := Translate(lat, Negate(disp), t);
      TranslateInverse(lat, Negate(disp), t);
      assert Negate(Negate(disp)) == disp;
      assert p[back] == t;
    }
  }

  /** As per-orbital plans, the translations by `d` and by `-d` are inverse to each other. */
  lemma TranslationPlansInverse(lat: Lattice, disp: seq<int>)
    requires WellFormed(lat) && |disp| == lat.dim
    ensures IsInverse(Lift(TranslationSpec(lat, disp), lat.nSites),
                      Lift(TranslationSpec(lat, Negate(disp)), lat.nSites), 1, lat.nSites)
  {
    var n := lat.nSites;
    var p, q := TranslationSpec(lat, disp), TranslationSpec(lat, Negate(disp));
    assert Negate(Negate(disp)) == disp;
    LiftCompose(p, q, n);
    LiftCompose(q, p, n);
    forall s | 0 <= s < n
      ensures p[q[s]] == s && q[p[s]] == s
    {
      TranslateInverse(lat, disp, s);
      TranslateInverse(lat, Negate(disp), s);
    }
    var pq := seq(n, s requires 0 <= s < n => p[q[s]]);
    var qp := seq(n, s requires 0 <= s < n => q[p[s]]);
    assert Lift(pq, n)[0] == Identity(1, n)[0];
    assert Lift(qp, n)[0] == Identity(1, n)[0];
  }

  /** The unit displacement along dimension `j`. */
  function Unit(dim: nat, j: nat): (u: seq<int>)
    ensures |u| == dim
  {
    seq(dim, i requires 0 <= i < dim => if i == j then 1 else 0)
  }

  function Scale(k: int, d: seq<int>): (r: seq<int>)
    ensures |r| == |d|
  {
    seq(|d|, i requires 0 <= i < |d| => k * d[i])
  }

  /** The site reached by applying translation by `disp` `k` times. */
  function TranslateIter(lat: Lattice, disp: seq<int>, k: nat, site: nat): (t: nat)
    requires WellFormed(lat) && |disp| == lat.dim && site < lat.nSites
    ensures t < lat.nSites
  {
    if k == 0 then site else Translate(lat, disp, TranslateIter(lat, disp, k - 1, site))
  }

  /** Applying a translation `k` times is translating by `k` times the displacement. */
  lemma {:induction false} TranslateIterScale(lat: Lattice, disp: seq<int>, k: nat, site: nat)
    requires WellFormed(lat) && |disp| == lat.dim && site < lat.nSites
    ensures TranslateIter(lat, disp, k, site) == Translate(lat, Scale(k, disp), site)
  {
    if k == 0 {
      TranslatePeriodic(lat, Scale(0, disp), site);
    } else {
      TranslateIterScale(lat, disp, k - 1, site);
      TranslateCompose(lat, Scale(k - 1, disp), disp, site);
      assert AddVec(Scale(k - 1, disp), disp) == Scale(k, disp);
    }
  }

  /** Stepping `L[j]` times along dimension `j` comes back to the start. */
  lemma AroundTheTorus(lat: Lattice, j: nat, site: nat)
    requires WellFormed(lat) && j < lat.dim && site < lat.nSites
    ensures TranslateIter(lat, Unit(lat.dim, j), lat.L[j], site) == site
  {
    var u := Unit(lat.dim, j);
    TranslateIterScale(lat, u, lat.L[j], site);
    var d := Scale(lat.L[j], u);
    forall i | 0 <= i < lat.dim
      ensures d[i] % lat.L[i] == 0
    {
      if i == j {
        DivModUnique(d[i], lat.L[i], 1, 0);
      }
    }
    TranslatePeriodic(lat, d, site);
  }

  // ------------------------------------------------------------------
  // The 90-degree rotation.
  // ------------------------------------------------------------------

  /** The geometry c4_rotation_plan accepts: square extents, orthogonal basis, one sublattice. */
  predicate RotationAllowed(lat: Lattice)
  {
    && WellFormed(lat)
    && lat.dim == 2
    && lat.L[0] == lat.L[1]
    && FamilyDim(lat.family) >= 2 && Orthogonal(lat.family)
    && lat.numSub == 1
  }

  /**
   * On a lattice as the constructor builds it (one extent per family
   * dimension, one sublattice), c4_rotation_plan accepts exactly the square
   * lattices with equal extents.
   */
  lemma RotationAllowedSquare(lat: Lattice)
    requires WellFormed(lat) && lat.dim == FamilyDim(lat.family) && lat.numSub == 1
    ensures RotationAllowed(lat) <==> lat.family == Square && lat.L[0] == lat.L[1]
  {
    if FamilyDim(lat.family) >= 2 {
      OrthogonalFamilies(lat.family);
    }
  }

  /** Where the rotation sends `site`: cell (x, y) goes to (L - 1 - y, x). */
  function Rotate(lat: Lattice, site: nat): (t: nat)
    requires RotationAllowed(lat) && site < lat.nSites
    ensures t < lat.nSites
  {
    var c := CoorOf(lat, site);
    SiteOf(lat, [lat.L[1] - 1 - c[1], c[0]], SubOf(lat, site))
  }

  /** The table c4_rotation_plan returns. */
  function RotationSpec(lat: Lattice): (p: seq<nat>)
    requires RotationAllowed(lat)
    ensures |p| == lat.nSites && forall s :: 0 <= s < lat.nSites ==> p[s] < lat.nSites
  {
    seq(lat.nSites, s requires 0 <= s < lat.nSites => Rotate(lat, s))
  }

  /** lattice::c4_rotation_plan. */
  method C4RotationPlan(lat: Lattice) returns (result: seq<nat>)
    requires RotationAllowed(lat)
    ensures result == RotationSpec(lat)
    ensures IsPermutation(result, lat.nSites)
  {
    result := seq(lat.nSites, _ => 0);
    var temp := seq(lat.dim, _ => 0);
    if lat.numSub == 1 {
      for site := 0 to lat.nSites
        invariant |result| == lat.nSites && |temp| == lat.dim
        invariant forall s :: 0 <= s < site ==> result[s] == Rotate(lat, s)
      {
        var coor, sub := SiteToCoor(lat, site);
        temp := temp[0 := lat.L[1] - 1 - coor[1]];
        temp := temp[1 := coor[0]];
        assert temp == [lat.L[1] - 1 - CoorOf(lat, site)[1], CoorOf(lat, site)[0]];
        var t := CoorToSite(lat, temp, sub);
        result := result[site := t];
      }
    }
    assert result == RotationSpec(lat);
    RotationIsPermutation(lat);
  }

  /** The rotated site's cell is (L - 1 - y, x), on the same sublattice. */
  lemma RotateDigits(lat: Lattice, site: nat)
    requires RotationAllowed(lat) && site < lat.nSites
    ensures SubOf(lat, Rotate(lat, site)) == SubOf(lat, site)
    ensures CoorOf(lat, Rotate(lat, site)) ==
      [lat.L[1] - 1 - CoorOf(lat, site)[1], CoorOf(lat, site)[0]]
  {
    var c := CoorOf(lat, site);
    var moved := [lat.L[1] - 1 - c[1], c[0]];
    DigitsInRange(lat, site);
    ModOfInRange(SubOf(lat, site), lat.numSub);
    ModOfInRange(moved[0], lat.L[0]);
    ModOfInRange(moved[1], lat.L[1]);
    CoorRoundTrip(lat, moved, SubOf(lat, site));
    assert Wrap(moved, lat.L) == moved;
  }

  /** Four rotations bring every site back. */
  lemma RotateFour(lat: Lattice, site: nat)
    requires RotationAllowed(lat) && site < lat.nSites
    ensures Rotate(lat, Rotate(lat, Rotate(lat, Rotate(lat, site)))) == site
  {
    var r1 := Rotate(lat, site);
    var r2 := Rotate(lat, r1);
    var r3 := Rotate(lat, r2);
    var r4 := Rotate(lat, r3);
    RotateDigits(lat, site);
    RotateDigits(lat, r1);
    RotateDigits(lat, r2);
    RotateDigits(lat, r3);
    DigitsDetermineSite(lat, r4, site);
  }

  /** The rotation table is a permutation of the sites: three more rotations undo it. */
  lemma RotationIsPermutation(lat: Lattice)
    requires RotationAllowed(lat)
    ensures IsPermutation(RotationSpec(lat), lat.nSites)
  {
    var p := RotationSpec(lat);
    forall i, j | 0 <= i < lat.nSites && 0 <= j < lat.nSites && p[i] == p[j]
      ensures i == j
    {
      RotateFour(lat, i);
      RotateFour(lat, j);
    }
    forall t | 0 <= t < lat.nSites
      ensures t in p
    {
      var back := Rotate(lat, Rotate(lat, Rotate(lat, t)));
      RotateFour(lat, t);
      assert p[back] == t;
    }
  }

  /** As a per-orbital plan, the rotation composed with itself four times is the identity. */
  lemma RotationPlanOrderFour(lat: Lattice)
    requires RotationAllowed(lat)
    ensures var r := Lift(RotationSpec(lat), lat.nSites);
      Compose(r, Compose(r, Compose(r, r, 1, lat.nSites), 1, lat.nSites), 1, lat.nSites) ==
      Identity(1, lat.nSites)
  {
    var n := lat.nSites;
    var p := RotationSpec(lat);
    var p2 := seq(n, s requires 0 <= s < n => p[p[s]]);
    var p3 := seq(n, s requires 0 <= s < n => p[p2[s]]);
    var p4 := seq(n, s requires 0 <= s < n => p[p3[s]]);
    LiftCompose(p, p, n);
    LiftCompose(p, p2, n);
    LiftCompose(p, p3, n);
    forall s | 0 <= s < n
      ensures p4[s] == s
    {
      RotateFour(lat, s);
    }
    assert Lift(p4, n)[0] == Identity(1, n)[0];
  }

  // ------------------------------------------------------------------
  // A 4 x 2 periodic triangular lattice of 8 sites.
  // ------------------------------------------------------------------

  function Triangular4x2(): Lattice
  {
    Lattice(Triangular, 2, [4, 2], ["pbc", "pbc"], 1, 8)
  }

  /** The driver's lattice is admissible, and coor2site wraps its neighbours. */
  lemma Triangular4x2Indexing()
    ensures Admissible("triangular", [4, 2], ["pbc", "pbc"])
    ensures WellFormed(Triangular4x2())
    ensures SiteOf(Triangular4x2(), [0, 0], 0) == 0
    ensures SiteOf(Triangular4x2(), [1, 0], 0) == 1
    ensures SiteOf(Triangular4x2(), [4, 0], 0) == SiteOf(Triangular4x2(), [0, 0], 0)
    ensures SiteOf(Triangular4x2(), [4, 1], 0) == SiteOf(Triangular4x2(), [0, 1], 0)
    ensures SiteOf(Triangular4x2(), [-1, 1], 0) == 7
  {
    var tri := Triangular4x2();
    ProductTwo(tri.L);
    assert WellFormed(tri);
    assert Radices(tri) == [1, 4, 2];
    assert CellDigits(tri, [0, 0], 0) == [0, 0, 0];
    assert CellDigits(tri, [1, 0], 0) == [0, 1, 0];
    assert CellDigits(tri, [4, 0], 0) == [0, 0, 0];
    assert CellDigits(tri, [4, 1], 0) == [0, 0, 1];
    assert CellDigits(tri, [0, 1], 0) == [0, 0, 1];
    assert CellDigits(tri, [-1, 1], 0) == [0, 3, 1];
  }

  /** On the driver's lattice one step along a_1 moves site 0 to site 1, and four steps return. */
  lemma Triangular4x2Translation()
    ensures WellFormed(Triangular4x2())
    ensures Translate(Triangular4x2(), [1, 0], 0) == 1
    ensures TranslateIter(Triangular4x2(), [1, 0], 4, 0) == 0
  {
    var tri := Triangular4x2();
    Triangular4x2Indexing();
    assert Radices(tri) == [1, 4, 2];
    assert Digits(tri, 0) == [0, 0, 0];
    assert AddVec(CoorOf(tri, 0), [1, 0]) == [1, 0];
    assert Unit(2, 0) == [1, 0];
    AroundTheTorus(tri, 0, 0);
  }
}

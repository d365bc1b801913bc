/**
 * The finite periodic lattice of src/lattice.cc: construction from a family
 * name, extents and boundary tags, and the two indexing operations that map
 * (sublattice, coordinate) to a linear site number and back.
 */
module Lattice {
  import opened MixedRadix

  datatype Option<T> = None | Some(value: T)

  /** The four built-in lattice families. */
  datatype Family = Chain | Square | Triangular | Cubic

  function ParseFamily(name: string): Option<Family>
  {
    if name == "chain" then Some(Chain)
    else if name == "square" then Some(Square)
    else if name == "triangular" then Some(Triangular)
    else if name == "cubic" then Some(Cubic)
    else None
  }

  /** The number of extents a family expects. */
  function FamilyDim(f: Family): nat
  {
    match f
    case Chain => 1
    case Square => 2
    case Triangular => 2
    case Cubic => 3
  }

  /**
   * An exact number x + y * sqrt(3). Every component of the primitive vectors
   * the constructor sets (1, 0, 1/2 and sqrt(3)/2) has this form.
   */
  datatype Surd = Surd(rat: real, root3: real)

  function SurdAdd(x: Surd, y: Surd): Surd
  {
    Surd(x.rat + y.rat, x.root3 + y.root3)
  }

  function SurdMul(x: Surd, y: Surd): Surd
  {
    Surd(x.rat * y.rat + 3.0 * x.root3 * y.root3, x.rat * y.root3 + x.root3 * y.rat)
  }

  /**
   * The first two components of the primitive vectors a[0] and a[1] the
   * constructor sets, for the families that have at least two.
   */
  function FirstTwoVectors(f: Family): (ab: (seq<Surd>, seq<Surd>))
    requires FamilyDim(f) >= 2
    ensures |ab.0| == 2 && |ab.1| == 2
  {
    var zero, one := Surd(0.0, 0.0), Surd(1.0, 0.0);
    match f
    case Square => ([one, zero], [zero, one])
    case Triangular => ([one, zero], [Surd(0.5, 0.0), Surd(0.0, 0.5)])
    case Cubic => ([one, zero], [zero, one])
  }

  /** a[0][0] * a[1][0] + a[0][1] * a[1][1], the quantity c4_rotation_plan tests. */
  function BasisDot(f: Family): Surd
    requires FamilyDim(f) >= 2
  {
    var ab := FirstTwoVectors(f);
    SurdAdd(SurdMul(ab.0[0], ab.1[0]), SurdMul(ab.0[1], ab.1[1]))
  }

  /** The basis test of c4_rotation_plan, evaluated exactly instead of against a tolerance. */
  predicate Orthogonal(f: Family)
    requires FamilyDim(f) >= 2
  {
    BasisDot(f) == Surd(0.0, 0.0)
  }

  /** Square and cubic pass the basis test; the triangular dot product is 1/2. */
  lemma OrthogonalFamilies(f: Family)
    requires FamilyDim(f) >= 2
    ensures Orthogonal(f) <==> f != Triangular
    ensures f == Triangular ==> BasisDot(f) == Surd(0.5, 0.0)
  {
    var zero, one, half, halfRoot3 := Surd(0.0, 0.0), Surd(1.0, 0.0), Surd(0.5, 0.0), Surd(0.0, 0.5);
    var ab := FirstTwoVectors(f);
    if f == Triangular {
      assert ab.0[0] == one && ab.0[1] == zero && ab.1[0] == half && ab.1[1] == halfRoot3;
      assert SurdMul(one, half) == half;
      assert SurdMul(zero, halfRoot3) == zero;
    } else {
      assert ab.0[0] == one && ab.0[1] == zero && ab.1[0] == zero && ab.1[1] == one;
      assert SurdMul(one, zero) == zero;
      assert SurdMul(zero, one) == zero;
    }
  }

  /** The boundary-condition tags the constructor accepts. */
  predicate ValidTag(t: string)
  {
    t == "pbc" || t == "PBC" || t == "obc" || t == "OBC"
  }

  datatype Lattice = Lattice(
    family: Family,
    dim: nat,
    L: seq<Pos>,
    bc: seq<string>,
    numSub: Pos,
    nSites: nat)

  /**
   * What the indexer relies on: one extent per dimension, at least one
   * dimension, and Nsites the number of (sublattice, cell) combinations.
   */
  predicate WellFormed(lat: Lattice)
  {
    lat.dim == |lat.L| >= 1 && lat.nSites == lat.numSub * Product(lat.L)
  }

  datatype LatticeError =
    | SizeMismatch        // L and bc differ in length
    | UnknownFamily       // a name outside the four families
    | WrongDimension      // the family expects another number of extents
    | BadBoundary(index: nat)

  datatype Result<T> = Ok(value: T) | Err(error: LatticeError)

  /** Everything the constructor checks. */
  predicate Admissible(name: string, L: seq<Pos>, bc: seq<string>)
  {
    && |L| == |bc|
    && ParseFamily(name).Some?
    && |L| == FamilyDim(ParseFamily(name).value)
    && forall j :: 0 <= j < |bc| ==> ValidTag(bc[j])
  }

  lemma ProductTwo(L: seq<Pos>)
    requires |L| == 2
    ensures Product(L) == L[0] * L[1]
  {
    assert L[1..][1..] == [];
    assert Product(L[1..]) == L[1];
    assert Product(L) == L[1] * L[0];
  }

  lemma ProductThree(L: seq<Pos>)
    requires |L| == 3
    ensures Product(L) == L[0] * L[1] * L[2]
  {
    ProductTwo(L[1..]);
    assert Product(L) == (L[1] * L[2]) * L[0];
  }

  /** The constructor lattice::lattice. Failed assertions become errors. */
  method NewLattice(name: string, L: seq<Pos>, bc: seq<string>) returns (r: Result<Lattice>)
    ensures r.Ok? <==> Admissible(name, L, bc)
    ensures r.Ok? ==>
      && WellFormed(r.value)
      && r.value.family == ParseFamily(name).value
      && r.value.dim == |L| && r.value.L == L && r.value.bc == bc
      && r.value.numSub == 1 && r.value.nSites == Product(L)
    ensures |L| != |bc| ==> r == Err(SizeMismatch)
    ensures (&& |L| == |bc| && ParseFamily(name).None?
             && forall j :: 0 <= j < |bc| ==> ValidTag(bc[j])) ==>
      r == Err(UnknownFamily)
    ensures |L| == |bc| && ParseFamily(name).Some? && |L| != FamilyDim(ParseFamily(name).value) ==>
      r == Err(WrongDimension)
    ensures (&& |L| == |bc|
             && (ParseFamily(name).None? || |L| == FamilyDim(ParseFamily(name).value))
             && exists j :: 0 <= j < |bc| && !ValidTag(bc[j])) ==>
      r.Err? && r.error.BadBoundary?
    ensures r.Err? && r.error.BadBoundary? ==>
      && r.error.index < |bc|
      && !ValidTag(bc[r.error.index])
      && forall k :: 0 <= k < r.error.index ==> ValidTag(bc[k])
  {
    if |L| != |bc| {
      return Err(SizeMismatch);
    }
    var dim := |L|;
    var numSub: Pos := 1;
    var family := Chain;
    var nSites: nat := 0;
    var known := true;
    if name == "chain" {
      if dim != 1 { return Err(WrongDimension); }
      family := Chain;
      nSites := L[0] * numSub;
      assert L[1..] == [];
      assert Product(L) == Product(L[1..]) * L[0];
    } else if name == "square" {
      if dim != 2 { return Err(WrongDimension); }
      family := Square;
      nSites := L[0] * L[1] * numSub;
      ProductTwo(L);
    } else if name == "triangular" {
      if dim != 2 { return Err(WrongDimension); }
      family := Triangular;
      nSites := L[0] * L[1] * numSub;
      ProductTwo(L);
    } else if name == "cubic" {
      if dim != 3 { return Err(WrongDimension); }
      family := Cubic;
      nSites := L[0] * L[1] * L[2] * numSub;
      ProductThree(L);
    } else {
      // No branch matches: the tag check below still runs.
      known := false;
    }
    for j := 0 to dim
      invariant forall k :: 0 <= k < j ==> ValidTag(bc[k])
    {
      if !ValidTag(bc[j]) {
        return Err(BadBoundary(j));
      }
    }
    if !known {
      return Err(UnknownFamily);
    }
    return Ok(Lattice(family, dim, L, bc, numSub, nSites));
  }

  // ------------------------------------------------------------------
  // Specification of the indexer.
  // ------------------------------------------------------------------

  /** The radices [num_sub, L[0], ..., L[dim-1]]: the sublattice varies fastest. */
  function Radices(lat: Lattice): (r: seq<Pos>)
    requires WellFormed(lat)
    ensures |r| == lat.dim + 1 && Product(r) == lat.nSites
  {
    var r := [lat.numSub] + lat.L;
    assert r[1..] == lat.L;
    r
  }

  /** Every coordinate reduced into [0, L[j]). */
  function Wrap(coor: seq<int>, L: seq<Pos>): seq<int>
    requires |coor| == |L|
  {
    seq(|coor|, j requires 0 <= j < |coor| => coor[j] % L[j])
  }

  /** The digits coor2site encodes: the reduced sublattice, then the reduced coordinates. */
  function CellDigits(lat: Lattice, coor: seq<int>, sub: int): seq<int>
    requires WellFormed(lat) && |coor| == lat.dim
  {
    [sub % lat.numSub] + Wrap(coor, lat.L)
  }

  lemma CellDigitsInRange(lat: Lattice, coor: seq<int>, sub: int)
    requires WellFormed(lat) && |coor| == lat.dim
    ensures InRange(CellDigits(lat, coor, sub), Radices(lat))
  {
  }

  /** The site coor2site stores for (coor, sub); it is always a valid site. */
  function SiteOf(lat: Lattice, coor: seq<int>, sub: int): (site: nat)
    requires WellFormed(lat) && |coor| == lat.dim
    ensures site < lat.nSites
  {
    var d := CellDigits(lat, coor, sub);
    CellDigitsInRange(lat, coor, sub);
    EncodeBounds(d, Radices(lat));
    Encode(d, Radices(lat))
  }

  /** The digits site2coor produces: the sublattice, then the coordinates. */
  function Digits(lat: Lattice, site: nat): seq<int>
    requires WellFormed(lat)
  {
    Decode(site, Radices(lat))
  }

  function SubOf(lat: Lattice, site: nat): int
    requires WellFormed(lat)
  {
    Digits(lat, site)[0]
  }

  function CoorOf(lat: Lattice, site: nat): (coor: seq<int>)
    requires WellFormed(lat)
    ensures |coor| == lat.dim
  {
    Digits(lat, site)[1..]
  }

  // ------------------------------------------------------------------
  // The indexer itself.
  // ------------------------------------------------------------------

  /**
   * The wrap-around loops of coor2site: add the modulus while the value is
   * negative, subtract it while the value is too large.
   */
  method Reduce(x: int, n: Pos) returns (r: int)
    ensures r == x % n
  {
    r := x;
    ghost var k := 0;
    while r < 0
      invariant r == x + k * n
      decreases -r
    {
      r := r + n;
      k := k + 1;
    }
    while r >= n
      invariant 0 <= r && r == x + k * n
      decreases r
    {
      r := r - n;
      k := k - 1;
    }
    DivModUnique(x, n, -k, r);
  }

  /** lattice::coor2site: reduce everything into range, then encode. */
  method CoorToSite(lat: Lattice, coor: seq<int>, sub: int) returns (site: nat)
    requires WellFormed(lat) && |coor| == lat.dim
    ensures site == SiteOf(lat, coor, sub)
    ensures site < lat.nSites
  {
    var subTemp := Reduce(sub, lat.numSub);
    var coor2 := [subTemp];
    for j := 0 to lat.dim
      invariant |coor2| == j + 1 && coor2[0] == sub % lat.numSub
      invariant forall i :: 0 <= i < j ==> coor2[i + 1] == coor[i] % lat.L[i]
    {
      var coorTemp := Reduce(coor[j], lat.L[j]);
      coor2 := coor2 + [coorTemp];
    }
    var base := [lat.numSub] + lat.L;
    assert coor2 == CellDigits(lat, coor, sub);
    assert base == Radices(lat);
    CellDigitsInRange(lat, coor, sub);
    EncodeBounds(coor2, base);
    site := Encode(coor2, base);
  }

  /** One step of the decoding loop of site2coor. */
  lemma DecodeStep(temp: nat, L: seq<Pos>, n: nat)
    requires n + 1 < |L|
    ensures 0 <= temp % L[n] <= temp
    ensures Decode(temp, L[n..]) == [temp % L[n]] + Decode((temp - temp % L[n]) / L[n], L[n + 1..])
  {
    DivModUnique(temp - temp % L[n], L[n], temp / L[n], 0);
    assert L[n..][1..] == L[n + 1..];
  }

  /** The sublattice digit comes first; the rest decodes the quotient by num_sub. */
  lemma DecodeFirst(lat: Lattice, site: nat)
    requires WellFormed(lat)
    ensures 0 <= site % lat.numSub <= site
    ensures Digits(lat, site) == [site % lat.numSub] + Decode((site - site % lat.numSub) / lat.numSub, lat.L)
  {
    DivModUnique(site - site % lat.numSub, lat.numSub, site / lat.numSub, 0);
    assert Radices(lat)[1..] == lat.L;
  }

  /** One iteration of the site2coor loop keeps the decoded tail intact. */
  lemma PeelDigit(c: seq<int>, n: nat, temp: nat, L: seq<Pos>, tail: seq<int>)
    requires n + 1 < |L| && n < |c|
    requires c[..n] + Decode(temp, L[n..]) == tail
    ensures (temp - temp % L[n]) / L[n] >= 0
    ensures c[n := temp % L[n]][..n + 1] + Decode((temp - temp % L[n]) / L[n], L[n + 1..]) == tail
  {
    DecodeStep(temp, L, n);
    assert c[n := temp % L[n]][..n + 1] == c[..n] + [temp % L[n]];
  }

  /** The final coordinate of site2coor is the remaining quotient itself. */
  lemma LastDigit(c: seq<int>, temp: nat, L: seq<Pos>, tail: seq<int>)
    requires |c| == |L| >= 1
    requires c[..|L| - 1] + Decode(temp, L[|L| - 1..]) == tail
    ensures c[|L| - 1 := temp] == tail
  {
    assert Decode(temp, L[|L| - 1..]) == [temp];
    assert c[|L| - 1 := temp] == c[..|L| - 1] + [temp];
  }

  /** lattice::site2coor: peel off the sublattice, then one coordinate at a time. */
  method SiteToCoor(lat: Lattice, site: nat) returns (coor: seq<int>, sub: int)
    requires WellFormed(lat) && site < lat.nSites
    ensures [sub] + coor == Digits(lat, site)
    ensures 0 <= sub < lat.numSub && InRange(coor, lat.L)
  {
    ghost var tail := Digits(lat, site)[1..];
    DecodeFirst(lat, site);
    coor := seq(lat.dim, _ => 0);
    sub := site % lat.numSub;
    var temp: nat := (site - sub) / lat.numSub;
    assert lat.L[0..] == lat.L;
    assert coor[..0] + Decode(temp, lat.L[0..]) == tail;
    for n := 0 to lat.dim - 1
      invariant |coor| == lat.dim
      invariant coor[..n] + Decode(temp, lat.L[n..]) == tail
    {
      PeelDigit(coor, n, temp, lat.L, tail);
      coor := coor[n := temp % lat.L[n]];
      temp := (temp - coor[n]) / lat.L[n];
    }
    LastDigit(coor, temp, lat.L, tail);
    coor := coor[lat.dim - 1 := temp];
    DigitsInRange(lat, site);
  }

  // ------------------------------------------------------------------
  // Round trips and periodicity.
  // ------------------------------------------------------------------

  /** A valid site decodes to in-range sublattice and coordinates. */
  lemma DigitsInRange(lat: Lattice, site: nat)
    requires WellFormed(lat) && site < lat.nSites
    ensures 0 <= SubOf(lat, site) < lat.numSub
    ensures InRange(CoorOf(lat, site), lat.L)
  {
    DecodeInRange(site, Radices(lat));
    var d := Digits(lat, site);
    forall i | 0 <= i < lat.dim
      ensures 0 <= CoorOf(lat, site)[i] < lat.L[i]
    {
      assert CoorOf(lat, site)[i] == d[i + 1];
    }
  }

  /** site2coor followed by coor2site gives back the site. */
  lemma SiteRoundTrip(lat: Lattice, site: nat)
    requires WellFormed(lat) && site < lat.nSites
    ensures SiteOf(lat, CoorOf(lat, site), SubOf(lat, site)) == site
  {
    var d := Digits(lat, site);
    DigitsInRange(lat, site);
    ModOfInRange(SubOf(lat, site), lat.numSub);
    forall j | 0 <= j < lat.dim
      ensures CoorOf(lat, site)[j] % lat.L[j] == CoorOf(lat, site)[j]
    {
      ModOfInRange(CoorOf(lat, site)[j], lat.L[j]);
    }
    assert CellDigits(lat, CoorOf(lat, site), SubOf(lat, site)) == d;
    EncodeDecode(site, Radices(lat));
  }

  /** coor2site followed by site2coor gives the inputs reduced into range. */
  lemma CoorRoundTrip(lat: Lattice, coor: seq<int>, sub: int)
    requires WellFormed(lat) && |coor| == lat.dim
    ensures SubOf(lat, SiteOf(lat, coor, sub)) == sub % lat.numSub
    ensures CoorOf(lat, SiteOf(lat, coor, sub)) == Wrap(coor, lat.L)
  {
    CellDigitsInRange(lat, coor, sub);
    DecodeEncode(CellDigits(lat, coor, sub), Radices(lat));
  }

  /** A valid site is determined by its sublattice and coordinates. */
  lemma DigitsDetermineSite(lat: Lattice, a: nat, b: nat)
    requires WellFormed(lat) && a < lat.nSites && b < lat.nSites
    requires SubOf(lat, a) == SubOf(lat, b) && CoorOf(lat, a) == CoorOf(lat, b)
    ensures a == b
  {
    SiteRoundTrip(lat, a);
    SiteRoundTrip(lat, b);
  }

  /** Inputs that agree after reduction name the same site. */
  lemma SiteOfCongruent(lat: Lattice, c1: seq<int>, s1: int, c2: seq<int>, s2: int)
    requires WellFormed(lat) && |c1| == lat.dim && |c2| == lat.dim
    requires s1 % lat.numSub == s2 % lat.numSub
    requires forall j :: 0 <= j < lat.dim ==> c1[j] % lat.L[j] == c2[j] % lat.L[j]
    ensures SiteOf(lat, c1, s1) == SiteOf(lat, c2, s2)
  {
    assert CellDigits(lat, c1, s1) == CellDigits(lat, c2, s2);
  }

  /**
   * Shifting one coordinate by a multiple of its extent, or the sublattice
   * index by a multiple of num_sub, names the same site: coor2site always
   * wraps, whatever the boundary tags say.
   */
  lemma SiteOfPeriodic(lat: Lattice, coor: seq<int>, sub: int, j: nat, k: int, m: int)
    requires WellFormed(lat) && |coor| == lat.dim && j < lat.dim
    ensures SiteOf(lat, coor[j := coor[j] + k * lat.L[j]], sub + m * lat.numSub) == SiteOf(lat, coor, sub)
  {
    ModAddMultiple(coor[j], k, lat.L[j]);
    ModAddMultiple(sub, m, lat.numSub);
    SiteOfCongruent(lat, coor[j := coor[j] + k * lat.L[j]], sub + m * lat.numSub, coor, sub);
  }
}

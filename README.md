# Lattice indexing, symmetry plans and sparse containers of quantum_basis

This project is a Dafny model of two building blocks of the quantum_basis
exact-diagonalisation library:

- **The periodic lattice** (`src/lattice.cc`)
  - Construction from a family name (`chain`, `square`, `triangular`,
    `cubic`), a list of extents `L` and boundary tags `bc`.
  - The site indexer `coor2site` / `site2coor`: a mixed-radix encoding with
    radices `[num_sub, L[0], ..., L[dim-1]]`, sublattice fastest. Every
    coordinate is always wrapped into range first.
  - The symmetry-plan generators `translation_plan` and `c4_rotation_plan`.
  - The per-orbital plan algebra `plan_product` and `plan_inverse`.
- **The sparse-matrix containers** (`src/sparse.h`)
  - The list-of-lists accumulator `lil_mat`: constructor, `destroy`,
    `dimension`, `num_nonzero`.
  - The three-array compressed-row holder `csr_mat`: default
    constructor, `destroy`, `dimension`.

Modules and files:

| file | module | contents |
|---|---|---|
| `mixed_radix.dfy` | `MixedRadix` | `Encode` (the library's `dynamic_base`), `Decode` (the digit loop of `site2coor`), round trips and bounds |
| `lattice.dfy` | `Lattice` | the lattice value, `NewLattice`, `CoorToSite`, `SiteToCoor`, the specification functions `SiteOf`/`Digits`, round-trip and periodicity lemmas |
| `plan_algebra.dfy` | `PlanAlgebra` | plans as `seq<seq<Dest>>`, `PlanProduct`, `PlanInverse`, composition, identity, inverses, bijections |
| `symmetry.dfy` | `Symmetry` | `TranslationPlan`, `C4RotationPlan`, their specification functions, permutation, inverse and order-four lemmas, the 4 x 2 triangular lattice of the example driver |
| `sparse.dfy` | `Sparse` | the classes `LilMat` and `CsrMat` with their invariants |

Modelling decisions:

- **Loops and the state they change are kept.** Each C++ loop is a Dafny
  `method` with a `while` or `for` loop. The method is proved equal to a
  specification function, and the properties are lemmas about that function.
  This applies to the wrap loops, the digit loop of `site2coor`, the plan
  loops and the `lil_mat` seeding loop. `lil_mat` and `csr_mat` are classes
  whose methods modify their fields.
- **Constructor checks are errors, other asserts are preconditions.**
  - The C++ constructor asserts; `NewLattice` returns a `Result`. The errors
    come in the order the asserts run: a size mismatch, then a wrong
    dimension for a known family, then the first bad boundary tag. The
    source never checks the name itself, so an unknown name is reported
    only after every tag has passed.
  - The other C++ `assert`s (coordinate length, `site < Nsites`, plan
    shapes, rotation geometry) become `requires`.
- **An unknown family name is an error.** In C++ it falls through the
  family branches and, if every tag is valid, leaves `num_sub` and `Nsites`
  unset.
- **The code is followed where the program's description is looser.**
  - The last coordinate that `site2coor` returns is the whole remaining
    quotient; it is not reduced by its extent. `Decode` keeps this.
  - `coor2site` wraps every coordinate whatever the boundary tags say.
  - `csr_mat::destroy` guards each release by a null check, so a second
    call does nothing. The model states this as: when all three arrays are
    already null, `Destroy` changes nothing.
- **Number types.**
  - Extents and `num_sub` have type `Pos` (at least 1). The wrap loops need
    this to terminate.
  - Integers are unbounded.
  - The matrix element type is `int`.
- Dafny's Euclidean `%` and `/` agree with the source's loops and unsigned
  divisions for the positive moduli used here.

## Model

| member | source | states |
|---|---|---|
| MixedRadix.Encode | src/lattice.cc:63-65 | dynamic_base: digit 0 plus radix 0 times the encoding of the remaining digits, so the first digit (the sublattice) varies fastest; what it means is stated by EncodeBounds and DecodeEncode |
| MixedRadix.Decode | src/lattice.cc:72-78 | the peel loop of site2coor: one digit per radix, each but the last the remainder by its radix, the last the whole remaining quotient |
| MixedRadix.EncodeBounds | src/lattice.cc:63-65 | in-range digits encode to a number in [0, product of the radices), so the encoding of reduced inputs is a valid site |
| MixedRadix.EncodeDecode | src/lattice.cc:72-78 | re-encoding the digits the site2coor loop peels off gives back the number, for every number |
| MixedRadix.DecodeInRange | src/lattice.cc:72-78 | a number below the product of the radices decodes to digits each in [0, radix) |
| MixedRadix.DecodeEncode | src/lattice.cc:63-65 | decoding the encoding of in-range digits gives back the digits |
| Lattice.NewLattice | src/lattice.cc:5-48 | succeeds iff the sizes of L and bc agree, the name is one of the four families, the dimension is the family's and every tag is pbc/PBC/obc/OBC; on success num_sub is 1, Nsites is the product of L and the value is well formed; on failure the error is the first failing assert in source order (size mismatch, wrong dimension of a known family, bad tag), an unknown name with valid tags is UnknownFamily, and a BadBoundary error carries the index of the first bad tag |
| Lattice.Orthogonal | src/lattice.cc:99 | the basis test of c4_rotation_plan: a[0][0] * a[1][0] + a[0][1] * a[1][1] is zero, with the vectors as the constructor sets them |
| Lattice.OrthogonalFamilies | src/lattice.cc:17-42 | square and cubic pass the basis test, triangular fails it, with dot product exactly 1/2 |
| Lattice.Radices | src/lattice.cc:63-64 | the base is num_sub followed by the extents, and its product is Nsites |
| Lattice.SiteOf | src/lattice.cc:50-66 | the site coor2site computes is always below Nsites |
| Lattice.Reduce | src/lattice.cc:53-60 | the add-while-negative, subtract-while-too-large loops leave exactly the Euclidean remainder |
| Lattice.CoorToSite | src/lattice.cc:50-66 | the encoding of the digits the wrap loops build equals SiteOf, a site below Nsites |
| Lattice.SiteToCoor | src/lattice.cc:68-79 | the loop returns the digits Decode defines, with 0 <= sub < num_sub and every coordinate in [0, L[n]) |
| Lattice.DigitsInRange | src/lattice.cc:68-79 | for site < Nsites the decoded sublattice and coordinates are in range |
| Lattice.SiteRoundTrip | src/lattice.cc:50-79 | coor2site of site2coor's output is the original site |
| Lattice.CoorRoundTrip | src/lattice.cc:50-79 | site2coor of coor2site's output is the input reduced into range: sub mod num_sub and each coordinate mod its extent |
| Lattice.DigitsDetermineSite | src/lattice.cc:68-79 | two valid sites with the same sublattice and coordinates are equal |
| Lattice.SiteOfCongruent | src/lattice.cc:53-62 | inputs that agree after reduction name the same site |
| Lattice.SiteOfPeriodic | src/lattice.cc:53-62 | shifting any coordinate by a multiple of its extent, or sub by a multiple of num_sub, names the same site, whatever the boundary tags |
| PlanAlgebra.Compose | src/lattice.cc:118-135 | composing keeps the shape, and keeps every entry in the table when lhs's are |
| PlanAlgebra.PlanProduct | src/lattice.cc:118-135 | the loops compute Compose: entry [o][s] is lhs at the slot rhs sends (o, s) to, so rhs is applied first |
| PlanAlgebra.PlanInverse | src/lattice.cc:137-153 | the result has the plan's shape; each slot holds the zero pair or a source of that slot; each image slot holds a source of it; for an injective plan, the image of (o, s) holds (s, o); for a bijective plan the result is its two-sided inverse |
| PlanAlgebra.ScatterStep | src/lattice.cc:146-149 | one write of the inverse loop keeps the shape, makes the written source found at its image, and keeps every source found so far |
| PlanAlgebra.FoundBackInjective | src/lattice.cc:137-153 | when no two slots share an image, the slot found at an image is its unique source |
| PlanAlgebra.InverseOfBijective | src/lattice.cc:137-153 | for a bijective plan, what plan_inverse leaves composes with it to the identity on both sides |
| PlanAlgebra.ComposeIdentity | src/lattice.cc:118-135 | the identity plan is a unit of plan_product on both sides |
| PlanAlgebra.ComposeAssoc | src/lattice.cc:118-135 | plan_product is associative |
| PlanAlgebra.InverseUnique | src/lattice.cc:137-153 | a plan has at most one two-sided inverse |
| PlanAlgebra.InverseBijective | src/lattice.cc:137-153 | a plan with a two-sided inverse is bijective, and so is the inverse |
| PlanAlgebra.InverseInvolution | src/lattice.cc:137-153 | the inverse of the inverse is the plan itself, so applying plan_inverse twice to a bijective plan gives it back |
| PlanAlgebra.ComposeBijective | src/lattice.cc:118-135 | the product of two bijective plans is bijective |
| PlanAlgebra.Lift | src/lattice.cc:118-135 | a site table with entries below n is a one-orbital plan with every entry in the table |
| PlanAlgebra.LiftCompose | src/lattice.cc:118-135 | the product of two lifted site tables is the lifted composition of the tables, right one first |
| PlanAlgebra.LiftBijective | src/lattice.cc:118-135 | a permutation of the sites lifts to a bijective plan |
| Symmetry.Translate | src/lattice.cc:87-91 | a translated site is a valid site |
| Symmetry.TranslationSpec | src/lattice.cc:81-93 | the table has total_sites entries, each a valid site |
| Symmetry.TranslationPlan | src/lattice.cc:81-93 | the loop builds TranslationSpec, a permutation of [0, Nsites) that keeps every site's sublattice |
| Symmetry.TranslateDigits | src/lattice.cc:87-91 | the translated site keeps its sublattice and its cell is the moved cell, wrapped |
| Symmetry.TranslateCompose | src/lattice.cc:81-93 | translating by d then e is translating by d + e |
| Symmetry.TranslatePeriodic | src/lattice.cc:81-93 | a displacement that is a multiple of every extent fixes every site |
| Symmetry.TranslateInverse | src/lattice.cc:81-93 | translating by d and then by -d gives back the site |
| Symmetry.TranslationIsPermutation | src/lattice.cc:81-93 | the translation table is injective and reaches every site |
| Symmetry.TranslationPlansInverse | src/lattice.cc:81-93 | as per-orbital plans, the tables for d and -d are two-sided inverses under plan_product |
| Symmetry.TranslateIter | src/lattice.cc:81-93 | applying a translation k times stays on a valid site |
| Symmetry.TranslateIterScale | src/lattice.cc:81-93 | applying the translation by d k times is translating by k * d once |
| Symmetry.AroundTheTorus | src/lattice.cc:81-93 | L[j] unit steps along direction j give back every site |
| Symmetry.Rotate | src/lattice.cc:107-112 | a rotated site is a valid site |
| Symmetry.RotationSpec | src/lattice.cc:95-115 | the table has total_sites entries, each a valid site |
| Symmetry.RotationAllowed | src/lattice.cc:97-105 | the four asserts of c4_rotation_plan: dimension 2, equal extents, an orthogonal basis, one sublattice |
| Symmetry.RotationAllowedSquare | src/lattice.cc:97-105 | on a lattice as the constructor builds it, the asserts hold exactly for a square lattice with L[0] == L[1] |
| Symmetry.C4RotationPlan | src/lattice.cc:95-115 | under dim 2, L[0] == L[1], an orthogonal basis and one sublattice, the loop builds RotationSpec, a permutation of the sites |
| Symmetry.RotateDigits | src/lattice.cc:109-111 | the rotated cell of (x, y) is (L-1-y, x) on the same sublattice |
| Symmetry.RotateFour | src/lattice.cc:95-115 | four rotations give back every site |
| Symmetry.RotationIsPermutation | src/lattice.cc:95-115 | the rotation table is injective and reaches every site |
| Symmetry.RotationPlanOrderFour | src/lattice.cc:95-115 | the lifted rotation plan, composed with itself four times by plan_product, is the identity plan |
| Symmetry.Triangular4x2Indexing | examples/no_sym/Heisenberg_spin_half_triangular.cc:21-77 | the driver's 4 x 2 pbc triangular lattice is admissible with 8 sites; (1, 0) is site 1; the neighbour (m+1, n) at m = 3 wraps to (0, n) for both n = 0 and n = 1; the neighbour (m-1, n+1) at (0, 0) is site 7 |
| Symmetry.Triangular4x2Translation | src/lattice.cc:81-93 | on that lattice the unit translation along the first direction sends site 0 to site 1, and four of them return to site 0 |
| Sparse.StoredCountSingletons | src/sparse.h:43-44 | rows of one element each store as many entries as there are rows, which is the nnz = n the constructor sets |
| Sparse.LilMat.constructor | src/sparse.h:43-51 | dimension() and num_nonzero() are n, sym is the flag, every row i holds exactly the element (val 0, col i), every represented entry is zero, and the invariant holds: columns in [0, n), diagonal present, nnz the stored count |
| Sparse.LilMat.Destroy | src/sparse.h:58-62 | the rows are gone, dim, nnz and sym are unchanged, and the invariant still holds |
| Sparse.LilMat.Dimension | src/sparse.h:67 | dimension() is non-negative and, while the rows are held, the number of rows |
| Sparse.LilMat.NumNonzero | src/sparse.h:69 | num_nonzero() is, while the rows are held, the number of stored entries |
| Sparse.RowOffsetsInBounds | src/sparse.h:82-83 | in the zero-based three-array layout every row offset lies in [0, nnz] |
| Sparse.CsrMat.constructor | src/sparse.h:87 | the defaulted csr_mat holds no arrays and satisfies the invariant |
| Sparse.CsrMat.Dimension | src/sparse.h:124 | dimension() is non-negative and one less than the number of row offsets whenever the arrays are held |
| Sparse.CsrMat.Destroy | src/sparse.h:93-107 | val, ja and ia are all null afterwards; dim, nnz, sym and dimension() are unchanged; on a holder already released nothing changes, so a second call is harmless |

## Left out

- The reciprocal vectors `b` of `src/lattice.cc:9-42` are left out, and so are all components of the primitive vectors `a` except the first two of `a[0]` and `a[1]`. They are floating-point geometry built from `pi` and `sqrt`, and nothing modelled reads them.
- The floating-point orthogonality test of `c4_rotation_plan` (`src/lattice.cc:99`) is evaluated exactly by `Lattice.Orthogonal`. The test compares against the tolerance `opr_precision`; the model compares against zero. The vector components are numbers of the form x + y * sqrt(3), so the exact dot product is 0 or 1/2 and the two comparisons agree.
- `lil_mat::add`, the conversion `csr_mat(const lil_mat&)` and `csr_mat::MultMv` are only declared in `src/sparse.h`; their bodies are not part of this model. `Sparse.CsrLayout` states the row-compressed layout the conversion is documented to produce, including "upper triangle only when sym". The header documents only the zero-based three-array form. Strictly increasing columns in a row and the offset bounds come from the design of the format. No modelled operation builds a `CsrMat` with arrays, so this second branch of `Sparse.CsrMat.Valid` is an invariant that nothing here produces. `Sparse.RowOffsetsInBounds` is a fact about that layout only.
- The armadillo and MKL glue is left out: `eigen_by_arma`, `to_arma`, and the `MKL_INT` type, for which `int`/`nat` stand in. They are foreign library calls.
- The printing routines `prt` are left out. They are output only.
- Manual memory management is left out: `new[]`/`delete[]` and the destructors `~lil_mat` and `~csr_mat`. Release is modelled as setting the field to `null` or `[]`.
- The defaulted constructors are approximated.
  - `lil_mat()` is not modelled.
  - `csr_mat()` leaves its fields uninitialised in C++. `Sparse.CsrMat.constructor` sets null arrays and zero counts.
- The example driver's model, operator and basis construction and its eigenvalue check are left out. Only its lattice usage appears, in `Symmetry.Triangular4x2Indexing` and `Symmetry.Triangular4x2Translation`.
- Integer widths are not modelled (`uint32_t`, `int`, `MKL_INT`): no overflow or wrap-around is represented. A negative `n` passed to `lil_mat(n, sym_)` is excluded by the type `nat`.
- Lattice.NewLattice: extents are `Pos`, so a zero extent, on which the C++ wrap loops would not terminate, cannot be passed.
- Lattice.NewLattice: an unknown family name with valid tags is reported as `UnknownFamily`, where the source produces a lattice with unset `num_sub` and `Nsites`; with a bad tag it is `BadBoundary`, as in the source.
- PlanAlgebra.PlanProduct: requires every row of both plans to have `Nsites` entries and every entry of `rhs` to lie in the table. The source only asserts the shape of row 0, and relies on the rest.
- PlanAlgebra.PlanInverse: for a plan that sends several slots to one slot it states only that some source is kept, not that it is the last one written in row-major order. It requires every row to have `Nsites` entries, while the source asserts this only of row 0. It also requires every entry of the plan to lie in the table; the source writes through those entries unchecked.
- Symmetry.C4RotationPlan: only the `num_sub == 1` branch is modelled, as in the source, which asserts that case.

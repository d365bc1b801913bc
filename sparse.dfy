/**
 * The two sparse-matrix containers of src/sparse.h: the list-of-lists
 * accumulator lil_mat and the three-array row-compressed csr_mat. Indices are
 * zero-based; the element type, a template parameter there, is `int` here.
 */
module Sparse {

  /** lil_mat_elem: one stored entry of a row. */
  datatype LilElem = LilElem(val: int, col: int)

  /** The number of entries stored over all rows. */
  function StoredCount(rows: seq<seq<LilElem>>): nat
  {
    if rows == [] then 0 else |rows[0]| + StoredCount(rows[1..])
  }

  /** The sum of the row's stored values in column `c`. */
  function RowValue(row: seq<LilElem>, c: int): int
  {
    if row == [] then 0
    else (if row[0].col == c then row[0].val else 0) + RowValue(row[1..], c)
  }

  /** Some entry of `row` sits in column `c`. */
  predicate HasColumn(row: seq<LilElem>, c: int)
  {
    exists k :: 0 <= k < |row| && row[k].col == c
  }

  /** n rows holding one entry each store n entries. */
  lemma {:induction false} StoredCountSingletons(rows: seq<seq<LilElem>>)
    requires forall i :: 0 <= i < |rows| ==> |rows[i]| == 1
    ensures StoredCount(rows) == |rows|
  {
    if rows != [] {
      StoredCountSingletons(rows[1..]);
    }
  }

  /** lil_mat: rows of (value, column) entries, every diagonal slot present. */
  class LilMat {
    var dim: int
    var nnz: int
    var sym: bool
    var mat: seq<seq<LilElem>>

    /**
     * The rows are either all present (one per dimension) or released by
     * Destroy; every stored column lies in [0, dim); every present row holds
     * its diagonal slot; while the rows are present nnz counts their entries.
     */
    ghost predicate Valid()
      reads this
    {
      && dim >= 0
      && (|mat| == dim || mat == [])
      && (forall i, k :: 0 <= i < |mat| && 0 <= k < |mat[i]| ==> 0 <= mat[i][k].col < dim)
      && (forall i :: 0 <= i < |mat| ==> HasColumn(mat[i], i))
      && (|mat| == dim ==> nnz == StoredCount(mat))
    }

    /** lil_mat::dimension: the row count whenever the rows are held. */
    function Dimension(): (d: int)
      reads this
      ensures Valid() ==> d >= 0 && (mat == [] || |mat| == d)
    {
      dim
    }

    /** lil_mat::num_nonzero: the number of stored entries whenever the rows are held. */
    function NumNonzero(): (k: int)
      reads this
      ensures Valid() && |mat| == dim ==> k == StoredCount(mat)
    {
      nnz
    }

    /** The matrix element the accumulator stands for at (r, c). */
    function Entry(r: nat, c: int): int
      reads this
      requires r < |mat|
    {
      RowValue(mat[r], c)
    }

    /**
     * lil_mat(n, sym_): n rows, each seeded with one element whose column is
     * then set to the row index and whose value is set to zero.
     */
    constructor (n: nat, symFlag: bool)
      ensures Valid()
      ensures Dimension() == n && NumNonzero() == n && sym == symFlag
      ensures |mat| == n && forall i :: 0 <= i < n ==> mat[i] == [LilElem(0, i)]
      ensures forall r, c :: 0 <= r < n ==> Entry(r, c) == 0
    {
      var rows := seq(n, _ => [LilElem(0, 0)]);
      for i := 0 to n
        invariant |rows| == n
        invariant forall k :: 0 <= k < i ==> rows[k] == [LilElem(0, k)]
        invariant forall k :: i <= k < n ==> |rows[k]| == 1
      {
        rows := rows[i := [rows[i][0].(col := i)] + rows[i][1..]];
        rows := rows[i := [rows[i][0].(val := 0)] + rows[i][1..]];
      }
      StoredCountSingletons(rows);
      forall i | 0 <= i < n
        ensures HasColumn(rows[i], i)
      {
        assert rows[i][0].col == i;
      }
      forall r, c | 0 <= r < n
        ensures RowValue(rows[r], c) == 0
      {
        assert rows[r][1..] == [];
      }
      dim := n;
      nnz := n;
      sym := symFlag;
      mat := rows;
    }

    /** lil_mat::destroy: the rows are released; the counters stay as they were. */
    method Destroy()
      requires Valid()
      modifies this`mat
      ensures Valid()
      ensures mat == []
      ensures dim == old(dim) && nnz == old(nnz) && sym == old(sym)
    {
      mat := [];
    }
  }

  /**
   * The row-compressed layout: `ia` holds dim + 1 non-decreasing row offsets
   * from 0 to nnz; row r's columns are ja[ia[r] .. ia[r+1]), strictly
   * increasing and in [0, dim); `val` holds one value per column entry. When
   * only the upper triangle is stored, no column lies left of its row.
   */
  predicate CsrLayout(dim: nat, nnz: int, sym: bool, val: seq<int>, ja: seq<int>, ia: seq<int>)
  {
    && |ia| == dim + 1 && |ja| == nnz && |val| == nnz
    && ia[0] == 0 && ia[dim] == nnz
    && (forall r :: 0 <= r < dim ==> ia[r] <= ia[r + 1])
    && (forall k :: 0 <= k < |ja| ==> 0 <= ja[k] < dim)
    && (forall r, k :: 0 <= r < dim && 0 <= ia[r] <= k && k + 1 < ia[r + 1] && k + 1 < |ja| ==>
          ja[k] < ja[k + 1])
    && (sym ==> forall r, k :: 0 <= r < dim && 0 <= ia[r] <= k < ia[r + 1] && k < |ja| ==> r <= ja[k])
  }

  /** Every row offset lies in [0, nnz], so every row's range is inside ja and val. */
  lemma {:induction false} RowOffsetsInBounds(dim: nat, nnz: int, sym: bool, val: seq<int>, ja: seq<int>, ia: seq<int>, r: nat)
    requires CsrLayout(dim, nnz, sym, val, ja, ia)
    requires r <= dim
    ensures 0 <= ia[r] <= nnz
  {
    UpwardFrom(ia, dim, 0, r);
    UpwardFrom(ia, dim, r, dim);
  }

  /** Offsets never decrease between two rows. */
  lemma {:induction false} UpwardFrom(ia: seq<int>, dim: nat, a: nat, b: nat)
    requires |ia| == dim + 1 && a <= b <= dim
    requires forall r :: 0 <= r < dim ==> ia[r] <= ia[r + 1]
    ensures ia[a] <= ia[b]
    decreases b - a
  {
    if a < b {
      UpwardFrom(ia, dim, a + 1, b);
    }
  }

  /** csr_mat: three owned arrays, released together. */
  class CsrMat {
    var dim: int
    var nnz: int
    var sym: bool
    var val: array?<int>
    var ja: array?<int>
    var ia: array?<int>

    /** All three arrays released, or all three present and in CSR layout. */
    ghost predicate Valid()
      reads this, val, ja, ia
    {
      || (val == null && ja == null && ia == null)
      || (&& val != null && ja != null && ia != null && dim >= 0
          && CsrLayout(dim, nnz, sym, val[..], ja[..], ia[..]))
    }

    /** csr_mat::dimension: the row-offset array holds one offset more than this. */
    function Dimension(): (d: int)
      reads this, val, ja, ia
      ensures Valid() && ia != null ==> d >= 0 && ia.Length == d + 1
    {
      dim
    }

    /** The defaulted csr_mat(): no arrays yet. */
    constructor ()
      ensures Valid()
      ensures val == null && ja == null && ia == null
      ensures Dimension() == 0 && nnz == 0 && !sym
    {
      dim := 0;
      nnz := 0;
      sym := false;
      val := null;
      ja := null;
      ia := null;
    }

    /**
     * csr_mat::destroy: each array is released only if it is still held, so
     * a second call changes nothing. The dimension and counters stay.
     */
    method Destroy()
      modifies this`val, this`ja, this`ia
      ensures val == null && ja == null && ia == null
      ensures Valid()
      ensures dim == old(dim) && nnz == old(nnz) && sym == old(sym)
      ensures Dimension() == old(Dimension())
      ensures old(val) == null && old(ja) == null && old(ia) == null ==> unchanged(this)
    {
      if val != null {
        val := null;
      }
      if ja != null {
        ja := null;
      }
      if ia != null {
        ia := null;
      }
    }
  }
}

/**
 * The nested Monte Carlo engine object and the one operation of it whose
 * body is present: `NMC::run`, which shapes the caller's result matrix to
 * `m1` rows of `nb_points` values each. The path generators, the valuation
 * and the printing are not part of this model.
 */
module Nmc {

  import opened Xva

  /** The risk factors whose outer paths are handed to `run`. */
  datatype ExternalPaths = Interest | FX | Equity

  /**
   * `v.resize(n, fill)` of `std::vector`: the first `min(|v|, n)` entries
   * are kept and any new ones are `fill`.
   */
  function Resize<E>(v: seq<E>, n: nat, fill: E): (r: seq<E>)
    ensures |r| == n
    ensures forall j :: 0 <= j < n ==> r[j] == if j < |v| then v[j] else fill
  {
    if n <= |v| then v[..n] else v + seq(n - |v|, _ => fill)
  }

  /**
   * The matrix `run` leaves behind: first the rows are resized to `rows`
   * (new rows are empty vectors), then every row to `cols` (new entries are
   * a value-initialised `double`, 0.0).
   */
  function Reshaped(m: seq<seq<real>>, rows: nat, cols: nat): (r: seq<seq<real>>)
    ensures |r| == rows
    ensures forall i :: 0 <= i < rows ==> |r[i]| == cols
    ensures forall i, j :: 0 <= i < rows && 0 <= j < cols ==>
      r[i][j] == if i < |m| && j < |m[i]| then m[i][j] else 0.0
  {
    var grown := Resize(m, rows, []);
    seq(rows, i requires 0 <= i < rows => Resize(grown[i], cols, 0.0))
  }

  /** `m` already has `rows` rows of `cols` entries each. */
  predicate HasShape(m: seq<seq<real>>, rows: nat, cols: nat)
  {
    |m| == rows && forall i :: 0 <= i < rows ==> |m[i]| == cols
  }

  /** Reshaping a matrix that already has the target shape leaves it as it is. */
  lemma ReshapedKeepsShaped(m: seq<seq<real>>, rows: nat, cols: nat)
    requires HasShape(m, rows, cols)
    ensures Reshaped(m, rows, cols) == m
  {
    var r := Reshaped(m, rows, cols);
    forall i | 0 <= i < rows
      ensures r[i] == m[i]
    {
      assert |r[i]| == |m[i]|;
    }
  }

  /** Running the reshaping twice gives the same matrix as running it once. */
  lemma ReshapedIdempotent(m: seq<seq<real>>, rows: nat, cols: nat)
    ensures Reshaped(Reshaped(m, rows, cols), rows, cols) == Reshaped(m, rows, cols)
  {
    ReshapedKeepsShaped(Reshaped(m, rows, cols), rows, cols);
  }

  /** The caller's `Matrix`, passed to `run` by reference and resized in place. */
  class Matrix {
    var rows: seq<seq<real>>

    constructor (rows: seq<seq<real>>)
      ensures this.rows == rows
    {
      this.rows := rows;
    }
  }

  /** The engine object: outer and inner path counts, time points and horizon. */
  class NMC {
    var m0: nat
    var m1: nat
    var nbPoints: nat
    var T: real

    constructor (m0: nat, m1: nat, nbPoints: nat, T: real)
      ensures this.m0 == m0 && this.m1 == m1 && this.nbPoints == nbPoints && this.T == T
    {
      this.m0, this.m1, this.nbPoints, this.T := m0, m1, nbPoints, T;
    }

    /**
     * `run(xva, factor, external_paths, paths) const`: resizes `paths` to
     * `m1` rows and then each row to `nbPoints` entries. `xva` and `factor`
     * are only printed; `externalPaths` is a value and the engine's fields are
     * outside the frame, so neither changes.
     */
    method Run(xva: XVA, factor: real, externalPaths: map<ExternalPaths, seq<seq<real>>>, paths: Matrix)
      modifies paths
      ensures paths.rows == Reshaped(old(paths.rows), m1, nbPoints)
    {
      paths.rows := Resize(paths.rows, m1, []);
      ghost var grown := paths.rows;
      var i := 0;
      while i < |paths.rows|
        invariant |paths.rows| == m1 && i <= m1
        invariant forall k :: 0 <= k < i ==> paths.rows[k] == Resize(grown[k], nbPoints, 0.0)
        invariant forall k :: i <= k < m1 ==> paths.rows[k] == grown[k]
      {
        paths.rows := paths.rows[i := Resize(paths.rows[i], nbPoints, 0.0)];
        i := i + 1;
      }
    }
  }

}

/** The index and bookkeeping layer of project1/svd.py.

    The eigen-solver (`np.linalg.eig`, `np.linalg.eigvals`) and `np.sqrt` are
    parameters: the model receives the eigenvalues of A·Aᵗ, the eigenpairs of
    A·Aᵗ and Aᵗ·A, and a square-root function, and models exactly what the
    script does with them: the singularity scan, the pairing of eigenvectors
    through a copy of the eigenvalue lists in which a consumed entry is
    overwritten with -1, the placement of leftover eigenvectors (`add_evs`),
    the diagonal matrices S and S⁻¹, the sum of squares behind `L2_norm`,
    and every way `svd` ends without a result. */
module Svd {
  import opened Matrices

  /** The ways `svd` ends without a result. */
  datatype SvdError =
    | NotAMatrix          // the input has fewer than two axes (IndexError on the shape)
    | NoRealEigenvalues   // the closeness scan of the eigenvalues raised TypeError
    | NoUniqueMatch       // `int(...)` of a match-index array whose size is not 1 raised TypeError
    | RowOutOfRange       // row i of UT or VT does not exist (IndexError)
    | NotInvertible       // InverseException: some eigenvalue of A·Aᵗ is close to 0

  /** One eigenvalue as the solver returns it. An entry the closeness test
      cannot compare (the `TypeError` of the scan) is `Incomparable`. */
  datatype Eigenvalue = Real(value: real) | Incomparable

  /** What the eigen-solver returns for one symmetric product matrix:
      eigenvalues and, column by column, the eigenvectors. */
  datatype Eigensystem = Eigensystem(values: seq<real>, vectors: seq<seq<real>>)

  /** The marker written over a consumed eigenvalue. */
  const Sentinel: real := -1.0

  function Abs(x: real): real {
    if x < 0.0 then -x else x
  }

  /** `np.isclose(a, b)` with NumPy's default tolerances (rtol 1e-5, atol 1e-8),
      evaluated in exact arithmetic. */
  predicate IsClose(a: real, b: real) {
    Abs(a - b) <= 0.00000001 + 0.00001 * Abs(b)
  }

  /** The sentinel is never close to an eigenvalue of a positive semi-definite
      matrix, so a consumed entry can never be matched again. */
  lemma SentinelNeverMatches(v: real)
    requires v >= 0.0
    ensures !IsClose(Sentinel, v)
  {
  }

  // ---------------------------------------------------------------------------
  // L2_norm: the sum of the squares of all entries, then a square root

  function RowSumOfSquares(row: seq<real>): real
    decreases |row|
  {
    if |row| == 0 then 0.0 else RowSumOfSquares(row[..|row| - 1]) + row[|row| - 1] * row[|row| - 1]
  }

  /** The sum of the squares of every entry, row by row (rows may differ in length). */
  function SumOfSquares(a: seq<seq<real>>): real
    decreases |a|
  {
    if |a| == 0 then 0.0 else SumOfSquares(a[..|a| - 1]) + RowSumOfSquares(a[|a| - 1])
  }

  /** `L2_norm`: accumulates the square of every entry, then takes the root. */
  method L2Norm(a: seq<seq<real>>, sqrt: real -> real) returns (norm: real)
    ensures norm == sqrt(SumOfSquares(a))
  {
    var val := 0.0;
    var i := 0;
    while i < |a|
      invariant 0 <= i <= |a|
      invariant val == SumOfSquares(a[..i])
    {
      var row := a[i];
      var j := 0;
      while j < |row|
        invariant 0 <= j <= |row|
        invariant val == SumOfSquares(a[..i]) + RowSumOfSquares(row[..j])
      {
        val := val + row[j] * row[j];
        j := j + 1;
        assert row[..j][..j - 1] == row[..j - 1];
      }
      assert row[..j] == row;
      i := i + 1;
      assert a[..i][..i - 1] == a[..i - 1];
    }
    assert a[..i] == a;
    norm := sqrt(val);
  }

  /** One row's part of the `L2_norm` accumulator is never negative, and it is
      zero when every entry of the row is zero. */
  lemma {:induction false} RowSumOfSquaresZero(row: seq<real>)
    ensures RowSumOfSquares(row) >= 0.0
    ensures (forall j :: 0 <= j < |row| ==> row[j] == 0.0) ==> RowSumOfSquares(row) == 0.0
    decreases |row|
  {
    if |row| > 0 {
      var init, x := row[..|row| - 1], row[|row| - 1];
      RowSumOfSquaresZero(init);
      assert x * x >= 0.0;
      if forall j :: 0 <= j < |row| ==> row[j] == 0.0 {
        forall j | 0 <= j < |init| ensures init[j] == 0.0 {
          assert init[j] == row[j];
        }
      }
    }
  }

  /** The `L2_norm` accumulator is never negative, and it is zero for an
      all-zero matrix, in particular for an empty one. */
  lemma {:induction false} SumOfSquaresZero(a: seq<seq<real>>)
    ensures SumOfSquares(a) >= 0.0
    ensures (forall i, j :: 0 <= i < |a| && 0 <= j < |a[i]| ==> a[i][j] == 0.0) ==> SumOfSquares(a) == 0.0
    decreases |a|
  {
    if |a| > 0 {
      var init, last := a[..|a| - 1], a[|a| - 1];
      SumOfSquaresZero(init);
      RowSumOfSquaresZero(last);
      if forall i, j :: 0 <= i < |a| && 0 <= j < |a[i]| ==> a[i][j] == 0.0 {
        forall i, j | 0 <= i < |init| && 0 <= j < |init[i]| ensures init[i][j] == 0.0 {
          assert init[i] == a[i];
        }
      }
    }
  }

  // ---------------------------------------------------------------------------
  // The singularity scan

  predicate AllComparable(eig: seq<Eigenvalue>) {
    forall i :: 0 <= i < |eig| ==> eig[i].Real?
  }

  /** The scan that sets `has_inverse`: an entry the closeness test cannot
      compare aborts with an error; otherwise the flag is cleared by any
      eigenvalue close to zero. */
  method CheckInvertible(eigvals: seq<Eigenvalue>) returns (r: Result<bool, SvdError>)
    ensures r.Err? <==> !AllComparable(eigvals)
    ensures r.Err? ==> r.error == NoRealEigenvalues
    ensures r.Ok? ==> (r.value <==> forall i :: 0 <= i < |eigvals| ==> !IsClose(eigvals[i].value, 0.0))
  {
    var hasInverse := true;
    var i := 0;
    while i < |eigvals|
      invariant 0 <= i <= |eigvals|
      invariant forall k :: 0 <= k < i ==> eigvals[k].Real?
      invariant hasInverse <==> forall k :: 0 <= k < i ==> !IsClose(eigvals[k].value, 0.0)
    {
      if eigvals[i].Incomparable? {
        return Err(NoRealEigenvalues);
      }
      if IsClose(eigvals[i].value, 0.0) {
        hasInverse := false;
      }
      i := i + 1;
    }
    return Ok(hasInverse);
  }

  // ---------------------------------------------------------------------------
  // The lookup `int(np.where(np.isclose(c, v))[0])`

  /** The indices at which `c` is close to `v`, ascending (`np.where(...)[0]`). */
  function Matches(c: seq<real>, v: real): (ks: seq<nat>)
    ensures forall k: nat :: k in ks <==> k < |c| && IsClose(c[k], v)
    ensures forall p, q :: 0 <= p < q < |ks| ==> ks[p] < ks[q]
    decreases |c|
  {
    if |c| == 0 then []
    else
      var init := Matches(c[..|c| - 1], v);
      assert forall k: nat :: k < |c| - 1 ==> c[..|c| - 1][k] == c[k];
      assert forall p :: 0 <= p < |init| ==> init[p] in init;
      init + (if IsClose(c[|c| - 1], v) then [|c| - 1] else [])
  }

  /** `int(...)` of the match array: defined only when it has exactly one element. */
  function Lookup(c: seq<real>, v: real): (r: Option<nat>)
    ensures r.Some? ==> r.value < |c| && IsClose(c[r.value], v)
  {
    var ks := Matches(c, v);
    if |ks| == 1 then (assert ks[0] in ks; Some(ks[0])) else None
  }

  /** A strictly increasing list of naturals spans at least its length. */
  lemma {:induction false} IncreasingSpread(ks: seq<nat>)
    requires |ks| > 0
    requires forall p, q :: 0 <= p < q < |ks| ==> ks[p] < ks[q]
    ensures ks[|ks| - 1] >= ks[0] + |ks| - 1
    decreases |ks|
  {
    if |ks| > 1 {
      IncreasingSpread(ks[..|ks| - 1]);
      assert ks[|ks| - 2] < ks[|ks| - 1];
    }
  }

  predicate IsUniqueMatch(c: seq<real>, v: real, k: nat) {
    k < |c| && IsClose(c[k], v) && forall j :: 0 <= j < |c| && j != k ==> !IsClose(c[j], v)
  }

  /** A lookup succeeds exactly when one single entry is close to the value, and
      then it yields that entry's index. */
  lemma LookupIsUniqueMatch(c: seq<real>, v: real, k: nat)
    ensures Lookup(c, v) == Some(k) <==> IsUniqueMatch(c, v, k)
  {
    var ks := Matches(c, v);
    if Lookup(c, v) == Some(k) {
      forall j | 0 <= j < |c| && j != k ensures !IsClose(c[j], v) {
        assert (j as nat) in ks ==> j == k;
      }
    }
    if IsUniqueMatch(c, v, k) {
      assert k in ks;
      forall p | 0 <= p < |ks| ensures ks[p] == k {
        assert ks[p] in ks;
      }
      IncreasingSpread(ks);
    }
  }

  /** The lookup over an array, building the match list as `np.where` does. */
  method FindIndex(c: array<real>, v: real) returns (r: Option<nat>)
    ensures r == Lookup(c[..], v)
  {
    var ks: seq<nat> := [];
    var k := 0;
    while k < c.Length
      invariant 0 <= k <= c.Length
      invariant ks == Matches(c[..k], v)
    {
      if IsClose(c[k], v) {
        ks := ks + [k];
      }
      k := k + 1;
      assert c[..k][..k - 1] == c[..k - 1];
    }
    assert c[..k] == c[..];
    r := if |ks| == 1 then Some(ks[0]) else None;
  }

  // ---------------------------------------------------------------------------
  // The pairing loop

  /** The state of the pairing loop: the working copies of the two eigenvalue
      lists, the rows of UT and VT, and (for the proofs) the index consumed in
      each list at each step. */
  datatype Pairing = Pairing(
    aatLeft: seq<real>, ataLeft: seq<real>,
    ut: seq<seq<real>>, vt: seq<seq<real>>,
    aatPicks: seq<nat>, ataPicks: seq<nat>)

  /** UT is m×m and VT n×n, with m (n) eigenpairs of A·Aᵗ (Aᵗ·A) to draw from. */
  predicate Shaped(st: Pairing, evAat: seq<seq<real>>, evAta: seq<seq<real>>) {
    var m, n := |st.ut|, |st.vt|;
    |st.aatLeft| == m && |st.ataLeft| == n
    && IsMatrix(evAat, m, m) && IsMatrix(evAta, n, n)
    && IsMatrix(st.ut, m, m) && IsMatrix(st.vt, n, n)
  }

  /** The state before the loop: copies of the eigenvalue lists, UT and VT zero. */
  function Start(eAat: seq<real>, eAta: seq<real>): Pairing {
    Pairing(eAat, eAta, Zeros(|eAat|, |eAat|), Zeros(|eAta|, |eAta|), [], [])
  }

  /** One successful step: row i of UT (VT) becomes eigenvector column a of
      A·Aᵗ (column b of Aᵗ·A), and both entries are overwritten with -1. */
  function Advance(st: Pairing, i: nat, a: nat, b: nat, evAat: seq<seq<real>>, evAta: seq<seq<real>>): (next: Pairing)
    requires Shaped(st, evAat, evAta)
    requires i < |st.ut| && i < |st.vt| && a < |st.aatLeft| && b < |st.ataLeft|
    ensures Shaped(next, evAat, evAta) && |next.ut| == |st.ut| && |next.vt| == |st.vt|
  {
    Pairing(st.aatLeft[a := Sentinel], st.ataLeft[b := Sentinel],
            st.ut[i := Column(evAat, a)], st.vt[i := Column(evAta, b)],
            st.aatPicks + [a], st.ataPicks + [b])
  }

  /** The pairing loop from step i on, for the eigenvalues `eig` of A·Aᵗ. */
  function PairFrom(eig: seq<real>, i: nat, st: Pairing, evAat: seq<seq<real>>, evAta: seq<seq<real>>): (r: Result<Pairing, SvdError>)
    requires i <= |eig| && Shaped(st, evAat, evAta)
    ensures r.Ok? ==> Shaped(r.value, evAat, evAta) && |r.value.ut| == |st.ut| && |r.value.vt| == |st.vt|
    ensures r.Err? ==> r.error == NoUniqueMatch || r.error == RowOutOfRange
    decreases |eig| - i
  {
    if i == |eig| then Ok(st)
    else
      match Lookup(st.aatLeft, eig[i])
      case None => Err(NoUniqueMatch)
      case Some(a) =>
        match Lookup(st.ataLeft, eig[i])
        case None => Err(NoUniqueMatch)
        case Some(b) =>
          if i >= |st.ut| || i >= |st.vt| then Err(RowOutOfRange)
          else PairFrom(eig, i + 1, Advance(st, i, a, b, evAat, evAta), evAat, evAta)
  }

  /** The pairing loop, on the working arrays. */
  method PairEigenvectors(eig: seq<real>, eAatC: array<real>, eAtaC: array<real>,
                          evAat: seq<seq<real>>, evAta: seq<seq<real>>,
                          UT: array2<real>, VT: array2<real>)
    returns (failure: Option<SvdError>)
    requires eAatC != eAtaC && UT != VT
    requires Shaped(Pairing(eAatC[..], eAtaC[..], Rows(UT), Rows(VT), [], []), evAat, evAta)
    modifies eAatC, eAtaC, UT, VT
    ensures var spec := PairFrom(eig, 0, Pairing(old(eAatC[..]), old(eAtaC[..]), old(Rows(UT)), old(Rows(VT)), [], []), evAat, evAta);
      && (failure.Some? <==> spec.Err?)
      && (spec.Err? ==> failure == Some(spec.error))
      && (spec.Ok? ==> eAatC[..] == spec.value.aatLeft && eAtaC[..] == spec.value.ataLeft
                       && Rows(UT) == spec.value.ut && Rows(VT) == spec.value.vt)
  {
    ghost var spec := PairFrom(eig, 0, Pairing(eAatC[..], eAtaC[..], Rows(UT), Rows(VT), [], []), evAat, evAta);
    ghost var aPicks: seq<nat> := [];
    ghost var bPicks: seq<nat> := [];
    var i := 0;
    while i < |eig|
      invariant 0 <= i <= |eig|
      invariant Shaped(Pairing(eAatC[..], eAtaC[..], Rows(UT), Rows(VT), aPicks, bPicks), evAat, evAta)
      invariant PairFrom(eig, i, Pairing(eAatC[..], eAtaC[..], Rows(UT), Rows(VT), aPicks, bPicks), evAat, evAta) == spec
    {
      ghost var st := Pairing(eAatC[..], eAtaC[..], Rows(UT), Rows(VT), aPicks, bPicks);
      var v := eig[i];
      var a := FindIndex(eAatC, v);
      if a.None? {
        return Some(NoUniqueMatch);
      }
      assert a.value < eAatC.Length;
      var b := FindIndex(eAtaC, v);
      if b.None? {
        return Some(NoUniqueMatch);
      }
      if i >= UT.Length0 || i >= VT.Length0 {
        return Some(RowOutOfRange);
      }
      assert |Rows(UT)[i]| == UT.Length1 && |Rows(VT)[i]| == VT.Length1;
      SetRow(UT, i, Column(evAat, a.value));
      SetRow(VT, i, Column(evAta, b.value));
      eAatC[a.value] := Sentinel;
      eAtaC[b.value] := Sentinel;
      aPicks := aPicks + [a.value];
      bPicks := bPicks + [b.value];
      assert Pairing(eAatC[..], eAtaC[..], Rows(UT), Rows(VT), aPicks, bPicks)
          == Advance(st, i, a.value, b.value, evAat, evAta);
      i := i + 1;
    }
    return None;
  }

  /** Steps i .. |vt|-1 cannot all succeed when there are more eigenvalues than rows of VT. */
  lemma {:induction false} PairingOverrunsVt(eig: seq<real>, i: nat, st: Pairing, evAat: seq<seq<real>>, evAta: seq<seq<real>>)
    requires i <= |st.vt| < |eig| && Shaped(st, evAat, evAta)
    ensures PairFrom(eig, i, st, evAat, evAta).Err?
    decreases |st.vt| - i
  {
    if i < |st.vt| {
      match Lookup(st.aatLeft, eig[i])
      case None =>
      case Some(a) =>
        match Lookup(st.ataLeft, eig[i])
        case None =>
        case Some(b) =>
          if i < |st.ut| {
            PairingOverrunsVt(eig, i + 1, Advance(st, i, a, b, evAat, evAta), evAat, evAta);
          }
    }
  }

  /** A matrix with more rows than columns never gets through the pairing loop:
      A·Aᵗ has m eigenvalues, VT only n rows, and row n of VT does not exist. */
  lemma TallMatrixNeverPairs(eig: seq<real>, st: Pairing, evAat: seq<seq<real>>, evAta: seq<seq<real>>)
    requires |eig| > |st.vt| && Shaped(st, evAat, evAta)
    ensures PairFrom(eig, 0, st, evAat, evAta).Err?
  {
    PairingOverrunsVt(eig, 0, st, evAat, evAta);
  }

  /** Every index in `picks` is consumed (holds the sentinel), no index is
      picked twice, and every other entry still holds its original value. */
  ghost predicate Consumed(left: seq<real>, orig: seq<real>, picks: seq<nat>) {
    && |left| == |orig|
    && (forall p :: 0 <= p < |picks| ==> picks[p] < |left| && left[picks[p]] == Sentinel)
    && (forall k :: 0 <= k < |left| && k !in picks ==> left[k] == orig[k])
    && (forall p, q :: 0 <= p < q < |picks| ==> picks[p] != picks[q])
  }

  /** The picks made from one eigenvalue list so far are consumed, and the
      original value at the p-th pick is close to the p-th eigenvalue. */
  ghost predicate ListTracks(left: seq<real>, orig: seq<real>, picks: seq<nat>, eig: seq<real>) {
    && Consumed(left, orig, picks)
    && |picks| <= |eig|
    && forall p :: 0 <= p < |picks| ==> IsClose(orig[picks[p]], eig[p])
  }

  /** The first |picks| rows are the picked eigenvector columns; the other rows
      are as they were in `startRows`. */
  ghost predicate RowsTrack(rows: seq<seq<real>>, startRows: seq<seq<real>>, picks: seq<nat>, ev: seq<seq<real>>)
    requires IsMatrix(ev, |ev|, |ev|)
  {
    && |rows| == |startRows| && |picks| <= |rows|
    && (forall p :: 0 <= p < |picks| ==> picks[p] < |ev| && rows[p] == Column(ev, picks[p]))
    && (forall r :: |picks| <= r < |rows| ==> rows[r] == startRows[r])
  }

  /** What the first |st.aatPicks| steps of the loop have done, relative to the
      state `start` before it: the picks are distinct consumed indices whose
      original eigenvalues are close to the eigenvalue of their step, the rows
      written so far are the picked eigenvector columns, and the other rows are
      untouched. */
  ghost predicate Tracks(start: Pairing, st: Pairing, eig: seq<real>, evAat: seq<seq<real>>, evAta: seq<seq<real>>)
    requires Shaped(start, evAat, evAta) && Shaped(st, evAat, evAta)
  {
    && |st.ataPicks| == |st.aatPicks|
    && ListTracks(st.aatLeft, start.aatLeft, st.aatPicks, eig)
    && ListTracks(st.ataLeft, start.ataLeft, st.ataPicks, eig)
    && RowsTrack(st.ut, start.ut, st.aatPicks, evAat)
    && RowsTrack(st.vt, start.vt, st.ataPicks, evAta)
  }

  /** Consuming the unique match of the next eigenvalue keeps `ListTracks`. */
  lemma ListAdvance(left: seq<real>, orig: seq<real>, picks: seq<nat>, eig: seq<real>, a: nat)
    requires forall j :: 0 <= j < |eig| ==> eig[j] >= 0.0
    requires ListTracks(left, orig, picks, eig) && |picks| < |eig|
    requires Lookup(left, eig[|picks|]) == Some(a)
    ensures ListTracks(left[a := Sentinel], orig, picks + [a], eig)
  {
    var v := eig[|picks|];
    SentinelNeverMatches(v);
    assert a !in picks;
    assert orig[a] == left[a];
    var picks' := picks + [a];
    assert forall p :: 0 <= p < |picks| ==> picks'[p] == picks[p];
  }

  /** Writing the picked column into the next row keeps `RowsTrack`. */
  lemma RowsAdvance(rows: seq<seq<real>>, startRows: seq<seq<real>>, picks: seq<nat>, ev: seq<seq<real>>, a: nat)
    requires IsMatrix(ev, |ev|, |ev|) && RowsTrack(rows, startRows, picks, ev)
    requires |picks| < |rows| && a < |ev|
    ensures RowsTrack(rows[|picks| := Column(ev, a)], startRows, picks + [a], ev)
  {
    var picks' := picks + [a];
    assert forall p :: 0 <= p < |picks| ==> picks'[p] == picks[p];
  }

  /** One successful step of the loop keeps `Tracks`. */
  lemma TracksAdvance(eig: seq<real>, start: Pairing, st: Pairing, a: nat, b: nat, evAat: seq<seq<real>>, evAta: seq<seq<real>>)
    requires forall j :: 0 <= j < |eig| ==> eig[j] >= 0.0
    requires Shaped(start, evAat, evAta) && Shaped(st, evAat, evAta)
    requires Tracks(start, st, eig, evAat, evAta)
    requires |st.aatPicks| < |eig| && |st.aatPicks| < |st.ut| && |st.aatPicks| < |st.vt|
    requires Lookup(st.aatLeft, eig[|st.aatPicks|]) == Some(a)
    requires Lookup(st.ataLeft, eig[|st.aatPicks|]) == Some(b)
    ensures Tracks(start, Advance(st, |st.aatPicks|, a, b, evAat, evAta), eig, evAat, evAta)
  {
    ListAdvance(st.aatLeft, start.aatLeft, st.aatPicks, eig, a);
    ListAdvance(st.ataLeft, start.ataLeft, st.ataPicks, eig, b);
    RowsAdvance(st.ut, start.ut, st.aatPicks, evAat, a);
    RowsAdvance(st.vt, start.vt, st.ataPicks, evAta, b);
  }

  lemma {:induction false} PairFromTracks(eig: seq<real>, i: nat, start: Pairing, st: Pairing, evAat: seq<seq<real>>, evAta: seq<seq<real>>)
    requires forall j :: 0 <= j < |eig| ==> eig[j] >= 0.0
    requires i <= |eig| && Shaped(start, evAat, evAta) && Shaped(st, evAat, evAta)
    requires Tracks(start, st, eig, evAat, evAta) && |st.aatPicks| == i
    requires PairFrom(eig, i, st, evAat, evAta).Ok?
    ensures Tracks(start, PairFrom(eig, i, st, evAat, evAta).value, eig, evAat, evAta)
    ensures |PairFrom(eig, i, st, evAat, evAta).value.aatPicks| == |eig|
    decreases |eig| - i
  {
    if i < |eig| {
      var a := Lookup(st.aatLeft, eig[i]).value;
      var b := Lookup(st.ataLeft, eig[i]).value;
      TracksAdvance(eig, start, st, a, b, evAat, evAta);
      PairFromTracks(eig, i + 1, start, Advance(st, i, a, b, evAat, evAta), evAat, evAta);
    }
  }

  /** What a successful pairing loop has done, for the eigenvalues of a
      positive semi-definite A·Aᵗ: each step consumed one index in each list,
      no index twice; the consumed entries of the copies hold -1 and all others
      their original value (the original lists are values, never modified);
      row i of UT (VT) is the eigenvector column whose eigenvalue matched the
      i-th eigenvalue; the rows no step reached are still zero. */
  lemma PairingSound(eig: seq<real>, aat: Eigensystem, ata: Eigensystem)
    requires forall j :: 0 <= j < |eig| ==> eig[j] >= 0.0
    requires Shaped(Start(aat.values, ata.values), aat.vectors, ata.vectors)
    requires PairFrom(eig, 0, Start(aat.values, ata.values), aat.vectors, ata.vectors).Ok?
    ensures var fin := PairFrom(eig, 0, Start(aat.values, ata.values), aat.vectors, ata.vectors).value;
      && |fin.aatPicks| == |eig| && |fin.ataPicks| == |eig|
      && Tracks(Start(aat.values, ata.values), fin, eig, aat.vectors, ata.vectors)
      && (forall r, c :: |eig| <= r < |fin.ut| && 0 <= c < |fin.ut| ==> fin.ut[r][c] == 0.0)
  {
    var start := Start(aat.values, ata.values);
    assert Tracks(start, start, eig, aat.vectors, ata.vectors);
    PairFromTracks(eig, 0, start, start, aat.vectors, ata.vectors);
  }

  // ---------------------------------------------------------------------------
  // add_evs

  /** Python's resolution of index k into a list of length `len`: negative
      indices count from the end; anything else raises IndexError (None). */
  function PyIndex(k: int, len: nat): (r: Option<nat>)
    ensures r.Some? ==> r.value < len
  {
    if 0 <= k < len then Some(k) else if -(len as int) <= k < 0 then Some((k + len) as nat) else None
  }

  /** The loop of `add_evs` from index i on: every entry of `eC` that is not the
      sentinel sends its eigenvector column to row `len(A) - i`; the first
      IndexError ends the loop and keeps what was written before it. */
  function AddEvsFrom(a: seq<seq<real>>, eC: seq<real>, ev: seq<seq<real>>, i: nat): (r: seq<seq<real>>)
    requires i <= |eC|
    requires IsMatrix(ev, |ev|, |eC|) && forall k :: 0 <= k < |a| ==> |a[k]| == |ev|
    ensures |r| == |a| && forall k :: 0 <= k < |r| ==> |r[k]| == |ev|
    decreases |eC| - i
  {
    if i == |eC| then a
    else if eC[i] == Sentinel then AddEvsFrom(a, eC, ev, i + 1)
    else match PyIndex(|a| - i, |a|)
      case None => a
      case Some(row) => AddEvsFrom(a[row := Column(ev, i)], eC, ev, i + 1)
  }

  /** `add_evs`, in place; it returns the array it was given. */
  method AddEvs(A: array2<real>, eC: array<real>, ev: seq<seq<real>>) returns (B: array2<real>)
    requires IsMatrix(ev, A.Length1, eC.Length)
    modifies A
    ensures B == A
    ensures Rows(A) == AddEvsFrom(old(Rows(A)), eC[..], ev, 0)
  {
    var rows := A.Length0;
    var i := 0;
    while i < eC.Length
      invariant 0 <= i <= eC.Length
      invariant AddEvsFrom(Rows(A), eC[..], ev, i) == AddEvsFrom(old(Rows(A)), eC[..], ev, 0)
    {
      if eC[i] != Sentinel {
        var target := PyIndex(rows - i, rows);
        if target.None? {
          // the IndexError is caught and the loop is abandoned
          return A;
        }
        SetRow(A, target.value, Column(ev, i));
      }
      i := i + 1;
    }
    return A;
  }

  /** When `eC` has one entry per row and entry 0 is unconsumed, the very first
      write targets row len(A), which does not exist: the IndexError is
      swallowed and no row is written at all. */
  lemma AddEvsFirstUnconsumed(a: seq<seq<real>>, eC: seq<real>, ev: seq<seq<real>>)
    requires |eC| == |a| >= 1 && eC[0] != Sentinel
    requires IsMatrix(ev, |ev|, |eC|) && forall k :: 0 <= k < |a| ==> |a[k]| == |ev|
    ensures AddEvsFrom(a, eC, ev, 0) == a
  {
  }

  lemma {:induction false} AddEvsPlacementFrom(a: seq<seq<real>>, eC: seq<real>, ev: seq<seq<real>>, i: nat)
    requires 1 <= i <= |eC| && |eC| == |a|
    requires IsMatrix(ev, |ev|, |eC|) && forall k :: 0 <= k < |a| ==> |a[k]| == |ev|
    ensures forall r :: 0 <= r < |a| ==>
      AddEvsFrom(a, eC, ev, i)[r] ==
        (if 1 <= r <= |a| - i && eC[|a| - r] != Sentinel then Column(ev, |a| - r) else a[r])
    decreases |eC| - i
  {
    if i < |eC| {
      if eC[i] == Sentinel {
        AddEvsPlacementFrom(a, eC, ev, i + 1);
      } else {
        var a' := a[|a| - i := Column(ev, i)];
        AddEvsPlacementFrom(a', eC, ev, i + 1);
      }
    }
  }

  /** When `eC` has one entry per row and entry 0 is consumed, row r ≥ 1 is
      overwritten with eigenvector column len(A) - r exactly when that entry is
      unconsumed, whatever the row held before (a row filled by the pairing
      loop included); every other row is unchanged. */
  lemma AddEvsPlacement(a: seq<seq<real>>, eC: seq<real>, ev: seq<seq<real>>)
    requires |eC| == |a| && (|a| == 0 || eC[0] == Sentinel)
    requires IsMatrix(ev, |ev|, |eC|) && forall k :: 0 <= k < |a| ==> |a[k]| == |ev|
    ensures forall r :: 0 <= r < |a| ==>
      AddEvsFrom(a, eC, ev, 0)[r] ==
        (if r >= 1 && eC[|a| - r] != Sentinel then Column(ev, |a| - r) else a[r])
  {
    if |a| > 0 {
      AddEvsPlacementFrom(a, eC, ev, 1);
    }
  }

  /** A 3-column case with two paired rows: the leftover eigenvector (index 2)
      lands in row 1, replacing the paired row, while row 2 stays zero. */
  lemma AddEvsOverwritesPairedRow()
    ensures
      var paired := [[1.0, 0.0, 0.0], [0.0, 1.0, 0.0], [0.0, 0.0, 0.0]];
      var ev := [[1.0, 0.0, 0.0], [0.0, 1.0, 0.0], [0.0, 0.0, 1.0]];
      AddEvsFrom(paired, [Sentinel, Sentinel, 0.0], ev, 0)
        == [[1.0, 0.0, 0.0], [0.0, 0.0, 1.0], [0.0, 0.0, 0.0]]
  {
    var paired := [[1.0, 0.0, 0.0], [0.0, 1.0, 0.0], [0.0, 0.0, 0.0]];
    var ev := [[1.0, 0.0, 0.0], [0.0, 1.0, 0.0], [0.0, 0.0, 1.0]];
    AddEvsPlacement(paired, [Sentinel, Sentinel, 0.0], ev);
    assert Column(ev, 2) == [0.0, 0.0, 1.0];
  }

  // ---------------------------------------------------------------------------
  // S and S⁻¹

  /** S (m×n) holds the singular values on its leading diagonal and SI (n×m)
      their reciprocals; every other entry of both is zero. */
  method BuildDiagonals(m: nat, n: nat, svs: seq<real>) returns (S: array2<real>, SI: array2<real>)
    requires |svs| == m <= n
    requires forall i :: 0 <= i < m ==> svs[i] != 0.0
    ensures Rows(S) == Diagonal(m, n, svs)
    ensures Rows(SI) == Diagonal(n, m, Reciprocals(svs))
  {
    S := new real[m, n]((_, _) => 0.0);
    SI := new real[n, m]((_, _) => 0.0);
    var i := 0;
    while i < |svs|
      invariant 0 <= i <= |svs|
      invariant S.Length0 == m && S.Length1 == n && SI.Length0 == n && SI.Length1 == m
      invariant forall r, c :: 0 <= r < m && 0 <= c < n ==> S[r, c] == if r == c && r < i then svs[r] else 0.0
      invariant forall r, c :: 0 <= r < n && 0 <= c < m ==> SI[r, c] == if r == c && r < i then 1.0 / svs[r] else 0.0
    {
      S[i, i] := svs[i];
      SI[i, i] := 1.0 / svs[i];
      i := i + 1;
    }
    forall r | 0 <= r < m ensures Rows(S)[r] == Diagonal(m, n, svs)[r] { }
    ghost var inv := Reciprocals(svs);
    forall r | 0 <= r < n ensures Rows(SI)[r] == Diagonal(n, m, inv)[r] { }
  }

  function Reciprocals(d: seq<real>): (r: seq<real>)
    requires forall i :: 0 <= i < |d| ==> d[i] != 0.0
    ensures |r| == |d| && forall i :: 0 <= i < |d| ==> r[i] == 1.0 / d[i]
  {
    seq(|d|, i requires 0 <= i < |d| => 1.0 / d[i])
  }

  // ---------------------------------------------------------------------------
  // svd

  datatype SvdResult = SvdResult(
    u: seq<seq<real>>, s: seq<seq<real>>, v: seq<seq<real>>,
    condition: real, inverse: seq<seq<real>>)

  /** The eigen-solver outputs fit an m×n input. */
  predicate SolverShapes(m: nat, n: nat, eigvals: seq<Eigenvalue>, aat: Eigensystem, ata: Eigensystem) {
    && |eigvals| == m && |aat.values| == m && IsMatrix(aat.vectors, m, m)
    && |ata.values| == n && IsMatrix(ata.vectors, n, n)
  }

  function Values(eig: seq<Eigenvalue>): (vs: seq<real>)
    requires AllComparable(eig)
    ensures |vs| == |eig| && forall i :: 0 <= i < |eig| ==> vs[i] == eig[i].value
  {
    seq(|eig|, i requires 0 <= i < |eig| => eig[i].value)
  }

  /** `np.sqrt(eigvals)`, entry by entry. */
  function SingularValues(eig: seq<real>, sqrt: real -> real): (svs: seq<real>)
    ensures |svs| == |eig| && forall i :: 0 <= i < |eig| ==> svs[i] == sqrt(eig[i])
  {
    seq(|eig|, i requires 0 <= i < |eig| => sqrt(eig[i]))
  }

  /** The rows of UT and VT after the larger of the two has been given the
      leftover eigenvectors of its product matrix. */
  function Completed(p: Pairing, aat: Eigensystem, ata: Eigensystem): (rows: (seq<seq<real>>, seq<seq<real>>))
    requires Shaped(p, aat.vectors, ata.vectors)
    ensures IsMatrix(rows.0, |p.ut|, |p.ut|) && IsMatrix(rows.1, |p.vt|, |p.vt|)
  {
    var m, n := |p.ut|, |p.vt|;
    if m > n then (AddEvsFrom(p.ut, p.aatLeft, aat.vectors, 0), p.vt)
    else if n > m then (p.ut, AddEvsFrom(p.vt, p.ataLeft, ata.vectors, 0))
    else (p.ut, p.vt)
  }

  /** The pairing loop followed by `add_evs` on the larger of UT and VT, over
      working copies of the eigenvalue lists; yields the rows of UT and VT. */
  method PairAndComplete(eig: seq<real>, aat: Eigensystem, ata: Eigensystem)
    returns (r: Result<(seq<seq<real>>, seq<seq<real>>), SvdError>)
    requires IsMatrix(aat.vectors, |aat.values|, |aat.values|) && IsMatrix(ata.vectors, |ata.values|, |ata.values|)
    ensures
      var p := PairFrom(eig, 0, Start(aat.values, ata.values), aat.vectors, ata.vectors);
      && (p.Err? ==> r == Err(p.error))
      && (p.Ok? ==> r == Ok(Completed(p.value, aat, ata)))
  {
    var m, n := |aat.values|, |ata.values|;
    var eAatC := new real[m](i requires 0 <= i < m => aat.values[i]);
    var eAtaC := new real[n](i requires 0 <= i < n => ata.values[i]);
    var UT := NewZeros(m, m);
    var VT := NewZeros(n, n);
    assert eAatC[..] == aat.values && eAtaC[..] == ata.values;
    ghost var p := PairFrom(eig, 0, Start(aat.values, ata.values), aat.vectors, ata.vectors);
    var failure := PairEigenvectors(eig, eAatC, eAtaC, aat.vectors, ata.vectors, UT, VT);
    if failure.Some? {
      return Err(failure.value);
    }
    if m > n {
      UT := AddEvs(UT, eAatC, aat.vectors);
    } else if n > m {
      VT := AddEvs(VT, eAtaC, ata.vectors);
    }
    return Ok((Rows(UT), Rows(VT)));
  }

  /** Whether no eigenvalue of A·Aᵗ is close to zero (`has_inverse`). */
  predicate Invertible(eigvals: seq<Eigenvalue>)
    requires AllComparable(eigvals)
  {
    forall i :: 0 <= i < |eigvals| ==> !IsClose(eigvals[i].value, 0.0)
  }

  /** The inverse V·SI·UT, from the rows of UT and VT and the n×m matrix SI. */
  function InverseOf(ut: seq<seq<real>>, vt: seq<seq<real>>, si: seq<seq<real>>): (inverse: seq<seq<real>>)
    requires IsMatrix(ut, |ut|, |ut|) && IsMatrix(vt, |vt|, |vt|) && IsMatrix(si, |vt|, |ut|)
    ensures IsMatrix(inverse, |vt|, |ut|)
  {
    MatMul(MatMul(Transpose(vt, |vt|), si, |ut|), ut, |ut|)
  }

  /** What the tail of `svd` yields from the rows of UT and VT: U = UTᵗ,
      S, V = VTᵗ, the inverse V·SI·UT and the condition number. */
  function Decomposition(A: seq<seq<real>>, ut: seq<seq<real>>, vt: seq<seq<real>>, svs: seq<real>, sqrt: real -> real): (res: SvdResult)
    requires IsMatrix(ut, |ut|, |ut|) && IsMatrix(vt, |vt|, |vt|)
    requires forall i :: 0 <= i < |svs| ==> svs[i] != 0.0
    ensures IsMatrix(res.u, |ut|, |ut|) && IsMatrix(res.v, |vt|, |vt|) && IsMatrix(res.s, |ut|, |vt|)
    ensures IsMatrix(res.inverse, |vt|, |ut|)
  {
    var inverse := InverseOf(ut, vt, Diagonal(|vt|, |ut|, Reciprocals(svs)));
    SvdResult(Transpose(ut, |ut|), Diagonal(|ut|, |vt|, svs), Transpose(vt, |vt|),
              Condition(A, inverse, sqrt), inverse)
  }

  /** The condition number: the product of the two norms. */
  function Condition(A: seq<seq<real>>, AI: seq<seq<real>>, sqrt: real -> real): real {
    sqrt(SumOfSquares(A)) * sqrt(SumOfSquares(AI))
  }

  /** `L2_norm(A) * L2_norm(AI)`. */
  method ConditionNumber(A: seq<seq<real>>, AI: seq<seq<real>>, sqrt: real -> real) returns (condition: real)
    ensures condition == Condition(A, AI, sqrt)
  {
    var normA := L2Norm(A, sqrt);
    var normAI := L2Norm(AI, sqrt);
    condition := normA * normAI;
  }

  /** The tail of `svd` once A is known to be invertible, with S and SI built
      in arrays and both norms accumulated. */
  method Decompose(A: seq<seq<real>>, ut: seq<seq<real>>, vt: seq<seq<real>>, svs: seq<real>, sqrt: real -> real)
    returns (res: SvdResult)
    requires |svs| == |ut| <= |vt| && IsMatrix(ut, |ut|, |ut|) && IsMatrix(vt, |vt|, |vt|)
    requires forall i :: 0 <= i < |svs| ==> svs[i] != 0.0
    ensures res == Decomposition(A, ut, vt, svs, sqrt)
  {
    var m, n := |ut|, |vt|;
    var S, SI := BuildDiagonals(m, n, svs);
    var s, si := Rows(S), Rows(SI);
    var AI := InverseOf(ut, vt, si);
    assert AI == Decomposition(A, ut, vt, svs, sqrt).inverse;
    var condition := ConditionNumber(A, AI, sqrt);
    return SvdResult(Transpose(ut, m), s, Transpose(vt, n), condition, AI);
  }

  /** The outcome of `svd`: the first failing exit, or the decomposition. */
  function SvdOf(shape: seq<nat>, A: seq<seq<real>>, eigvals: seq<Eigenvalue>,
                 aat: Eigensystem, ata: Eigensystem, sqrt: real -> real): (r: Result<SvdResult, SvdError>)
    requires |shape| <= 2
    requires |shape| == 2 ==> IsMatrix(A, shape[0], shape[1]) && SolverShapes(shape[0], shape[1], eigvals, aat, ata)
    requires forall x :: !IsClose(x, 0.0) ==> sqrt(x) != 0.0
    ensures r == Err(NotAMatrix) <==> |shape| < 2
  {
    if |shape| < 2 then Err(NotAMatrix)
    else if !AllComparable(eigvals) then Err(NoRealEigenvalues)
    else
      var eig := Values(eigvals);
      var p := PairFrom(eig, 0, Start(aat.values, ata.values), aat.vectors, ata.vectors);
      if p.Err? then Err(p.error)
      else if !Invertible(eigvals) then Err(NotInvertible)
      else
        var rows := Completed(p.value, aat, ata);
        Ok(Decomposition(A, rows.0, rows.1, SingularValues(eig, sqrt), sqrt))
  }

  /** `svd`. A is given with its shape (its list of axis lengths); the
      eigen-solver outputs and the square root are parameters. `sqrt` maps a
      value that is not close to zero to a nonzero value (NumPy's square root
      does: a negative argument gives nan). */
  method Svd(shape: seq<nat>, A: seq<seq<real>>, eigvals: seq<Eigenvalue>,
             aat: Eigensystem, ata: Eigensystem, sqrt: real -> real)
    returns (r: Result<SvdResult, SvdError>)
    requires |shape| <= 2
    requires |shape| == 2 ==> IsMatrix(A, shape[0], shape[1]) && SolverShapes(shape[0], shape[1], eigvals, aat, ata)
    requires forall x :: !IsClose(x, 0.0) ==> sqrt(x) != 0.0
    ensures r == SvdOf(shape, A, eigvals, aat, ata, sqrt)
  {
    if |shape| < 2 {
      return Err(NotAMatrix);
    }
    var m, n := shape[0], shape[1];
    var scan := CheckInvertible(eigvals);
    if scan.Err? {
      return Err(scan.error);
    }
    var eig := Values(eigvals);
    var svs := SingularValues(eig, sqrt);
    var paired := PairAndComplete(eig, aat, ata);
    if paired.Err? {
      return Err(paired.error);
    }
    if !scan.value {
      return Err(NotInvertible);
    }
    if m > n {
      TallMatrixNeverPairs(eig, Start(aat.values, ata.values), aat.vectors, ata.vectors);
    }
    var ut, vt := paired.value.0, paired.value.1;
    var res := Decompose(A, ut, vt, svs, sqrt);
    return Ok(res);
  }

  /** `svd` fails on a tall matrix, fails when some eigenvalue of A·Aᵗ is close
      to zero, and otherwise returns U, S, V with S holding the nonzero
      singular values on its diagonal and SI their reciprocals. */
  lemma SvdOutcome(shape: seq<nat>, A: seq<seq<real>>, eigvals: seq<Eigenvalue>,
                   aat: Eigensystem, ata: Eigensystem, sqrt: real -> real)
    requires |shape| == 2 && IsMatrix(A, shape[0], shape[1]) && SolverShapes(shape[0], shape[1], eigvals, aat, ata)
    requires forall x :: !IsClose(x, 0.0) ==> sqrt(x) != 0.0
    ensures var r := SvdOf(shape, A, eigvals, aat, ata, sqrt);
      && (!AllComparable(eigvals) ==> r == Err(NoRealEigenvalues))
      && (shape[0] > shape[1] ==> r.Err?)
      && (AllComparable(eigvals) && !Invertible(eigvals) ==> r.Err?)
      && (r.Ok? ==>
            var m, n := shape[0], shape[1];
            var svs := SingularValues(Values(eigvals), sqrt);
            && m <= n && AllComparable(eigvals) && Invertible(eigvals)
            && (forall i :: 0 <= i < m ==> svs[i] != 0.0)
            && IsMatrix(r.value.u, m, m) && IsMatrix(r.value.v, n, n)
            && r.value.s == Diagonal(m, n, svs)
            && r.value.condition == Condition(A, r.value.inverse, sqrt))
  {
    if shape[0] > shape[1] && AllComparable(eigvals) {
      TallMatrixNeverPairs(Values(eigvals), Start(aat.values, ata.values), aat.vectors, ata.vectors);
    }
  }
}

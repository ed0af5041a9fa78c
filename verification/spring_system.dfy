/** The set-up of the mass–spring chain: the input prompts and what they
    accept, the spring count, the signed incidence matrix A between springs
    and masses, the spring-constant matrix C and the gravity loads f. The
    stiffness matrix AᵗCA and its decomposition are left to the caller. */
module SpringSystem {
  import opened Matrices

  /** Gravitational acceleration, in m/s². */
  const Gravity: real := 9.81

  /** The mass-count prompt accepts a positive integer. */
  predicate AcceptMassCount(n: int) {
    n >= 1
  }

  /** The fixed-ends prompt accepts 1 (fixed/free) or 2 (fixed/fixed). */
  predicate AcceptFixedEnds(e: int) {
    e == 1 || e == 2
  }

  /** The mass and spring-constant prompts reject a number at most 0 and
      accept any other. */
  predicate AcceptPositive(x: real) {
    !(x <= 0.0)
  }

  // ---------------------------------------------------------------------------
  // The prompts, over the sequence of answers typed in. `None` stands for an
  // answer that does not parse (a `ValueError`), which is skipped.

  /** The first parsed answer that `accept` admits, if the answers hold one. */
  function FirstAccepted(answers: seq<Option<int>>, accept: int -> bool): (r: Option<int>)
    ensures r.Some? ==> accept(r.value)
    ensures r.None? ==> forall k :: 0 <= k < |answers| && answers[k].Some? ==> !accept(answers[k].value)
    decreases |answers|
  {
    if |answers| == 0 then None
    else if answers[0].Some? && accept(answers[0].value) then answers[0]
    else
      var r := FirstAccepted(answers[1..], accept);
      assert forall k :: 1 <= k < |answers| ==> answers[k] == answers[1..][k - 1];
      r
  }

  /** The answer a prompt settles on is the first admissible one: it was
      typed, and every answer before it was rejected or unparsable. */
  lemma {:induction false} FirstAcceptedIsFirst(answers: seq<Option<int>>, accept: int -> bool)
    requires FirstAccepted(answers, accept).Some?
    ensures exists k :: 0 <= k < |answers| && answers[k] == FirstAccepted(answers, accept) &&
              forall j :: 0 <= j < k && answers[j].Some? ==> !accept(answers[j].value)
    decreases |answers|
  {
    if !(answers[0].Some? && accept(answers[0].value)) {
      var rest := answers[1..];
      FirstAcceptedIsFirst(rest, accept);
      var k :| 0 <= k < |rest| && rest[k] == FirstAccepted(rest, accept) &&
               forall j :: 0 <= j < k && rest[j].Some? ==> !accept(rest[j].value);
      assert answers[k + 1] == rest[k];
      forall j | 0 <= j < k + 1 && answers[j].Some? ensures !accept(answers[j].value) {
        if j > 0 { assert answers[j] == rest[j - 1]; }
      }
    }
  }

  /** An integer prompt loop (`nMass`, `fixedEnds`): reads answers until one
      parses and is admitted. Running out of answers leaves it waiting. */
  method ReadCount(answers: seq<Option<int>>, accept: int -> bool) returns (r: Option<int>)
    ensures r == FirstAccepted(answers, accept)
  {
    var pos := 0;
    while pos < |answers|
      invariant 0 <= pos <= |answers|
      invariant FirstAccepted(answers, accept) == FirstAccepted(answers[pos..], accept)
    {
      var answer := answers[pos];
      if answer.Some? && accept(answer.value) {
        return answer;
      }
      assert answers[pos..][1..] == answers[pos + 1..];
      pos := pos + 1;
    }
    return None;
  }

  /** The positive numbers among the answers, in the order typed. */
  function Positives(answers: seq<Option<real>>): (xs: seq<real>)
    ensures forall i :: 0 <= i < |xs| ==> AcceptPositive(xs[i])
    ensures |xs| <= |answers|
    decreases |answers|
  {
    if |answers| == 0 then []
    else
      var last := answers[|answers| - 1];
      Positives(answers[..|answers| - 1]) + (if last.Some? && AcceptPositive(last.value) then [last.value] else [])
  }

  /** The positives of a prefix of the answers are a prefix of the positives. */
  lemma {:induction false} PositivesOfPrefix(answers: seq<Option<real>>, k: nat)
    requires k <= |answers|
    ensures Positives(answers[..k]) <= Positives(answers)
    decreases |answers| - k
  {
    if k < |answers| {
      PositivesOfPrefix(answers, k + 1);
      assert answers[..k + 1][..k] == answers[..k];
    } else {
      assert answers[..k] == answers;
    }
  }

  /** The loop that fills `masses` (or `spCs`): for each of the `count` entries,
      reads answers until one parses and is positive, then appends it. */
  method ReadPositives(answers: seq<Option<real>>, count: nat) returns (r: Option<seq<real>>)
    ensures r.Some? <==> |Positives(answers)| >= count
    ensures r.Some? ==> r.value == Positives(answers)[..count]
  {
    var values: seq<real> := [];
    var pos := 0;
    for i := 0 to count
      invariant pos <= |answers|
      invariant |values| == i && values == Positives(answers[..pos])
    {
      var valid := false;
      while !valid
        invariant pos <= |answers|
        invariant values == Positives(answers[..pos])
        invariant |values| == if valid then i + 1 else i
        decreases |answers| - pos, !valid
      {
        if pos == |answers| {
          assert answers[..pos] == answers;
          return None;
        }
        var answer := answers[pos];
        assert answers[..pos + 1][..pos] == answers[..pos];
        pos := pos + 1;
        if answer.Some? && AcceptPositive(answer.value) {
          values := values + [answer.value];
          valid := true;
        }
      }
    }
    PositivesOfPrefix(answers, pos);
    return Some(values);
  }

  // ---------------------------------------------------------------------------
  // The springs and the incidence matrix

  /** `nSp = nMass + fixedEnds - 1`. */
  function SpringCount(nMass: nat, fixedEnds: int): int {
    nMass + fixedEnds - 1
  }

  /** One spring per mass when only the top is fixed, one more when both ends are. */
  lemma SpringCountByEnds(nMass: nat, fixedEnds: int)
    requires AcceptMassCount(nMass) && AcceptFixedEnds(fixedEnds)
    ensures SpringCount(nMass, fixedEnds) == if fixedEnds == 1 then nMass else nMass + 1
    ensures SpringCount(nMass, fixedEnds) >= 1
  {
  }

  /** The free/free set-up (`fixedEnds == 0`) is never reached: the prompt
      admits only 1 and 2. */
  lemma FreeFreeUnreachable(answers: seq<Option<int>>)
    ensures FirstAccepted(answers, AcceptFixedEnds) != Some(0)
  {
  }

  /** The sum of two matrices of the same shape. */
  function Add(a: seq<seq<real>>, b: seq<seq<real>>, m: nat, n: nat): (s: seq<seq<real>>)
    requires IsMatrix(a, m, n) && IsMatrix(b, m, n)
    ensures IsMatrix(s, m, n) && forall i, j :: 0 <= i < m && 0 <= j < n ==> s[i][j] == a[i][j] + b[i][j]
  {
    seq(m, i requires 0 <= i < m => seq(n, j requires 0 <= j < n => a[i][j] + b[i][j]))
  }

  /** `np.diag(v, -1)` for a vector v of length n-1: v on the first subdiagonal. */
  function SubDiagonal(n: nat, v: seq<real>): (z: seq<seq<real>>)
    requires |v| + 1 == n
    ensures IsMatrix(z, n, n)
    ensures forall i, j :: 0 <= i < n && 0 <= j < n ==> z[i][j] == if i == j + 1 then v[j] else 0.0
  {
    seq(n, i requires 0 <= i < n => seq(n, j requires 0 <= j < n => if i == j + 1 then v[j] else 0.0))
  }

  /** `A1 + A2`: the identity plus -1 on the first subdiagonal (n ≥ 1). */
  function BaseIncidence(n: nat): (a: seq<seq<real>>)
    requires n >= 1
    ensures IsMatrix(a, n, n)
  {
    Add(Diagonal(n, n, seq(n, _ => 1.0)), SubDiagonal(n, seq(n - 1, _ => -1.0)), n, n)
  }

  /** The entry of the signed incidence matrix for spring r and mass c: spring r
      pulls mass r down (+1) and mass r-1 up (-1). */
  function Link(r: nat, c: nat): real {
    if r == c then 1.0 else if r == c + 1 then -1.0 else 0.0
  }

  /** The base matrix is that incidence pattern on n springs and n masses. */
  lemma BaseIncidenceEntries(n: nat)
    requires n >= 1
    ensures forall r, c :: 0 <= r < n && 0 <= c < n ==> BaseIncidence(n)[r][c] == Link(r, c)
  {
  }

  /** A as the script leaves it: the base matrix; with two fixed ends a zero row
      appended (`np.append`) whose last entry is then set to -1; with none, the
      first row deleted. */
  method BuildIncidence(nMass: nat, fixedEnds: int) returns (A: array2<real>)
    requires AcceptMassCount(nMass) && 0 <= fixedEnds <= 2
    ensures A.Length0 == SpringCount(nMass, fixedEnds) && A.Length1 == nMass
    ensures fixedEnds >= 1 ==> forall r, c :: 0 <= r < A.Length0 && 0 <= c < nMass ==> A[r, c] == Link(r, c)
    ensures fixedEnds == 0 ==> forall r, c :: 0 <= r < A.Length0 && 0 <= c < nMass ==> A[r, c] == Link(r + 1, c)
  {
    var nSp := SpringCount(nMass, fixedEnds);
    var base := BaseIncidence(nMass);
    BaseIncidenceEntries(nMass);
    if fixedEnds == 2 {
      A := new real[nMass + 1, nMass]((r, c) requires 0 <= r <= nMass && 0 <= c < nMass =>
        if r < nMass then base[r][c] else 0.0);
      A[nSp - 1, nMass - 1] := -1.0;
    } else if fixedEnds == 0 {
      A := new real[nMass - 1, nMass]((r, c) requires 0 <= r < nMass - 1 && 0 <= c < nMass => base[r + 1][c]);
    } else {
      A := new real[nMass, nMass]((r, c) requires 0 <= r < nMass && 0 <= c < nMass => base[r][c]);
    }
  }

  /** With one or two fixed ends, A has exactly one row per spring, so it has
      as many rows as C; the extra fixed/fixed row is zero except for its last
      entry, -1. */
  lemma ExtraRow(nMass: nat, c: nat)
    requires AcceptMassCount(nMass) && c < nMass
    ensures Link(SpringCount(nMass, 2) - 1, c) == if c == nMass - 1 then -1.0 else 0.0
  {
  }

  /** `C = np.diag(spCs)`: the spring constants on the diagonal. */
  function Stiffnesses(spCs: seq<real>): (C: seq<seq<real>>)
    ensures IsMatrix(C, |spCs|, |spCs|)
    ensures forall i :: 0 <= i < |spCs| ==> C[i][i] == spCs[i]
    ensures forall i, j :: 0 <= i < |spCs| && 0 <= j < |spCs| && i != j ==> C[i][j] == 0.0
  {
    Diagonal(|spCs|, |spCs|, spCs)
  }

  /** `f = masses * g`: the weight of each mass. */
  function Loads(masses: seq<real>): (f: seq<real>)
    ensures |f| == |masses|
    ensures forall i :: 0 <= i < |masses| ==> f[i] == masses[i] * Gravity
  {
    seq(|masses|, i requires 0 <= i < |masses| => masses[i] * Gravity)
  }

  /** Every accepted mass is positive, so every load points down with a
      positive weight. */
  lemma LoadsPositive(masses: seq<real>)
    requires forall i :: 0 <= i < |masses| ==> AcceptPositive(masses[i])
    ensures forall i :: 0 <= i < |masses| ==> Loads(masses)[i] > 0.0
  {
  }

  /** Every prompt of the set-up is eventually satisfied: a mass count and a
      number of fixed ends are typed, then at least one positive mass per mass
      and one positive spring constant per spring. */
  predicate Answered(countAnswers: seq<Option<int>>, endsAnswers: seq<Option<int>>,
                     massAnswers: seq<Option<real>>, springAnswers: seq<Option<real>>)
  {
    var nMass := FirstAccepted(countAnswers, AcceptMassCount);
    var fixedEnds := FirstAccepted(endsAnswers, AcceptFixedEnds);
    && nMass.Some? && fixedEnds.Some?
    && |Positives(massAnswers)| >= nMass.value
    && |Positives(springAnswers)| >= SpringCount(nMass.value, fixedEnds.value)
  }

  /** The whole set-up from the answers typed at the four prompts, or `None`
      exactly when the answers run out before every prompt is satisfied. A is
      the incidence matrix of nSp springs and nMass masses, C holds the first
      nSp positive spring constants typed and f the weights of the first nMass
      positive masses typed. A's rows match C and its columns match f, so the
      stiffness matrix AᵗCA is defined and the mismatch message is never
      printed. */
  method Setup(countAnswers: seq<Option<int>>, endsAnswers: seq<Option<int>>,
               massAnswers: seq<Option<real>>, springAnswers: seq<Option<real>>)
    returns (r: Option<(array2<real>, seq<seq<real>>, seq<real>)>)
    ensures r.Some? <==> Answered(countAnswers, endsAnswers, massAnswers, springAnswers)
    ensures r.Some? ==>
      var nMass := FirstAccepted(countAnswers, AcceptMassCount).value;
      var nSp := SpringCount(nMass, FirstAccepted(endsAnswers, AcceptFixedEnds).value);
      var (A, C, f) := r.value;
      && A.Length0 == nSp && A.Length1 == nMass
      && C == Stiffnesses(Positives(springAnswers)[..nSp])
      && f == Loads(Positives(massAnswers)[..nMass])
      && A.Length0 == |C| && A.Length1 == |f| >= 1
      && (forall i :: 0 <= i < |f| ==> f[i] > 0.0)
      && (forall i, j :: 0 <= i < A.Length0 && 0 <= j < A.Length1 ==> A[i, j] == Link(i, j))
  {
    var nMass := ReadCount(countAnswers, AcceptMassCount);
    if nMass.None? {
      return None;
    }
    var fixedEnds := ReadCount(endsAnswers, AcceptFixedEnds);
    if fixedEnds.None? {
      return None;
    }
    var nSp := SpringCount(nMass.value, fixedEnds.value);
    var masses := ReadPositives(massAnswers, nMass.value);
    if masses.None? {
      return None;
    }
    var spCs := ReadPositives(springAnswers, nSp);
    if spCs.None? {
      return None;
    }
    var A := BuildIncidence(nMass.value, fixedEnds.value);
    var C := Stiffnesses(spCs.value);
    var f := Loads(masses.value);
    LoadsPositive(masses.value);
    return Some((A, C, f));
  }
}

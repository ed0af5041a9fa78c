/** The driver of the finite-element heat solver on [0, 1] × [0, 1]: the
    discretisation from the node and time-step counts, the element loop that
    assembles the mass matrix M, the stiffness matrix K and the load vector F,
    the Dirichlet boundary step, and the time-marching loop that rebuilds F at
    every step. The quadrature and the Euler update are parameters. */
module Fe {
  import opened Matrices
  import opened FeFunctions

  const X0: real := 0.0
  const XF: real := 1.0
  const T0: real := 0.0
  const TF: real := 1.0

  datatype Scheme = Forward | Backward

  datatype FeError = DivisionByZero

  /** The node-count and time-step-count prompts accept an integer of at least 1. */
  predicate AcceptCount(n: int) {
    n >= 1
  }

  /** The scheme prompt accepts "f" (forward Euler) and "b" (backward Euler)
      and asks again for anything else. */
  function ParseScheme(s: string): (r: Option<Scheme>)
    ensures r == Some(Forward) <==> s == "f"
    ensures r == Some(Backward) <==> s == "b"
  {
    if s == "f" then Some(Forward) else if s == "b" then Some(Backward) else None
  }

  /** The mesh: `Ne` elements of width `dx` and time steps of length `dt`. */
  datatype Grid = Grid(ne: nat, dx: real, dt: real)

  /** `Ne = Nn - 1`, `dx = (xf - x0)/Ne`, `dt = (tf - t0)/Nt`; a single node
      leaves no element, and the division by `Ne` fails. */
  function Discretize(nn: nat, nt: nat): (r: Result<Grid, FeError>)
    requires AcceptCount(nn) && AcceptCount(nt)
    ensures r.Err? <==> nn == 1
    ensures r.Ok? ==> r.value.ne == nn - 1 && r.value.ne >= 1
    ensures r.Ok? ==> r.value.dx * (r.value.ne as real) == XF - X0 && r.value.dt * (nt as real) == TF - T0
  {
    var ne := nn - 1;
    if ne == 0 then Err(DivisionByZero)
    else Ok(Grid(ne, (XF - X0) / (ne as real), (TF - T0) / (nt as real)))
  }

  /** `mLocal`, the element mass matrix: symmetric, and its four entries add
      up to the element's length (the integral of N1 + N2 = 1 against itself). */
  function MassLocal(dx: real): (l: Local)
    ensures Symmetric(l)
    ensures l.a00 + l.a01 + l.a10 + l.a11 == dx
  {
    Local(dx / 3.0, 1.0 * dx / 6.0, 1.0 * dx / 6.0, dx / 3.0)
  }

  /** `kLocal`, the element stiffness matrix: symmetric, and each row sums to
      zero, so a state constant over the element stores no energy. */
  function StiffnessLocal(dx: real): (l: Local)
    requires dx != 0.0
    ensures Symmetric(l)
    ensures l.a00 + l.a01 == 0.0 && l.a10 + l.a11 == 0.0
  {
    Local(1.0 / dx, -1.0 / dx, -1.0 / dx, 1.0 / dx)
  }

  /** Entry (r, c) of a global matrix after elements 0 … k-1 have been added
      into an all-zero one. */
  function Assembled(l: Local, k: nat, r: nat, c: nat): real {
    if k == 0 then 0.0 else Assembled(l, k - 1, r, c) + Contribution(l, k - 1, r, c)
  }

  /** The assembled matrix is tridiagonal: the diagonal collects a00 from the
      element on its right and a11 from the element on its left, and the two
      neighbours of the diagonal hold a01 and a10 of the element between them. */
  lemma {:induction false} AssembledClosedForm(l: Local, k: nat, r: nat, c: nat)
    ensures Assembled(l, k, r, c) ==
      if r == c then (if r < k then l.a00 else 0.0) + (if 1 <= r <= k then l.a11 else 0.0)
      else if c == r + 1 then (if r < k then l.a01 else 0.0)
      else if r == c + 1 then (if c < k then l.a10 else 0.0)
      else 0.0
  {
    if k > 0 {
      AssembledClosedForm(l, k - 1, r, c);
    }
  }

  /** Entries more than one place off the diagonal are never touched. */
  lemma AssembledBanded(l: Local, k: nat, r: nat, c: nat)
    requires r > c + 1 || c > r + 1
    ensures Assembled(l, k, r, c) == 0.0
  {
    AssembledClosedForm(l, k, r, c);
  }

  /** Symmetric element matrices assemble into a symmetric matrix. */
  lemma AssembledSymmetric(l: Local, k: nat, r: nat, c: nat)
    requires Symmetric(l)
    ensures Assembled(l, k, r, c) == Assembled(l, k, c, r)
  {
    AssembledClosedForm(l, k, r, c);
    AssembledClosedForm(l, k, c, r);
  }

  /** At an interior node r (with elements on both sides), K has 2/dx on the
      diagonal and -1/dx beside it, and M has 2dx/3 and dx/6. */
  lemma InteriorValues(dx: real, k: nat, r: nat)
    requires dx != 0.0 && 1 <= r < k
    ensures Assembled(StiffnessLocal(dx), k, r, r) == 2.0 / dx
    ensures Assembled(StiffnessLocal(dx), k, r, r - 1) == -1.0 / dx
    ensures Assembled(StiffnessLocal(dx), k, r, r + 1) == -1.0 / dx
    ensures Assembled(MassLocal(dx), k, r, r) == 2.0 * dx / 3.0
    ensures Assembled(MassLocal(dx), k, r, r - 1) == dx / 6.0
    ensures Assembled(MassLocal(dx), k, r, r + 1) == dx / 6.0
  {
    AssembledClosedForm(StiffnessLocal(dx), k, r, r);
    AssembledClosedForm(StiffnessLocal(dx), k, r, r - 1);
    AssembledClosedForm(StiffnessLocal(dx), k, r, r + 1);
    AssembledClosedForm(MassLocal(dx), k, r, r);
    AssembledClosedForm(MassLocal(dx), k, r, r - 1);
    AssembledClosedForm(MassLocal(dx), k, r, r + 1);
  }

  /** `quadrature(i*dx, (i+1)*dx, t)`: the two load integrals of element i. */
  function ElementLoad(quad: (real, real, real) -> (real, real), dx: real, t: real, i: nat): (real, real) {
    quad((i as real) * dx, ((i + 1) as real) * dx, t)
  }

  /** Entry r of a load vector after elements 0 … k-1 have been added into an
      all-zero one. */
  function AssembledLoad(quad: (real, real, real) -> (real, real), dx: real, t: real, k: nat, r: nat): real {
    if k == 0 then 0.0
    else
      var f := ElementLoad(quad, dx, t, k - 1);
      AssembledLoad(quad, dx, t, k - 1, r) + (if r == k - 1 then f.0 else if r == k then f.1 else 0.0)
  }

  /** Node r receives the first integral of the element on its right and the
      second integral of the element on its left, and nothing else. */
  lemma {:induction false} AssembledLoadClosedForm(quad: (real, real, real) -> (real, real), dx: real, t: real, k: nat, r: nat)
    ensures AssembledLoad(quad, dx, t, k, r) ==
      (if r < k then ElementLoad(quad, dx, t, r).0 else 0.0)
      + (if 1 <= r <= k then ElementLoad(quad, dx, t, r - 1).1 else 0.0)
  {
    if k > 0 {
      AssembledLoadClosedForm(quad, dx, t, k - 1, r);
    }
  }

  /** The element loop of the driver: for each element, the two load integrals
      go into F[i] and F[i+1], and `globalAssemble` adds `mLocal` into M and
      `kLocal` into K. */
  method AssembleElements(M: array2<real>, K: array2<real>, F: array<real>, ne: nat, dx: real, t: real,
                          quad: (real, real, real) -> (real, real))
    requires M != K && dx != 0.0
    requires M.Length0 == M.Length1 == K.Length0 == K.Length1 == F.Length == ne + 1
    modifies M, K, F
    ensures forall r, c :: 0 <= r <= ne && 0 <= c <= ne ==>
      M[r, c] == old(M[r, c]) + Assembled(MassLocal(dx), ne, r, c)
      && K[r, c] == old(K[r, c]) + Assembled(StiffnessLocal(dx), ne, r, c)
    ensures forall r :: 0 <= r <= ne ==> F[r] == old(F[r]) + AssembledLoad(quad, dx, t, ne, r)
  {
    var mass, stiffness := MassLocal(dx), StiffnessLocal(dx);
    var i := 0;
    while i < ne
      invariant 0 <= i <= ne
      invariant forall r, c :: 0 <= r <= ne && 0 <= c <= ne ==>
        M[r, c] == old(M[r, c]) + Assembled(mass, i, r, c)
        && K[r, c] == old(K[r, c]) + Assembled(stiffness, i, r, c)
      invariant forall r :: 0 <= r <= ne ==> F[r] == old(F[r]) + AssembledLoad(quad, dx, t, i, r)
    {
      var fLocal := ElementLoad(quad, dx, t, i);
      F[i] := F[i] + fLocal.0;
      F[i + 1] := F[i + 1] + fLocal.1;
      var _ := GlobalAssemble(M, mass, i);
      var _ := GlobalAssemble(K, stiffness, i);
      i := i + 1;
    }
  }

  /** Entry (r, c) of an n×n matrix after the Dirichlet step: 1 at the two
      corners (0, 0) and (n-1, n-1), 0 elsewhere in the first and last rows and
      columns, and unchanged inside. */
  function DirichletEntry(g: real, n: nat, r: nat, c: nat): real {
    if (r == 0 && c == 0) || (r == n - 1 && c == n - 1) then 1.0
    else if r == 0 || c == 0 || r == n - 1 || c == n - 1 then 0.0
    else g
  }

  /** The boundary step for u(0, t) = u(1, t) = 0, applied to M and K entry by
      entry, and to F at both ends. */
  method ApplyDirichlet(M: array2<real>, K: array2<real>, F: array<real>, n: nat)
    requires M != K
    requires M.Length0 == M.Length1 == K.Length0 == K.Length1 == F.Length == n
    modifies M, K, F
    ensures forall r, c :: 0 <= r < n && 0 <= c < n ==>
      M[r, c] == DirichletEntry(old(M[r, c]), n, r, c) && K[r, c] == DirichletEntry(old(K[r, c]), n, r, c)
    ensures forall r :: 0 <= r < n ==> F[r] == if r == 0 || r == n - 1 then 0.0 else old(F[r])
  {
    var i := 0;
    while i < n
      invariant 0 <= i <= n
      invariant forall r, c :: 0 <= r < n && 0 <= c < n ==>
        M[r, c] == (if r < i then DirichletEntry(old(M[r, c]), n, r, c) else old(M[r, c]))
        && K[r, c] == (if r < i then DirichletEntry(old(K[r, c]), n, r, c) else old(K[r, c]))
      invariant forall r :: 0 <= r < n ==> F[r] == if r < i && (r == 0 || r == n - 1) then 0.0 else old(F[r])
    {
      var j := 0;
      while j < n
        invariant 0 <= j <= n
        invariant forall r, c :: 0 <= r < n && 0 <= c < n ==>
          M[r, c] == (if r < i || (r == i && c < j) then DirichletEntry(old(M[r, c]), n, r, c) else old(M[r, c]))
          && K[r, c] == (if r < i || (r == i && c < j) then DirichletEntry(old(K[r, c]), n, r, c) else old(K[r, c]))
        invariant forall r :: 0 <= r < n ==> F[r] == if r < i && (r == 0 || r == n - 1) then 0.0 else old(F[r])
      {
        if (i == 0 && j == 0) || (i == n - 1 && j == n - 1) {
          M[i, j] := 1.0;
          K[i, j] := 1.0;
        } else if i == 0 || j == 0 || i == n - 1 || j == n - 1 {
          M[i, j] := 0.0;
          K[i, j] := 0.0;
        }
        j := j + 1;
      }
      if i == 0 || i == n - 1 {
        F[i] := 0.0;
      }
      i := i + 1;
    }
  }

  /** The Dirichlet step keeps a symmetric matrix symmetric and a banded one
      banded. */
  lemma DirichletKeepsShape(g: real, h: real, n: nat, r: nat, c: nat)
    ensures g == h ==> DirichletEntry(g, n, r, c) == DirichletEntry(h, n, c, r)
    ensures g == 0.0 ==> DirichletEntry(g, n, r, c) == 0.0 || r == c
  {
  }

  /** M or K as the solver uses them: the n-1 elements assembled into zeros,
      then the Dirichlet step. */
  function SystemMatrix(l: Local, n: nat): (g: seq<seq<real>>)
    requires n >= 1
    ensures IsMatrix(g, n, n)
    ensures forall r, c :: 0 <= r < n && 0 <= c < n ==> g[r][c] == DirichletEntry(Assembled(l, n - 1, r, c), n, r, c)
  {
    seq(n, r requires 0 <= r < n => seq(n, c requires 0 <= c < n => DirichletEntry(Assembled(l, n - 1, r, c), n, r, c)))
  }

  /** The system matrix is symmetric when the element matrix is, and
      tridiagonal; its first and last rows are those of the identity. */
  lemma SystemMatrixShape(l: Local, n: nat, r: nat, c: nat)
    requires n >= 1 && r < n && c < n
    ensures Symmetric(l) ==> SystemMatrix(l, n)[r][c] == SystemMatrix(l, n)[c][r]
    ensures r > c + 1 || c > r + 1 ==> SystemMatrix(l, n)[r][c] == 0.0
    ensures r == 0 || r == n - 1 ==> SystemMatrix(l, n)[r][c] == if c == r then 1.0 else 0.0
  {
    AssembledClosedForm(l, n - 1, r, c);
    AssembledClosedForm(l, n - 1, c, r);
  }

  /** The load vector at time t: the elements assembled into zeros, then both
      end entries cleared. */
  function BoundaryLoad(quad: (real, real, real) -> (real, real), dx: real, t: real, ne: nat): (f: seq<real>)
    ensures |f| == ne + 1 && f[0] == 0.0 && f[ne] == 0.0
    ensures forall r :: 0 < r < ne ==> f[r] == AssembledLoad(quad, dx, t, ne, r)
  {
    seq(ne + 1, r requires 0 <= r <= ne => if r == 0 || r == ne then 0.0 else AssembledLoad(quad, dx, t, ne, r))
  }

  /** The load rebuild at the top of every time step: F starts from zero, the
      element integrals at the new time are added, and both ends are zeroed. */
  method RebuildLoad(ne: nat, dx: real, t: real, quad: (real, real, real) -> (real, real)) returns (F: array<real>)
    ensures fresh(F)
    ensures F[..] == BoundaryLoad(quad, dx, t, ne)
  {
    F := new real[ne + 1](_ => 0.0);
    var i := 0;
    while i < ne
      invariant 0 <= i <= ne && F.Length == ne + 1
      invariant forall r :: 0 <= r <= ne ==> F[r] == AssembledLoad(quad, dx, t, i, r)
    {
      var fLocal := ElementLoad(quad, dx, t, i);
      F[i] := F[i] + fLocal.0;
      F[i + 1] := F[i + 1] + fLocal.1;
      i := i + 1;
    }
    F[0] := 0.0;
    F[ne] := 0.0;
    ghost var f := BoundaryLoad(quad, dx, t, ne);
    forall r | 0 <= r <= ne ensures F[r] == f[r] { }
  }

  /** The time after k steps of length dt. */
  function TimeAfter(k: nat, dt: real): real {
    T0 + (k as real) * dt
  }

  /** The solution after k time steps: step j (from 1) rebuilds the load at
      time j·dt and applies the update to the previous solution and that load. */
  function Iterate(step: (seq<real>, seq<real>) -> seq<real>, quad: (real, real, real) -> (real, real),
                   u0: seq<real>, ne: nat, dx: real, dt: real, k: nat): seq<real>
  {
    if k == 0 then u0
    else step(Iterate(step, quad, u0, ne, dx, dt, k - 1), BoundaryLoad(quad, dx, TimeAfter(k, dt), ne))
  }

  /** The time-marching loop (either scheme): Nt - 1 steps, each advancing t by
      dt, rebuilding F and applying the update. */
  method March(step: (seq<real>, seq<real>) -> seq<real>, quad: (real, real, real) -> (real, real),
               u0: seq<real>, ne: nat, dx: real, dt: real, nt: nat)
    returns (u: seq<real>, t: real)
    requires AcceptCount(nt)
    ensures t == TimeAfter(nt - 1, dt)
    ensures u == Iterate(step, quad, u0, ne, dx, dt, nt - 1)
  {
    u, t := u0, T0;
    var i := 0;
    while i < nt - 1
      invariant 0 <= i <= nt - 1
      invariant t == TimeAfter(i, dt)
      invariant u == Iterate(step, quad, u0, ne, dx, dt, i)
    {
      t := t + dt;
      var F := RebuildLoad(ne, dx, t, quad);
      u := step(u, F[..]);
      i := i + 1;
    }
  }

  /** The loop stops one step short of the end time: the last solution is at
      t = tf - dt, not at tf (exactly so in real arithmetic). */
  lemma FinalTime(nt: nat)
    requires AcceptCount(nt)
    ensures TimeAfter(nt - 1, (TF - T0) / (nt as real)) == TF - (TF - T0) / (nt as real)
  {
    var n := nt as real;
    var d := 1.0 / n;
    assert n * d == 1.0;
    assert (n - 1.0) * d == n * d - d;
  }

  /** One time step of the chosen scheme, with M, K and dt fixed. */
  function StepOf(update: (Scheme, seq<seq<real>>, seq<seq<real>>, real, seq<real>, seq<real>) -> seq<real>,
                  scheme: Scheme, m: seq<seq<real>>, k: seq<seq<real>>, dt: real): (seq<real>, seq<real>) -> seq<real>
  {
    (u: seq<real>, f: seq<real>) => update(scheme, m, k, dt, u, f)
  }

  /** What the driver computes: the solution at the last time reached and that
      time, or the division by zero of a single-node mesh. `update` is the
      Euler update of the chosen scheme, given M, K, dt, u and F. */
  function Solution(nn: nat, nt: nat, scheme: Scheme, quad: (real, real, real) -> (real, real),
                    update: (Scheme, seq<seq<real>>, seq<seq<real>>, real, seq<real>, seq<real>) -> seq<real>,
                    u0: seq<real>): (r: Result<(seq<real>, real), FeError>)
    requires AcceptCount(nn) && AcceptCount(nt)
    ensures r.Err? <==> nn == 1
  {
    match Discretize(nn, nt)
    case Err(e) => Err(e)
    case Ok(grid) =>
      var m := SystemMatrix(MassLocal(grid.dx), nn);
      var k := SystemMatrix(StiffnessLocal(grid.dx), nn);
      var step := StepOf(update, scheme, m, k, grid.dt);
      Ok((Iterate(step, quad, u0, grid.ne, grid.dx, grid.dt, nt - 1), TimeAfter(nt - 1, grid.dt)))
  }

  /** M, K and the initial F assembled at t0 and passed through the Dirichlet step. */
  method AssembleSystem(nn: nat, dx: real, quad: (real, real, real) -> (real, real))
    returns (M: array2<real>, K: array2<real>, F: array<real>)
    requires nn >= 2 && dx != 0.0
    ensures Rows(M) == SystemMatrix(MassLocal(dx), nn)
    ensures Rows(K) == SystemMatrix(StiffnessLocal(dx), nn)
    ensures F[..] == BoundaryLoad(quad, dx, T0, nn - 1)
  {
    F := new real[nn](_ => 0.0);
    M := NewZeros(nn, nn);
    K := NewZeros(nn, nn);
    AssembleElements(M, K, F, nn - 1, dx, T0, quad);
    ApplyDirichlet(M, K, F, nn);
    ghost var m, k := SystemMatrix(MassLocal(dx), nn), SystemMatrix(StiffnessLocal(dx), nn);
    forall r | 0 <= r < nn ensures Rows(M)[r] == m[r] && Rows(K)[r] == k[r] { }
  }

  /** The driver: discretise, assemble, apply the boundary step and march. */
  method Solve(nn: nat, nt: nat, scheme: Scheme, quad: (real, real, real) -> (real, real),
               update: (Scheme, seq<seq<real>>, seq<seq<real>>, real, seq<real>, seq<real>) -> seq<real>,
               u0: seq<real>)
    returns (r: Result<(seq<real>, real), FeError>)
    requires AcceptCount(nn) && AcceptCount(nt)
    ensures r == Solution(nn, nt, scheme, quad, update, u0)
  {
    var grid := Discretize(nn, nt);
    if grid.Err? {
      return Err(grid.error);
    }
    var ne, dx, dt := grid.value.ne, grid.value.dx, grid.value.dt;
    var M, K, F := AssembleSystem(nn, dx, quad);
    var m, k := Rows(M), Rows(K);
    var step := StepOf(update, scheme, m, k, dt);
    var u, t := March(step, quad, u0, ne, dx, dt, nt);
    return Ok((u, t));
  }

  /** A single node is accepted by the prompt but makes `dx` divide by zero. */
  lemma SingleNodeFails(nt: nat, scheme: Scheme, quad: (real, real, real) -> (real, real),
                        update: (Scheme, seq<seq<real>>, seq<seq<real>>, real, seq<real>, seq<real>) -> seq<real>,
                        u0: seq<real>)
    requires AcceptCount(nt)
    ensures AcceptCount(1) && Solution(1, nt, scheme, quad, update, u0) == Err(DivisionByZero)
  {
  }

  /** Whenever the driver succeeds, the time it reports is tf - dt. */
  lemma SolutionTime(nn: nat, nt: nat, scheme: Scheme, quad: (real, real, real) -> (real, real),
                     update: (Scheme, seq<seq<real>>, seq<seq<real>>, real, seq<real>, seq<real>) -> seq<real>,
                     u0: seq<real>)
    requires AcceptCount(nn) && AcceptCount(nt)
    ensures var r := Solution(nn, nt, scheme, quad, update, u0);
      r.Ok? ==> r.value.1 == TF - (TF - T0) / (nt as real)
  {
    FinalTime(nt);
  }
}

/**
 * Flux-based standard upwinding (UpwindStandard): for every face, the value
 * of a cell-centred field to use in an advection term, chosen from the sign
 * of the face flux, the face's boundary condition, and a tolerance that makes
 * near-zero fluxes average the two neighbouring cells by volume.
 *
 * The sweep of Compute is specified by SweepCells, a fold over the cells and
 * their faces in the order the code visits them; FaceValue states the result
 * face by face without any order, and ComputedFace proves the two agree on a
 * conforming mesh.
 */
module UpwindStandard {
  import opened ParameterLists
  import opened UpwindMesh

  /**
   * A face's boundary-condition marker (bc_model). The sweep tests for none,
   * Dirichlet, Neumann and mixed; any other marker only meets the outflow test.
   */
  datatype BcKind = BcNone | BcDirichlet | BcNeumann | BcMixed | BcOther(code: int)

  /** The upwind method Init selects: upwinding by the sign of the flux. */
  datatype UpwindMethod = UpwindFlux

  /** The default relative tolerance when "tolerance" is not given. */
  const RelativeTolerance: real := 0.000000000001

  /** The three settings Init reads. */
  datatype Settings = Settings(upwindMethod: UpwindMethod, tolerance: real, order: int)

  /**
   * The settings a parameter list gives: the flux method always, "tolerance"
   * (a double) or RelativeTolerance, "order" (an int) or 1; a stored value of
   * another type fails as Teuchos does.
   */
  function ReadSettings(plist: ParameterList): (r: Result<Settings, ConfigError>)
    ensures r.Ok? <==>
      ("tolerance" in plist.entries ==> plist.entries["tolerance"].Double?) &&
      ("order" in plist.entries ==> plist.entries["order"].Int?)
    ensures r.Ok? ==> r.value.upwindMethod == UpwindFlux
    ensures r.Ok? ==>
      r.value.tolerance == (if "tolerance" in plist.entries then plist.entries["tolerance"].d else RelativeTolerance)
    ensures r.Ok? ==> r.value.order == (if "order" in plist.entries then plist.entries["order"].i else 1)
    ensures r.Err? ==> r.error == InvalidParameterType(
      if "tolerance" in plist.entries && !plist.entries["tolerance"].Double? then "tolerance" else "order")
  {
    match GetDoubleOr(plist, "tolerance", RelativeTolerance)
    case Err(e) => Err(e)
    case Ok(tolerance) =>
      match GetIntOr(plist, "order", 1)
      case Err(e) => Err(e)
      case Ok(order) => Ok(Settings(UpwindFlux, tolerance, order))
  }

  /** The parameter list that states the settings s explicitly. */
  function SettingsList(s: Settings): ParameterList
  {
    ParameterList(map["tolerance" := Double(s.tolerance), "order" := Int(s.order)])
  }

  /** Reading back a list that states every setting gives those settings. */
  lemma ReadSettingsRoundTrip(s: Settings)
    ensures ReadSettings(SettingsList(s)) == Ok(s)
  {
    var p := SettingsList(s);
    assert p.entries["tolerance"] == Double(s.tolerance) && p.entries["order"] == Int(s.order);
    assert GetDoubleOr(p, "tolerance", RelativeTolerance) == Ok(s.tolerance);
    assert GetIntOr(p, "order", 1) == Ok(s.order);
    assert s == Settings(UpwindFlux, s.tolerance, s.order);
  }

  /**
   * What Compute reads besides the mesh: the face flux, the face boundary
   * markers and values, the cell field, and the model's value function used
   * on Dirichlet inflow faces.
   */
  datatype Inputs = Inputs(
    flux: seq<real>,
    bcModel: seq<BcKind>,
    bcValue: seq<real>,
    field: seq<real>,
    value: (nat, real) -> real)

  /** The inputs are sized to the mesh: one flux, marker and value per face, one field value per cell. */
  ghost predicate Fits(m: Mesh, d: Inputs)
  {
    && m.WellFormed()
    && |d.flux| == m.NumFaces()
    && |d.bcModel| == m.NumFaces()
    && |d.bcValue| == m.NumFaces()
    && |d.field| == m.NumCells()
  }

  function Abs(x: real): real
  {
    if x < 0.0 then -x else x
  }

  function Max(x: real, y: real): real
  {
    if x < y then y else x
  }

  /** The smallest entry (MinValue). */
  function MinValue(s: seq<real>): (r: real)
    requires |s| > 0
    ensures exists i :: 0 <= i < |s| && s[i] == r
    ensures forall i :: 0 <= i < |s| ==> r <= s[i]
  {
    if |s| == 1 then s[0]
    else
      var t := MinValue(s[1..]);
      assert forall i :: 1 <= i < |s| ==> s[i] == s[1..][i - 1];
      if s[0] <= t then s[0] else t
  }

  /** The largest entry (MaxValue). */
  function MaxValue(s: seq<real>): (r: real)
    requires |s| > 0
    ensures exists i :: 0 <= i < |s| && s[i] == r
    ensures forall i :: 0 <= i < |s| ==> s[i] <= r
  {
    if |s| == 1 then s[0]
    else
      var t := MaxValue(s[1..]);
      assert forall i :: 1 <= i < |s| ==> s[i] == s[1..][i - 1];
      if t <= s[0] then s[0] else t
  }

  /**
   * The flux scale of a sweep: the larger of |smallest flux| and |largest
   * flux|, which is the largest |flux| of any face. With no face at all
   * nothing is visited and the model takes 0.
   */
  function FluxScale(flux: seq<real>): (m: real)
    ensures m >= 0.0
    ensures forall j :: 0 <= j < |flux| ==> Abs(flux[j]) <= m
    ensures |flux| > 0 ==> exists i :: 0 <= i < |flux| && m == Abs(flux[i])
  {
    if |flux| == 0 then 0.0
    else
      var lo, hi := MinValue(flux), MaxValue(flux);
      assert forall j :: 0 <= j < |flux| ==> lo <= flux[j] <= hi;
      Max(Abs(lo), Abs(hi))
  }

  /** The one tolerance of a sweep: the relative tolerance times the flux scale. */
  function FlowTolerance(relTol: real, flux: seq<real>): (tol: real)
    ensures relTol >= 0.0 ==> tol >= 0.0
  {
    NonNegativeProduct(relTol, FluxScale(flux));
    relTol * FluxScale(flux)
  }

  lemma NonNegativeProduct(x: real, y: real)
    requires y >= 0.0
    ensures x >= 0.0 ==> x * y >= 0.0
  {
  }

  /** The upwind flag: flow enters the cell through the face. The cut-off is inclusive. */
  predicate Inflow(q: real, dir: int, tol: real)
  {
    q * dir as real <= -tol
  }

  /**
   * The share of cell c in the average on a near-zero face f: the volume of
   * the cell across f over the sum of both volumes, or one half when f has no
   * cell across it.
   */
  function Share(m: Mesh, c: nat, f: nat): (w: real)
    requires m.WellFormed() && c < m.NumCells() && f < m.NumFaces()
    ensures 0.0 < w < 1.0
  {
    var c2 := m.AdjCell(c, f);
    if c2 >= 0 then
      var v1, v2 := m.volume[c], m.volume[c2];
      assert v1 > 0.0 && v2 > 0.0;
      v2 / (v1 + v2)
    else 0.5
  }

  /** What one visit to face fd.face from cell c does to the face's current upwind value u. */
  function Visit(m: Mesh, d: Inputs, tol: real, c: nat, fd: FaceDir, u: real): real
    requires Fits(m, d) && c < m.NumCells() && fd.face < m.NumFaces()
  {
    var f := fd.face;
    var kc := d.field[c];
    var flag := Inflow(d.flux[f], fd.dir, tol);
    if d.bcModel[f] == BcNone && Abs(d.flux[f]) <= tol then u + kc * Share(m, c, f)
    else if d.bcModel[f] == BcDirichlet && flag then d.value(c, d.bcValue[f])
    else if d.bcModel[f] == BcNeumann && flag then kc
    else if d.bcModel[f] == BcMixed && flag then kc
    else if !flag then kc
    else u
  }

  /** The face values after the sweep has visited, in order, the faces fds of cell c. */
  function SweepFaces(m: Mesh, d: Inputs, tol: real, c: nat, fds: seq<FaceDir>, u: seq<real>): (r: seq<real>)
    requires Fits(m, d) && c < m.NumCells() && |u| == m.NumFaces()
    requires forall i :: 0 <= i < |fds| ==> fds[i].face < m.NumFaces()
    ensures |r| == |u|
  {
    if fds == [] then u
    else
      var v := SweepFaces(m, d, tol, c, fds[..|fds| - 1], u);
      var fd := fds[|fds| - 1];
      v[fd.face := Visit(m, d, tol, c, fd, v[fd.face])]
  }

  /** Sweeping one more face of cell c applies one more visit. */
  lemma SweepFacesSnoc(m: Mesh, d: Inputs, tol: real, c: nat, fds: seq<FaceDir>, n: nat, u: seq<real>)
    requires Fits(m, d) && c < m.NumCells() && |u| == m.NumFaces() && n < |fds|
    requires forall i :: 0 <= i < |fds| ==> fds[i].face < m.NumFaces()
    ensures var v := SweepFaces(m, d, tol, c, fds[..n], u);
            SweepFaces(m, d, tol, c, fds[..n + 1], u) == v[fds[n].face := Visit(m, d, tol, c, fds[n], v[fds[n].face])]
  {
    assert fds[..n + 1][..n] == fds[..n] && fds[..n + 1][n] == fds[n];
  }

  /** The face values after the sweep has visited cells 0 .. k-1, each with all its faces. */
  function SweepCells(m: Mesh, d: Inputs, tol: real, k: nat, u: seq<real>): (r: seq<real>)
    requires Fits(m, d) && k <= m.NumCells() && |u| == m.NumFaces()
    ensures |r| == |u|
  {
    if k == 0 then u
    else SweepFaces(m, d, tol, k - 1, m.cellFaces[k - 1], SweepCells(m, d, tol, k - 1, u))
  }

  function Zeros(n: nat): (z: seq<real>)
    ensures |z| == n && forall i :: 0 <= i < n ==> z[i] == 0.0
  {
    seq(n, _ => 0.0)
  }

  /** The face component Compute leaves: zeroed, then swept over every used cell. */
  function Upwinded(m: Mesh, d: Inputs, relTol: real): (r: seq<real>)
    requires Fits(m, d)
    ensures |r| == m.NumFaces()
  {
    SweepCells(m, d, FlowTolerance(relTol, d.flux), m.NumCells(), Zeros(m.NumFaces()))
  }

  /** The value face f holds after the visits hs, in order, starting from u. */
  function Replay(m: Mesh, d: Inputs, tol: real, f: nat, u: real, hs: seq<CellDir>): real
    requires Fits(m, d) && f < m.NumFaces()
    requires forall i :: 0 <= i < |hs| ==> hs[i].cell < m.NumCells()
  {
    if hs == [] then u
    else
      var h := hs[|hs| - 1];
      Visit(m, d, tol, h.cell, FaceDir(f, h.dir), Replay(m, d, tol, f, u, hs[..|hs| - 1]))
  }

  lemma {:induction false} ReplayAppend(m: Mesh, d: Inputs, tol: real, f: nat, u: real, a: seq<CellDir>, b: seq<CellDir>)
    requires Fits(m, d) && f < m.NumFaces()
    requires forall i :: 0 <= i < |a| ==> a[i].cell < m.NumCells()
    requires forall i :: 0 <= i < |b| ==> b[i].cell < m.NumCells()
    ensures Replay(m, d, tol, f, u, a + b) == Replay(m, d, tol, f, Replay(m, d, tol, f, u, a), b)
  {
    if b != [] {
      var b' := b[..|b| - 1];
      assert (a + b)[..|a + b| - 1] == a + b';
      ReplayAppend(m, d, tol, f, u, a, b');
    } else {
      assert a + b == a;
    }
  }

  /** Sweeping a cell's faces changes face f only through that cell's visits to f. */
  lemma {:induction false} SweepFacesAt(m: Mesh, d: Inputs, tol: real, c: nat, fds: seq<FaceDir>, u: seq<real>, f: nat)
    requires Fits(m, d) && c < m.NumCells() && |u| == m.NumFaces() && f < m.NumFaces()
    requires forall i :: 0 <= i < |fds| ==> fds[i].face < m.NumFaces()
    ensures SweepFaces(m, d, tol, c, fds, u)[f] == Replay(m, d, tol, f, u[f], VisitsInCell(c, fds, f))
  {
    if fds != [] {
      var init := fds[..|fds| - 1];
      SweepFacesAt(m, d, tol, c, init, u, f);
      var prev := VisitsInCell(c, init, f);
      var fd := fds[|fds| - 1];
      if fd.face == f {
        var hs := prev + [CellDir(c, fd.dir)];
        assert hs[..|hs| - 1] == prev;
      } else {
        assert VisitsInCell(c, fds, f) == prev + [];
        assert prev + [] == prev;
        assert SweepFaces(m, d, tol, c, fds, u)[f] == SweepFaces(m, d, tol, c, init, u)[f];
      }
    }
  }

  /** Sweeping cell c extends the replay of face f by the visits of cell c. */
  lemma SweepCellStep(m: Mesh, d: Inputs, tol: real, c: nat, u: seq<real>, f: nat)
    requires Fits(m, d) && c < m.NumCells() && |u| == m.NumFaces() && f < m.NumFaces()
    requires SweepCells(m, d, tol, c, u)[f] == Replay(m, d, tol, f, u[f], m.History(c, f))
    ensures SweepCells(m, d, tol, c + 1, u)[f] == Replay(m, d, tol, f, u[f], m.History(c + 1, f))
  {
    var v := SweepCells(m, d, tol, c, u);
    var fds := m.cellFaces[c];
    assert forall i :: 0 <= i < |fds| ==> fds[i].face < m.NumFaces();
    SweepFacesAt(m, d, tol, c, fds, v, f);
    var hs := m.History(c, f);
    var vis := VisitsInCell(c, fds, f);
    assert forall i :: 0 <= i < |hs| ==> hs[i].cell < m.NumCells();
    ReplayAppend(m, d, tol, f, u[f], hs, vis);
    assert SweepCells(m, d, tol, c + 1, u) == SweepFaces(m, d, tol, c, fds, v);
    assert m.History(c + 1, f) == hs + vis;
  }

  /** The sweep over cells 0 .. k-1 gives face f the value of replaying that face's history. */
  lemma {:induction false} SweepCellsAt(m: Mesh, d: Inputs, tol: real, k: nat, u: seq<real>, f: nat)
    requires Fits(m, d) && k <= m.NumCells() && |u| == m.NumFaces() && f < m.NumFaces()
    ensures SweepCells(m, d, tol, k, u)[f] == Replay(m, d, tol, f, u[f], m.History(k, f))
  {
    if k > 0 {
      SweepCellsAt(m, d, tol, k - 1, u, f);
      SweepCellStep(m, d, tol, k - 1, u, f);
    }
  }

  /**
   * On a face without boundary condition, two visits from cells that see the
   * face with opposite signs give the same value in either order: the result
   * on an internal face does not depend on which neighbour is swept first.
   */
  lemma VisitOrderIrrelevant(m: Mesh, d: Inputs, tol: real, f: nat, u: real, x: CellDir, y: CellDir)
    requires Fits(m, d) && f < m.NumFaces() && x.cell < m.NumCells() && y.cell < m.NumCells()
    requires d.bcModel[f] == BcNone
    requires x.dir == -y.dir && (x.dir == 1 || x.dir == -1)
    ensures Replay(m, d, tol, f, u, [x, y]) == Replay(m, d, tol, f, u, [y, x])
  {
    assert [x, y][..1] == [x] && [y, x][..1] == [y];
    assert [x][..0] == [] && [y][..0] == [];
    if Abs(d.flux[f]) > tol {
      OneSideIsInflow(d.flux[f], x.dir, tol);
    }
  }

  /** Away from the tolerance, one of the two cells of an internal face sees the flow coming in. */
  lemma OneSideIsInflow(q: real, dir: int, tol: real)
    requires dir == 1 || dir == -1
    requires Abs(q) > tol
    ensures Inflow(q, dir, tol) || Inflow(q, -dir, tol)
  {
    if dir == 1 {
      assert q * dir as real == q && q * (-dir) as real == -q;
    } else {
      assert q * dir as real == -q && q * (-dir) as real == q;
    }
  }

  /**
   * The volume-weighted average of two neighbouring cell values:
   * k1 v2/(v1+v2) + k2 v1/(v1+v2). It lies between the two values.
   */
  function VolumeAverage(k1: real, k2: real, v1: real, v2: real): (r: real)
    requires v1 > 0.0 && v2 > 0.0
    ensures (k1 <= k2 ==> k1 <= r <= k2) && (k2 <= k1 ==> k2 <= r <= k1)
  {
    var w1, w2 := v2 / (v1 + v2), v1 / (v1 + v2);
    WeightsSumToOne(v1, v2);
    assert k1 * w1 + k2 * w2 == k1 + (k2 - k1) * w2;
    assert 0.0 < w2 < 1.0;
    BetweenEnds(k1, k2, w2);
    k1 * w1 + k2 * w2
  }

  lemma BetweenEnds(k1: real, k2: real, w: real)
    requires 0.0 < w < 1.0
    ensures k1 <= k2 ==> k1 <= k1 + (k2 - k1) * w <= k2
    ensures k2 <= k1 ==> k2 <= k1 + (k2 - k1) * w <= k1
  {
    var g := k2 - k1;
    if k1 <= k2 {
      NonNegativeProduct(w, g);
      NonNegativeProduct(1.0 - w, g);
      assert g * w + (1.0 - w) * g == g;
    } else {
      NonNegativeProduct(w, -g);
      NonNegativeProduct(1.0 - w, -g);
      assert w * (-g) + (1.0 - w) * (-g) == -g;
    }
  }

  /** The two weights of the volume average are positive and sum to one. */
  lemma WeightsSumToOne(v1: real, v2: real)
    requires v1 > 0.0 && v2 > 0.0
    ensures v2 / (v1 + v2) + v1 / (v1 + v2) == 1.0
    ensures 0.0 < v2 / (v1 + v2) < 1.0 && 0.0 < v1 / (v1 + v2) < 1.0
  {
  }

  /**
   * The upwind value of face f, stated case by case without any visiting
   * order, for a boundary face (one cell) or an internal face without a
   * boundary condition:
   *   near-zero flux, internal: the volume-weighted average of both cells;
   *   near-zero flux, boundary, no condition: half the cell value;
   *   internal with flux: the value of the cell the flow leaves;
   *   boundary, inflow: Dirichlet gives the model's value of the boundary
   *   value, Neumann and mixed the cell value, anything else 0;
   *   boundary, outflow: the cell value.
   */
  function FaceValue(m: Mesh, d: Inputs, tol: real, f: nat): real
    requires m.Conforming() && Fits(m, d) && f < m.NumFaces()
    requires |m.faceCells[f]| == 1 || d.bcModel[f] == BcNone
  {
    ConformingFace(m, f);
    var cs := m.faceCells[f];
    var q := d.flux[f];
    var a := cs[0];
    if |cs| == 2 then
      var b := cs[1];
      if Abs(q) <= tol then VolumeAverage(d.field[a], d.field[b], m.volume[a], m.volume[b])
      else if !Inflow(q, m.DirIn(a, f), tol) then d.field[a]
      else if !Inflow(q, m.DirIn(b, f), tol) then d.field[b]
      else 0.0
    else if d.bcModel[f] == BcNone && Abs(q) <= tol then 0.5 * d.field[a]
    else if !Inflow(q, m.DirIn(a, f), tol) then d.field[a]
    else
      match d.bcModel[f]
      case BcDirichlet => d.value(a, d.bcValue[f])
      case BcNeumann => d.field[a]
      case BcMixed => d.field[a]
      case _ => 0.0
  }

  /** Replaying the single visit of a boundary face gives FaceValue. */
  lemma BoundaryReplay(m: Mesh, d: Inputs, tol: real, f: nat)
    requires m.Conforming() && Fits(m, d) && f < m.NumFaces() && |m.faceCells[f]| == 1
    requires FaceIndex(m.cellFaces[m.faceCells[f][0]], f) >= 0
    ensures var a := m.faceCells[f][0];
            Replay(m, d, tol, f, 0.0, [CellDir(a, m.DirIn(a, f))]) == FaceValue(m, d, tol, f)
  {
    ConformingFace(m, f);
    var a := m.faceCells[f][0];
    assert [CellDir(a, m.DirIn(a, f))][..0] == [];
    assert m.AdjCell(a, f) == -1;
  }

  /** Replaying the two visits of an internal face without boundary condition, lower cell first, gives FaceValue. */
  lemma InternalReplay(m: Mesh, d: Inputs, tol: real, f: nat)
    requires m.Conforming() && Fits(m, d) && f < m.NumFaces() && |m.faceCells[f]| == 2
    requires d.bcModel[f] == BcNone
    requires FaceIndex(m.cellFaces[m.faceCells[f][0]], f) >= 0
    requires FaceIndex(m.cellFaces[m.faceCells[f][1]], f) >= 0
    ensures var a, b := m.faceCells[f][0], m.faceCells[f][1];
            Replay(m, d, tol, f, 0.0, [CellDir(a, m.DirIn(a, f)), CellDir(b, m.DirIn(b, f))]) == FaceValue(m, d, tol, f)
  {
    ConformingFace(m, f);
    var a, b := m.faceCells[f][0], m.faceCells[f][1];
    var xa, xb := CellDir(a, m.DirIn(a, f)), CellDir(b, m.DirIn(b, f));
    assert [xa, xb][..1] == [xa] && [xa][..0] == [];
    var first := Visit(m, d, tol, a, FaceDir(f, xa.dir), 0.0);
    assert Replay(m, d, tol, f, 0.0, [xa]) == first;
    assert Replay(m, d, tol, f, 0.0, [xa, xb]) == Visit(m, d, tol, b, FaceDir(f, xb.dir), first);
    var q := d.flux[f];
    if Abs(q) <= tol {
      assert m.AdjCell(a, f) == b && m.AdjCell(b, f) == a;
    } else {
      assert xa.dir == 1 || xa.dir == -1;
      OneSideIsInflow(q, xa.dir, tol);
    }
  }

  /** Replaying the whole history of a face gives FaceValue. */
  lemma ReplayHistory(m: Mesh, d: Inputs, tol: real, f: nat)
    requires m.Conforming() && Fits(m, d) && f < m.NumFaces()
    requires |m.faceCells[f]| == 1 || d.bcModel[f] == BcNone
    ensures Replay(m, d, tol, f, 0.0, m.History(m.NumCells(), f)) == FaceValue(m, d, tol, f)
  {
    ConformingFace(m, f);
    FullHistory(m, f);
    var cs := m.faceCells[f];
    var a := cs[0];
    var xa := CellDir(a, m.DirIn(a, f));
    if |cs| == 1 {
      BoundaryReplay(m, d, tol, f);
    } else {
      var b := cs[1];
      var xb := CellDir(b, m.DirIn(b, f));
      VisitOrderIrrelevant(m, d, tol, f, 0.0, xa, xb);
      InternalReplay(m, d, tol, f);
    }
  }

  /**
   * On a conforming mesh, the face component left by the sweep equals
   * FaceValue on every boundary face and on every internal face without a
   * boundary condition, whatever the order of the cells.
   */
  lemma ComputedFace(m: Mesh, d: Inputs, relTol: real, f: nat)
    requires m.Conforming() && Fits(m, d) && f < m.NumFaces()
    requires |m.faceCells[f]| == 1 || d.bcModel[f] == BcNone
    ensures Upwinded(m, d, relTol)[f] == FaceValue(m, d, FlowTolerance(relTol, d.flux), f)
  {
    var tol := FlowTolerance(relTol, d.flux);
    SweepCellsAt(m, d, tol, m.NumCells(), Zeros(m.NumFaces()), f);
    ReplayHistory(m, d, tol, f);
  }

  /**
   * On an internal face without boundary condition whose flux exceeds a
   * non-negative tolerance, the face takes the value of the cell the flow
   * leaves (flux times sign positive), whichever cell is swept first.
   */
  lemma InternalFaceTakesOutflowCell(m: Mesh, d: Inputs, relTol: real, f: nat, c: nat)
    requires m.Conforming() && Fits(m, d) && f < m.NumFaces()
    requires relTol >= 0.0 && d.bcModel[f] == BcNone && |m.faceCells[f]| == 2
    requires Abs(d.flux[f]) > FlowTolerance(relTol, d.flux)
    requires c in m.faceCells[f] && FaceIndex(m.cellFaces[c], f) >= 0
    requires d.flux[f] * m.DirIn(c, f) as real > 0.0
    ensures Upwinded(m, d, relTol)[f] == d.field[c]
  {
    ComputedFace(m, d, relTol, f);
    OutflowValue(m, d, FlowTolerance(relTol, d.flux), f, c);
  }

  lemma OutflowValue(m: Mesh, d: Inputs, tol: real, f: nat, c: nat)
    requires m.Conforming() && Fits(m, d) && f < m.NumFaces()
    requires tol >= 0.0 && d.bcModel[f] == BcNone && |m.faceCells[f]| == 2
    requires Abs(d.flux[f]) > tol
    requires c in m.faceCells[f] && FaceIndex(m.cellFaces[c], f) >= 0
    requires d.flux[f] * m.DirIn(c, f) as real > 0.0
    ensures FaceValue(m, d, tol, f) == d.field[c]
  {
    ConformingFace(m, f);
    var a, b := m.faceCells[f][0], m.faceCells[f][1];
    var q := d.flux[f];
    var da, db := m.DirIn(a, f), m.DirIn(b, f);
    if c == b {
      if da == 1 {
        assert q * da as real == q && q * db as real == -q;
      } else {
        assert q * da as real == -q && q * db as real == q;
      }
      assert Inflow(q, da, tol);
    }
  }

  /**
   * An internal face without boundary condition whose flux is within the
   * tolerance gets the volume-weighted average of its two cells: each visit
   * adds its cell's share to the 0 the face was reset to.
   */
  lemma NearZeroInternalFaceAverages(m: Mesh, d: Inputs, relTol: real, f: nat)
    requires m.Conforming() && Fits(m, d) && f < m.NumFaces()
    requires |m.faceCells[f]| == 2 && d.bcModel[f] == BcNone
    requires Abs(d.flux[f]) <= FlowTolerance(relTol, d.flux)
    ensures var a, b := m.faceCells[f][0], m.faceCells[f][1];
            Upwinded(m, d, relTol)[f] == VolumeAverage(d.field[a], d.field[b], m.volume[a], m.volume[b])
  {
    ComputedFace(m, d, relTol, f);
  }

  /**
   * A boundary face without condition whose flux is within the tolerance
   * gets half the value of its one cell.
   */
  lemma NearZeroBoundaryFaceHalves(m: Mesh, d: Inputs, relTol: real, f: nat)
    requires m.Conforming() && Fits(m, d) && f < m.NumFaces()
    requires |m.faceCells[f]| == 1 && d.bcModel[f] == BcNone
    requires Abs(d.flux[f]) <= FlowTolerance(relTol, d.flux)
    ensures Upwinded(m, d, relTol)[f] == 0.5 * d.field[m.faceCells[f][0]]
  {
    ComputedFace(m, d, relTol, f);
  }

  /**
   * The inflow cut-off is inclusive: a Dirichlet boundary face whose flux
   * times sign equals exactly -tol takes the model's value of its boundary
   * value.
   */
  lemma DirichletCutoffIsInflow(m: Mesh, d: Inputs, relTol: real, f: nat)
    requires m.Conforming() && Fits(m, d) && f < m.NumFaces()
    requires |m.faceCells[f]| == 1 && d.bcModel[f] == BcDirichlet
    requires FaceIndex(m.cellFaces[m.faceCells[f][0]], f) >= 0
    requires d.flux[f] * m.DirIn(m.faceCells[f][0], f) as real == -FlowTolerance(relTol, d.flux)
    ensures Upwinded(m, d, relTol)[f] == d.value(m.faceCells[f][0], d.bcValue[f])
  {
    var tol := FlowTolerance(relTol, d.flux);
    var a := m.faceCells[f][0];
    assert Inflow(d.flux[f], m.DirIn(a, f), tol);
    assert FaceValue(m, d, tol, f) == d.value(a, d.bcValue[f]);
    ComputedFace(m, d, relTol, f);
  }

  /**
   * A boundary face without condition that the flow enters and whose flux
   * exceeds the tolerance matches no branch of the sweep and keeps the 0 it
   * was reset to.
   */
  lemma UnmatchedFaceStaysZero(m: Mesh, d: Inputs, relTol: real, f: nat)
    requires m.Conforming() && Fits(m, d) && f < m.NumFaces()
    requires |m.faceCells[f]| == 1 && d.bcModel[f] == BcNone
    requires FaceIndex(m.cellFaces[m.faceCells[f][0]], f) >= 0
    requires Abs(d.flux[f]) > FlowTolerance(relTol, d.flux)
    requires Inflow(d.flux[f], m.DirIn(m.faceCells[f][0], f), FlowTolerance(relTol, d.flux))
    ensures Upwinded(m, d, relTol)[f] == 0.0
  {
    ComputedFace(m, d, relTol, f);
  }

  /**
   * The standard upwind operator: its settings and the mesh it works on.
   * Compute writes only the face array it is given.
   */
  class UpwindStandard {
    const mesh: Mesh
    var upwindMethod: UpwindMethod
    var tolerance: real
    var order: int

    /** The C++ constructor leaves the three settings unset until Init; the model starts them at 0. */
    constructor (mesh: Mesh)
      ensures this.mesh == mesh
    {
      this.mesh := mesh;
      upwindMethod := UpwindFlux;
      tolerance := 0.0;
      order := 0;
    }

    /**
     * Init: the flux method, then "tolerance" (default RelativeTolerance),
     * then "order" (default 1). A read that fails leaves the later settings
     * as they were.
     */
    method Init(plist: ParameterList) returns (outcome: Outcome<ConfigError>)
      modifies this
      ensures upwindMethod == UpwindFlux
      ensures outcome.Pass? <==> ReadSettings(plist).Ok?
      ensures outcome.Pass? ==> Settings(upwindMethod, tolerance, order) == ReadSettings(plist).value
      ensures outcome.Fail? ==> outcome.error == ReadSettings(plist).error
      ensures GetDoubleOr(plist, "tolerance", RelativeTolerance).Err? ==>
        tolerance == old(tolerance) && order == old(order)
      ensures GetDoubleOr(plist, "tolerance", RelativeTolerance).Ok? ==>
        tolerance == GetDoubleOr(plist, "tolerance", RelativeTolerance).value
      ensures GetIntOr(plist, "order", 1).Err? ==> order == old(order)
    {
      upwindMethod := UpwindFlux;
      var tol := GetDoubleOr(plist, "tolerance", RelativeTolerance);
      if tol.Err? {
        return Fail(tol.error);
      }
      tolerance := tol.value;
      var ord := GetIntOr(plist, "order", 1);
      if ord.Err? {
        return Fail(ord.error);
      }
      order := ord.value;
      outcome := Pass;
    }

    /**
     * Compute: reset the face array to 0, compute the tolerance once, then
     * sweep every used cell and each of its faces, assigning or (on
     * near-zero faces without condition) adding to the face's value. Flux,
     * markers, boundary values and field are only read.
     */
    method Compute(flux: seq<real>, bcModel: seq<BcKind>, bcValue: seq<real>, field: seq<real>,
                   upw: array<real>, value: (nat, real) -> real)
      requires Fits(mesh, Inputs(flux, bcModel, bcValue, field, value))
      requires upw.Length == mesh.NumFaces()
      modifies upw
      ensures upw[..] == Upwinded(mesh, Inputs(flux, bcModel, bcValue, field, value), tolerance)
    {
      ghost var d := Inputs(flux, bcModel, bcValue, field, value);
      forall i | 0 <= i < upw.Length {
        upw[i] := 0.0;
      }
      assert upw[..] == Zeros(mesh.NumFaces());
      var scale := if |flux| == 0 then 0.0 else Max(Abs(MinValue(flux)), Abs(MaxValue(flux)));
      assert scale == FluxScale(flux);
      var tol := tolerance * scale;
      assert tol == FlowTolerance(tolerance, flux);
      ghost var zero := Zeros(mesh.NumFaces());
      for c := 0 to mesh.NumCells()
        invariant upw[..] == SweepCells(mesh, d, tol, c, zero)
      {
        SweepCell(flux, bcModel, bcValue, field, upw, value, tol, c);
      }
    }

    /** The inner loop of Compute: cell c visits each of its faces in turn. */
    method SweepCell(flux: seq<real>, bcModel: seq<BcKind>, bcValue: seq<real>, field: seq<real>,
                     upw: array<real>, value: (nat, real) -> real, tol: real, c: nat)
      requires Fits(mesh, Inputs(flux, bcModel, bcValue, field, value))
      requires upw.Length == mesh.NumFaces() && c < mesh.NumCells()
      modifies upw
      ensures upw[..] == SweepFaces(mesh, Inputs(flux, bcModel, bcValue, field, value), tol, c, mesh.cellFaces[c], old(upw[..]))
    {
      ghost var d := Inputs(flux, bcModel, bcValue, field, value);
      var faces := mesh.cellFaces[c];
      for n := 0 to |faces|
        invariant upw[..] == SweepFaces(mesh, d, tol, c, faces[..n], old(upw[..]))
      {
        SweepFacesSnoc(mesh, d, tol, c, faces, n, old(upw[..]));
        VisitFace(flux, bcModel, bcValue, field, upw, value, tol, c, faces[n]);
      }
      assert faces[..|faces|] == faces;
    }

    /** One visit of the sweep: cell c updates the value of one of its faces. */
    method VisitFace(flux: seq<real>, bcModel: seq<BcKind>, bcValue: seq<real>, field: seq<real>,
                     upw: array<real>, value: (nat, real) -> real, tol: real, c: nat, fd: FaceDir)
      requires Fits(mesh, Inputs(flux, bcModel, bcValue, field, value))
      requires upw.Length == mesh.NumFaces() && c < mesh.NumCells() && fd.face < mesh.NumFaces()
      modifies upw
      ensures upw[..] == old(upw[..])[fd.face := Visit(mesh, Inputs(flux, bcModel, bcValue, field, value), tol, c, fd, old(upw[fd.face]))]
    {
      var f := fd.face;
      var kc := field[c];
      var flag := Inflow(flux[f], fd.dir, tol);
      if bcModel[f] == BcNone && Abs(flux[f]) <= tol {
        var tmp := 0.5;
        var c2 := mesh.AdjCell(c, f);
        if c2 >= 0 {
          var v1 := mesh.volume[c];
          var v2 := mesh.volume[c2];
          tmp := v2 / (v1 + v2);
        }
        assert tmp == Share(mesh, c, f);
        ghost var u := upw[f];
        upw[f] := upw[f] + kc * tmp;
        assert upw[f] == Visit(mesh, Inputs(flux, bcModel, bcValue, field, value), tol, c, fd, u);
      } else if bcModel[f] == BcDirichlet && flag {
        upw[f] := value(c, bcValue[f]);
      } else if bcModel[f] == BcNeumann && flag {
        upw[f] := kc;
      } else if bcModel[f] == BcMixed && flag {
        upw[f] := kc;
      } else if !flag {
        upw[f] := kc;
      }
    }
  }
}

/**
 * The mesh as the flux-based upwind sweep sees it, as plain data over all
 * used (owned and ghost) cells: each cell's faces with their orientation
 * (cell_get_faces_and_dirs), each face's adjacent cells, and the cell
 * volumes. Also: the order in which the sweep visits one face, and the shape
 * that order has on a conforming mesh.
 */
module UpwindMesh {

  /** One entry of a cell's face list: an incident face and the sign (+1 or -1) of its normal seen from the cell. */
  datatype FaceDir = FaceDir(face: nat, dir: int)

  /** One visit of the sweep to a fixed face: the visiting cell and the face's sign in that cell. */
  datatype CellDir = CellDir(cell: nat, dir: int)

  datatype Mesh = Mesh(cellFaces: seq<seq<FaceDir>>, faceCells: seq<seq<nat>>, volume: seq<real>)
  {
    function NumCells(): nat { |cellFaces| }

    function NumFaces(): nat { |faceCells| }

    /** Every index stored in the mesh is in range and every cell has a positive volume. */
    ghost predicate WellFormed()
    {
      && |volume| == |cellFaces|
      && (forall c, i :: 0 <= c < |cellFaces| && 0 <= i < |cellFaces[c]| ==> cellFaces[c][i].face < |faceCells|)
      && (forall f, j :: 0 <= f < |faceCells| && 0 <= j < |faceCells[f]| ==> faceCells[f][j] < |cellFaces|)
      && (forall c :: 0 <= c < |volume| ==> volume[c] > 0.0)
    }

    /**
     * The cell across face f from cell c, or -1 when f is not shared by two
     * cells (cell_get_face_adj_cell).
     */
    function AdjCell(c: nat, f: nat): (r: int)
      requires WellFormed() && f < NumFaces()
      ensures r == -1 <==> |faceCells[f]| != 2
      ensures r >= 0 ==> r in faceCells[f] && r < NumCells()
      ensures r >= 0 && c in faceCells[f] && faceCells[f][0] != faceCells[f][1] ==> r != c
    {
      var cs := faceCells[f];
      if |cs| == 2 then (if cs[0] == c then cs[1] else cs[0]) else -1
    }

    /** The sign of face f in cell c, for a cell that lists f. */
    function DirIn(c: nat, f: nat): int
      requires c < NumCells() && FaceIndex(cellFaces[c], f) >= 0
    {
      cellFaces[c][FaceIndex(cellFaces[c], f)].dir
    }

    /** Face f has one or two cells, two distinct ones when it has two. */
    ghost predicate FaceShape(f: nat)
      requires f < NumFaces()
    {
      1 <= |faceCells[f]| <= 2 && (|faceCells[f]| == 2 ==> faceCells[f][0] != faceCells[f][1])
    }

    /** Cell c lists a face at most once, and each with sign +1 or -1. */
    ghost predicate CellShape(c: nat)
      requires c < NumCells()
    {
      && Distinct(cellFaces[c])
      && forall i :: 0 <= i < |cellFaces[c]| ==> cellFaces[c][i].dir == 1 || cellFaces[c][i].dir == -1
    }

    /** Cell c lists face f exactly when face f lists cell c. */
    ghost predicate Incident(c: nat, f: nat)
      requires c < NumCells() && f < NumFaces()
    {
      FaceIndex(cellFaces[c], f) >= 0 <==> c in faceCells[f]
    }

    /** The two cells of face f, when it has two that list it, see it with opposite signs. */
    ghost predicate Opposite(f: nat)
      requires WellFormed() && f < NumFaces()
    {
      var cs := faceCells[f];
      |cs| == 2 && FaceIndex(cellFaces[cs[0]], f) >= 0 && FaceIndex(cellFaces[cs[1]], f) >= 0 ==>
        DirIn(cs[0], f) == -DirIn(cs[1], f)
    }

    /**
     * A conforming mesh: every face has one or two distinct cells, a cell
     * lists a face at most once and with sign +1 or -1, cell c lists face f
     * exactly when f lists c, and the two cells of an internal face see it
     * with opposite signs.
     */
    ghost predicate Conforming()
    {
      && WellFormed()
      && (forall f :: 0 <= f < |faceCells| ==> FaceShape(f))
      && (forall c :: 0 <= c < |cellFaces| ==> CellShape(c))
      && (forall c, f :: 0 <= c < |cellFaces| && 0 <= f < |faceCells| ==> Incident(c, f))
      && (forall f :: 0 <= f < |faceCells| ==> Opposite(f))
    }

    /** The visits face f receives from the cells 0 .. k-1, in the order the sweep makes them. */
    function History(k: nat, f: nat): (hs: seq<CellDir>)
      requires k <= NumCells()
      ensures forall i :: 0 <= i < |hs| ==> hs[i].cell < k
    {
      if k == 0 then []
      else
        var prev := History(k - 1, f);
        var last := VisitsInCell(k - 1, cellFaces[k - 1], f);
        assert forall i :: 0 <= i < |last| ==> last[i].cell == k - 1;
        prev + last
    }
  }

  /** No face occurs twice in a cell's face list. */
  predicate Distinct(fds: seq<FaceDir>)
  {
    forall i, j :: 0 <= i < j < |fds| ==> fds[i].face != fds[j].face
  }

  /** The position of face f in a face list, or -1 when it does not occur. */
  function FaceIndex(fds: seq<FaceDir>, f: nat): (r: int)
    ensures -1 <= r < |fds|
    ensures r >= 0 ==> fds[r].face == f
    ensures r == -1 <==> forall i :: 0 <= i < |fds| ==> fds[i].face != f
  {
    if fds == [] then -1
    else if fds[0].face == f then 0
    else
      var k := FaceIndex(fds[1..], f);
      if k < 0 then -1 else k + 1
  }

  /** The visits face f receives while the sweep walks the face list fds of cell c, in order. */
  function VisitsInCell(c: nat, fds: seq<FaceDir>, f: nat): (hs: seq<CellDir>)
    ensures forall i :: 0 <= i < |hs| ==> hs[i].cell == c
  {
    if fds == [] then []
    else
      var last := fds[|fds| - 1];
      VisitsInCell(c, fds[..|fds| - 1], f) + (if last.face == f then [CellDir(c, last.dir)] else [])
  }

  /** A cell that lists face f once visits it exactly once, with that entry's sign; a cell that does not list it, never. */
  lemma {:induction false} VisitsInCellExact(c: nat, fds: seq<FaceDir>, f: nat)
    requires Distinct(fds)
    ensures FaceIndex(fds, f) < 0 ==> VisitsInCell(c, fds, f) == []
    ensures FaceIndex(fds, f) >= 0 ==> VisitsInCell(c, fds, f) == [CellDir(c, fds[FaceIndex(fds, f)].dir)]
  {
    if fds != [] {
      var init := fds[..|fds| - 1];
      var last := fds[|fds| - 1];
      assert Distinct(init);
      VisitsInCellExact(c, init, f);
      var k := FaceIndex(init, f);
      var r := FaceIndex(fds, f);
      if last.face == f {
        assert r == |fds| - 1;
        assert k == -1;
      } else if k >= 0 {
        assert fds[k].face == f;
        assert r == k;
      } else {
        assert r == -1 by {
          forall i | 0 <= i < |fds| ensures fds[i].face != f {
            if i < |fds| - 1 {
              assert fds[i] == init[i];
            }
          }
        }
      }
    }
  }

  /**
   * What conformity says about one face: one or two distinct cells, each
   * listing the face with sign +1 or -1, opposite signs when there are two.
   */
  lemma ConformingFace(m: Mesh, f: nat)
    requires m.Conforming() && f < m.NumFaces()
    ensures 1 <= |m.faceCells[f]| <= 2
    ensures |m.faceCells[f]| == 2 ==> m.faceCells[f][0] != m.faceCells[f][1]
    ensures forall j :: 0 <= j < |m.faceCells[f]| ==>
      && m.faceCells[f][j] < m.NumCells() && FaceIndex(m.cellFaces[m.faceCells[f][j]], f) >= 0
      && (m.DirIn(m.faceCells[f][j], f) == 1 || m.DirIn(m.faceCells[f][j], f) == -1)
    ensures |m.faceCells[f]| == 2 ==> m.DirIn(m.faceCells[f][0], f) == -m.DirIn(m.faceCells[f][1], f)
  {
    var cs := m.faceCells[f];
    assert m.FaceShape(f) && m.Opposite(f);
    forall j | 0 <= j < |cs|
      ensures cs[j] < m.NumCells() && FaceIndex(m.cellFaces[cs[j]], f) >= 0
      ensures m.DirIn(cs[j], f) == 1 || m.DirIn(cs[j], f) == -1
    {
      assert m.Incident(cs[j], f) && m.CellShape(cs[j]);
    }
  }

  /** What conformity says about one cell and one face: no repeated face, and listing agrees both ways. */
  lemma ConformingCell(m: Mesh, c: nat, f: nat)
    requires m.Conforming() && c < m.NumCells() && f < m.NumFaces()
    ensures Distinct(m.cellFaces[c])
    ensures FaceIndex(m.cellFaces[c], f) >= 0 <==> c in m.faceCells[f]
  {
    assert m.CellShape(c) && m.Incident(c, f);
  }

  /** The visit of cell x to face f when x is below k, else nothing. */
  ghost function EntryBelow(m: Mesh, x: nat, k: nat, f: nat): seq<CellDir>
    requires x < m.NumCells() && FaceIndex(m.cellFaces[x], f) >= 0
  {
    if x < k then [CellDir(x, m.DirIn(x, f))] else []
  }

  /** The smaller and the larger cell of face f (the same cell for a boundary face). */
  function LowCell(m: Mesh, f: nat): nat
    requires f < m.NumFaces() && |m.faceCells[f]| >= 1
  {
    var cs := m.faceCells[f];
    if |cs| >= 2 && cs[1] < cs[0] then cs[1] else cs[0]
  }

  function HighCell(m: Mesh, f: nat): nat
    requires f < m.NumFaces() && |m.faceCells[f]| >= 1
  {
    var cs := m.faceCells[f];
    if |cs| >= 2 && cs[1] < cs[0] then cs[0] else cs[|cs| - 1]
  }

  /** The cells of face f below k, in increasing order, each with the face's sign in it. */
  ghost function IncidentBelow(m: Mesh, k: nat, f: nat): seq<CellDir>
    requires m.Conforming() && f < m.NumFaces()
  {
    ConformingFace(m, f);
    var cs := m.faceCells[f];
    EntryBelow(m, LowCell(m, f), k, f) + (if |cs| == 2 then EntryBelow(m, HighCell(m, f), k, f) else [])
  }

  /** Moving the bound from c to c + 1 adds cell c exactly when it is a cell of face f. */
  lemma IncidentBelowStep(m: Mesh, c: nat, f: nat)
    requires m.Conforming() && c < m.NumCells() && f < m.NumFaces()
    requires c in m.faceCells[f] ==> FaceIndex(m.cellFaces[c], f) >= 0
    ensures IncidentBelow(m, c + 1, f) ==
      IncidentBelow(m, c, f) + (if c in m.faceCells[f] then [CellDir(c, m.DirIn(c, f))] else [])
  {
    ConformingFace(m, f);
    var cs := m.faceCells[f];
    var lo, hi := LowCell(m, f), HighCell(m, f);
    var step := if c in cs then [CellDir(c, m.DirIn(c, f))] else [];
    var lo0, lo1 := EntryBelow(m, lo, c, f), EntryBelow(m, lo, c + 1, f);
    if |cs| == 1 {
      assert c in cs <==> c == lo;
      assert lo1 == lo0 + step;
      assert IncidentBelow(m, c, f) == lo0 + [];
      assert IncidentBelow(m, c + 1, f) == lo1 + [];
    } else {
      var hi0, hi1 := EntryBelow(m, hi, c, f), EntryBelow(m, hi, c + 1, f);
      assert lo < hi;
      assert c in cs <==> c == lo || c == hi;
      if c == lo {
        assert lo1 == step && lo0 == [] && hi0 == [] && hi1 == [];
      } else if c == hi {
        assert lo1 == lo0 && hi1 == step && hi0 == [];
      } else {
        assert lo1 == lo0 && hi1 == hi0 && step == [];
      }
    }
  }

  /** Cell c adds to the history of face f its one visit when it is a cell of f, and nothing otherwise. */
  lemma HistoryStep(m: Mesh, c: nat, f: nat)
    requires m.Conforming() && c < m.NumCells() && f < m.NumFaces()
    ensures c in m.faceCells[f] ==> FaceIndex(m.cellFaces[c], f) >= 0
    ensures m.History(c + 1, f) ==
      m.History(c, f) + (if c in m.faceCells[f] then [CellDir(c, m.DirIn(c, f))] else [])
  {
    var fds := m.cellFaces[c];
    ConformingCell(m, c, f);
    VisitsInCellExact(c, fds, f);
    assert m.History(c + 1, f) == m.History(c, f) + VisitsInCell(c, fds, f);
  }

  /** No cell is below 0. */
  lemma NothingBelowZero(m: Mesh, f: nat)
    requires m.Conforming() && f < m.NumFaces()
    ensures IncidentBelow(m, 0, f) == []
  {
    ConformingFace(m, f);
    assert EntryBelow(m, LowCell(m, f), 0, f) == [];
  }

  /** If the history of face f below c has the shape, so has the history below c + 1. */
  lemma ShapeStep(m: Mesh, c: nat, f: nat)
    requires m.Conforming() && c < m.NumCells() && f < m.NumFaces()
    requires m.History(c, f) == IncidentBelow(m, c, f)
    ensures m.History(c + 1, f) == IncidentBelow(m, c + 1, f)
  {
    HistoryStep(m, c, f);
    IncidentBelowStep(m, c, f);
  }

  /**
   * On a conforming mesh the sweep over cells 0 .. k-1 visits face f once
   * from each of its cells below k, in increasing cell order, each time with
   * the face's sign in that cell.
   */
  lemma {:induction false} HistoryShape(m: Mesh, k: nat, f: nat)
    requires m.Conforming() && k <= m.NumCells() && f < m.NumFaces()
    ensures m.History(k, f) == IncidentBelow(m, k, f)
  {
    if k > 0 {
      HistoryShape(m, k - 1, f);
      ShapeStep(m, k - 1, f);
    } else {
      NothingBelowZero(m, f);
    }
  }

  /**
   * Over the whole sweep, a boundary face is visited once from its cell, and
   * an internal face once from each of its two cells, in one order or the
   * other.
   */
  lemma FullHistory(m: Mesh, f: nat)
    requires m.Conforming() && f < m.NumFaces() && 1 <= |m.faceCells[f]|
    requires forall j :: 0 <= j < |m.faceCells[f]| ==>
      m.faceCells[f][j] < m.NumCells() && FaceIndex(m.cellFaces[m.faceCells[f][j]], f) >= 0
    ensures var cs := m.faceCells[f];
            |cs| == 1 ==> m.History(m.NumCells(), f) == [CellDir(cs[0], m.DirIn(cs[0], f))]
    ensures var cs := m.faceCells[f];
            |cs| == 2 ==>
              var x0, x1 := CellDir(cs[0], m.DirIn(cs[0], f)), CellDir(cs[1], m.DirIn(cs[1], f));
              m.History(m.NumCells(), f) == [x0, x1] || m.History(m.NumCells(), f) == [x1, x0]
  {
    var n := m.NumCells();
    HistoryShape(m, n, f);
    ConformingFace(m, f);
    var lo, hi := LowCell(m, f), HighCell(m, f);
    assert EntryBelow(m, lo, n, f) == [CellDir(lo, m.DirIn(lo, f))];
    if |m.faceCells[f]| == 2 {
      assert EntryBelow(m, hi, n, f) == [CellDir(hi, m.DirIn(hi, f))];
    } else {
      assert IncidentBelow(m, n, f) == EntryBelow(m, lo, n, f) + [];
    }
  }
}

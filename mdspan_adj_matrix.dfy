/** `Graph<int>`: a weighted undirected graph on `numVerts` vertices stored as a flat
    row-major adjacency matrix of `numVerts * numVerts` cells, viewed two-dimensionally
    (cell `[u, v]` at index `u * numVerts + v`). A missing edge has weight `INF`, the
    largest `int`; every vertex is at distance 0 from itself. */
module AdjMatrix {
  import opened Common

  /** `std::numeric_limits<int>::max()`. */
  const INF: int := INT32_MAX

  /** The flat index where row `u` of a matrix with rows of length `n` starts, built up
      row by row so that the layout lemmas below need no nonlinear arithmetic. */
  function RowStart(n: nat, u: nat): (r: nat)
  {
    if u == 0 then 0 else RowStart(n, u - 1) + n
  }

  /** Row `u` starts at `u * n`: cell `[u, v]` is at flat index `u * n + v`. */
  lemma {:induction false} RowStartIsProduct(n: nat, u: nat)
    ensures RowStart(n, u) == u * n
  {
    if u > 0 {
      RowStartIsProduct(n, u - 1);
    }
  }

  /** Rows are laid out one after another: row `u` ends before row `u'` starts. */
  lemma {:induction false} RowsOrdered(n: nat, u: nat, u': nat)
    requires u < u'
    ensures RowStart(n, u) + n <= RowStart(n, u')
  {
    if u + 1 < u' {
      RowsOrdered(n, u, u' - 1);
    }
  }

  /** Cell `[u, v]` of an `n` by `n` matrix lies inside its `n * n` cells. */
  lemma FlatIndexInRange(n: nat, u: nat, v: nat)
    requires u < n && v < n
    ensures RowStart(n, u) + v < RowStart(n, n)
  {
    RowsOrdered(n, u, n);
  }

  /** Distinct cells have distinct flat indices. */
  lemma FlatIndexUnique(n: nat, u: nat, v: nat, u': nat, v': nat)
    requires v < n && v' < n
    requires u != u' || v != v'
    ensures RowStart(n, u) + v != RowStart(n, u') + v'
  {
    if u < u' {
      RowsOrdered(n, u, u');
    } else if u' < u {
      RowsOrdered(n, u', u);
    }
  }

  class Graph {
    var numVerts: nat
    var matrix: array<int>

    ghost predicate Valid()
      reads this
    {
      matrix.Length == RowStart(numVerts, numVerts)
    }

    /** The two-dimensional view: the weight of edge `[u, v]`. */
    function Weight(u: nat, v: nat): (r: int)
      reads this, matrix
      requires Valid() && u < numVerts && v < numVerts
      ensures RowStart(numVerts, u) + v < matrix.Length && r == matrix[RowStart(numVerts, u) + v]
    {
      FlatIndexInRange(numVerts, u, v);
      RowStartIsProduct(numVerts, u);
      matrix[u * numVerts + v]
    }

    /** Edge `[u, v]` has the weight of edge `[v, u]`. */
    ghost predicate Symmetric()
      reads this, matrix
      requires Valid()
    {
      forall u: nat, v: nat :: u < numVerts && v < numVerts ==> Weight(u, v) == Weight(v, u)
    }

    /** Every vertex is at weight 0 from itself. */
    ghost predicate ZeroDiagonal()
      reads this, matrix
      requires Valid()
    {
      forall u: nat :: u < numVerts ==> Weight(u, u) == 0
    }

    /** `n` vertices and no edges: the diagonal is 0 and every other cell is `INF`. */
    constructor (n: nat)
      ensures Valid() && numVerts == n && fresh(matrix)
      ensures forall u: nat, v: nat :: u < n && v < n ==> Weight(u, v) == if u == v then 0 else INF
    {
      numVerts := n;
      RowStartIsProduct(n, n);
      matrix := new int[n * n](_ => INF);
      new;
      for i := 0 to n
        invariant Valid() && numVerts == n && fresh(matrix)
        invariant forall u: nat, v: nat :: u < n && v < n ==> Weight(u, v) == if u == v && u < i then 0 else INF
      {
        SetCell(i, i, 0);
      }
    }

    /** The copy constructor: the same vertex count and a matrix of its own with the
        same cells. */
    constructor Copy(other: Graph)
      requires other.Valid()
      ensures Valid() && numVerts == other.numVerts
      ensures fresh(matrix) && matrix[..] == other.matrix[..]
    {
      numVerts := other.numVerts;
      matrix := new int[other.matrix.Length](i reads other, other.matrix requires 0 <= i < other.matrix.Length => other.matrix[i]);
    }

    /** Assignment takes its argument by value and swaps with that copy: `this` ends up
        with a matrix of its own holding the cells `other` had. */
    method Assign(other: Graph)
      requires other.Valid()
      modifies this
      ensures Valid() && numVerts == old(other.numVerts)
      ensures fresh(matrix) && matrix[..] == old(other.matrix[..])
    {
      var tmp := new Graph.Copy(other);
      SwapGraphs(this, tmp);
    }

    /** A write through the two-dimensional view: cell `[u, v]` alone changes. */
    method SetCell(u: nat, v: nat, w: int)
      requires Valid() && u < numVerts && v < numVerts
      modifies matrix
      ensures Valid()
      ensures forall a: nat, b: nat :: a < numVerts && b < numVerts ==>
        Weight(a, b) == if a == u && b == v then w else old(Weight(a, b))
    {
      FlatIndexInRange(numVerts, u, v);
      RowStartIsProduct(numVerts, u);
      matrix[u * numVerts + v] := w;
      forall a: nat, b: nat | a < numVerts && b < numVerts && (a != u || b != v)
        ensures Weight(a, b) == old(Weight(a, b))
      {
        FlatIndexUnique(numVerts, a, b, u, v);
      }
    }

    /** Sets both `[u, v]` and `[v, u]` to `weight` when both vertices exist and differ;
        otherwise nothing changes. */
    method AddEdge(u: nat, v: nat, weight: int)
      requires Valid()
      modifies matrix
      ensures Valid()
      ensures forall a: nat, b: nat :: a < numVerts && b < numVerts ==>
        Weight(a, b) == if u < numVerts && v < numVerts && u != v && ((a == u && b == v) || (a == v && b == u)) then weight else old(Weight(a, b))
      ensures old(Symmetric()) ==> Symmetric()
      ensures old(ZeroDiagonal()) ==> ZeroDiagonal()
    {
      if u < numVerts && v < numVerts && u != v {
        SetCell(u, v, weight);
        SetCell(v, u, weight);
      }
    }

    /** Both vertices exist and the cell `[u, v]`, at flat index `u * numVerts + v`,
        holds a weight other than `INF`. */
    function IsConnected(u: nat, v: nat): (r: bool)
      reads this, matrix
      requires Valid()
      ensures r <==> u < numVerts && v < numVerts && RowStart(numVerts, u) + v < matrix.Length && matrix[RowStart(numVerts, u) + v] != INF
    {
      u < numVerts && v < numVerts && Weight(u, v) != INF
    }

    function GetNumVerts(): (r: nat)
      reads this
      ensures r == numVerts
    {
      numVerts
    }

    /** In a symmetric matrix, connectivity does not depend on the direction. */
    lemma ConnectedSymmetric(u: nat, v: nat)
      requires Valid() && Symmetric()
      ensures IsConnected(u, v) <==> IsConnected(v, u)
    {
      if u < numVerts && v < numVerts {
        assert Weight(u, v) == Weight(v, u);
      }
    }

    /** Every vertex is connected to itself while the diagonal is 0. */
    lemma SelfConnected(u: nat)
      requires Valid() && ZeroDiagonal() && u < numVerts
      ensures IsConnected(u, u)
    {
      assert Weight(u, u) == 0;
    }
  }

  /** The friend `swap`: exchanges the vertex counts and the matrices. */
  method SwapGraphs(first: Graph, second: Graph)
    modifies first, second
    ensures first.numVerts == old(second.numVerts) && first.matrix == old(second.matrix)
    ensures second.numVerts == old(first.numVerts) && second.matrix == old(first.matrix)
  {
    first.numVerts, second.numVerts := second.numVerts, first.numVerts;
    first.matrix, second.matrix := second.matrix, first.matrix;
  }

  /** A new graph is symmetric with a zero diagonal, and no vertex is connected to
      another. */
  lemma NewGraphUndirected(g: Graph)
    requires g.Valid()
    requires forall u: nat, v: nat :: u < g.numVerts && v < g.numVerts ==> g.Weight(u, v) == if u == v then 0 else INF
    ensures g.Symmetric() && g.ZeroDiagonal()
    ensures forall u: nat, v: nat :: u != v ==> !g.IsConnected(u, v)
  {
  }

  /** The start of `main`: seven edges on five vertices. */
  method BuildG1() returns (g1: Graph)
    ensures fresh(g1) && fresh(g1.matrix) && g1.Valid() && g1.numVerts == 5
    ensures g1.Weight(0, 1) == 4 && g1.Weight(1, 3) == 6 && g1.Weight(0, 4) == 7
  {
    g1 := new Graph(5);
    g1.AddEdge(0, 1, 4);
    g1.AddEdge(0, 2, 8);
    g1.AddEdge(1, 2, 2);
    assert g1.Weight(0, 1) == 4;
    g1.AddEdge(1, 3, 6);
    g1.AddEdge(2, 3, 3);
    assert g1.Weight(0, 1) == 4 && g1.Weight(1, 3) == 6;
    g1.AddEdge(3, 4, 5);
    g1.AddEdge(4, 0, 7);
  }

  /** The copies in `main`: `g2`, a copy of `g1`, gets edge 0-1 of weight 7, and `g3`,
      assigned from `g2`, gets weight 66 there; `g2` keeps 7. As this method modifies
      nothing that existed before it, `g1` is unchanged as well. */
  method CopyAndEdit(g1: Graph) returns (w2: int, w3: int, w2After: int)
    requires g1.Valid() && g1.numVerts == 5
    ensures w2 == 7 && w3 == 66 && w2After == 7
  {
    var g2 := new Graph.Copy(g1);
    g2.AddEdge(0, 1, 7);
    w2 := g2.Weight(1, 0);
    w2After := g2.Weight(0, 1);
    assert w2 == 7 && w2After == 7;
    var g3 := new Graph(0);
    g3.Assign(g2);
    assert g3.matrix != g2.matrix;
    g3.AddEdge(0, 1, 66);
    w3 := g3.Weight(0, 1);
    assert w2After == g2.Weight(0, 1);
  }

  /** What `main` does: edges 1-3 and 0-4 exist in `g1`, and the copies' edits leave
      its edge 0-1 at weight 4. */
  method GraphScenario() returns (conn13: bool, conn04: bool, w1: int, w2: int, w3: int, w1After: int)
    ensures conn13 && conn04
    ensures w1 == 4 && w2 == 7 && w3 == 66 && w1After == 4
  {
    var g1 := BuildG1();
    conn13 := g1.IsConnected(1, 3);
    conn04 := g1.IsConnected(0, 4);
    w1 := g1.Weight(0, 1);
    var w2After;
    w2, w3, w2After := CopyAndEdit(g1);
    w1After := g1.Weight(0, 1);
  }
}

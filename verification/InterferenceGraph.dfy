/** The interference graph: a bit matrix with one row of 64-bit words per register. */
module InterferenceGraphs {
  import opened Target
  import opened Bits

  datatype Interval = Interval(reg: nat, cls: RegClass)

  const NO_INDEX: int := -1

  /** A set of index pairs: the mathematical content of the matrix. */
  type Grid = set<(nat, nat)>

  // ----- Addressing the matrix -----

  lemma RowFits(i: nat, n: nat, w: nat, a: nat)
    requires i < n && a < w
    ensures i * w + a < n * w
  {
    assert (i + 1) * w <= n * w;
  }

  lemma RowsDisjoint(i: nat, a: nat, j: nat, b: nat, w: nat)
    requires a < w && b < w && i < j
    ensures i * w + a < j * w + b
  {
    assert (i + 1) * w <= j * w;
  }

  /** Bit j of row i. */
  predicate Cell(edges: seq<nat>, n: nat, w: nat, i: nat, j: nat)
    requires i < n && j / 64 < w && |edges| == n * w
  {
    RowFits(i, n, w, j / 64);
    Bit(edges[i * w + j / 64], j % 64)
  }

  function SetCell(edges: seq<nat>, n: nat, w: nat, i: nat, j: nat): (r: seq<nat>)
    requires i < n && j / 64 < w && |edges| == n * w
    ensures |r| == n * w
  {
    RowFits(i, n, w, j / 64);
    edges[i * w + j / 64 := Or(edges[i * w + j / 64], Pow2(j % 64))]
  }

  lemma SetCellSets(edges: seq<nat>, n: nat, w: nat, i: nat, j: nat, a: nat, b: nat)
    requires i < n && j / 64 < w && a < n && b / 64 < w && |edges| == n * w
    ensures Cell(SetCell(edges, n, w, i, j), n, w, a, b) <==> Cell(edges, n, w, a, b) || (a == i && b == j)
  {
    RowFits(i, n, w, j / 64);
    RowFits(a, n, w, b / 64);
    if i < a {
      RowsDisjoint(i, j / 64, a, b / 64, w);
    } else if a < i {
      RowsDisjoint(a, b / 64, i, j / 64, w);
    } else if b / 64 == j / 64 {
      OrBits(edges[i * w + j / 64], Pow2(j % 64), b % 64);
      Pow2Bits(j % 64, b % 64);
    }
  }

  /** The words hold exactly the grid, and every word fits 64 bits. */
  ghost predicate Represents(edges: seq<nat>, n: nat, w: nat, grid: Grid) {
    && |edges| == n * w
    && (forall k :: 0 <= k < |edges| ==> edges[k] < Pow2(64))
    && (forall i: nat, j: nat {:trigger Cell(edges, n, w, i, j)} ::
          i < n && j / 64 < w ==> (Cell(edges, n, w, i, j) <==> (i, j) in grid))
  }

  lemma EmptyGrid(edges: seq<nat>, n: nat, w: nat)
    requires |edges| == n * w && forall k :: 0 <= k < |edges| ==> edges[k] == 0
    ensures Represents(edges, n, w, {})
  {
    forall i: nat, j: nat | i < n && j / 64 < w ensures !Cell(edges, n, w, i, j) {
      RowFits(i, n, w, j / 64);
      ZeroHasNoBits(j % 64);
    }
  }

  lemma SetCellRepresents(edges: seq<nat>, n: nat, w: nat, grid: Grid, i: nat, j: nat)
    requires Represents(edges, n, w, grid) && i < n && j / 64 < w
    ensures Represents(SetCell(edges, n, w, i, j), n, w, grid + {(i, j)})
  {
    RowFits(i, n, w, j / 64);
    Pow2Monotone(j % 64, 64);
    OrBounded(edges[i * w + j / 64], Pow2(j % 64), 64);
    forall a: nat, b: nat | a < n && b / 64 < w
      ensures Cell(SetCell(edges, n, w, i, j), n, w, a, b) <==> (a, b) in grid + {(i, j)}
    {
      SetCellSets(edges, n, w, i, j, a, b);
    }
  }

  /** One word of row i holds exactly its stretch of the row. */
  lemma WordHoldsStretch(edges: seq<nat>, n: nat, w: nat, grid: Grid, i: nat, k: nat, b: nat)
    requires Represents(edges, n, w, grid) && i < n && k < w && i * w + k < n * w
    ensures Bit(edges[i * w + k], b) <==> b < 64 && (i, k * 64 + b) in grid
  {
    if b >= 64 {
      BoundedBits(edges[i * w + k], 64, b);
    } else {
      var j := k * 64 + b;
      assert j / 64 == k && j % 64 == b;
      assert Cell(edges, n, w, i, j) <==> (i, j) in grid;
    }
  }

  // ----- Grids -----

  /** Symmetric, irreflexive, inside one bank. */
  ghost predicate GridValid(grid: Grid, classes: seq<RegClass>) {
    forall i, j :: (i, j) in grid ==>
                     i < |classes| && j < |classes| && i != j && (j, i) in grid && SameBank(classes[i], classes[j])
  }

  ghost function RowOf(grid: Grid, i: nat): set<nat> {
    set p | p in grid && p.0 == i :: p.1
  }

  /** The grid in terms of registers. */
  ghost function Named(grid: Grid, nodes: seq<nat>): set<(nat, nat)>
    requires forall i, j :: (i, j) in grid ==> i < |nodes| && j < |nodes|
  {
    set p | p in grid :: (nodes[p.0], nodes[p.1])
  }

  ghost predicate Distinct(nodes: seq<nat>) {
    forall i, j :: 0 <= i < |nodes| && 0 <= j < |nodes| && nodes[i] == nodes[j] ==> i == j
  }

  lemma NamedAt(grid: Grid, nodes: seq<nat>, i: nat, j: nat)
    requires forall i, j :: (i, j) in grid ==> i < |nodes| && j < |nodes|
    requires Distinct(nodes) && i < |nodes| && j < |nodes|
    ensures (nodes[i], nodes[j]) in Named(grid, nodes) <==> (i, j) in grid
  {
    if (nodes[i], nodes[j]) in Named(grid, nodes) {
      var p :| p in grid && nodes[p.0] == nodes[i] && nodes[p.1] == nodes[j];
      assert p == (i, j);
    }
  }

  ghost function NeighborSet(edges: set<(nat, nat)>, reg: nat): set<nat> {
    set e | e in edges && e.0 == reg :: e.1
  }

  /** A register has as many neighbours as its row has set bits. */
  lemma NeighborsMatchRow(grid: Grid, nodes: seq<nat>, i: nat)
    requires forall i, j :: (i, j) in grid ==> i < |nodes| && j < |nodes|
    requires Distinct(nodes) && i < |nodes|
    ensures |NeighborSet(Named(grid, nodes), nodes[i])| == |RowOf(grid, i)|
    ensures forall j :: 0 <= j < |nodes| ==>
                          (nodes[j] in NeighborSet(Named(grid, nodes), nodes[i]) <==> j in RowOf(grid, i))
  {
    var row, ns := RowOf(grid, i), NeighborSet(Named(grid, nodes), nodes[i]);
    forall j: nat | j < |nodes| ensures nodes[j] in ns <==> j in row {
      NamedAt(grid, nodes, i, j);
      if nodes[j] in ns { assert (nodes[i], nodes[j]) in Named(grid, nodes); }
      if j in row { assert (i, j) in grid; assert (nodes[i], nodes[j]) in Named(grid, nodes); }
    }
    assert ns == set j | j in row :: nodes[j] by {
      forall v | v in ns ensures exists j :: j in row && nodes[j] == v {
        var e :| e in Named(grid, nodes) && e.0 == nodes[i] && e.1 == v;
        var p :| p in grid && (nodes[p.0], nodes[p.1]) == e;
        assert p.1 in row;
      }
    }
    ImageSize(nodes, row, ns);
  }

  lemma {:induction false} ImageSize(nodes: seq<nat>, js: set<nat>, regs: set<nat>)
    requires Distinct(nodes) && forall j :: j in js ==> j < |nodes|
    requires regs == set j | j in js :: nodes[j]
    ensures |js| == |regs|
    decreases js
  {
    if js != {} {
      var j :| j in js;
      assert regs - {nodes[j]} == set k | k in js - {j} :: nodes[k];
      ImageSize(nodes, js - {j}, regs - {nodes[j]});
    }
  }

  lemma RowAdd(grid: Grid, i: nat, j: nat, a: nat)
    ensures RowOf(grid + {(i, j)}, a) == RowOf(grid, a) + (if a == i then {j} else {})
  {
    assert (i, j) in grid + {(i, j)};
  }

  /** Joining two nodes adds one bit to each of the two rows. */
  lemma JoinRows(grid: Grid, i: nat, j: nat, a: nat)
    requires i != j && (i, j) !in grid && (j, i) !in grid
    ensures |RowOf(grid + {(i, j)} + {(j, i)}, a)| == |RowOf(grid, a)| + (if a == i || a == j then 1 else 0)
  {
    RowAdd(grid, i, j, a);
    RowAdd(grid + {(i, j)}, j, i, a);
    assert a == i ==> j !in RowOf(grid, a);
    assert a == j ==> i !in RowOf(grid, a);
  }

  // ----- Scanning a row -----

  /** Is j still to be produced when scanning goes on at word nextWord with these bits left? */
  ghost predicate Pending(row: set<nat>, nextWord: nat, remaining: nat, j: nat) {
    if j / 64 >= nextWord then j in row
    else j / 64 == nextWord - 1 && Bit(remaining, j % 64)
  }

  /** The bits left belong to the row. */
  ghost predicate InRow(row: set<nat>, nextWord: nat, remaining: nat) {
    forall b: nat :: Bit(remaining, b) ==> nextWord > 0 && b < 64 && (nextWord - 1) * 64 + b in row
  }

  ghost predicate WordsOfRow(words: seq<nat>, row: set<nat>, n: nat) {
    && (forall j :: j in row ==> j < n) && n <= 64 * |words|
    && (forall k: nat, b: nat {:trigger Bit(words[k], b)} ::
          k < |words| ==> (Bit(words[k], b) <==> b < 64 && k * 64 + b in row))
  }

  /** Taking the lowest bit produces the least pending index. */
  lemma TakeLowest(row: set<nat>, nextWord: nat, remaining: nat, rest: nat)
    requires remaining > 0 && InRow(row, nextWord, remaining) && nextWord > 0
    requires rest == And(remaining, remaining - 1)
    ensures rest < remaining && InRow(row, nextWord, rest)
    ensures Ctz(remaining) < 64 && (nextWord - 1) * 64 + Ctz(remaining) in row
    ensures forall j: nat :: Pending(row, nextWord, remaining, j) <==>
              j == (nextWord - 1) * 64 + Ctz(remaining) || Pending(row, nextWord, rest, j)
    ensures forall j: nat :: Pending(row, nextWord, rest, j) ==> j > (nextWord - 1) * 64 + Ctz(remaining)
  {
    var low := Ctz(remaining);
    AndBelow(remaining, remaining - 1);
    CtzLowest(remaining, 0);
    forall b: nat
      ensures Bit(rest, b) <==> Bit(remaining, b) && b != low
      ensures Bit(rest, b) ==> b > low
    {
      ClearLowest(remaining, b);
      CtzLowest(remaining, b);
    }
  }

  /** The iterator's loop: drain the current word, then load the next one. */
  method Scan(words: seq<nat>, n: nat, ghost row: set<nat>, nextWord0: nat, remaining0: nat)
    returns (nextWord: nat, remaining: nat, nodeIndex: nat)
    requires WordsOfRow(words, row, n) && nextWord0 <= |words| && InRow(row, nextWord0, remaining0)
    ensures nextWord <= |words| && InRow(row, nextWord, remaining) && nodeIndex <= n
    ensures nodeIndex == n ==> forall j: nat :: !Pending(row, nextWord0, remaining0, j)
    ensures nodeIndex < n ==> nodeIndex in row
    ensures nodeIndex < n ==> forall j: nat ::
              Pending(row, nextWord0, remaining0, j) <==> j == nodeIndex || Pending(row, nextWord, remaining, j)
    ensures nodeIndex < n ==> forall j: nat :: Pending(row, nextWord, remaining, j) ==> j > nodeIndex
  {
    nextWord, remaining := nextWord0, remaining0;
    while true
      invariant nextWord <= |words| && InRow(row, nextWord, remaining)
      invariant forall j: nat :: Pending(row, nextWord, remaining, j) <==> Pending(row, nextWord0, remaining0, j)
      decreases |words| - nextWord, remaining
    {
      if remaining != 0 {
        CtzLowest(remaining, 0);
        TakeLowest(row, nextWord, remaining, And(remaining, remaining - 1));
        var bit := Ctz(remaining);
        remaining := And(remaining, remaining - 1);
        nodeIndex := (nextWord - 1) * 64 + bit;
        if nodeIndex < n {
          return;
        }
        continue;
      }
      forall b: nat ensures !Bit(0, b) { ZeroHasNoBits(b); }
      if nextWord == |words| {
        nodeIndex := n;
        return;
      }
      ghost var loaded := words[nextWord];
      forall j: nat ensures Pending(row, nextWord + 1, loaded, j) <==> Pending(row, nextWord, 0, j) {
        if j / 64 == nextWord {
          assert Bit(words[nextWord], j % 64) <==> j % 64 < 64 && nextWord * 64 + j % 64 in row;
        }
      }
      remaining := words[nextWord];
      nextWord := nextWord + 1;
    }
  }

  class NeighborIterator {
    const graph: InterferenceGraph
    const row: int
    var nextWord: nat
    var remainingWord: nat
    var nodeIndex: nat

    ghost function Bits(): set<nat>
      reads graph
    {
      if row < 0 then {} else RowOf(graph.grid, row)
    }

    /** Nothing left in the row lies at or before the current position. */
    ghost predicate Valid()
      reads this, graph, graph.edges, graph.degrees
    {
      && graph.Valid()
      && (row == NO_INDEX || 0 <= row < |graph.nodes|)
      && nodeIndex <= |graph.nodes|
      && nextWord <= graph.wordsPerRow
      && InRow(Bits(), nextWord, remainingWord)
      && (nodeIndex == |graph.nodes| || (row != NO_INDEX && nodeIndex in Bits()))
      && (nodeIndex < |graph.nodes| ==>
            forall j: nat :: Pending(Bits(), nextWord, remainingWord, j) ==> j > nodeIndex)
    }

    constructor (graph: InterferenceGraph, row: int)
      requires graph.Valid() && (row == NO_INDEX || 0 <= row < |graph.nodes|)
      ensures this.graph == graph && this.row == row && Valid()
      ensures row == NO_INDEX ==> nodeIndex == |graph.nodes|
      ensures nodeIndex == |graph.nodes| ==> Bits() == {}
      ensures nodeIndex < |graph.nodes| ==> forall j: nat ::
                j in Bits() <==> j == nodeIndex || Pending(Bits(), nextWord, remainingWord, j)
    {
      this.graph, this.row := graph, row;
      nextWord, remainingWord, nodeIndex := 0, 0, |graph.nodes|;
      new;
      forall b: nat ensures !Bit(0, b) { ZeroHasNoBits(b); }
      if row != NO_INDEX {
        assert forall j: nat :: Pending(Bits(), 0, 0, j) <==> j in Bits();
        var words := graph.WordsOf(row);
        nextWord, remainingWord, nodeIndex := Scan(words, |graph.nodes|, Bits(), 0, 0);
        assert nodeIndex == |graph.nodes| ==> Bits() == {};
      }
    }

    /** Moves to the least remaining neighbour, or to the end. */
    method Advance()
      requires Valid() && nodeIndex < |graph.nodes|
      modifies this
      ensures Valid()
      ensures nodeIndex == |graph.nodes| ==> forall j: nat :: !old(Pending(Bits(), nextWord, remainingWord, j))
      ensures nodeIndex < |graph.nodes| ==> nodeIndex > old(nodeIndex) && forall j: nat ::
                old(Pending(Bits(), nextWord, remainingWord, j)) <==>
                j == nodeIndex || Pending(Bits(), nextWord, remainingWord, j)
    {
      var words := graph.WordsOf(row);
      ghost var was := nodeIndex;
      ghost var nw, rw := nextWord, remainingWord;
      nextWord, remainingWord, nodeIndex := Scan(words, |graph.nodes|, Bits(), nextWord, remainingWord);
      assert nodeIndex < |graph.nodes| ==> Pending(Bits(), nw, rw, nodeIndex);
    }
  }

  /** Registers and classes in order, and for every register its position. */
  method IndexIntervals(intervals: seq<Interval>) returns (ns: seq<nat>, cs: seq<RegClass>, idx: seq<int>)
    requires forall i, j :: 0 <= i < j < |intervals| ==> intervals[i].reg != intervals[j].reg
    ensures |ns| == |cs| == |intervals|
    ensures forall k :: 0 <= k < |ns| ==> ns[k] == intervals[k].reg && cs[k] == intervals[k].cls
    ensures forall k :: 0 <= k < |ns| ==> ns[k] < |idx| && idx[ns[k]] == k
    ensures forall r :: 0 <= r < |idx| && idx[r] != NO_INDEX ==> 0 <= idx[r] < |ns| && ns[idx[r]] == r
  {
    var maximum: nat := 0;
    ns, cs := [], [];
    for i := 0 to |intervals|
      invariant forall k :: 0 <= k < i ==> intervals[k].reg <= maximum
    {
      maximum := if intervals[i].reg > maximum then intervals[i].reg else maximum;
    }
    idx := if intervals != [] then seq(maximum + 1, _ => NO_INDEX) else [];
    for i := 0 to |intervals|
      invariant |ns| == |cs| == i
      invariant intervals != [] ==> |idx| == maximum + 1
      invariant forall k :: 0 <= k < i ==> ns[k] == intervals[k].reg && cs[k] == intervals[k].cls
      invariant forall k :: 0 <= k < i ==> ns[k] < |idx| && idx[ns[k]] == k
      invariant forall r :: 0 <= r < |idx| && idx[r] != NO_INDEX ==> 0 <= idx[r] < i && ns[idx[r]] == r
    {
      idx := idx[intervals[i].reg := |ns|];
      ns := ns + [intervals[i].reg];
      cs := cs + [intervals[i].cls];
    }
  }

  class InterferenceGraph {
    const nodes: seq<nat>
    const classes: seq<RegClass>
    const index: seq<int>
    const wordsPerRow: nat
    const edges: array<nat>
    const degrees: array<nat>
    ghost var grid: Grid

    ghost predicate Indexed()
      reads this
    {
      && |nodes| == |classes|
      && (forall r :: 0 <= r < |index| && index[r] != NO_INDEX ==>
                        0 <= index[r] < |nodes| && nodes[index[r]] == r)
      && (forall i :: 0 <= i < |nodes| ==> nodes[i] < |index| && index[nodes[i]] == i)
    }

    ghost predicate Valid()
      reads this, edges, degrees
      ensures Valid() ==> Distinct(nodes) && |nodes| == |classes| && GridValid(grid, classes)
    {
      && Indexed()
      && wordsPerRow == (|nodes| + 63) / 64
      && edges != degrees
      && GridValid(grid, classes)
      && Represents(edges[..], |nodes|, wordsPerRow, grid)
      && degrees.Length == |nodes|
      && (forall i :: 0 <= i < |nodes| ==> degrees[i] == |RowOf(grid, i)|)
    }

    /** The graph as the set of ordered pairs of registers joined by an edge. */
    ghost function Edges(): set<(nat, nat)>
      requires |nodes| == |classes| && GridValid(grid, classes)
      reads this
    {
      Named(grid, nodes)
    }

    constructor (intervals: seq<Interval>)
      requires forall i, j :: 0 <= i < j < |intervals| ==> intervals[i].reg != intervals[j].reg
      ensures Valid() && fresh(edges) && fresh(degrees)
      ensures |nodes| == |intervals|
      ensures forall i :: 0 <= i < |intervals| ==> nodes[i] == intervals[i].reg && classes[i] == intervals[i].cls
      ensures Edges() == {}
    {
      var ns, cs, idx := IndexIntervals(intervals);
      nodes, classes, index, wordsPerRow := ns, cs, idx, (|ns| + 63) / 64;
      edges := new nat[|ns| * ((|ns| + 63) / 64)](_ => 0);
      degrees := new nat[|ns|](_ => 0);
      grid := {};
      new;
      hide Bit, Cell, Represents;
      EmptyGrid(edges[..], |nodes|, wordsPerRow);
      assert forall i: nat :: RowOf(grid, i) == {};
    }

    function IndexOf(reg: nat): (i: int)
      requires Indexed()
      reads this
      ensures i == NO_INDEX <==> reg !in nodes
      ensures i != NO_INDEX ==> 0 <= i < |nodes| && nodes[i] == reg
    {
      if reg >= |index| then NO_INDEX else index[reg]
    }

    predicate Contains(reg: nat)
      requires Indexed()
      reads this
      ensures Contains(reg) <==> reg in nodes
    {
      IndexOf(reg) != NO_INDEX
    }

    /** Can these two registers be joined at all? */
    ghost predicate Joinable(lhs: nat, rhs: nat)
      requires Indexed()
      reads this
    {
      lhs != rhs && lhs in nodes && rhs in nodes
      && SameBank(classes[IndexOf(lhs)], classes[IndexOf(rhs)])
    }

    method AddEdge(lhs: nat, rhs: nat) returns (added: bool)
      requires Valid()
      modifies this`grid, edges, degrees
      ensures Valid()
      ensures added <==> Joinable(lhs, rhs) && (lhs, rhs) !in old(Edges())
      ensures Edges() == old(Edges()) + (if Joinable(lhs, rhs) then {(lhs, rhs), (rhs, lhs)} else {})
    {
      if lhs == rhs { return false; }
      var i, j := IndexOf(lhs), IndexOf(rhs);
      if i == NO_INDEX || j == NO_INDEX || !SameBank(classes[i], classes[j]) {
        return false;
      }
      NamedAt(grid, nodes, i, j);
      var present := TestBit(i, j);
      if present {
        assert (lhs, rhs) in Edges() && (rhs, lhs) in Edges() by { NamedAt(grid, nodes, j, i); }
        return false;
      }
      Join(i, j);
      added := true;
      assert Edges() == old(Edges()) + {(lhs, rhs), (rhs, lhs)};
    }

    method TestBit(i: nat, j: nat) returns (present: bool)
      requires Valid() && i < |nodes| && j < |nodes|
      ensures present <==> (i, j) in grid
    {
      RowFits(i, |nodes|, wordsPerRow, j / 64);
      assert Cell(edges[..], |nodes|, wordsPerRow, i, j) <==> (i, j) in grid;
      present := And(edges[i * wordsPerRow + j / 64], Pow2(j % 64)) != 0;
      TestMask(edges[i * wordsPerRow + j / 64], j % 64);
    }

    /** Masking with one bit tests that bit. */
    lemma TestMask(w: nat, b: nat)
      ensures And(w, Pow2(b)) != 0 <==> Bit(w, b)
    {
      AndBits(w, Pow2(b), b);
      Pow2Bits(b, b);
      if And(w, Pow2(b)) != 0 {
        SomeBit(And(w, Pow2(b)));
        var i: nat :| Bit(And(w, Pow2(b)), i);
        AndBits(w, Pow2(b), i);
        Pow2Bits(b, i);
      } else {
        ZeroHasNoBits(b);
      }
    }

    method Join(i: nat, j: nat)
      requires Valid() && i < |nodes| && j < |nodes| && i != j && SameBank(classes[i], classes[j])
      requires (i, j) !in grid
      modifies this`grid, edges, degrees
      ensures Valid() && grid == old(grid) + {(i, j), (j, i)}
    {
      ghost var joined := grid + {(i, j)} + {(j, i)};
      SetBit(i, j, grid);
      SetBit(j, i, grid + {(i, j)});
      forall a: nat { JoinRows(grid, i, j, a); }
      degrees[i] := degrees[i] + 1;
      degrees[j] := degrees[j] + 1;
      grid := joined;
    }

    method SetBit(i: nat, j: nat, ghost g: Grid)
      requires i < |nodes| && j < |nodes| && wordsPerRow == (|nodes| + 63) / 64 && edges != degrees
      requires Represents(edges[..], |nodes|, wordsPerRow, g)
      modifies edges
      ensures Represents(edges[..], |nodes|, wordsPerRow, g + {(i, j)})
    {
      RowFits(i, |nodes|, wordsPerRow, j / 64);
      ghost var before := edges[..];
      edges[i * wordsPerRow + j / 64] := Or(edges[i * wordsPerRow + j / 64], Pow2(j % 64));
      assert edges[..] == SetCell(before, |nodes|, wordsPerRow, i, j);
      SetCellRepresents(before, |nodes|, wordsPerRow, g, i, j);
    }

    method HasEdge(lhs: nat, rhs: nat) returns (present: bool)
      requires Valid()
      ensures present <==> (lhs, rhs) in Edges()
    {
      var i, j := IndexOf(lhs), IndexOf(rhs);
      if i == NO_INDEX || j == NO_INDEX { return false; }
      NamedAt(grid, nodes, i, j);
      present := TestBit(i, j);
    }

    method Degree(reg: nat) returns (d: nat)
      requires Valid()
      ensures d == |NeighborSet(Edges(), reg)|
    {
      var i := IndexOf(reg);
      if i == NO_INDEX {
        assert NeighborSet(Edges(), reg) == {};
        return 0;
      }
      NeighborsMatchRow(grid, nodes, i);
      d := degrees[i];
    }

    /** The words of one row. */
    method WordsOf(row: nat) returns (words: seq<nat>)
      requires Valid() && row < |nodes|
      ensures |words| == wordsPerRow && WordsOfRow(words, RowOf(grid, row), |nodes|)
    {
      if wordsPerRow > 0 { RowFits(row, |nodes|, wordsPerRow, wordsPerRow - 1); }
      words := edges[row * wordsPerRow..row * wordsPerRow + wordsPerRow];
      forall k: nat, b: nat | k < |words| ensures Bit(words[k], b) <==> b < 64 && k * 64 + b in RowOf(grid, row) {
        RowFits(row, |nodes|, wordsPerRow, k);
        WordHoldsStretch(edges[..], |nodes|, wordsPerRow, grid, row, k, b);
        assert edges[..][row * wordsPerRow + k] == words[k];
      }
    }

    /** All neighbours, by running the iterator from begin to end: each exactly once, in index order. */
    method Neighbors(reg: nat) returns (ns: seq<nat>)
      requires Valid()
      ensures forall v :: v in ns <==> v in NeighborSet(Edges(), reg)
      ensures forall a, b :: 0 <= a < b < |ns| ==> IndexOf(ns[a]) < IndexOf(ns[b])
      ensures |ns| == |NeighborSet(Edges(), reg)|
    {
      ns := [];
      var row := IndexOf(reg);
      var it := new NeighborIterator(this, row);
      ghost var found: seq<nat> := [];
      while it.nodeIndex != |nodes|
        invariant Valid() && it.Valid() && it.graph == this && it.row == row && fresh(it)
        invariant |ns| == |found| && forall k :: 0 <= k < |ns| ==> found[k] < it.nodeIndex && ns[k] == nodes[found[k]]
        invariant forall a, b :: 0 <= a < b < |found| ==> found[a] < found[b]
        invariant forall j: nat :: j in it.Bits() <==>
                    j in found || (it.nodeIndex < |nodes| &&
                                   (j == it.nodeIndex || Pending(it.Bits(), it.nextWord, it.remainingWord, j)))
        decreases |nodes| - it.nodeIndex
      {
        ns := ns + [nodes[it.nodeIndex]];
        found := found + [it.nodeIndex];
        it.Advance();
      }
      FoundAll(reg, ns, found);
    }

    lemma FoundAll(reg: nat, ns: seq<nat>, found: seq<nat>)
      requires Valid() && |ns| == |found|
      requires forall k :: 0 <= k < |ns| ==> found[k] < |nodes| && ns[k] == nodes[found[k]]
      requires forall a, b :: 0 <= a < b < |found| ==> found[a] < found[b]
      requires forall j: nat :: j in found <==> IndexOf(reg) != NO_INDEX && j in RowOf(grid, IndexOf(reg))
      ensures forall v :: v in ns <==> v in NeighborSet(Edges(), reg)
      ensures forall a, b :: 0 <= a < b < |ns| ==> IndexOf(ns[a]) < IndexOf(ns[b])
      ensures |ns| == |NeighborSet(Edges(), reg)|
    {
      var i := IndexOf(reg);
      var all := NeighborSet(Edges(), reg);
      if i == NO_INDEX {
        assert all == {};
        SortedCounts(found, {});
      } else {
        NeighborsMatchRow(grid, nodes, i);
        forall v ensures v in ns <==> v in all {
          if v in ns {
            var k :| 0 <= k < |ns| && ns[k] == v;
            assert found[k] in found;
          }
          if v in all {
            var e :| e in Edges() && e.0 == reg && e.1 == v;
            var p :| p in grid && (nodes[p.0], nodes[p.1]) == e;
            assert p.1 in found;
            var k :| 0 <= k < |found| && found[k] == p.1;
            assert ns[k] == v;
          }
        }
        SortedCounts(found, RowOf(grid, i));
      }
    }
  }

  /** A strictly increasing list has as many entries as distinct members. */
  lemma {:induction false} SortedCounts(s: seq<nat>, members: set<nat>)
    requires forall a, b :: 0 <= a < b < |s| ==> s[a] < s[b]
    requires forall j: nat :: j in s <==> j in members
    ensures |s| == |members|
  {
    if s == [] {
      assert members == {};
    } else {
      var last := s[|s| - 1];
      var front := s[..|s| - 1];
      assert s == front + [last];
      assert forall j: nat :: j in front <==> j in members - {last};
      SortedCounts(front, members - {last});
    }
  }
}

/**
 * Grouping of grid cells into text segments (src/terminal_view/TextRenderer.cpp):
 * consecutive non-blank cells of one row with equal graphics attributes are
 * collected into one run of codepoints, each codepoint tagged with the index
 * of the cell (its cluster) it came from; a finished run is handed on to be
 * rendered.
 */
module TerminalView {

  /** A Unicode scalar value, as char32_t. */
  type Codepoint = nat

  const SP: Codepoint := 0x20

  /** A grid cell: its codepoints (none for an empty cell) and its graphics attributes. */
  datatype Cell<Attributes> = Cell(codepoints: seq<Codepoint>, attributes: Attributes)

  /** A cell that never starts or extends a segment: an empty cell or one starting with a space. */
  predicate Blank<A>(cell: Cell<A>) {
    cell.codepoints == [] || cell.codepoints[0] == SP
  }

  datatype State = Empty | Filling

  /** A segment handed to the glyph renderer: where it starts, how it looks, what it holds. */
  datatype Segment<Attributes> = Segment(row: nat, startColumn: nat, attributes: Attributes,
                                         codepoints: seq<Codepoint>, clusters: seq<nat>)

  // ---------------------------------------------------------------------------
  // The codepoints and clusters of a run of cells
  // ---------------------------------------------------------------------------

  /** `n` copies of `v`. */
  function Repeat(v: nat, n: nat): (s: seq<nat>)
    ensures |s| == n && forall i :: 0 <= i < n ==> s[i] == v
  {
    if n == 0 then [] else Repeat(v, n - 1) + [v]
  }

  /** The codepoints of the cells, one cell after the other. */
  function Codepoints<A>(cells: seq<Cell<A>>): seq<Codepoint> {
    if cells == [] then [] else Codepoints(cells[..|cells| - 1]) + cells[|cells| - 1].codepoints
  }

  /** For every codepoint of the cells, the index of the cell it belongs to. */
  function Clusters<A>(cells: seq<Cell<A>>): seq<nat> {
    if cells == [] then []
    else Clusters(cells[..|cells| - 1]) + Repeat(|cells| - 1, |cells[|cells| - 1].codepoints|)
  }

  lemma AppendCell<A>(cells: seq<Cell<A>>, cell: Cell<A>)
    ensures Codepoints(cells + [cell]) == Codepoints(cells) + cell.codepoints
    ensures Clusters(cells + [cell]) == Clusters(cells) + Repeat(|cells|, |cell.codepoints|)
  {
    assert (cells + [cell])[..|cells|] == cells;
  }

  /**
   * The clusters of a run of cells: one per codepoint, never decreasing, and
   * each one the index of a cell of the run.
   */
  lemma {:induction false} ClustersShape<A>(cells: seq<Cell<A>>)
    ensures |Clusters(cells)| == |Codepoints(cells)|
    ensures forall i, j :: 0 <= i <= j < |Clusters(cells)| ==> Clusters(cells)[i] <= Clusters(cells)[j]
    ensures forall i :: 0 <= i < |Clusters(cells)| ==> Clusters(cells)[i] < |cells|
  {
    if cells != [] {
      var prefix := cells[..|cells| - 1];
      ClustersShape(prefix);
      var tail := Repeat(|cells| - 1, |cells[|cells| - 1].codepoints|);
      assert Clusters(cells) == Clusters(prefix) + tail;
      forall i, j | 0 <= i <= j < |Clusters(cells)|
        ensures Clusters(cells)[i] <= Clusters(cells)[j]
      {
        if j >= |Clusters(prefix)| && i < |Clusters(prefix)| {
          assert Clusters(cells)[i] == Clusters(prefix)[i];
        }
      }
    }
  }

  /** A run whose first cell has a codepoint has codepoints. */
  lemma {:induction false} CodepointsOfNonBlank<A>(cells: seq<Cell<A>>)
    requires cells != [] && cells[0].codepoints != []
    ensures Codepoints(cells) != []
  {
    if |cells| > 1 {
      CodepointsOfNonBlank(cells[..|cells| - 1]);
    }
  }

  // ---------------------------------------------------------------------------
  // TextRenderer
  // ---------------------------------------------------------------------------

  /**
   * The segment builder of TextRenderer. The glyph shaping, glyph caches and
   * OpenGL calls are not modelled; the segments handed to the renderer are
   * recorded in `emitted`.
   */
  class TextRenderer<Attributes(==)> {
    var state: State
    var row: nat
    var startColumn: nat
    var attributes: Attributes
    var codepoints: seq<Codepoint>
    var clusters: seq<nat>
    var clusterOffset: nat
    /** The cells extended into the current segment since the last reset. */
    ghost var cells: seq<Cell<Attributes>>
    /** The segments flushed to the renderer so far. */
    ghost var emitted: seq<Segment<Attributes>>

    /**
     * The buffers hold the codepoints and clusters of the cells extended since
     * the last reset, and clusterOffset counts those cells. While Filling, the
     * segment is made of non-blank cells with the segment's attributes. Every
     * segment handed to the renderer holds codepoints.
     */
    ghost predicate Valid()
      reads this
    {
      codepoints == Codepoints(cells) && clusters == Clusters(cells) && clusterOffset == |cells|
      && (state == Filling ==>
            cells != [] && forall k :: 0 <= k < |cells| ==> !Blank(cells[k]) && cells[k].attributes == attributes)
      && forall k :: 0 <= k < |emitted| ==> emitted[k].codepoints != []
    }

    /** The segment as it would be handed to the renderer now. */
    function Pending(): Segment<Attributes>
      reads this
    {
      Segment(row, startColumn, attributes, codepoints, clusters)
    }

    /** The state right after `reset(row, column, cell.attributes())` and `extend(cell)`. */
    ghost predicate StartedAt(atRow: nat, atColumn: nat, cell: Cell<Attributes>)
      reads this
    {
      state == Filling && row == atRow && startColumn == atColumn && attributes == cell.attributes
      && codepoints == cell.codepoints && clusters == Repeat(0, |cell.codepoints|) && clusterOffset == 1
      && cells == [cell]
    }

    constructor (initialAttributes: Attributes)
      ensures Valid() && state == Empty && codepoints == [] && clusters == [] && emitted == []
    {
      state := Empty;
      row, startColumn := 0, 0;
      attributes := initialAttributes;
      codepoints, clusters := [], [];
      clusterOffset := 0;
      cells, emitted := [], [];
    }

    /**
     * The cluster invariant: one cluster per codepoint, non-decreasing, each
     * below clusterOffset.
     */
    lemma ClusterInvariant()
      requires Valid()
      ensures |clusters| == |codepoints|
      ensures forall i, j :: 0 <= i <= j < |clusters| ==> clusters[i] <= clusters[j]
      ensures forall i :: 0 <= i < |clusters| ==> clusters[i] < clusterOffset
    {
      ClustersShape(cells);
    }

    /** While Filling, the pending segment has codepoints. */
    lemma FillingHasCodepoints()
      requires Valid() && state == Filling
      ensures codepoints != []
    {
      CodepointsOfNonBlank(cells);
    }

    /** reset: a new, empty segment at the given row, column and attributes. */
    method Reset(atRow: nat, atColumn: nat, attr: Attributes)
      modifies this`row, this`startColumn, this`attributes, this`codepoints, this`clusters,
               this`clusterOffset, this`cells
      ensures row == atRow && startColumn == atColumn && attributes == attr
      ensures codepoints == [] && clusters == [] && clusterOffset == 0 && cells == []
    {
      row := atRow;
      startColumn := atColumn;
      attributes := attr;
      codepoints := [];
      clusters := [];
      clusterOffset := 0;
      cells := [];
    }

    /** extend: the cell's codepoints join the segment, all in one new cluster. */
    method Extend(cell: Cell<Attributes>, atColumn: nat)
      requires codepoints == Codepoints(cells) && clusters == Clusters(cells) && clusterOffset == |cells|
      modifies this`codepoints, this`clusters, this`clusterOffset, this`cells
      ensures codepoints == old(codepoints) + cell.codepoints
      ensures clusters == old(clusters) + Repeat(old(clusterOffset), |cell.codepoints|)
      ensures clusterOffset == old(clusterOffset) + 1
      ensures cells == old(cells) + [cell]
      ensures codepoints == Codepoints(cells) && clusters == Clusters(cells) && clusterOffset == |cells|
    {
      var i := 0;
      while i < |cell.codepoints|
        invariant 0 <= i <= |cell.codepoints|
        invariant codepoints == old(codepoints) + cell.codepoints[..i]
        invariant clusters == old(clusters) + Repeat(clusterOffset, i)
        invariant clusterOffset == old(clusterOffset) && cells == old(cells)
      {
        codepoints := codepoints + [cell.codepoints[i]];
        clusters := clusters + [clusterOffset];
        assert cell.codepoints[..i + 1] == cell.codepoints[..i] + [cell.codepoints[i]];
        i := i + 1;
      }
      assert cell.codepoints[..i] == cell.codepoints;
      AppendCell(cells, cell);
      cells := cells + [cell];
      clusterOffset := clusterOffset + 1;
    }

    /** flushPendingSegments: hands the segment to the renderer unless it holds no codepoints. */
    method FlushPendingSegments()
      modifies this`emitted
      ensures emitted == old(emitted) + (if codepoints == [] then [] else [Pending()])
    {
      if codepoints == [] {
        return;
      }
      emitted := emitted + [Pending()];
    }

    /** schedule: the two-state machine that groups cells into segments. */
    method Schedule(atRow: nat, atColumn: nat, cell: Cell<Attributes>)
      requires Valid()
      modifies this
      ensures Valid()
      ensures old(state) == Empty && Blank(cell) ==> unchanged(this)
      ensures old(state) == Empty && !Blank(cell) ==> StartedAt(atRow, atColumn, cell) && emitted == old(emitted)
      ensures old(state) == Filling && !Blank(cell) && atRow == old(row) && cell.attributes == old(attributes) ==>
        state == Filling && row == old(row) && startColumn == old(startColumn) && attributes == old(attributes)
        && codepoints == old(codepoints) + cell.codepoints
        && clusters == old(clusters) + Repeat(old(clusterOffset), |cell.codepoints|)
        && clusterOffset == old(clusterOffset) + 1 && cells == old(cells) + [cell] && emitted == old(emitted)
      ensures old(state) == Filling && !(!Blank(cell) && atRow == old(row) && cell.attributes == old(attributes)) ==>
        emitted == old(emitted) + [old(Pending())]
        && (Blank(cell) ==> state == Empty && row == old(row) && startColumn == old(startColumn)
                            && attributes == old(attributes) && codepoints == old(codepoints)
                            && clusters == old(clusters) && clusterOffset == old(clusterOffset) && cells == old(cells))
        && (!Blank(cell) ==> StartedAt(atRow, atColumn, cell))
    {
      match state {
        case Empty =>
          if !Blank(cell) {
            state := Filling;
            ResetAndExtend(atRow, atColumn, cell);
          }
        case Filling =>
          if !Blank(cell) && row == atRow && attributes == cell.attributes {
            ghost var before := cells;
            Extend(cell, atColumn);
            FillingExtended(before, cell);
          } else {
            FillingHasCodepoints();
            FlushPendingSegments();
            if Blank(cell) {
              state := Empty;
            } else {
              ResetAndExtend(atRow, atColumn, cell);
            }
          }
      }
    }

    /** `reset(row, column, cell.attributes())` then `extend(cell)`: a segment of that one cell. */
    method ResetAndExtend(atRow: nat, atColumn: nat, cell: Cell<Attributes>)
      requires state == Filling && !Blank(cell)
      requires forall k :: 0 <= k < |emitted| ==> emitted[k].codepoints != []
      modifies this`row, this`startColumn, this`attributes, this`codepoints, this`clusters,
               this`clusterOffset, this`cells
      ensures StartedAt(atRow, atColumn, cell) && Valid()
    {
      Reset(atRow, atColumn, cell.attributes);
      Extend(cell, atColumn);
      assert cells == [cell];
    }

    /** Cells that extend a Filling segment keep it made of non-blank cells with its attributes. */
    lemma FillingExtended(before: seq<Cell<Attributes>>, cell: Cell<Attributes>)
      requires forall k :: 0 <= k < |before| ==> !Blank(before[k]) && before[k].attributes == attributes
      requires !Blank(cell) && cell.attributes == attributes && cells == before + [cell]
      ensures forall k :: 0 <= k < |cells| ==> !Blank(cells[k]) && cells[k].attributes == attributes
    {
      forall k | 0 <= k < |cells| ensures !Blank(cells[k]) && cells[k].attributes == attributes {
        if k < |before| {
          assert cells[k] == before[k];
        }
      }
    }

    /** execute: after the rendering calls the builder is back at Empty. */
    method Execute()
      requires Valid()
      modifies this`state
      ensures Valid() && state == Empty
    {
      state := Empty;
    }
  }

  /**
   * Two non-blank cells in a row with the same attributes, scheduled into an
   * empty builder, make one segment holding both cells' codepoints, the first
   * cell's in cluster 0 and the second's in cluster 1.
   */
  method ScheduleTwo<A(==)>(renderer: TextRenderer<A>, atRow: nat, first: Cell<A>, second: Cell<A>)
    requires renderer.Valid() && renderer.state == Empty
    requires !Blank(first) && !Blank(second) && first.attributes == second.attributes
    modifies renderer
    ensures renderer.Valid() && renderer.state == Filling && renderer.emitted == old(renderer.emitted)
    ensures renderer.codepoints == first.codepoints + second.codepoints
    ensures renderer.clusters == Repeat(0, |first.codepoints|) + Repeat(1, |second.codepoints|)
  {
    renderer.Schedule(atRow, 0, first);
    renderer.Schedule(atRow, 1, second);
  }
}

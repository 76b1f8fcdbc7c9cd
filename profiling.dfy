/**
 * The data side of the pipeline profiling page: the snapshot it binds,
 * ordered by wall time, and the view models it builds from it, with each
 * processor ranked by its own wall time.
 */
module Profiling {
  import opened Wrappers
  import opened StableOrder

  /** Counters kept for one pipeline or processor. */
  datatype PerformanceData = PerformanceData(executionCount: int, wallTime: real, maxWallTime: real, cpuTime: real)

  datatype ProcessorInfo = ProcessorInfo(processorName: string, performanceData: PerformanceData)

  datatype PipelineInfo = PipelineInfo(performanceData: PerformanceData, processors: seq<ProcessorInfo>)

  /** One pipeline of the profiling snapshot, under its name. */
  datatype SnapshotEntry = SnapshotEntry(key: string, value: PipelineInfo)

  /** The view of a processor; `details` is `None` until its tooltip is rendered. */
  datatype ProcessorView = ProcessorView(
    name: string,
    rank: int,
    executionCount: int,
    wallTime: real,
    maxWallTime: real,
    cpuTime: real,
    details: Option<string>)

  datatype PipelineView = PipelineView(
    name: string,
    executionCount: int,
    wallTime: real,
    maxWallTime: real,
    cpuTime: real,
    processors: seq<ProcessorView>)

  /** Renders the tooltip of a processor within its pipeline. */
  type Renderer = (ProcessorView, PipelineView) -> string

  function EntryWallTimes(snapshot: seq<SnapshotEntry>): seq<real>
  {
    seq(|snapshot|, i requires 0 <= i < |snapshot| => snapshot[i].value.performanceData.wallTime)
  }

  function ProcessorWallTimes(processors: seq<ProcessorInfo>): seq<real>
  {
    seq(|processors|, i requires 0 <= i < |processors| => processors[i].performanceData.wallTime)
  }

  // ---------------------------------------------------------------------
  // Ordering of the snapshot

  /** The snapshot sorted stably by descending wall time. */
  function OrderByWallTime(snapshot: seq<SnapshotEntry>): (ordered: seq<SnapshotEntry>)
    ensures |ordered| == |snapshot|
    ensures multiset(ordered) == multiset(snapshot)
    ensures forall i, j :: 0 <= i < j < |ordered| ==>
              ordered[i].value.performanceData.wallTime >= ordered[j].value.performanceData.wallTime
  {
    var walls := EntryWallTimes(snapshot);
    var order := SortOrder(walls);
    PermutePrefixMultiset(snapshot, walls, |snapshot|);
    assert snapshot[..|snapshot|] == snapshot;
    var ordered := Permute(snapshot, order);
    assert forall i, j :: 0 <= i < j < |ordered| ==> Precedes(walls, order[i], order[j]);
    ordered
  }

  /**
   * Entries with equal wall times keep their snapshot order: the result
   * takes entry `order[i]` at place `i`, `order` lists every entry once,
   * and ties appear in increasing snapshot position.
   */
  lemma OrderByWallTimeIsStable(snapshot: seq<SnapshotEntry>)
    ensures var walls := EntryWallTimes(snapshot);
            var order := SortOrder(walls);
            var ordered := OrderByWallTime(snapshot);
            && |order| == |snapshot|
            && (forall p :: 0 <= p < |snapshot| ==> p in order)
            && (forall i :: 0 <= i < |order| ==> 0 <= order[i] < |snapshot| && ordered[i] == snapshot[order[i]])
            && (forall i, j :: 0 <= i < j < |order| && walls[order[i]] == walls[order[j]] ==> order[i] < order[j])
  {
    var walls := EntryWallTimes(snapshot);
    var order := SortOrder(walls);
    forall i, j | 0 <= i < j < |order| && walls[order[i]] == walls[order[j]]
      ensures order[i] < order[j]
    {
      assert Precedes(walls, order[i], order[j]);
    }
  }

  // ---------------------------------------------------------------------
  // Ranks

  /**
   * The rank of processor `p`: 0 when the pipeline has a single processor,
   * otherwise its 1-based place among the processors sorted stably by
   * descending wall time.
   */
  function Rank(walls: seq<real>, p: int): (rank: int)
    requires 0 <= p < |walls|
    ensures |walls| == 1 ==> rank == 0
    ensures |walls| >= 2 ==> 1 <= rank <= |walls|
  {
    if |walls| == 1 then 0
    else
      var order := SortOrder(walls);
      assert p in order;
      IndexOf(order, p) + 1
  }

  /** With two or more processors, ranks follow wall time, ties broken by original position. */
  lemma RankFollowsWallTime(walls: seq<real>, p: int, q: int)
    requires |walls| >= 2
    requires 0 <= p < |walls| && 0 <= q < |walls|
    ensures Rank(walls, p) < Rank(walls, q) <==> (walls[p] > walls[q] || (walls[p] == walls[q] && p < q))
  {
    PositionFollowsPrecedence(walls, SortOrder(walls), p, q);
  }

  /** A stable order lists each position once, so the place of the entry at place `k` is `k`. */
  lemma IndexOfSorted(walls: seq<real>, k: int)
    requires 0 <= k < |walls|
    ensures var order := SortOrder(walls);
            0 <= order[k] < |walls| && IndexOf(order, order[k]) == k
  {
  }

  /** Some processor has rank `k`. */
  ghost predicate RankTaken(walls: seq<real>, k: int)
  {
    exists p :: 0 <= p < |walls| && Rank(walls, p) == k
  }

  /** With two or more processors, ranks are a permutation of 1..n. */
  lemma RanksArePermutation(walls: seq<real>)
    requires |walls| >= 2
    ensures forall p, q :: 0 <= p < |walls| && 0 <= q < |walls| && p != q ==> Rank(walls, p) != Rank(walls, q)
    ensures forall k :: 1 <= k <= |walls| ==> RankTaken(walls, k)
  {
    forall p, q | 0 <= p < |walls| && 0 <= q < |walls| && p != q
      ensures Rank(walls, p) != Rank(walls, q)
    {
      RankFollowsWallTime(walls, p, q);
      RankFollowsWallTime(walls, q, p);
    }
    forall k | 1 <= k <= |walls|
      ensures RankTaken(walls, k)
    {
      IndexOfSorted(walls, k - 1);
      var p := SortOrder(walls)[k - 1];
      assert Rank(walls, p) == k;
    }
  }

  /**
   * With two or more processors, rank 1 goes to the processor with the
   * largest wall time, the first one among equals.
   */
  lemma RankOneIsSlowest(walls: seq<real>, p: int)
    requires |walls| >= 2
    requires 0 <= p < |walls|
    ensures Rank(walls, p) == 1 <==>
              forall q :: 0 <= q < |walls| && q != p ==> walls[q] < walls[p] || (walls[q] == walls[p] && p < q)
  {
    RanksArePermutation(walls);
    if Rank(walls, p) == 1 {
      forall q | 0 <= q < |walls| && q != p
        ensures walls[q] < walls[p] || (walls[q] == walls[p] && p < q)
      {
        RankFollowsWallTime(walls, p, q);
      }
    } else {
      assert RankTaken(walls, 1);
      var q :| 0 <= q < |walls| && Rank(walls, q) == 1;
      RankFollowsWallTime(walls, p, q);
    }
  }

  // ---------------------------------------------------------------------
  // View models

  /** The view of processor `p` before its details are rendered. */
  function ProcessorViewOf(processors: seq<ProcessorInfo>, p: int): ProcessorView
    requires 0 <= p < |processors|
  {
    var data := processors[p].performanceData;
    ProcessorView(
      processors[p].processorName, Rank(ProcessorWallTimes(processors), p),
      data.executionCount, data.wallTime, data.maxWallTime, data.cpuTime, None)
  }

  /** The view of a pipeline before any processor details are rendered. */
  function BareView(entry: SnapshotEntry): PipelineView
  {
    var data := entry.value.performanceData;
    var processors := entry.value.processors;
    PipelineView(
      entry.key, data.executionCount, data.wallTime, data.maxWallTime, data.cpuTime,
      seq(|processors|, p requires 0 <= p < |processors| => ProcessorViewOf(processors, p)))
  }

  /**
   * The pipeline view after the details of its first `k` processors are
   * rendered in order; each is rendered with its own details still unset
   * and the earlier ones already set. Nothing else changes.
   */
  function WithDetails(view: PipelineView, render: Renderer, k: nat): (r: PipelineView)
    requires k <= |view.processors|
    ensures |r.processors| == |view.processors|
    ensures forall i :: 0 <= i < k ==> r.processors[i].details.Some?
    ensures forall i :: k <= i < |r.processors| ==> r.processors[i].details == view.processors[i].details
    decreases k
  {
    if k == 0 then view
    else
      var prev := WithDetails(view, render, k - 1);
      var processor := prev.processors[k - 1];
      prev.(processors := prev.processors[k - 1 := processor.(details := Some(render(processor, prev)))])
  }

  /** Rendering details changes nothing but the details of the processors. */
  lemma {:induction false} WithDetailsKeepsViews(view: PipelineView, render: Renderer, k: nat)
    requires k <= |view.processors|
    ensures var r := WithDetails(view, render, k);
            && r == view.(processors := r.processors)
            && forall i :: 0 <= i < |r.processors| ==>
                 r.processors[i] == view.processors[i].(details := r.processors[i].details)
    decreases k
  {
    if k > 0 {
      WithDetailsKeepsViews(view, render, k - 1);
    }
  }

  /** Processor `j` gets its details from the renderer called on its bare view within the pipeline so far. */
  lemma RenderedAt(view: PipelineView, render: Renderer, j: nat)
    requires j < |view.processors|
    ensures WithDetails(view, render, j + 1).processors[j].details
            == Some(render(view.processors[j], WithDetails(view, render, j)))
  {
    WithDetailsKeepsViews(view, render, j);
  }

  /** Rendering processor `k - 1` leaves the earlier processors' views as they were. */
  lemma EarlierKept(view: PipelineView, render: Renderer, k: nat, j: int)
    requires 0 <= j < k - 1 && k <= |view.processors|
    ensures WithDetails(view, render, k).processors[j] == WithDetails(view, render, k - 1).processors[j]
  {
  }

  /**
   * The details of processor `j` are what the renderer gives for that
   * processor with no details, inside the pipeline whose processors before
   * `j` have theirs.
   */
  lemma {:induction false} DetailsRenderedInOrder(view: PipelineView, render: Renderer, k: nat, j: int)
    requires 0 <= j < k <= |view.processors|
    ensures WithDetails(view, render, k).processors[j].details
            == Some(render(view.processors[j], WithDetails(view, render, j)))
    decreases k
  {
    if j < k - 1 {
      DetailsRenderedInOrder(view, render, k - 1, j);
      EarlierKept(view, render, k, j);
    } else {
      RenderedAt(view, render, j);
    }
  }

  /** The complete view of one snapshot entry. */
  function PipelineViewOf(entry: SnapshotEntry, render: Renderer): PipelineView
  {
    var bare := BareView(entry);
    WithDetails(bare, render, |bare.processors|)
  }

  /** The views of the bound entries, one per entry, in order. */
  function PipelineViews(entries: seq<SnapshotEntry>, render: Renderer): seq<PipelineView>
  {
    seq(|entries|, i requires 0 <= i < |entries| => PipelineViewOf(entries[i], render))
  }

  /** The views of one more entry end with that entry's view. */
  lemma PipelineViewsSnoc(entries: seq<SnapshotEntry>, e: int, render: Renderer)
    requires 0 <= e < |entries|
    ensures PipelineViews(entries[..e + 1], render) == PipelineViews(entries[..e], render) + [PipelineViewOf(entries[e], render)]
  {
    var views := PipelineViews(entries[..e + 1], render);
    assert views[..e] == PipelineViews(entries[..e], render);
    assert views == views[..e] + [views[e]];
  }

  /**
   * Each view copies its entry: the name and counters of the pipeline, and
   * for every processor, in the original order, its name and counters,
   * its rank and rendered details.
   */
  lemma PipelineViewCopiesEntry(entry: SnapshotEntry, render: Renderer)
    ensures var view := PipelineViewOf(entry, render);
            var data := entry.value.performanceData;
            var processors := entry.value.processors;
            && view.name == entry.key
            && view.executionCount == data.executionCount
            && view.wallTime == data.wallTime
            && view.maxWallTime == data.maxWallTime
            && view.cpuTime == data.cpuTime
            && |view.processors| == |processors|
            && forall p :: 0 <= p < |processors| ==>
                 && view.processors[p].name == processors[p].processorName
                 && view.processors[p].executionCount == processors[p].performanceData.executionCount
                 && view.processors[p].wallTime == processors[p].performanceData.wallTime
                 && view.processors[p].maxWallTime == processors[p].performanceData.maxWallTime
                 && view.processors[p].cpuTime == processors[p].performanceData.cpuTime
                 && view.processors[p].rank == Rank(ProcessorWallTimes(processors), p)
                 && view.processors[p].details.Some?
  {
    var bare := BareView(entry);
    WithDetailsKeepsViews(bare, render, |bare.processors|);
  }

  /** Views built from the bound data come in non-increasing order of pipeline wall time. */
  lemma ViewsByWallTime(snapshot: seq<SnapshotEntry>, render: Renderer)
    ensures var views := PipelineViews(OrderByWallTime(snapshot), render);
            && |views| == |snapshot|
            && forall i, j :: 0 <= i < j < |views| ==> views[i].wallTime >= views[j].wallTime
  {
    var ordered := OrderByWallTime(snapshot);
    forall i | 0 <= i < |ordered|
      ensures PipelineViews(ordered, render)[i].wallTime == ordered[i].value.performanceData.wallTime
    {
      PipelineViewCopiesEntry(ordered[i], render);
    }
  }

  // ---------------------------------------------------------------------
  // The page

  /** The profiling page: the data it binds and the views it builds from that data. */
  class Pipelines {
    /** The bound snapshot, heaviest pipeline first. */
    var dataSource: seq<SnapshotEntry>

    constructor ()
      ensures dataSource == []
    {
      dataSource := [];
    }

    /** Binds the snapshot, ordered stably by descending wall time. */
    method DataBind(snapshot: seq<SnapshotEntry>)
      modifies this
      ensures dataSource == OrderByWallTime(snapshot)
    {
      dataSource := OrderByWallTime(snapshot);
    }

    /**
     * Builds one view per bound entry, in order, rendering the details of
     * each pipeline's processors one after another.
     */
    method GetPipelines(render: Renderer) returns (views: seq<PipelineView>)
      ensures views == PipelineViews(dataSource, render)
    {
      var entries := dataSource;
      views := [];
      for e := 0 to |entries|
        invariant views == PipelineViews(entries[..e], render)
      {
        var entry := entries[e];
        var bare := BareView(entry);
        var pipeline := bare;
        for k := 0 to |bare.processors|
          invariant pipeline == WithDetails(bare, render, k)
        {
          var processor := pipeline.processors[k];
          var details := render(processor, pipeline);
          pipeline := pipeline.(processors := pipeline.processors[k := processor.(details := Some(details))]);
        }
        PipelineViewsSnoc(entries, e, render);
        views := views + [pipeline];
      }
      assert entries[..|entries|] == entries;
    }
  }
}

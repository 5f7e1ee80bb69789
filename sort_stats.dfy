/** The statistics record of the sorting visualizer and its single update operation. */
module SortStats {

  /** `stats`: running counts of comparisons and swaps, and the elapsed time of the last run. */
  datatype Stats = Stats(comparisons: nat, swaps: nat, time: nat)

  /** The two counters `updateStats` can bump. */
  datatype StatKind = Comparisons | Swaps

  /** The record `resetVisualization` installs. */
  const ZeroStats := Stats(0, 0, 0)

  /** `updateStats(type)`: exactly the named counter grows by one; nothing else changes. */
  function UpdateStats(s: Stats, kind: StatKind): (r: Stats)
    ensures r.comparisons + r.swaps == s.comparisons + s.swaps + 1
    ensures kind == Comparisons ==> r.comparisons == s.comparisons + 1 && r.swaps == s.swaps
    ensures kind == Swaps ==> r.swaps == s.swaps + 1 && r.comparisons == s.comparisons
    ensures r.time == s.time
  {
    match kind
    case Comparisons => s.(comparisons := s.comparisons + 1)
    case Swaps => s.(swaps := s.swaps + 1)
  }

  /** Counters never go down between two points of a run. */
  ghost predicate NoLess(later: Stats, earlier: Stats)
  {
    later.comparisons >= earlier.comparisons && later.swaps >= earlier.swaps && later.time == earlier.time
  }
}

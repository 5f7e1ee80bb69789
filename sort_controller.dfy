/**
 * The state and controls of the sorting visualizer: the displayed array (`array`, here
 * `displayArray`, since `array` is a Dafny keyword) and the one saved
 * when it was generated, the statistics, the two flags of a run, and the selected algorithm.
 * A run is split in two steps, because `startSorting` is asynchronous: StartSorting is the
 * click (everything before the first `await`), CompleteRun is the sort finishing later.
 */
module SortController {
  import opened SortStats
  import opened SortSpec
  import opened SimpleSorts
  import opened MergeSorting
  import opened QuickSorting
  import opened HeapSorting
  import opened CountingSorting
  import opened BucketSorting
  import opened Arith

  /** The keys of `algorithms`, the values `currentAlgorithm` takes. */
  datatype Algorithm = Bubble | Selection | Insertion | Merge | Quick | Heap | Counting | Radix | Bucket

  /** `Math.floor(Math.random() * 400) + 10`: every generated value lies in `[10, 409]`. */
  ghost predicate Generated(values: seq<int>)
  {
    forall i :: 0 <= i < |values| ==> 10 <= values[i] <= 409
  }

  /** When the run of `alg` on `s` throws, to be caught by `startSorting`'s `try`. */
  predicate Throws(alg: Algorithm, s: seq<int>)
  {
    (alg == Counting && |s| == 0) || (alg == Bucket && |s| > 0 && forall i :: 0 <= i < |s| ==> s[i] == 0)
  }

  /** The number of pairs among `n` elements, `n(n-1)/2`. */
  function HalfPairs(n: int): int
  {
    n * (n - 1) / 2
  }

  /**
   * What the run of `alg` on `s` adds to the counters, as each sort promises: bubble
   * and selection sort compare n(n-1)/2 times; bubble sort swaps once per inversion of
   * `s` and insertion sort compares and shifts once per inversion; selection sort swaps
   * at most n-1 times and heap sort at least n-1 times; merge sort counts one write per
   * comparison; quick sort compares at most n(n-1)/2 times; counting and bucket sort
   * count one write per element and radix sort one per element and digit, none of the
   * three comparing (and none counting anything when it throws). No counter goes down.
   */
  ghost predicate Counted(alg: Algorithm, s: seq<int>, before: Stats, after: Stats)
  {
    var n := |s|;
    var dc, ds := after.comparisons - before.comparisons, after.swaps - before.swaps;
    dc >= 0 && ds >= 0 &&
    match alg
    case Bubble => dc == HalfPairs(n) && ds == Inversions(s)
    case Selection => dc == HalfPairs(n) && ds <= (if n == 0 then 0 else n - 1)
    case Insertion => dc == Inversions(s) && ds == Inversions(s)
    case Merge => dc == ds
    case Quick => 2 * dc <= Pairs(n)
    case Heap => ds >= (if n == 0 then 0 else n - 1)
    case Counting => dc == 0 && ds == n
    case Radix => dc == 0 && (n == 0 ==> ds == 0) && (n > 0 && MaxOf(s) >= 0 ==> ds == n * DigitCount(MaxOf(s)))
    case Bucket => dc == 0 && ds == (if Throws(Bucket, s) then 0 else n)
  }

  /**
   * The `switch (currentAlgorithm)` of `startSorting`: runs the selected sort on the copy
   * `a`. Unless the sort throws, the array ends sorted and permuted; counting sort throws on
   * an empty array and bucket sort on an all-zero one, both before writing anything or
   * counting anything. The counters grow as `Counted` says; the elapsed time is left as it
   * was.
   */
  method RunAlgorithm(alg: Algorithm, a: array<int>, stats: Stats) returns (stats': Stats, threw: bool)
    requires forall i :: 0 <= i < a.Length ==> a[i] >= 0
    modifies a
    ensures threw == Throws(alg, old(a[..]))
    ensures threw ==> a[..] == old(a[..]) && stats' == stats
    ensures !threw ==> Sorted(a[..]) && multiset(a[..]) == multiset(old(a[..]))
    ensures Counted(alg, old(a[..]), stats, stats')
    ensures stats'.time == stats.time
  {
    if alg == Counting || alg == Radix || alg == Bucket {
      stats', threw := RunKeySort(alg, a, stats);
    } else {
      stats' := RunComparisonSort(alg, a, stats);
      threw := false;
    }
  }

  /** The six comparison sorts of the `switch`; none of them throws. */
  method RunComparisonSort(alg: Algorithm, a: array<int>, stats: Stats) returns (stats': Stats)
    requires alg != Counting && alg != Radix && alg != Bucket
    modifies a
    ensures Sorted(a[..]) && multiset(a[..]) == multiset(old(a[..]))
    ensures Counted(alg, old(a[..]), stats, stats')
    ensures stats'.time == stats.time
  {
    ghost var n := a.Length;
    assert |old(a[..])| == n;
    match alg
    case Bubble => stats' := BubbleSort(a, stats);
    case Selection => stats' := SelectionSort(a, stats);
    case Insertion => stats' := InsertionSort(a, stats);
    case Merge => stats' := MergeSortAll(a, stats);
    case Quick => stats' := QuickSortAll(a, stats);
    case Heap => stats' := HeapSort(a, stats);
  }

  /** The three key-based sorts of the `switch`, which need non-negative values. */
  method RunKeySort(alg: Algorithm, a: array<int>, stats: Stats) returns (stats': Stats, threw: bool)
    requires alg == Counting || alg == Radix || alg == Bucket
    requires forall i :: 0 <= i < a.Length ==> a[i] >= 0
    modifies a
    ensures threw == Throws(alg, old(a[..]))
    ensures threw ==> a[..] == old(a[..]) && stats' == stats
    ensures !threw ==> Sorted(a[..]) && multiset(a[..]) == multiset(old(a[..]))
    ensures Counted(alg, old(a[..]), stats, stats')
    ensures stats'.time == stats.time
  {
    threw := false;
    ghost var n := a.Length;
    assert |old(a[..])| == n;
    match alg
    case Counting => stats', threw := CountingSort(a, stats);
    case Radix => stats' := RadixSort(a, stats);
    case Bucket => stats', threw := BucketSort(a, stats);
  }

  /** Generated values are never all zero and never negative, so only an empty array throws. */
  lemma GeneratedThrows(alg: Algorithm, s: seq<int>)
    requires Generated(s)
    ensures Throws(alg, s) <==> alg == Counting && |s| == 0
  {
    if alg == Bucket && |s| > 0 {
      assert s[0] >= 10;
    }
  }

  /**
   * A run started by `startSorting` and not finished yet: the copy `newArray` of the array
   * displayed at the click, the algorithm selected then, and the `startTime` it noted.
   */
  datatype Run = Run(snapshot: seq<int>, algorithm: Algorithm, startTime: int)

  class SortingVisualizer {
    var displayArray: seq<int>
    var originalArray: seq<int>
    var stats: Stats
    var isAnimating: bool
    var isPaused: bool
    var currentAlgorithm: Algorithm
    var arraySize: int
    /** The runs whose `await` is still pending, in the order they were started. */
    var runs: seq<Run>

    /**
     * Every array in play (the displayed one, the saved one and the copy each pending run
     * sorts) holds generated values in `[10, 409]`; the visualizer is only animating while
     * some run is pending, and only paused while animating.
     */
    ghost predicate Valid()
      reads this
    {
      Generated(originalArray) && Generated(displayArray) &&
      (forall k :: 0 <= k < |runs| ==> Generated(runs[k].snapshot)) &&
      (isAnimating ==> runs != []) && (isPaused ==> isAnimating)
    }

    /**
     * Mounting the component: the initial state (no array, zero statistics, bubble sort,
     * size 50), then the `useEffect` call of `generateArray` with the random draws `values`.
     */
    constructor(values: seq<int>)
      requires |values| == 50 && Generated(values)
      ensures Valid()
      ensures displayArray == values && originalArray == values && arraySize == 50
      ensures stats == ZeroStats && !isAnimating && !isPaused && currentAlgorithm == Bubble
      ensures runs == []
    {
      displayArray := values;
      originalArray := values;
      stats := ZeroStats;
      isAnimating := false;
      isPaused := false;
      currentAlgorithm := Bubble;
      arraySize := 50;
      runs := [];
    }

    /** `resetVisualization()`: zero statistics and both flags cleared. */
    method ResetVisualization()
      modifies this
      ensures stats == ZeroStats && !isAnimating && !isPaused
      ensures displayArray == old(displayArray) && originalArray == old(originalArray)
      ensures currentAlgorithm == old(currentAlgorithm) && arraySize == old(arraySize)
      ensures runs == old(runs)
    {
      stats := ZeroStats;
      isAnimating := false;
      isPaused := false;
    }

    /**
     * `generateArray()` with the random draws `values`: both the displayed and the saved
     * array become the new values, then the visualization is reset. Pending runs are not
     * stopped.
     */
    method GenerateArray(values: seq<int>)
      requires Valid() && |values| == arraySize && Generated(values)
      modifies this
      ensures Valid()
      ensures displayArray == values && originalArray == values
      ensures stats == ZeroStats && !isAnimating && !isPaused
      ensures currentAlgorithm == old(currentAlgorithm) && arraySize == old(arraySize)
      ensures runs == old(runs)
    {
      displayArray := values;
      originalArray := values;
      ResetVisualization();
    }

    /** The array-size slider: a new size, then the `useEffect` call of `generateArray`. */
    method SetArraySize(size: int, values: seq<int>)
      requires Valid() && |values| == size && Generated(values)
      modifies this
      ensures Valid()
      ensures arraySize == size && displayArray == values && originalArray == values
      ensures stats == ZeroStats && !isAnimating && !isPaused
      ensures currentAlgorithm == old(currentAlgorithm)
      ensures runs == old(runs)
    {
      arraySize := size;
      GenerateArray(values);
    }

    /** The algorithm selector; a pending run keeps the algorithm it started with. */
    method SetAlgorithm(alg: Algorithm)
      modifies this
      ensures currentAlgorithm == alg
      ensures displayArray == old(displayArray) && originalArray == old(originalArray) && stats == old(stats)
      ensures isAnimating == old(isAnimating) && isPaused == old(isPaused) && arraySize == old(arraySize)
      ensures runs == old(runs)
    {
      currentAlgorithm := alg;
    }

    /**
     * `startSorting()` at clock reading `now`. While animating it only flips `isPaused`.
     * Otherwise it resets the visualization, sets `isAnimating` and starts a run on a copy
     * of the displayed array with the selected algorithm and `now` as its start time; the
     * sort itself runs on in CompleteRun.
     */
    method StartSorting(now: int)
      requires Valid()
      modifies this
      ensures Valid()
      ensures old(isAnimating) ==> isPaused == !old(isPaused) && isAnimating
      ensures old(isAnimating) ==> stats == old(stats) && runs == old(runs)
      ensures !old(isAnimating) ==> stats == ZeroStats && isAnimating && !isPaused
      ensures !old(isAnimating) ==> runs == old(runs) + [Run(old(displayArray), old(currentAlgorithm), now)]
      ensures displayArray == old(displayArray) && originalArray == old(originalArray)
      ensures currentAlgorithm == old(currentAlgorithm) && arraySize == old(arraySize)
    {
      if isAnimating {
        isPaused := !isPaused;
        return;
      }
      ResetVisualization();
      isAnimating := true;
      runs := runs + [Run(displayArray, currentAlgorithm, now)];
    }

    /**
     * The rest of `startSorting()` for the pending run `runs[k]`, finishing at clock reading
     * `now`: its algorithm sorts its own copy, and the displayed array ends as that copy
     * does; an exception is caught. The counters grow from the statistics the run finds as
     * `Counted` says, the elapsed time is `now` minus the run's own start time, both flags
     * are cleared and the run is no longer pending.
     */
    method CompleteRun(k: int, now: int) returns (threw: bool)
      requires Valid() && 0 <= k < |runs| && now >= runs[k].startTime
      modifies this
      ensures Valid()
      ensures threw == Throws(old(runs[k].algorithm), old(runs[k].snapshot))
      ensures !threw ==> Sorted(displayArray) && multiset(displayArray) == multiset(old(runs[k].snapshot))
      ensures threw ==> displayArray == old(displayArray)
      ensures Counted(old(runs[k].algorithm), old(runs[k].snapshot), old(stats), stats)
      ensures stats.time == now - old(runs[k].startTime)
      ensures runs == old(runs[..k] + runs[k + 1..])
      ensures !isAnimating && !isPaused
      ensures originalArray == old(originalArray) && currentAlgorithm == old(currentAlgorithm)
      ensures arraySize == old(arraySize)
    {
      var run := runs[k];
      var s := run.snapshot;
      var work := new int[|s|](i requires 0 <= i < |s| => s[i]);
      assert work[..] == s;
      var counted;
      counted, threw := RunAlgorithm(run.algorithm, work, stats);
      if !threw {
        displayArray := work[..];
        WithinPermutation(displayArray, s, 10, 409);
      }
      stats := counted.(time := now - run.startTime);
      isAnimating := false;
      isPaused := false;
      RemoveGenerated(runs, k, runs[..k] + runs[k + 1..]);
      runs := runs[..k] + runs[k + 1..];
    }

    /**
     * `reset()`: the array saved by the last `generateArray` comes back (not the one the
     * last run started from), then the visualization is reset. Pending runs are not stopped.
     */
    method Reset()
      requires Valid()
      modifies this
      ensures Valid()
      ensures displayArray == old(originalArray) && originalArray == old(originalArray)
      ensures stats == ZeroStats && !isAnimating && !isPaused
      ensures currentAlgorithm == old(currentAlgorithm) && arraySize == old(arraySize)
      ensures runs == old(runs)
    {
      displayArray := originalArray;
      ResetVisualization();
    }
  }

  /** Dropping a run keeps every remaining snapshot generated. */
  lemma RemoveGenerated(runs: seq<Run>, k: int, rest: seq<Run>)
    requires 0 <= k < |runs| && rest == runs[..k] + runs[k + 1..]
    requires forall i :: 0 <= i < |runs| ==> Generated(runs[i].snapshot)
    ensures forall i :: 0 <= i < |rest| ==> Generated(rest[i].snapshot)
  {
    forall i | 0 <= i < |rest|
      ensures Generated(rest[i].snapshot)
    {
      if i < k {
        assert rest[i] == runs[i];
      } else {
        assert rest[i] == runs[i + 1];
      }
    }
  }
}

// The main logic (app.py:131-154): pick the engine named in the sidebar,
// run it on a copy of the generated array, redraw the chart and the log
// after every step, and finally report the working array.

module Visualizer {
  import opened Steps
  import BubbleSort
  import SelectionSort
  import InsertionSort
  import MergeSort
  import QuickSort

  /** The engines offered by the sidebar. */
  datatype Algorithm = Bubble | Selection | Insertion | Merge | Quick

  /** The sidebar's label for each engine. */
  function Label(alg: Algorithm): string {
    match alg
    case Bubble => "Bubble Sort"
    case Selection => "Selection Sort"
    case Insertion => "Insertion Sort"
    case Merge => "Merge Sort"
    case Quick => "Quick Sort"
  }

  /** The if/elif chain on the selected label; anything else falls through to quick sort. */
  function Choose(name: string): (alg: Algorithm)
    ensures Label(alg) == name || (alg == Quick && forall b :: Label(b) != name)
  {
    if name == "Bubble Sort" then Bubble
    else if name == "Selection Sort" then Selection
    else if name == "Insertion Sort" then Insertion
    else if name == "Merge Sort" then Merge
    else Quick
  }

  /** Choosing by an engine's own label gives back that engine. */
  lemma ChooseLabel(alg: Algorithm)
    ensures Choose(Label(alg)) == alg
  {
  }

  /** The run of the chosen engine on input s. */
  function Engine(alg: Algorithm, s: seq<int>): Run {
    match alg
    case Bubble => BubbleSort.Bubble(s)
    case Selection => SelectionSort.Selection(s)
    case Insertion => InsertionSort.Insertion(s)
    case Merge => MergeSort.Merging(s)
    case Quick => QuickSort.Quick(s)
  }

  /** Every engine permutes its input, every highlighted position is a bar
      of the chart, the last frame drawn shows the array that is reported
      at the end together with the whole log, and no frame at all means
      the array was left as it was with nothing logged. All engines but
      quick sort leave the reported array sorted, and so does quick sort on
      inputs of up to two elements. */
  lemma EngineCorrect(alg: Algorithm, s: seq<int>)
    ensures var r := Engine(alg, s);
      && multiset(r.arr) == multiset(s) && |r.arr| == |s|
      && (forall k :: 0 <= k < |r.trace| ==> InBounds(r.trace[k].hl, |s|))
      && (r.trace != [] ==> r.trace[|r.trace| - 1].snapshot == r.arr && r.trace[|r.trace| - 1].log == r.log)
      && (r.trace == [] ==> r.arr == s && r.log == [])
      && (alg != Quick || |s| <= 2 ==> Sorted(r.arr))
  {
    match alg
    case Bubble => BubbleSort.BubbleCorrect(s);
    case Selection => SelectionSort.SelectionCorrect(s);
    case Insertion => InsertionSort.InsertionCorrect(s);
    case Merge => MergeSort.MergingCorrect(s);
    case Quick => QuickSort.QuickCorrect(s);
  }

  /** What the run leaves on screen: the reported array and the log panel. */
  datatype Screen = Screen(final: seq<int>, log: seq<Entry>, frames: nat)

  /** The if/elif on the chosen label: run that engine over the working
      array to the end and collect what it yields. */
  method Drain(alg: Algorithm, a: array<int>) returns (trace: seq<Step>)
    modifies a
    ensures a[..] == Engine(alg, old(a[..])).arr && trace == Engine(alg, old(a[..])).trace
  {
    match alg {
      case Bubble => trace := BubbleSort.Sort(a);
      case Selection => trace := SelectionSort.Sort(a);
      case Insertion => trace := InsertionSort.Sort(a);
      case Merge => trace := MergeSort.Sort(a);
      case Quick => trace := QuickSort.Sort(a);
    }
  }

  /** The main logic on input arr: copy it to the working array, drain the
      chosen engine, keep the log of the last frame. */
  method Visualize(arr: seq<int>, name: string) returns (screen: Screen)
    ensures var r := Engine(Choose(name), arr);
      screen == Screen(r.arr, r.log, |r.trace|)
    ensures multiset(screen.final) == multiset(arr)
    ensures Choose(name) != Quick || |arr| <= 2 ==> Sorted(screen.final)
  {
    var working := new int[|arr|](k requires 0 <= k < |arr| => arr[k]);
    assert working[..] == arr;
    var trace := Drain(Choose(name), working);
    var logLines: seq<Entry> := [];
    for k := 0 to |trace|
      invariant logLines == if k == 0 then [] else trace[k - 1].log
    {
      logLines := trace[k].log;
    }
    EngineCorrect(Choose(name), arr);
    screen := Screen(working[..], logLines, |trace|);
  }
}

/**
 * The breadcrumb address bar as values: how a path becomes a row of
 * directory labels and "/" separators that is cut from the left while
 * the running total exceeds 600, and how a clicked label is turned back
 * into a path.
 * Text measurement is the abstract parameter `width` (the font metrics'
 * horizontal advance of a string).
 */
module Breadcrumb {
  import opened Wrappers
  import opened PathText

  /** The fixed width of the address bar, used as the truncation budget. */
  const Budget: int := 600
  /** Padding added to every label's text width. */
  const LabelPadding: nat := 15
  /** Allowance for the "/" glyph after a label. */
  const SlashAllowance: nat := 8
  /** What one eviction takes off the running total, on top of the current text width. */
  const EvictionRefund: nat := 10
  /** Padding of the bold last label. */
  const BoldPadding: nat := 10

  /**
   * An item of the breadcrumb's horizontal layout: the label of the
   * component at `index` (the same widget the label list holds at that
   * position), a "/" separator, or a non-widget spacer item.
   */
  datatype Item = LabelAt(index: nat) | Slash | Spacer(tag: nat) {
    predicate IsWidget() { !Spacer? }
  }

  /** A directory label: its text, fixed width, bold style and the index its context menu reports. */
  datatype Label = Label(text: string, fixedWidth: int, bold: bool, menuIndex: nat)

  /** What a render leaves behind: the layout, the list of every label created, and the running total width. */
  datatype Bar = Bar(layout: seq<Item>, labels: seq<Label>, total: int)

  // ---------------------------------------------------------------------
  // Stripping the layout
  // ---------------------------------------------------------------------

  /** The layout with every widget item taken out and every other item kept in order. */
  function NonWidgets(items: seq<Item>): seq<Item>
    decreases |items|
  {
    if |items| == 0 then []
    else (if items[0].IsWidget() then [] else [items[0]]) + NonWidgets(items[1..])
  }

  /** Stripping removes every widget and keeps every other item exactly as often as it occurred. */
  lemma {:induction false} NonWidgetsSpec(items: seq<Item>)
    ensures forall j :: 0 <= j < |NonWidgets(items)| ==> !NonWidgets(items)[j].IsWidget()
    ensures forall x :: multiset(NonWidgets(items))[x] == if x.IsWidget() then 0 else multiset(items)[x]
    decreases |items|
  {
    if |items| > 0 {
      NonWidgetsSpec(items[1..]);
      assert items == [items[0]] + items[1..];
      assert multiset(items) == multiset([items[0]]) + multiset(items[1..]);
    }
  }

  /** A layout that holds only widgets strips down to nothing. */
  lemma {:induction false} StripWidgetsOnly(items: seq<Item>)
    requires forall j :: 0 <= j < |items| ==> items[j].IsWidget()
    ensures NonWidgets(items) == []
    decreases |items|
  {
    if |items| > 0 {
      StripWidgetsOnly(items[1..]);
    }
  }

  // ---------------------------------------------------------------------
  // Rendering a path
  // ---------------------------------------------------------------------

  /** One leading "/" is dropped, then the rest is split on "/". */
  function Components(path: string): seq<string> {
    Split(if StartsWith(path, "/") then path[1..] else path, '/')
  }

  /**
   * The eviction loop: while the running total exceeds the budget and the
   * layout holds more than one item, the first two items go and the total
   * drops by `refund` (the CURRENT component's width plus 10, whatever
   * the evicted label measured).
   */
  function Evict(layout: seq<Item>, total: int, refund: int): (r: (seq<Item>, int))
    ensures |r.0| <= |layout| && (|layout| - |r.0|) % 2 == 0
    ensures r.1 <= Budget || |r.0| <= 1
    ensures |r.0| < |layout| ==> r.1 + refund > Budget
    decreases |layout|
  {
    if total > Budget && |layout| > 1 then
      Evict(layout[2..], total - refund, refund)
    else
      (layout, total)
  }

  /** Evictions only ever take items off the front: what is left is a suffix of the layout. */
  lemma {:induction false} EvictKeepsSuffix(layout: seq<Item>, total: int, refund: int)
    ensures var r := Evict(layout, total, refund);
            r.0 == layout[|layout| - |r.0|..]
    decreases |layout|
  {
    if total > Budget && |layout| > 1 {
      EvictKeepsSuffix(layout[2..], total - refund, refund);
      var r := Evict(layout[2..], total - refund, refund);
      assert layout[2..][|layout| - 2 - |r.0|..] == layout[|layout| - |r.0|..];
    }
  }

  /** Every eviction took two items off the front and `refund` off the total. */
  lemma {:induction false} EvictAccounting(layout: seq<Item>, total: int, refund: int)
    ensures var r := Evict(layout, total, refund);
            total - r.1 == ((|layout| - |r.0|) / 2) * refund
    decreases |layout|
  {
    if total > Budget && |layout| > 1 {
      var r := Evict(layout[2..], total - refund, refund);
      assert Evict(layout, total, refund) == r;
      EvictAccounting(layout[2..], total - refund, refund);
      var e: nat := (|layout| - 2 - |r.0|) / 2;
      assert (|layout| - |r.0|) / 2 == e + 1;
      assert (e + 1) * refund == e * refund + refund;
    }
  }

  /**
   * One pass of the component loop for component `i`: charge its width
   * plus padding and slash allowance, evict from the left, then append
   * its label, and a separator unless it is the last component.
   */
  function Step(b: Bar, comps: seq<string>, i: nat, width: string -> nat): Bar
    requires i < |comps|
  {
    var w := width(comps[i]) + LabelPadding;
    var ev := Evict(b.layout, b.total + w + SlashAllowance, w + EvictionRefund);
    Bar(ev.0 + [LabelAt(i)] + (if i < |comps| - 1 then [Slash] else []),
        b.labels + [Label(comps[i], w, false, i)],
        ev.1)
  }

  /**
   * The width accounting of one component: its text width + 15 + 8 is
   * charged first, and each of the e evictions (2e items gone from the
   * front) takes back the same component's text width + 15 + 10.
   */
  lemma StepAccounting(b: Bar, comps: seq<string>, i: nat, width: string -> nat)
    requires i < |comps|
    ensures var r := Step(b, comps, i, width);
            var w := width(comps[i]) + LabelPadding;
            var evicted := |b.layout| + (if i < |comps| - 1 then 2 else 1) - |r.layout|;
            evicted % 2 == 0 && evicted >= 0
            && b.total + w + SlashAllowance - r.total == (evicted / 2) * (w + EvictionRefund)
  {
    var w := width(comps[i]) + LabelPadding;
    var ev := Evict(b.layout, b.total + w + SlashAllowance, w + EvictionRefund);
    EvictAccounting(b.layout, b.total + w + SlashAllowance, w + EvictionRefund);
    var r := Step(b, comps, i, width);
    assert |r.layout| == |ev.0| + (if i < |comps| - 1 then 2 else 1);
  }

  /** The state after the first `k` components have been processed. */
  function Process(comps: seq<string>, k: nat, width: string -> nat): (b: Bar)
    requires k <= |comps|
    ensures |b.labels| == k
    decreases k
  {
    if k == 0 then Bar([], [], 0)
    else Step(Process(comps, k - 1, width), comps, k - 1, width)
  }

  /**
   * Every processed component has its label, in order: its own text, its
   * text width plus 15, not bold, and its own index for the context menu.
   * Evictions take items out of the layout, never labels out of the list.
   */
  lemma {:induction false} ProcessLabels(comps: seq<string>, k: nat, width: string -> nat)
    requires k <= |comps|
    ensures forall i :: 0 <= i < k ==>
              Process(comps, k, width).labels[i] == Label(comps[i], width(comps[i]) + LabelPadding, false, i)
    decreases k
  {
    if k > 0 {
      ProcessLabels(comps, k - 1, width);
    }
  }

  /** The last label is made bold and resized to its text width plus 10. */
  function Emphasize(b: Bar, width: string -> nat): Bar
    requires |b.labels| >= 1
  {
    var last := b.labels[|b.labels| - 1];
    b.(labels := b.labels[..|b.labels| - 1]
                 + [last.(bold := true, fixedWidth := width(last.text) + BoldPadding)])
  }

  /** The whole render of `path`. */
  function Render(path: string, width: string -> nat): Bar {
    var comps := Components(path);
    Emphasize(Process(comps, |comps|, width), width)
  }

  /**
   * The layout showing the labels of components lo .. hi-1 in order, each
   * followed by a separator unless it is component n-1, the last one.
   */
  function Trail(lo: nat, hi: nat, n: nat): seq<Item>
    decreases hi - lo
  {
    if lo >= hi then []
    else [LabelAt(lo)] + (if lo + 1 < n then [Slash] else []) + Trail(lo + 1, hi, n)
  }

  // ---------------------------------------------------------------------
  // Lemmas about rendering
  // ---------------------------------------------------------------------

  /** A path that begins with "/" is recovered by prefixing "/" to the join of its components. */
  lemma ComponentsRoundTrip(path: string)
    requires StartsWith(path, "/")
    ensures |Components(path)| >= 1
    ensures "/" + Join(Components(path), '/') == path
  {
    JoinSplit(path[1..], '/');
    assert path == [path[0]] + path[1..];
  }

  /**
   * A trail alternates label, separator, label, ... over consecutive
   * components; with `TrailLength` it ends on a label exactly when it
   * reaches the last component.
   */
  lemma {:induction false} TrailAlternates(lo: nat, hi: nat, n: nat)
    requires lo <= hi <= n
    ensures forall j :: 0 <= j < |Trail(lo, hi, n)| ==>
              Trail(lo, hi, n)[j] == if j % 2 == 0 then LabelAt(lo + j / 2) else Slash
    decreases hi - lo
  {
    if lo < hi {
      TrailAlternates(lo + 1, hi, n);
      TrailLength(lo + 1, hi, n);
      var t := Trail(lo, hi, n);
      var head := [LabelAt(lo)] + (if lo + 1 < n then [Slash] else []);
      assert t == head + Trail(lo + 1, hi, n);
      if lo + 1 < n {
        forall j | 2 <= j < |t| ensures t[j] == if j % 2 == 0 then LabelAt(lo + j / 2) else Slash {
          assert t[j] == Trail(lo + 1, hi, n)[j - 2];
        }
      } else {
        assert hi == n && lo + 1 == hi;
      }
    }
  }

  /** A trail has two items per component, less the separator the last component does not get. */
  lemma {:induction false} TrailLength(lo: nat, hi: nat, n: nat)
    requires lo <= hi <= n
    ensures |Trail(lo, hi, n)| == 2 * (hi - lo) - (if lo < hi == n then 1 else 0)
    decreases hi - lo
  {
    if lo < hi {
      TrailLength(lo + 1, hi, n);
    }
  }

  /**
   * Evicting from a trail that has not reached the last component leaves
   * the same trail with its first `lo' - lo` components cut off.
   */
  lemma {:induction false} EvictTrail(lo: nat, hi: nat, n: nat, total: int, refund: int) returns (lo': nat)
    requires lo <= hi < n
    ensures lo <= lo' <= hi && Evict(Trail(lo, hi, n), total, refund).0 == Trail(lo', hi, n)
    decreases hi - lo
  {
    var t := Trail(lo, hi, n);
    TrailLength(lo, hi, n);
    if total > Budget && |t| > 1 {
      assert t == [LabelAt(lo), Slash] + Trail(lo + 1, hi, n);
      assert t[2..] == Trail(lo + 1, hi, n);
      lo' := EvictTrail(lo + 1, hi, n, total - refund, refund);
    } else {
      lo' := lo;
    }
  }

  /** A trail holds only widgets, and its labels are those of components lo .. hi-1. */
  lemma {:induction false} TrailItems(lo: nat, hi: nat, n: nat)
    ensures forall j :: 0 <= j < |Trail(lo, hi, n)| ==>
              Trail(lo, hi, n)[j].IsWidget()
              && (Trail(lo, hi, n)[j].LabelAt? ==> lo <= Trail(lo, hi, n)[j].index < hi)
    decreases hi - lo
  {
    if lo < hi {
      TrailItems(lo + 1, hi, n);
      var t := Trail(lo, hi, n);
      var head := [LabelAt(lo)] + (if lo + 1 < n then [Slash] else []);
      assert t == head + Trail(lo + 1, hi, n);
      forall j | |head| <= j < |t|
        ensures t[j] == Trail(lo + 1, hi, n)[j - |head|]
      {
      }
    }
  }

  /** A trail that reaches the last component ends with that component's label. */
  lemma {:induction false} TrailEndsWithLast(lo: nat, n: nat)
    requires lo < n
    ensures |Trail(lo, n, n)| >= 1 && Trail(lo, n, n)[|Trail(lo, n, n)| - 1] == LabelAt(n - 1)
    decreases n - lo
  {
    if lo + 1 < n {
      TrailEndsWithLast(lo + 1, n);
    }
  }

  /** Appending the next label (and its separator) to a trail extends the trail by one component. */
  lemma {:induction false} TrailSnoc(lo: nat, hi: nat, n: nat)
    requires lo <= hi
    ensures Trail(lo, hi, n) + [LabelAt(hi)] + (if hi + 1 < n then [Slash] else []) == Trail(lo, hi + 1, n)
    decreases hi - lo
  {
    if lo < hi {
      TrailSnoc(lo + 1, hi, n);
    }
  }

  /**
   * One pass on a trail of earlier components: evictions cut the trail
   * from the left and the new label extends it on the right; the total is
   * within budget unless the new label is all that is left.
   */
  lemma StepOnTrail(b: Bar, comps: seq<string>, i: nat, lo: nat, width: string -> nat) returns (lo': nat)
    requires lo <= i < |comps|
    requires b.layout == Trail(lo, i, |comps|)
    ensures lo <= lo' <= i
    ensures Step(b, comps, i, width).layout == Trail(lo', i + 1, |comps|)
    ensures Step(b, comps, i, width).total <= Budget || lo' == i
  {
    var n := |comps|;
    var w := width(comps[i]) + LabelPadding;
    var ev := Evict(b.layout, b.total + w + SlashAllowance, w + EvictionRefund);
    lo' := EvictTrail(lo, i, n, b.total + w + SlashAllowance, w + EvictionRefund);
    TrailSnoc(lo', i, n);
    TrailLength(lo', i, n);
  }

  /**
   * After each component the layout is a trail of consecutive components
   * that ends with that component's label: evictions only ever remove
   * earlier labels. Either the total is within budget or no earlier label
   * is left.
   */
  lemma {:induction false} ProcessShape(comps: seq<string>, k: nat, width: string -> nat) returns (lo: nat)
    requires 1 <= k <= |comps|
    ensures lo < k && Process(comps, k, width).layout == Trail(lo, k, |comps|)
    ensures Process(comps, k, width).total <= Budget || lo == k - 1
    decreases k
  {
    var prev := Process(comps, k - 1, width);
    var lo0: nat := 0;
    if k > 1 {
      lo0 := ProcessShape(comps, k - 1, width);
    }
    assert Process(comps, k, width) == Step(prev, comps, k - 1, width);
    lo := StepOnTrail(prev, comps, k - 1, lo0, width);
  }

  /**
   * What a render of the components shows: the labels of the consecutive
   * components `first` .. n-1, separated by "/", so it always ends with
   * the last component's label; the total is within budget unless that
   * label stands alone. Every component keeps its label in the label
   * list, in order, and only the last one is bold and resized to its text
   * width plus 10.
   */
  lemma {:induction false} EmphasizedSpec(comps: seq<string>, width: string -> nat) returns (first: nat)
    requires |comps| >= 1
    ensures var n := |comps|;
            var b := Emphasize(Process(comps, n, width), width);
            && first < n
            && b.layout == Trail(first, n, n)
            && b.layout[|b.layout| - 1] == LabelAt(n - 1)
            && (b.total <= Budget || b.layout == [LabelAt(n - 1)])
            && |b.labels| == n
            && b.labels[n - 1] == Label(comps[n - 1], width(comps[n - 1]) + BoldPadding, true, n - 1)
            && forall i :: 0 <= i < n - 1 ==>
                 b.labels[i] == Label(comps[i], width(comps[i]) + LabelPadding, false, i)
  {
    var n := |comps|;
    var p := Process(comps, n, width);
    ProcessLabels(comps, n, width);
    first := ProcessShape(comps, n, width);
    TrailEndsWithLast(first, n);
    if first == n - 1 {
      assert Trail(n - 1, n, n) == [LabelAt(n - 1)] + Trail(n, n, n);
    }
  }

  /** The render of a path is the emphasized render of its components. */
  lemma RenderSpec(path: string, width: string -> nat) returns (first: nat)
    ensures var comps := Components(path);
            var n := |comps|;
            var b := Render(path, width);
            && first < n
            && b.layout == Trail(first, n, n)
            && b.layout[|b.layout| - 1] == LabelAt(n - 1)
            && (b.total <= Budget || b.layout == [LabelAt(n - 1)])
            && |b.labels| == n
            && b.labels[n - 1] == Label(comps[n - 1], width(comps[n - 1]) + BoldPadding, true, n - 1)
            && forall i :: 0 <= i < n - 1 ==>
                 b.labels[i] == Label(comps[i], width(comps[i]) + LabelPadding, false, i)
  {
    first := EmphasizedSpec(Components(path), width);
  }

  /**
   * Every item a render leaves in the layout is a widget, and every label
   * in it stands for a component that has an entry in the label list.
   */
  lemma RenderItems(path: string, width: string -> nat)
    ensures var b := Render(path, width);
            forall j :: 0 <= j < |b.layout| ==>
              b.layout[j].IsWidget() && (b.layout[j].LabelAt? ==> b.layout[j].index < |b.labels|)
  {
    var first := RenderSpec(path, width);
    var n := |Components(path)|;
    TrailItems(first, n, n);
  }

  /** A text measure for the example below: "big" is 1000 units wide, everything else 0. */
  function BigOnly(s: string): nat {
    if s == "big" then 1000 else 0
  }

  /** "/a/big" has the components "a" and "big". */
  lemma ExampleComponents()
    ensures Components("/a/big") == ["a", "big"]
  {
    var path := "/a/big";
    assert StartsWith(path, "/");
    assert path[1..] == Join(["a", "big"], '/');
    SplitJoin(["a", "big"], '/');
  }

  /**
   * When a new component pushes a two-item layout over budget, its
   * predecessor is evicted and the total ends 2 lower than before,
   * whatever either label measures: the total was charged the newcomer's
   * width + 15 + 8 and refunded the same width + 15 + 10.
   */
  lemma LoneEvictionDrift(b: Bar, comps: seq<string>, i: nat, width: string -> nat)
    requires i < |comps| && |b.layout| == 2
    requires b.total + width(comps[i]) + LabelPadding + SlashAllowance > Budget
    ensures Step(b, comps, i, width).total == b.total - 2
    ensures Step(b, comps, i, width).layout == [LabelAt(i)] + (if i < |comps| - 1 then [Slash] else [])
  {
    var w := width(comps[i]) + LabelPadding;
    assert b.layout[2..] == [];
    assert Evict(b.layout, b.total + w + SlashAllowance, w + EvictionRefund) == ([], b.total - 2);
  }

  /** Measured with BigOnly, "a" brings the total to 0 + 15 + 8 = 23, within budget. */
  lemma ExampleFirstStep(comps: seq<string>)
    requires comps == ["a", "big"]
    ensures |Process(comps, 1, BigOnly).layout| == 2
    ensures Process(comps, 1, BigOnly).total == 23
  {
    assert BigOnly(comps[0]) == 0;
    assert Evict([], 23, 25) == ([], 23);
  }

  /**
   * The running total is not the width of what is shown: measured with
   * BigOnly, "/a/big" shows only the label "big" (1000 + 15 + 8 by the
   * source's own accounting) yet ends with a total of 21, because the
   * eviction of "a" subtracted the width of "big".
   */
  lemma TotalDriftsFromVisibleWidth()
    ensures Render("/a/big", BigOnly).layout == [LabelAt(1)]
    ensures Render("/a/big", BigOnly).total == 21
  {
    var comps := Components("/a/big");
    ExampleComponents();
    ExampleFirstStep(comps);
    assert BigOnly(comps[1]) == 1000;
    LoneEvictionDrift(Process(comps, 1, BigOnly), comps, 1, BigOnly);
  }

  /**
   * The width of what a layout shows: each shown label's current fixed
   * width plus the allowance for the "/" after it. Separators and spacers
   * add nothing of their own.
   */
  function VisibleWidth(layout: seq<Item>, labels: seq<Label>): int
    decreases |layout|
  {
    if |layout| == 0 then 0
    else
      var here := match layout[0]
        case LabelAt(i) => if i < |labels| then labels[i].fixedWidth + SlashAllowance else 0
        case _ => 0;
      here + VisibleWidth(layout[1..], labels)
  }

  /** "/a/b/big" has the components "a", "b" and "big". */
  lemma ExampleThreeComponents()
    ensures Components("/a/b/big") == ["a", "b", "big"]
  {
    var path := "/a/b/big";
    assert StartsWith(path, "/");
    assert path[1..] == Join(["a", "b", "big"], '/');
    SplitJoin(["a", "b", "big"], '/');
  }

  /** Measured with BigOnly, "a" and "b" cost 23 each and both fit: four items, a total of 46. */
  lemma ExampleTwoSteps(comps: seq<string>)
    requires comps == ["a", "b", "big"]
    ensures Process(comps, 2, BigOnly).layout == [LabelAt(0), Slash, LabelAt(1), Slash]
    ensures Process(comps, 2, BigOnly).total == 46
  {
    assert BigOnly(comps[0]) == 0 && BigOnly(comps[1]) == 0;
    assert Evict([], 23, 25) == ([], 23);
    assert Process(comps, 1, BigOnly).layout == [LabelAt(0), Slash];
    assert Evict([LabelAt(0), Slash], 46, 25) == ([LabelAt(0), Slash], 46);
  }

  /**
   * Then "big" is charged 1000 + 15 + 8, which brings the total to 1069;
   * one eviction takes "a" and its "/" and gives back 1000 + 15 + 10, so
   * the total is 44 and "b" stays.
   */
  lemma ExampleThirdStep(comps: seq<string>)
    requires comps == ["a", "b", "big"]
    ensures Process(comps, 3, BigOnly).layout == [LabelAt(1), Slash, LabelAt(2)]
    ensures Process(comps, 3, BigOnly).total == 44
  {
    ExampleTwoSteps(comps);
    var b := Process(comps, 2, BigOnly);
    assert BigOnly(comps[2]) == 1000;
    assert b.layout[2..] == [LabelAt(1), Slash];
    assert Evict(b.layout, 1069, 1025) == ([LabelAt(1), Slash], 44);
  }

  /**
   * The eviction loop does not keep what is shown within the budget:
   * measured with BigOnly, "/a/b/big" shows the labels "b" and "big",
   * whose fixed widths plus slash allowances come to 15 + 8 + 1010 + 8 =
   * 1041, more than 600, while the running total says 44.
   */
  lemma VisibleWidthOverBudget()
    ensures var b := Render("/a/b/big", BigOnly);
            && b.layout == [LabelAt(1), Slash, LabelAt(2)]
            && b.total == 44
            && VisibleWidth(b.layout, b.labels) == 1041 > Budget
  {
    var comps := Components("/a/b/big");
    ExampleThreeComponents();
    ExampleThirdStep(comps);
    var p := Process(comps, 3, BigOnly);
    ProcessLabels(comps, 3, BigOnly);
    var b := Emphasize(p, BigOnly);
    assert b.labels[1] == Label("b", 15, false, 1);
    assert b.labels[2] == Label("big", 1010, true, 2);
    assert b.layout[1..] == [Slash, LabelAt(2)];
    assert b.layout[1..][1..] == [LabelAt(2)];
    assert VisibleWidth([LabelAt(2)], b.labels) == 1018;
  }

  // ---------------------------------------------------------------------
  // Resolving a clicked label
  // ---------------------------------------------------------------------

  /** The first index at or after `from` whose component ends with `text`. */
  function FirstSuffixMatchFrom(comps: seq<string>, text: string, from: nat): (r: Option<nat>)
    requires from <= |comps|
    ensures r.Some? ==> from <= r.value < |comps| && EndsWith(comps[r.value], text)
                        && forall j :: from <= j < r.value ==> !EndsWith(comps[j], text)
    ensures r.None? ==> forall j :: from <= j < |comps| ==> !EndsWith(comps[j], text)
    decreases |comps| - from
  {
    if from == |comps| then None
    else if EndsWith(comps[from], text) then Some(from)
    else FirstSuffixMatchFrom(comps, text, from + 1)
  }

  /** The first component that ends with the clicked label's text. */
  function FirstSuffixMatch(comps: seq<string>, text: string): Option<nat> {
    FirstSuffixMatchFrom(comps, text, 0)
  }

  /** The path a click on a label with `text` navigates to, or None when nothing is emitted. */
  function ClickTarget(comps: seq<string>, text: string): Option<string> {
    match FirstSuffixMatch(comps, text)
    case Some(i) => Some("/" + Join(comps[..i + 1], '/'))
    case None => None
  }

  /** The click resolves exactly when some component ends with the text, to the first such component's prefix. */
  lemma ClickTargetSpec(comps: seq<string>, text: string)
    ensures ClickTarget(comps, text).Some? <==> exists j :: 0 <= j < |comps| && EndsWith(comps[j], text)
    ensures ClickTarget(comps, text).Some? ==>
              exists i :: 0 <= i < |comps| && EndsWith(comps[i], text)
                          && (forall j :: 0 <= j < i ==> !EndsWith(comps[j], text))
                          && ClickTarget(comps, text) == Some("/" + Join(comps[..i + 1], '/'))
  {
  }

  /** Clicking a label whose text is a component always resolves, at that component or an earlier one. */
  lemma ClickOnComponent(comps: seq<string>, k: nat)
    requires k < |comps|
    ensures FirstSuffixMatch(comps, comps[k]).Some?
    ensures FirstSuffixMatch(comps, comps[k]).value <= k
  {
    assert EndsWith(comps[k], comps[k]) by {
      assert comps[k][|comps[k]| - |comps[k]|..] == comps[k];
    }
  }

  /** An empty label always resolves to the first component. */
  lemma ClickEmptyLabel(comps: seq<string>)
    requires |comps| >= 1
    ensures FirstSuffixMatch(comps, "") == Some(0)
    ensures ClickTarget(comps, "") == Some("/" + comps[0])
  {
    assert EndsWith(comps[0], "") by {
      assert comps[0][|comps[0]|..] == "";
    }
    assert comps[..1] == [comps[0]];
  }

  /**
   * Clicking the label of component k navigates to the path of the first
   * k+1 components when no earlier component ends with its text; re-rendering
   * that path makes component k the bold last label.
   */
  lemma {:induction false} ClickNavigatesToPrefix(path: string, k: nat, width: string -> nat)
    requires k < |Components(path)|
    requires forall j :: 0 <= j < k ==> !EndsWith(Components(path)[j], Components(path)[k])
    ensures ClickTarget(Components(path), Components(path)[k]).Some?
    ensures var target := ClickTarget(Components(path), Components(path)[k]).value;
            var b := Render(target, width);
            && Components(target) == Components(path)[..k + 1]
            && b.layout[|b.layout| - 1] == LabelAt(k)
            && b.labels[k].text == Components(path)[k] && b.labels[k].bold
  {
    var comps := Components(path);
    ClickOnComponent(comps, k);
    var target := "/" + Join(comps[..k + 1], '/');
    assert ClickTarget(comps, comps[k]) == Some(target);
    PrefixTargetComponents(path, k);
    var first := RenderSpec(target, width);
  }

  /** The path a click builds from the first k+1 components splits back into exactly those components. */
  lemma PrefixTargetComponents(path: string, k: nat)
    requires k < |Components(path)|
    ensures Components("/" + Join(Components(path)[..k + 1], '/')) == Components(path)[..k + 1]
  {
    var prefix := Components(path)[..k + 1];
    var target := "/" + Join(prefix, '/');
    assert StartsWith(target, "/");
    assert target[1..] == Join(prefix, '/');
    SplitPiecesFree(if StartsWith(path, "/") then path[1..] else path, '/');
    SplitJoin(prefix, '/');
  }

  /**
   * Clicking the last label of a path that begins with "/" navigates back
   * to that very path, provided no earlier component ends with its text.
   */
  lemma ClickLastRoundTrip(path: string)
    requires StartsWith(path, "/")
    requires var comps := Components(path);
             forall j :: 0 <= j < |comps| - 1 ==> !EndsWith(comps[j], comps[|comps| - 1])
    ensures var comps := Components(path);
            ClickTarget(comps, comps[|comps| - 1]) == Some(path)
  {
    var comps := Components(path);
    ComponentsRoundTrip(path);
    var last := |comps| - 1;
    ClickOnComponent(comps, last);
    var i := FirstSuffixMatch(comps, comps[last]).value;
    assert i == last;
    assert comps[..i + 1] == comps;
  }

  /**
   * Matching by suffix is ambiguous: in "/ab/b" the label "b" resolves to
   * "/ab", not "/ab/b".
   */
  lemma SuffixMatchAmbiguity()
    ensures ClickTarget(Components("/ab/b"), "b") == Some("/ab")
  {
    var path := "/ab/b";
    assert StartsWith(path, "/");
    assert path[1..] == Join(["ab", "b"], '/');
    SplitJoin(["ab", "b"], '/');
    var comps := Components(path);
    assert comps == ["ab", "b"];
    assert EndsWith(comps[0], "b") by { assert "ab"[1..] == "b"; }
    assert FirstSuffixMatch(comps, "b") == Some(0);
    assert comps[..1] == ["ab"];
    assert Join(["ab"], '/') == "ab";
    assert "/" + "ab" == "/ab";
  }
}

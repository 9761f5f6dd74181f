# Breadcrumb address bar

A Dafny model of the `AddressBar` widget of a PyQt6 file browser. The widget shows
the current directory as a row of clickable directory labels separated by
"/" labels. Each label is charged against a running total. While that
total is over 600 units, the oldest label and the "/" after it are cut
from the left. Clicking a label emits the path up to the first directory
whose name ends with the label's text.

The model has four modules:

- `Wrappers`: the `Option` type. It stands for Python's `None`.
- `PathText`: `str.startswith`, `str.endswith`, `str.split` and
  `str.join` with a one-character separator. It proves that split and
  join round-trip.
- `Breadcrumb`: the render as values.
  - A layout item is the label of component `i` (`LabelAt(i)`), a "/"
    separator (`Slash`) or a non-widget spacer item.
  - `Evict` is the eviction loop. `Step` is one pass of the component
    loop. `Process` is the first `k` passes. `Emphasize` bolds the last
    label. `Render` is the whole of `updateAddressBar`.
  - Click resolution is `ClickTarget`.
  - The module also holds the lemmas about what a render shows and where
    a click leads.
- `AddressBar`: the class.
  - Its fields are `layout`, `subPath`, `subDirs` and `frameWidth`. The
    methods update them in place, as the widget does.
  - Each method is proved equal to the functions of `Breadcrumb`.
  - Text measurement is the constructor parameter `measure`, which stands
    for the font metrics' horizontal advance.

The running total follows the code as written. An eviction subtracts the
width of the component being added, plus 10, not the width of the label it
removes. So the total the sub-frame ends with need not be the width of what
is shown. `TotalDriftsFromVisibleWidth` exhibits this. With a measure that
makes "big" 1000 units wide and everything else 0, "/a/big" shows only the
label "big", but the total comes out as 21. `VisibleWidthOverBudget`
shows that the labels left on screen can also exceed the budget. Measured
the same way, "/a/b/big" shows the labels "b" and "big". Their fixed widths
plus the slash allowances come to 1041, yet the total is 44, so nothing
more is evicted.

## Model

| member | source | states |
|---|---|---|
| `PathText.StartsWith` | AddressBar.py:84 | `str.startswith`: the prefix is no longer than the string and equals its head |
| `PathText.EndsWith` | AddressBar.py:141 | `str.endswith`: the suffix is no longer than the string and equals its tail |
| `PathText.Split` | AddressBar.py:87 | `str.split` on one character; the result always has at least one piece |
| `PathText.Join` | AddressBar.py:142 | `sep.join(parts)`; no parts join to the empty string |
| `Breadcrumb.Components` | AddressBar.py:84-87 | one leading "/" is dropped and the rest is split on "/" |
| `Breadcrumb.NonWidgets` | AddressBar.py:73-78 | the layout with every widget item removed and the other items kept in order |
| `Breadcrumb.Step` | AddressBar.py:93-121 | one pass of the component loop: charge, evict, append the label and its separator, record the label |
| `Breadcrumb.Process` | AddressBar.py:89-121 | the state after the first `k` passes from an empty layout and a zero total; its label list has exactly `k` entries |
| `Breadcrumb.Emphasize` | AddressBar.py:127-131 | the last label becomes bold with its text width + 10 |
| `Breadcrumb.Render` | AddressBar.py:80-135 | the whole render of a path: all passes over its components, then the emphasis |
| `Breadcrumb.Trail` | AddressBar.py:113-121 | the row the loop builds over consecutive components: label, "/", label, …, with no "/" after the last component |
| `Breadcrumb.VisibleWidth` | AddressBar.py:95-96 | the width of what a layout shows: each shown label's fixed width plus the allowance of 8 for its "/" |
| `Breadcrumb.FirstSuffixMatch` | AddressBar.py:140-143 | the first index whose component ends with the clicked text |
| `Breadcrumb.ClickTarget` | AddressBar.py:139-145 | the path a click emits: "/" + the join of the components up to the first match, or nothing |
| `PathText.JoinSplit` | AddressBar.py:87 | joining the pieces of `s.split(sep)` with `sep` gives `s` back |
| `PathText.SplitJoin` | AddressBar.py:87 | splitting the join of one or more separator-free parts gives exactly those parts |
| `PathText.SplitPiecesFree` | AddressBar.py:87 | no piece of a split contains the separator |
| `Breadcrumb.ComponentsRoundTrip` | AddressBar.py:84-87 | for a path beginning with "/", the component list is non-empty and "/" followed by the "/"-join of the components is the path again |
| `Breadcrumb.NonWidgetsSpec` | AddressBar.py:73-78 | after stripping, no widget item remains, every non-widget item is kept as often as it occurred, and widgets occur zero times |
| `Breadcrumb.StripWidgetsOnly` | AddressBar.py:73-78 | a layout made only of widgets strips down to the empty layout |
| `AddressBar.AddressBar.StripAddressBar` | AddressBar.py:71-78 | the reverse walk over the layout leaves exactly the non-widget items in their order and changes no other field |
| `Breadcrumb.Evict` | AddressBar.py:98-111 | evictions remove an even number of items; afterwards the total is within 600 or at most one item is left; if anything was evicted, the last eviction started over budget |
| `Breadcrumb.EvictKeepsSuffix` | AddressBar.py:100-110 | evictions only take items from the front: what is left is a suffix of the layout |
| `Breadcrumb.EvictAccounting` | AddressBar.py:100-111 | the total drops by exactly (items evicted / 2) * refund: one refund per pair |
| `Breadcrumb.StepAccounting` | AddressBar.py:95-111 | one component is charged its text width + 15 + 8, and the total then drops by (items evicted / 2) times that same component's text width + 15 + 10 |
| `Breadcrumb.ProcessLabels` | AddressBar.py:93-113 | after `k` components the label list holds one label per component in order: its text, its text width + 15, not bold, its own index |
| `Breadcrumb.TrailAlternates` | AddressBar.py:113-121 | the row the loop builds has labels of consecutive components at the even positions and "/" at the odd ones |
| `Breadcrumb.TrailLength` | AddressBar.py:113-121 | such a row has two items per component, less one when it ends with the last component |
| `Breadcrumb.TrailItems` | AddressBar.py:113-121 | such a row holds only widgets, and its labels are those of the components it spans |
| `Breadcrumb.TrailEndsWithLast` | AddressBar.py:115-117 | a row that reaches the last component ends with that component's label |
| `Breadcrumb.TrailSnoc` | AddressBar.py:115-121 | appending the next label, and its separator when one is due, extends the row by one component |
| `Breadcrumb.EvictTrail` | AddressBar.py:98-111 | evicting from a row before the last component is appended removes whole label-and-"/" pairs of the oldest components |
| `Breadcrumb.StepOnTrail` | AddressBar.py:93-121 | one pass keeps the layout a row of consecutive components that ends with the new one; the total is within 600 unless the new label stands alone |
| `Breadcrumb.ProcessShape` | AddressBar.py:93-121 | after every component the layout is a row of consecutive components ending with that component, so the newest label is never evicted; the total is within 600 or no earlier label is left |
| `Breadcrumb.EmphasizedSpec` | AddressBar.py:93-131 | a finished render shows components `first` to the last, separated by "/", and ends with the last label; the total is within 600 or that label is alone; every component has its label in order, and only the last is bold with its text width + 10 |
| `Breadcrumb.RenderSpec` | AddressBar.py:80-135 | the same facts for the components of a path, as `updateAddressBar` computes them |
| `Breadcrumb.RenderItems` | AddressBar.py:113-121 | every item a render leaves in the layout is a widget, and every label in it has an entry in the label list |
| `Breadcrumb.LoneEvictionDrift` | AddressBar.py:96-111 | when a new component pushes a two-item layout over budget, the earlier label and its "/" go and the total ends exactly 2 lower than before, whatever the widths |
| `Breadcrumb.ExampleComponents` | AddressBar.py:84-87 | "/a/big" has the components "a" and "big" |
| `Breadcrumb.ExampleFirstStep` | AddressBar.py:93-121 | measured with `BigOnly`, the first component "a" leaves two items and a total of 23 |
| `Breadcrumb.ExampleThreeComponents` | AddressBar.py:84-87 | "/a/b/big" has the components "a", "b" and "big" |
| `Breadcrumb.ExampleTwoSteps` | AddressBar.py:93-121 | measured with `BigOnly`, "a" and "b" both fit: four items and a total of 46 |
| `Breadcrumb.ExampleThirdStep` | AddressBar.py:93-121 | then "big" brings the total to 1069, one eviction removes "a" and its "/", and the total is 44 with "b", "/" and "big" left |
| `Breadcrumb.VisibleWidthOverBudget` | AddressBar.py:96-135 | measured with `BigOnly`, "/a/b/big" leaves two labels on screen whose visible width is 1041, over 600, while the total is 44 |
| `Breadcrumb.TotalDriftsFromVisibleWidth` | AddressBar.py:96-135 | measured with `BigOnly`, "/a/big" shows only the label "big" and ends with a total of 21, not the 1023 that "big" is charged |
| `AddressBar.AddressBar.AddComponent` | AddressBar.py:93-121 | one pass of the component loop changes the layout, the label list and the running total exactly as `Step` says |
| `AddressBar.AddressBar.LayOutComponents` | AddressBar.py:89-135 | from an empty layout, the loop followed by bolding the last label and setting the sub-frame width leaves exactly `Emphasize(Process(...))` |
| `AddressBar.AddressBar.UpdateAddressBar` | AddressBar.py:80-135 | keeps the object invariant; the split path is the components of `path`; layout, label list and sub-frame width are `Render(path, measure)` |
| `AddressBar.AddressBar.constructor` | AddressBar.py:32-69 | a new bar has an empty layout, no components and no labels, and satisfies the invariant |
| `Breadcrumb.FirstSuffixMatchFrom` | AddressBar.py:140-143 | the result is the smallest index at or after `from` whose component ends with the text; `None` means no such index exists |
| `Breadcrumb.ClickTargetSpec` | AddressBar.py:139-145 | a click emits a path exactly when some component ends with the text, and then it is "/" + the join of the components up to the first such one |
| `Breadcrumb.ClickOnComponent` | AddressBar.py:140-143 | a label whose text is component `k` always resolves, at index `k` or earlier |
| `Breadcrumb.ClickEmptyLabel` | AddressBar.py:140-145 | an empty text resolves to index 0 and emits "/" + the first component |
| `Breadcrumb.ClickNavigatesToPrefix` | AddressBar.py:80-145 | when no earlier component ends with component `k`'s text, clicking it leads to a path whose components are the first `k+1`; re-rendering that path ends the row with label `k`, which is bold and carries component `k`'s text |
| `Breadcrumb.PrefixTargetComponents` | AddressBar.py:84-145 | the path a click builds from the first `k+1` components of a path splits back into exactly those components |
| `Breadcrumb.ClickLastRoundTrip` | AddressBar.py:84-145 | clicking the last label of a path beginning with "/" emits that same path, when no earlier component ends with its text |
| `Breadcrumb.SuffixMatchAmbiguity` | AddressBar.py:84-145 | matching by suffix is ambiguous: for the path "/ab/b", a click on the label "b" leads to "/ab" |
| `AddressBar.AddressBar.OnSubDirectoryClicked` | AddressBar.py:137-145 | the linear search with early exit emits exactly `ClickTarget(subPath, text)` |

## Left out

- Qt widget construction, fonts, stylesheets, fixed heights, alignment,
  spacing and margins are not modelled. The text measure is an abstract
  function from strings to naturals, so no width is ever negative.
- The width given to a "/" separator is not modelled. It never enters the
  running total, which charges a flat 8 per component.
- `deleteLater` is not modelled, so an evicted or stripped widget simply
  leaves the layout. `removeWidget` in `stripAddressBar` detaches a label
  without deleting it, and the model drops it from the layout the same way.
- Signal and slot wiring is not modelled. A label's `clicked` signal
  becomes the `text` argument of `OnSubDirectoryClicked`, and emitting
  `directoryClicked` becomes its return value.
- `showContextMenu` (AddressBar.py:147-180) is not modelled, because it is
  screen geometry and printing. Of the per-label context-menu hook, the
  model keeps only the index each label reports (`menuIndex`).
- `actions`, the `AddressBarLabel` class beyond its fixed width, and
  `MainWindow` (AddressBar.py:189-294) are not modelled. They are UI and
  file-system plumbing.
- The back, forward and search buttons are not modelled, because they are
  unimplemented stubs.
- `AddressBar.AddressBar.UpdateAddressBar` requires the object invariant:
  the layout holds only widgets. The source never adds a spacer item, so
  the model excludes spacers. If one were there, `stripAddressBar` would
  leave it at the front. The first eviction would then take it, and
  `spacer.deleteLater()` (AddressBar.py:108) would fail, because a spacer
  item is not a Qt object. A render with no eviction would not fail on it.
- The model does not promise that what is shown fits the budget: the code
  does not keep that. An eviction refunds the width of the component
  being added, not that of the label it removes (AddressBar.py:111). So
  the fixed widths of the labels left on screen, plus their slash
  allowances, can come to far more than 600 while the running total is
  within it. `VisibleWidthOverBudget` gives an input.
  The model follows the code here.
- `AddressBar.AddressBar.constructor`: the source's `__init__` never
  assigns `sub_path` or `sub_dirs`. The model starts both empty, and
  `frameWidth` at 0.
- `AddressBar.AddressBar.UpdateAddressBar`: `frameWidth` is the total as
  computed and is handed to `setFixedWidth` (AddressBar.py:135) unchecked.
  Each lone eviction lowers the total by 2 (`LoneEvictionDrift`), so the
  total can go negative: measured with `BigOnly`, "/a" followed by twelve
  "big" components ends at -1. The model keeps it as an `int` and does
  not model what Qt does with a negative width.

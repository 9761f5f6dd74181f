/**
 * The address bar widget itself: the object whose fields the source
 * updates in place. The Qt layout becomes the sequence `layout`, the list
 * of created labels `subDirs`, the split path `subPath`, and the fixed
 * width given to the sub-frame `frameWidth`. Text is measured by
 * `measure`, which stands for the font metrics' horizontal advance.
 */
module AddressBar {
  import opened Wrappers
  import opened PathText
  import opened Breadcrumb

  class AddressBar {
    const measure: string -> nat
    var layout: seq<Item>
    var subPath: seq<string>
    var subDirs: seq<Label>
    var frameWidth: int

    /**
     * The object invariant: the class only ever puts widgets into its
     * layout, and each label in the layout is one of the created labels.
     */
    ghost predicate Valid()
      reads this
    {
      forall j :: 0 <= j < |layout| ==>
        layout[j].IsWidget() && (layout[j].LabelAt? ==> layout[j].index < |subDirs|)
    }

    /** A fresh address bar: an empty layout and no path rendered yet. */
    constructor (measure: string -> nat)
      ensures Valid() && this.measure == measure
      ensures layout == [] && subPath == [] && subDirs == [] && frameWidth == 0
    {
      this.measure := measure;
      layout := [];
      subPath := [];
      subDirs := [];
      frameWidth := 0;
    }

    /**
     * Walks the layout from the back and removes every widget item;
     * spacer items stay where they are. Nothing else changes.
     */
    method StripAddressBar()
      modifies this`layout
      ensures layout == NonWidgets(old(layout))
    {
      ghost var items := layout;
      var i := |layout|;
      while i > 0
        invariant 0 <= i <= |items|
        invariant layout == items[..i] + NonWidgets(items[i..])
        decreases i
      {
        i := i - 1;
        assert layout[i] == items[i];
        assert items[i..][1..] == items[i + 1..];
        assert items[..i + 1] == items[..i] + [items[i]];
        if layout[i].IsWidget() {
          layout := layout[..i] + layout[i + 1..];
        }
      }
      assert items[0..] == items;
    }

    /**
     * One pass of the render loop for component `i`: charges its text
     * width + 15 + 8, then while over budget with more than one item left
     * takes the front label and the "/" after it out of the layout,
     * giving back this component's text width + 15 + 10 each time, and
     * finally appends the component's label and, unless it is the last,
     * a separator.
     */
    method AddComponent(i: nat, total: int) returns (newTotal: int)
      requires i < |subPath|
      modifies this`layout, this`subDirs
      ensures Bar(layout, subDirs, newTotal) == Step(Bar(old(layout), old(subDirs), total), subPath, i, measure)
    {
      var dir := subPath[i];
      var width := measure(dir) + LabelPadding;
      var dirLabel := Label(dir, width, false, i);
      newTotal := total + width + SlashAllowance;

      ghost var charged := newTotal;
      var refund := width + EvictionRefund;
      if newTotal > Budget {
        while newTotal > Budget && |layout| > 1
          modifies this`layout
          invariant Evict(layout, newTotal, refund) == Evict(old(layout), charged, refund)
          decreases |layout|
        {
          assert layout[1..][1..] == layout[2..];
          layout := layout[1..];  // the label at the front
          layout := layout[1..];  // the "/" that followed it
          newTotal := newTotal - refund;
        }
      }

      assert (layout, newTotal) == Evict(old(layout), charged, refund);

      ghost var kept := layout;
      subDirs := subDirs + [dirLabel];
      layout := layout + [LabelAt(i)];
      if i < |subPath| - 1 {
        layout := layout + [Slash];
      }
      assert layout == kept + [LabelAt(i)] + (if i < |subPath| - 1 then [Slash] else []);
    }

    /**
     * Lays out the components of `subPath` on an empty layout: for each
     * component in turn, charges its width, evicts pairs of items from the
     * front while over budget and appends its label and, unless it is the
     * last, a separator. The last label is then made bold and resized,
     * and the sub-frame gets the final running total.
     */
    method LayOutComponents()
      requires layout == [] && |subPath| >= 1
      modifies this`layout, this`subDirs, this`frameWidth
      ensures Bar(layout, subDirs, frameWidth) == Emphasize(Process(subPath, |subPath|, measure), measure)
    {
      var total: int := 0;
      subDirs := [];

      for i := 0 to |subPath|
        modifies this`layout, this`subDirs
        invariant Bar(layout, subDirs, total) == Process(subPath, i, measure)
      {
        total := AddComponent(i, total);
      }

      ghost var processed := Bar(layout, subDirs, total);
      var last := subDirs[|subDirs| - 1];
      subDirs := subDirs[..|subDirs| - 1]
                 + [last.(bold := true, fixedWidth := measure(last.text) + BoldPadding)];
      frameWidth := total;
      assert Bar(layout, subDirs, frameWidth) == Emphasize(processed, measure);
    }

    /**
     * Renders `path`: strips the layout, drops one leading "/", splits the
     * rest on "/" into the components and lays them out.
     */
    method UpdateAddressBar(path: string)
      requires Valid()
      modifies this
      ensures Valid()
      ensures subPath == Components(path)
      ensures Bar(layout, subDirs, frameWidth) == Render(path, measure)
    {
      StripAddressBar();
      StripWidgetsOnly(old(layout));

      var p := path;
      if StartsWith(p, "/") {
        p := p[1..];
      }
      subPath := Split(p, '/');
      assert subPath == Components(path);

      LayOutComponents();
      assert Bar(layout, subDirs, frameWidth) == Render(path, measure);
      RenderItems(path, measure);
    }

    /**
     * A click on a label with `text`: the first component that ends with
     * the text selects the prefix of the path up to it, which is emitted
     * with a leading "/"; when no component matches nothing is emitted.
     */
    method OnSubDirectoryClicked(text: string) returns (emitted: Option<string>)
      ensures emitted == ClickTarget(subPath, text)
    {
      var clicked: Option<string> := None;
      var i := 0;
      while i < |subPath|
        invariant 0 <= i <= |subPath|
        invariant forall j :: 0 <= j < i ==> !EndsWith(subPath[j], text)
        invariant clicked == None
      {
        if EndsWith(subPath[i], text) {
          clicked := Some(Join(subPath[..i + 1], '/'));
          assert FirstSuffixMatch(subPath, text) == Some(i);
          break;
        }
        i := i + 1;
      }
      emitted := if clicked.Some? then Some("/" + clicked.value) else None;
    }
  }
}

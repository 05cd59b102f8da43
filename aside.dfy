/**
 * The `Aside` component of src/components/Aside.js around spyScroll: the
 * guard of the nav buttons' `scrollToTarget` click handler, and the rule
 * that marks the nav button and the side section of the current section
 * `active`.
 *
 * React is abstract: `sectionsRefs` is a map from names to ref objects,
 * `currentSection` is the last value spyScroll returned (`undefined`, i.e.
 * `NoSection`, before the first one), and the rendered pane is the
 * scrollable parent whose children are the side sections in `data` order,
 * each carrying `data-name` = its section's name.
 */
module Aside {
  import opened Optional
  import opened SpyScroll

  /** One entry of the `data` prop; its icon and content play no part here. */
  datatype SectionData = SectionData(name: string)

  /** A React ref object: `current` is the mounted section element, or null. */
  datatype Ref = Ref(current: Option<Element>)

  /**
   * No two sections share a name: each name is the React `key` of a nav
   * button (src/components/Aside.js:102), and sibling keys must be unique.
   */
  predicate DistinctNames(data: seq<SectionData>) {
    forall i, j | 0 <= i < j < |data| :: data[i].name != data[j].name
  }

  /** The side sections as children of the scrollable pane, at the given offsets. */
  function Pane(data: seq<SectionData>, offsets: seq<int>): (cs: seq<Element>)
    requires |offsets| == |data|
  {
    seq(|data|, i requires 0 <= i < |data| => Element(data[i].name, offsets[i]))
  }

  // ---------------------------------------------------------------------
  // `scrollToTarget(refName)`
  // ---------------------------------------------------------------------

  /**
   * The element a click on the button for `refName` scrolls into view, or
   * `None` when the click does nothing: the name must be truthy (non-empty),
   * registered in `sectionsRefs`, and its ref attached to an element.
   */
  function ScrollTarget(refName: string, sectionsRefs: map<string, Ref>): (target: Option<Element>)
    ensures target.Some? <==> refName != "" && refName in sectionsRefs && sectionsRefs[refName].current.Some?
    ensures target.Some? ==> target == sectionsRefs[refName].current
  {
    if refName == "" then None
    else if refName !in sectionsRefs then None
    else sectionsRefs[refName].current
  }

  // ---------------------------------------------------------------------
  // `className={currentSection === item.name ? 'active' : ''}`
  // ---------------------------------------------------------------------

  /** `currentSection === name`: `false` and `undefined` equal no name. */
  predicate IsActive(currentSection: Outcome, name: string) {
    currentSection.Section? && currentSection.name == name
  }

  /** The class of the nav button and of the side section named `name`. */
  function ActiveClass(currentSection: Outcome, name: string): (c: string)
    ensures c == "active" <==> IsActive(currentSection, name)
    ensures c != "active" ==> c == ""
  {
    if IsActive(currentSection, name) then "active" else ""
  }

  /**
   * Over the rendered pane, some button is active exactly when some section
   * has a non-empty name; the active one is then the only one, and its
   * section is the closest named child of the pane.
   */
  lemma ExactlyOneActive(data: seq<SectionData>, offsets: seq<int>, scrollTop: int)
    requires |offsets| == |data| && DistinctNames(data)
    ensures var cs := Pane(data, offsets);
            var current := SpyResult(Some(ScrollParent(scrollTop, cs)), None);
            (exists i | 0 <= i < |data| :: IsActive(current, data[i].name))
            <==> (exists i | 0 <= i < |data| :: data[i].name != "")
    ensures var cs := Pane(data, offsets);
            var current := SpyResult(Some(ScrollParent(scrollTop, cs)), None);
            forall i | 0 <= i < |data| && IsActive(current, data[i].name) ::
              && ClosestNamed(scrollTop, cs, data[i].name)
              && forall j | 0 <= j < |data| && IsActive(current, data[j].name) :: i == j
  {
    var cs := Pane(data, offsets);
    var parent := ScrollParent(scrollTop, cs);
    var current := SpyResult(Some(parent), None);
    SpyScrollNoSection(parent);
    SpyScrollClosest(parent);
    if current.Section? {
      var k := FirstIndex(cs, current.name);
      assert IsActive(current, data[k].name);
    } else {
      assert current == NoSection;
      forall i | 0 <= i < |data| ensures data[i].name == "" {
        assert cs[i].dataName == data[i].name;
      }
    }
  }

  /**
   * Once a click has scrolled the pane so that its top is the top of
   * section `i`, and no other section starts there, section `i` is the
   * one spyScroll reports, and its button the one marked active.
   */
  lemma ScrolledToSectionIsActive(data: seq<SectionData>, offsets: seq<int>, i: nat)
    requires |offsets| == |data| && DistinctNames(data)
    requires i < |data| && data[i].name != ""
    requires forall j | 0 <= j < |data| && j != i :: offsets[j] != offsets[i]
    ensures var current := SpyResult(Some(ScrollParent(offsets[i], Pane(data, offsets))), None);
            && current == Section(data[i].name)
            && ActiveClass(current, data[i].name) == "active"
            && forall j | 0 <= j < |data| && j != i :: ActiveClass(current, data[j].name) == ""
  {
    var cs := Pane(data, offsets);
    var parent := ScrollParent(offsets[i], cs);
    var current := SpyResult(Some(parent), None);
    SpyScrollNoSection(parent);
    assert cs[i].dataName != "";
    SpyScrollClosest(parent);
    IndexOfUniqueName(cs, i);
    var k := FirstIndex(cs, current.name);
    assert Delta(offsets[i], cs[k]) <= Delta(offsets[i], cs[i]);
  }
}

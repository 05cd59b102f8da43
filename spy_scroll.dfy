/**
 * The scroll-spy rule `spyScroll(scrollParent, _targetElements)` of
 * src/components/Aside.js: which named child section of a scrollable
 * parent has its top closest to the parent's scroll position.
 *
 * The DOM is abstract: a child is its `data-name` and its `offsetTop`, the
 * parent is its `scrollTop` and its children in document order. Positions
 * are whole pixels.
 */
module SpyScroll {
  import opened Optional
  import opened JsObject

  /** A child node: its `data-name` ("" when the attribute is absent or empty) and `offsetTop`. */
  datatype Element = Element(dataName: string, offsetTop: int)

  /** The scrollable parent: its `scrollTop` and its children in document order. */
  datatype ScrollParent = ScrollParent(scrollTop: int, children: seq<Element>)

  /** What spyScroll returns: `false` (no parent), `undefined` (no section found) or a section name. */
  datatype Outcome = NoParent | NoSection | Section(name: string)

  /** `bestMatch` once it holds an entry: `{ sectionName, delta }`. */
  datatype Match = Match(sectionName: string, delta: nat)

  /** The name → element object the loop scans. */
  type Table = seq<Prop<Element>>

  // ---------------------------------------------------------------------
  // Positions of names among the children
  // ---------------------------------------------------------------------

  /** The first child named `n`, or -1 when there is none. */
  function FirstIndex(cs: seq<Element>, n: string): (i: int)
    ensures -1 <= i < |cs|
    ensures i >= 0 ==> cs[i].dataName == n && forall j | 0 <= j < i :: cs[j].dataName != n
    ensures i == -1 ==> forall j | 0 <= j < |cs| :: cs[j].dataName != n
  {
    if cs == [] then -1
    else
      var i := FirstIndex(cs[..|cs| - 1], n);
      if i >= 0 then i else if cs[|cs| - 1].dataName == n then |cs| - 1 else -1
  }

  /** A child's name occurs first at or before the child. */
  lemma FirstIndexOfChild(cs: seq<Element>, i: nat)
    requires i < |cs|
    ensures 0 <= FirstIndex(cs, cs[i].dataName) <= i
  {
  }

  /** A name only child `i` carries occurs first and last at `i`. */
  lemma IndexOfUniqueName(cs: seq<Element>, i: nat)
    requires i < |cs|
    requires forall j | 0 <= j < |cs| && j != i :: cs[j].dataName != cs[i].dataName
    ensures FirstIndex(cs, cs[i].dataName) == i && LastIndex(cs, cs[i].dataName) == i
  {
    FirstIndexOfChild(cs, i);
  }

  /** The last child named `n`, or -1 when there is none. */
  function LastIndex(cs: seq<Element>, n: string): (i: int)
    ensures -1 <= i < |cs|
    ensures i >= 0 ==> cs[i].dataName == n && forall j | i < j < |cs| :: cs[j].dataName != n
    ensures i == -1 ==> forall j | 0 <= j < |cs| :: cs[j].dataName != n
  {
    if cs == [] then -1
    else if cs[|cs| - 1].dataName == n then |cs| - 1
    else LastIndex(cs[..|cs| - 1], n)
  }

  // ---------------------------------------------------------------------
  // The table: `[...scrollParent.children].reduce(..., {})`
  // ---------------------------------------------------------------------

  /** The reduce callback: `item.dataset.name ? { [item.dataset.name]: item, ...map } : map`. */
  function AddNamed(table: Table, item: Element): Table {
    if item.dataName != "" then LiteralWithSpread(item.dataName, item, table) else table
  }

  /** The reduce over the children, from `{}`. */
  function CollectNamed(cs: seq<Element>): Table {
    if cs == [] then [] else AddNamed(CollectNamed(cs[..|cs| - 1]), cs[|cs| - 1])
  }

  /** The object the loop scans: `_targetElements` when given, else the reduce's result. */
  function TargetElements(parent: ScrollParent, targetElements: Option<Table>): Table {
    if targetElements.Some? then targetElements.value else CollectNamed(parent.children)
  }

  // ---------------------------------------------------------------------
  // The loop: `for (const sectionName in targetElements) { ... }`
  // ---------------------------------------------------------------------

  /** `Math.abs(scrollParent.scrollTop - domElm.offsetTop)` */
  function Delta(scrollTop: int, e: Element): nat {
    if scrollTop >= e.offsetTop then scrollTop - e.offsetTop else e.offsetTop - scrollTop
  }

  /**
   * One pass of the loop body for property `p`: an empty (falsy) best name
   * is replaced outright, then a strictly smaller delta replaces the best.
   */
  function Consider(best: Option<Match>, scrollTop: int, p: Prop<Element>): Option<Match> {
    var delta := Delta(scrollTop, p.value);
    var current := if best.None? || best.value.sectionName == "" then Match(p.key, delta) else best.value;
    Some(if delta < current.delta then Match(p.key, delta) else current)
  }

  /** `bestMatch` after the loop has visited `props` in order (`None` is `{}`). */
  function Scan(scrollTop: int, props: seq<Prop<Element>>): (best: Option<Match>)
    ensures best.None? <==> props == []
    ensures best.Some? ==> exists i | 0 <= i < |props| ::
              props[i].key == best.value.sectionName && best.value.delta == Delta(scrollTop, props[i].value)
  {
    if props == [] then None
    else
      var best := Consider(Scan(scrollTop, props[..|props| - 1]), scrollTop, props[|props| - 1]);
      best
  }

  /** The value spyScroll returns. */
  function SpyResult(scrollParent: Option<ScrollParent>, targetElements: Option<Table>): (r: Outcome)
    ensures r == NoParent <==> scrollParent.None?
  {
    match scrollParent
    case None => NoParent
    case Some(parent) =>
      match Scan(parent.scrollTop, OwnKeys(TargetElements(parent, targetElements)))
      case None => NoSection
      case Some(m) => Section(m.sectionName)
  }

  /** spyScroll, step by step as the source runs it. */
  method SpyScroll(scrollParent: Option<ScrollParent>, targetElements: Option<Table>) returns (r: Outcome)
    ensures r == SpyResult(scrollParent, targetElements)
  {
    if scrollParent.None? {
      return NoParent;
    }
    var parent := scrollParent.value;
    var table := if targetElements.Some? then targetElements.value else CollectNamed(parent.children);
    var bestMatch := BestMatch(parent.scrollTop, OwnKeys(table));
    r := if bestMatch.None? then NoSection else Section(bestMatch.value.sectionName);
  }

  /** The `for…in` loop of spyScroll over the properties in visiting order. */
  method BestMatch(scrollTop: int, order: seq<Prop<Element>>) returns (bestMatch: Option<Match>)
    ensures bestMatch == Scan(scrollTop, order)
  {
    bestMatch := None;
    for i := 0 to |order|
      invariant bestMatch == Scan(scrollTop, order[..i])
    {
      ghost var before := bestMatch;
      var sectionName := order[i].key;
      var delta := Delta(scrollTop, order[i].value);
      if bestMatch.None? || bestMatch.value.sectionName == "" {
        bestMatch := Some(Match(sectionName, delta));
      }
      if delta < bestMatch.value.delta {
        bestMatch := Some(Match(sectionName, delta));
      }
      assert bestMatch == Consider(before, scrollTop, order[i]);
      ScanStep(scrollTop, order, i);
    }
    assert order[..|order|] == order;
  }

  /** Visiting one more entry is one more pass of the loop body. */
  lemma ScanStep(scrollTop: int, props: seq<Prop<Element>>, i: nat)
    requires i < |props|
    ensures Scan(scrollTop, props[..i + 1]) == Consider(Scan(scrollTop, props[..i]), scrollTop, props[i])
  {
    assert props[..i + 1][..i] == props[..i];
  }

  // ---------------------------------------------------------------------
  // What the loop selects
  // ---------------------------------------------------------------------

  /** Entry `i` has the smallest delta, and every entry before it a larger one. */
  predicate IsFirstMinimum(scrollTop: int, props: seq<Prop<Element>>, i: int) {
    && 0 <= i < |props|
    && (forall j | 0 <= j < |props| :: Delta(scrollTop, props[i].value) <= Delta(scrollTop, props[j].value))
    && (forall j | 0 <= j < i :: Delta(scrollTop, props[j].value) > Delta(scrollTop, props[i].value))
  }

  /**
   * Over entries with non-empty names, the loop ends holding the first
   * entry, in visiting order, whose delta is the smallest.
   */
  lemma {:induction false} ScanFindsFirstMinimum(scrollTop: int, props: seq<Prop<Element>>)
    requires props != []
    requires forall j | 0 <= j < |props| :: props[j].key != ""
    ensures exists i :: IsFirstMinimum(scrollTop, props, i)
              && Scan(scrollTop, props) == Some(Match(props[i].key, Delta(scrollTop, props[i].value)))
  {
    var n := |props| - 1;
    var init, last := props[..n], props[n];
    if init == [] {
      assert IsFirstMinimum(scrollTop, props, 0);
    } else {
      ScanFindsFirstMinimum(scrollTop, init);
      var i :| IsFirstMinimum(scrollTop, init, i)
               && Scan(scrollTop, init) == Some(Match(init[i].key, Delta(scrollTop, init[i].value)));
      assert props == init + [last];
      FirstMinimumStep(scrollTop, init, last, i);
    }
  }

  /** The entry ScanFindsFirstMinimum promises, named. */
  lemma ScanWinner(scrollTop: int, props: seq<Prop<Element>>) returns (w: nat)
    requires props != []
    requires forall j | 0 <= j < |props| :: props[j].key != ""
    ensures IsFirstMinimum(scrollTop, props, w)
    ensures Scan(scrollTop, props) == Some(Match(props[w].key, Delta(scrollTop, props[w].value)))
  {
    ScanFindsFirstMinimum(scrollTop, props);
    w :| IsFirstMinimum(scrollTop, props, w)
         && Scan(scrollTop, props) == Some(Match(props[w].key, Delta(scrollTop, props[w].value)));
  }

  lemma FirstMinimumStep(scrollTop: int, init: seq<Prop<Element>>, last: Prop<Element>, i: int)
    requires IsFirstMinimum(scrollTop, init, i) && init[i].key != ""
    ensures var best := Consider(Some(Match(init[i].key, Delta(scrollTop, init[i].value))), scrollTop, last);
            var props := init + [last];
            if Delta(scrollTop, last.value) < Delta(scrollTop, init[i].value)
            then IsFirstMinimum(scrollTop, props, |init|) && best == Some(Match(last.key, Delta(scrollTop, last.value)))
            else IsFirstMinimum(scrollTop, props, i) && best == Some(Match(props[i].key, Delta(scrollTop, props[i].value)))
  {
    var props := init + [last];
    assert props[i] == init[i] && props[|init|] == last;
  }

  // ---------------------------------------------------------------------
  // What the reduce builds
  // ---------------------------------------------------------------------

  lemma FirstIndexSnoc(init: seq<Element>, c: Element, n: string)
    ensures FirstIndex(init + [c], n)
         == if FirstIndex(init, n) >= 0 then FirstIndex(init, n) else if c.dataName == n then |init| else -1
  {
    assert (init + [c])[..|init|] == init;
  }

  lemma LastIndexSnoc(init: seq<Element>, c: Element, n: string)
    ensures LastIndex(init + [c], n) == if c.dataName == n then |init| else LastIndex(init, n)
  {
    assert (init + [c])[..|init|] == init;
  }

  /** The properties of the table the reduce builds from children `cs`. */
  ghost predicate TableOf(t: Table, cs: seq<Element>) {
    && DistinctKeys(t)
    && (forall n :: n in Keys(t) <==> n != "" && FirstIndex(cs, n) >= 0)
    && (forall n | n in Keys(t) :: 0 <= FirstIndex(cs, n) && Get(t, n) == cs[FirstIndex(cs, n)])
  }

  /**
   * The reduce keeps one property per non-empty `data-name`, and none for a
   * child without one; a repeated name keeps the EARLIEST child with that
   * name, because the spread of the accumulated object overwrites the new one.
   */
  lemma {:induction false} CollectNamedTable(cs: seq<Element>)
    ensures DistinctKeys(CollectNamed(cs))
    ensures forall n :: n in Keys(CollectNamed(cs)) <==> n != "" && FirstIndex(cs, n) >= 0
    ensures forall n | n in Keys(CollectNamed(cs)) ::
              0 <= FirstIndex(cs, n) && Get(CollectNamed(cs), n) == cs[FirstIndex(cs, n)]
  {
    if cs != [] {
      var init, c := cs[..|cs| - 1], cs[|cs| - 1];
      assert cs == init + [c];
      CollectNamedTable(init);
      var t0 := CollectNamed(init);
      assert TableOf(t0, init);
      if c.dataName == "" {
        assert CollectNamed(cs) == t0;
        assert TableOf(t0, cs);
      } else {
        AddNamedTable(init, c, t0);
      }
    }
  }

  lemma AddNamedTable(init: seq<Element>, c: Element, t0: Table)
    requires c.dataName != "" && TableOf(t0, init)
    ensures TableOf(LiteralWithSpread(c.dataName, c, t0), init + [c])
  {
    var cs := init + [c];
    var t := LiteralWithSpread(c.dataName, c, t0);
    LiteralWithSpreadContents(c.dataName, c, t0);
    forall n ensures n in Keys(t) <==> n != "" && FirstIndex(cs, n) >= 0 {
      FirstIndexSnoc(init, c, n);
    }
    forall n | n in Keys(t) ensures 0 <= FirstIndex(cs, n) && Get(t, n) == cs[FirstIndex(cs, n)] {
      FirstIndexSnoc(init, c, n);
    }
  }

  /** The children with a name, latest (re)named first: the order of the properties. */
  predicate NewestFirst(t: Table, cs: seq<Element>) {
    forall a, b | 0 <= a < b < |t| :: LastIndex(cs, t[a].key) > LastIndex(cs, t[b].key)
  }

  /**
   * `{ [name]: item, ...map }` creates `name` first, so the table lists the
   * names by their LAST occurrence among the children, latest first (when
   * no name is an array index, which would be visited first).
   */
  lemma {:induction false} CollectNamedOrder(cs: seq<Element>)
    requires forall i | 0 <= i < |cs| :: !IsArrayIndex(cs[i].dataName)
    ensures NewestFirst(CollectNamed(cs), cs)
  {
    if cs != [] {
      var init, c := cs[..|cs| - 1], cs[|cs| - 1];
      assert cs == init + [c];
      CollectNamedOrder(init);
      CollectNamedTable(init);
      var t0 := CollectNamed(init);
      forall p | p in t0 ensures p.key != "" && LastIndex(init, p.key) >= 0 && !IsArrayIndex(p.key) {
        assert p.key in Keys(t0);
        assert init[FirstIndex(init, p.key)].dataName == p.key;
      }
      if c.dataName == "" {
        assert CollectNamed(cs) == t0;
        forall a, b | 0 <= a < b < |t0| ensures LastIndex(cs, t0[a].key) > LastIndex(cs, t0[b].key) {
          assert t0[a] in t0 && t0[b] in t0;
        }
      } else {
        OwnKeysOfNamed(t0);
        AddNamedOrder(init, c, t0);
      }
    }
  }

  lemma AddNamedOrder(init: seq<Element>, c: Element, t0: Table)
    requires c.dataName != "" && DistinctKeys(t0) && NewestFirst(t0, init) && OwnKeys(t0) == t0
    ensures NewestFirst(LiteralWithSpread(c.dataName, c, t0), init + [c])
  {
    var n0 := c.dataName;
    var v0 := if n0 in Keys(t0) then Get(t0, n0) else c;
    var rest := Without(t0, n0);
    LiteralWithSpreadShape(n0, c, t0);
    WithoutNewestFirst(t0, init, n0);
    NewestFirstCons(init, c, v0, rest);
  }

  lemma WithoutNewestFirst(t: Table, cs: seq<Element>, k: string)
    requires NewestFirst(t, cs)
    ensures NewestFirst(Without(t, k), cs)
  {
    var rank := (n: string) => LastIndex(cs, n);
    assert DecreasingBy(t, rank);
    WithoutKeepsOrder(t, k, rank);
    var r := Without(t, k);
    assert DecreasingBy(r, rank);
  }

  lemma NewestFirstCons(init: seq<Element>, c: Element, v: Element, rest: Table)
    requires NewestFirst(rest, init)
    requires forall p | p in rest :: p.key != c.dataName
    ensures NewestFirst([Prop(c.dataName, v)] + rest, init + [c])
  {
    var cs := init + [c];
    var t := [Prop(c.dataName, v)] + rest;
    forall a, b | 0 <= a < b < |t| ensures LastIndex(cs, t[a].key) > LastIndex(cs, t[b].key) {
      var kb := rest[b - 1].key;
      assert t[b].key == kb && rest[b - 1] in rest;
      LastIndexSnoc(init, c, kb);
      if a == 0 {
        LastIndexSnoc(init, c, c.dataName);
      } else {
        var ka := rest[a - 1].key;
        assert t[a].key == ka && rest[a - 1] in rest;
        LastIndexSnoc(init, c, ka);
      }
    }
  }

  // ---------------------------------------------------------------------
  // What spyScroll returns
  // ---------------------------------------------------------------------

  /** The child a name stands for in the table: the first child with that name. */
  function NamedElement(cs: seq<Element>, n: string): Element
    requires FirstIndex(cs, n) >= 0
  {
    cs[FirstIndex(cs, n)]
  }

  /** An object has no keys exactly when it has no properties. */
  lemma NoKeysNoProps(t: Table)
    ensures Keys(t) == {} <==> t == []
  {
    if t != [] {
      assert t[0].key in Keys(t);
    }
  }

  /**
   * Scanning an object whose keys are all non-empty ends on a key of the
   * object whose value is at least as close to `scrollTop` as every other.
   */
  lemma ScanOverTable(scrollTop: int, t: Table)
    requires DistinctKeys(t) && "" !in Keys(t) && t != []
    ensures var best := Scan(scrollTop, OwnKeys(t));
            && best.Some?
            && best.value.sectionName in Keys(t)
            && best.value.delta == Delta(scrollTop, Get(t, best.value.sectionName))
            && forall p | p in t :: best.value.delta <= Delta(scrollTop, p.value)
  {
    var order := OwnKeys(t);
    var w := OrderWinner(scrollTop, t);
    var winner := order[w];
    GetOfMember(t, winner);
    forall p | p in t ensures Delta(scrollTop, winner.value) <= Delta(scrollTop, p.value) {
      assert p in order;
      var j :| 0 <= j < |order| && order[j] == p;
    }
  }

  /** The entry the loop ends on, when it visits the properties of `t` in order. */
  lemma OrderWinner(scrollTop: int, t: Table) returns (w: nat)
    requires "" !in Keys(t) && t != []
    ensures IsFirstMinimum(scrollTop, OwnKeys(t), w)
    ensures OwnKeys(t)[w] in t
    ensures Scan(scrollTop, OwnKeys(t)) == Some(Match(OwnKeys(t)[w].key, Delta(scrollTop, OwnKeys(t)[w].value)))
  {
    var order := OwnKeys(t);
    assert t[0] in order;
    forall j | 0 <= j < |order| ensures order[j].key != "" {
      assert order[j] in t;
    }
    w := ScanWinner(scrollTop, order);
  }

  /** The reduce's table has a property exactly when some child has a `data-name`. */
  lemma CollectNamedEmpty(cs: seq<Element>)
    ensures CollectNamed(cs) == [] <==> forall i | 0 <= i < |cs| :: cs[i].dataName == ""
  {
    var t := CollectNamed(cs);
    CollectNamedTable(cs);
    NoKeysNoProps(t);
    if i :| 0 <= i < |cs| && cs[i].dataName != "" {
      assert cs[i].dataName in Keys(t);
    } else {
      forall n ensures n !in Keys(t) {
        if n != "" {
          assert FirstIndex(cs, n) == -1;
        }
      }
    }
  }

  /**
   * Over the parent's own children: `undefined` exactly when no child has a
   * `data-name`.
   */
  lemma SpyScrollNoSection(parent: ScrollParent)
    ensures SpyResult(Some(parent), None) == NoSection
        <==> forall i | 0 <= i < |parent.children| :: parent.children[i].dataName == ""
  {
    var t := CollectNamed(parent.children);
    CollectNamedEmpty(parent.children);
    NoKeysNoProps(t);
    NoKeysNoProps(OwnKeys(t));
  }

  /**
   * Some child is named `n`, and the element `n` stands for (its first
   * child) is at least as close to `scrollTop` as the element of every
   * other name among the children.
   */
  predicate ClosestNamed(scrollTop: int, cs: seq<Element>, n: string) {
    && FirstIndex(cs, n) >= 0
    && forall i | 0 <= i < |cs| && cs[i].dataName != "" ::
         FirstIndex(cs, cs[i].dataName) >= 0
         && Delta(scrollTop, NamedElement(cs, n)) <= Delta(scrollTop, NamedElement(cs, cs[i].dataName))
  }

  /**
   * Over the parent's own children, a section found is a name some child
   * carries, whose element (the first child with that name) is at least as
   * close to `scrollTop` as the element of every other name.
   */
  lemma SpyScrollClosest(parent: ScrollParent)
    ensures var r := SpyResult(Some(parent), None);
            r.Section? ==> r.name != "" && ClosestNamed(parent.scrollTop, parent.children, r.name)
  {
    var cs, st := parent.children, parent.scrollTop;
    var t := CollectNamed(cs);
    if t != [] {
      CollectNamedTable(cs);
      ScanOverTable(st, t);
      var best := Scan(st, OwnKeys(t)).value;
      assert TableOf(t, cs);
      NamedChildrenBound(st, cs, t, best.delta);
    } else {
      NoKeysNoProps(OwnKeys(t));
    }
  }

  /** A bound on the delta of every property of the table bounds every named child's element. */
  lemma NamedChildrenBound(scrollTop: int, cs: seq<Element>, t: Table, d: nat)
    requires TableOf(t, cs)
    requires forall p | p in t :: d <= Delta(scrollTop, p.value)
    ensures forall i | 0 <= i < |cs| && cs[i].dataName != "" ::
              FirstIndex(cs, cs[i].dataName) >= 0 && d <= Delta(scrollTop, NamedElement(cs, cs[i].dataName))
  {
    forall i | 0 <= i < |cs| && cs[i].dataName != ""
      ensures FirstIndex(cs, cs[i].dataName) >= 0 && d <= Delta(scrollTop, NamedElement(cs, cs[i].dataName))
    {
      var n := cs[i].dataName;
      FirstIndexOfChild(cs, i);
      assert n in Keys(t);
      assert t[IndexOfKey(t, n)] in t;
    }
  }

  /**
   * Every name whose last child comes after the last child named `n` has
   * an element strictly farther from `scrollTop` than the element of `n`:
   * among equally close names, the one re-used latest wins.
   */
  predicate LatestAmongClosest(scrollTop: int, cs: seq<Element>, n: string) {
    && FirstIndex(cs, n) >= 0
    && forall i | 0 <= i < |cs| && cs[i].dataName != "" && LastIndex(cs, cs[i].dataName) > LastIndex(cs, n) ::
         FirstIndex(cs, cs[i].dataName) >= 0
         && Delta(scrollTop, NamedElement(cs, n)) < Delta(scrollTop, NamedElement(cs, cs[i].dataName))
  }

  /**
   * Over the parent's own children, when no name is an array index, ties
   * go to the name whose last child comes latest in the document: the loop
   * visits the names newest first and replaces its best only on a strictly
   * smaller delta.
   */
  lemma SpyScrollPrefersLatest(parent: ScrollParent)
    requires forall i | 0 <= i < |parent.children| :: !IsArrayIndex(parent.children[i].dataName)
    ensures var r := SpyResult(Some(parent), None);
            r.Section? ==> LatestAmongClosest(parent.scrollTop, parent.children, r.name)
  {
    var cs, st := parent.children, parent.scrollTop;
    var t := CollectNamed(cs);
    if t != [] {
      CollectNamedTable(cs);
      CollectNamedOrder(cs);
      assert TableOf(t, cs);
      forall p | p in t ensures p.key != "" && !IsArrayIndex(p.key) {
        assert p.key in Keys(t);
      }
      OwnKeysOfNamed(t);
      forall j | 0 <= j < |t| ensures t[j].key != "" {
        assert t[j] in t;
      }
      var w := ScanWinner(st, t);
      NewerNamesFarther(st, cs, t, w);
    } else {
      NoKeysNoProps(OwnKeys(t));
    }
  }

  /** In a table listed newest first, the entry of the later-used name comes earlier. */
  lemma NewestFirstBefore(t: Table, cs: seq<Element>, j: nat, w: nat)
    requires NewestFirst(t, cs) && j < |t| && w < |t|
    ensures LastIndex(cs, t[j].key) > LastIndex(cs, t[w].key) ==> j < w
  {
  }

  lemma NewerNamesFarther(scrollTop: int, cs: seq<Element>, t: Table, w: nat)
    requires TableOf(t, cs) && NewestFirst(t, cs) && IsFirstMinimum(scrollTop, t, w)
    ensures LatestAmongClosest(scrollTop, cs, t[w].key)
  {
    var winner := t[w];
    assert winner.key in Keys(t);
    GetOfMember(t, winner);
    forall i | 0 <= i < |cs| && cs[i].dataName != "" && LastIndex(cs, cs[i].dataName) > LastIndex(cs, winner.key)
      ensures FirstIndex(cs, cs[i].dataName) >= 0
              && Delta(scrollTop, NamedElement(cs, winner.key)) < Delta(scrollTop, NamedElement(cs, cs[i].dataName))
    {
      var n := cs[i].dataName;
      FirstIndexOfChild(cs, i);
      assert n in Keys(t);
      var j := IndexOfKey(t, n);
      NewestFirstBefore(t, cs, j, w);
      GetOfMember(t, t[j]);
    }
  }

  /**
   * With a `_targetElements` object whose keys are non-empty: `undefined`
   * exactly when it has no properties, otherwise one of its keys whose
   * element is at least as close to `scrollTop` as every other.
   */
  lemma SpyScrollOverTargets(parent: ScrollParent, targets: Table)
    requires DistinctKeys(targets) && "" !in Keys(targets)
    ensures var r := SpyResult(Some(parent), Some(targets));
            r == NoSection <==> targets == []
    ensures var r := SpyResult(Some(parent), Some(targets));
            r.Section? ==> && r.name in Keys(targets)
                           && forall p | p in targets ::
                                Delta(parent.scrollTop, Get(targets, r.name)) <= Delta(parent.scrollTop, p.value)
  {
    NoKeysNoProps(targets);
    NoKeysNoProps(OwnKeys(targets));
    if targets != [] {
      ScanOverTable(parent.scrollTop, targets);
    }
  }

  // ---------------------------------------------------------------------
  // Three sections at 0, 500 and 1000 pixels
  // ---------------------------------------------------------------------

  /** Children named `a`, `b` and `c` (distinct, non-empty, not array indices) at 0, 500 and 1000. */
  predicate IsThreeSections(cs: seq<Element>, a: string, b: string, c: string) {
    && a != "" && b != "" && c != "" && a != b && b != c && a != c
    && !IsArrayIndex(a) && !IsArrayIndex(b) && !IsArrayIndex(c)
    && cs == [Element(a, 0), Element(b, 500), Element(c, 1000)]
  }

  /** At 490 pixels, `b` (10 away) is the only name closer than both others (490 and 510). */
  lemma ClosestOfThree(cs: seq<Element>, a: string, b: string, c: string, n: string)
    requires IsThreeSections(cs, a, b, c) && ClosestNamed(490, cs, n)
    ensures n == b
  {
    IndexOfUniqueName(cs, 0);
    IndexOfUniqueName(cs, 1);
    IndexOfUniqueName(cs, 2);
    var k := FirstIndex(cs, n);
    assert cs[k].dataName == n;
    assert cs[1].dataName != "";
  }

  /**
   * At 250 pixels `a` and `b` are both 250 away: of the two closest names,
   * only `b` has no later-used name as close, so `b` is the one picked.
   */
  lemma TieOfThree(cs: seq<Element>, a: string, b: string, c: string, n: string)
    requires IsThreeSections(cs, a, b, c)
    requires ClosestNamed(250, cs, n) && LatestAmongClosest(250, cs, n)
    ensures n == b
  {
    IndexOfUniqueName(cs, 0);
    IndexOfUniqueName(cs, 1);
    IndexOfUniqueName(cs, 2);
    var k := FirstIndex(cs, n);
    assert cs[k].dataName == n;
    assert cs[0].dataName != "" && cs[1].dataName != "";
  }

  /** spyScroll over the three sections with the pane at 490 pixels reports `b`. */
  lemma SpyScrollClosestOfThree(parent: ScrollParent, a: string, b: string, c: string)
    requires IsThreeSections(parent.children, a, b, c) && parent.scrollTop == 490
    ensures SpyResult(Some(parent), None) == Section(b)
  {
    var cs := parent.children;
    var r := SpyResult(Some(parent), None);
    SpyScrollNoSection(parent);
    assert cs[0].dataName != "";
    SpyScrollClosest(parent);
    ClosestOfThree(cs, a, b, c, r.name);
  }

  /** spyScroll over the three sections with the pane at 250 pixels reports `b`, not `a`. */
  lemma SpyScrollTieOfThree(parent: ScrollParent, a: string, b: string, c: string)
    requires IsThreeSections(parent.children, a, b, c) && parent.scrollTop == 250
    ensures SpyResult(Some(parent), None) == Section(b)
  {
    var cs := parent.children;
    var r := SpyResult(Some(parent), None);
    SpyScrollNoSection(parent);
    assert cs[0].dataName == a && cs[1].dataName == b && cs[2].dataName == c;
    SpyScrollClosest(parent);
    forall i | 0 <= i < |cs| ensures !IsArrayIndex(cs[i].dataName) {
      assert i == 0 || i == 1 || i == 2;
    }
    SpyScrollPrefersLatest(parent);
    TieOfThree(cs, a, b, c, r.name);
  }
}

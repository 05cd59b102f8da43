# Scroll-spy side panel (src/components/Aside.js)

The `Aside` component shows a scrollable pane of side sections next to a
row of nav buttons, one per section. As the pane scrolls, `spyScroll`
decides which section is "current": the section whose top is closest to
the pane's scroll position. The button and the section with that name get
the class `active`. Clicking a button scrolls its section into view.

This project models that selection rule and the two small guards around it:

- `optional.dfy` holds the `Option` datatype.
- `js_object.dfy` (module `JsObject`) models a plain JavaScript object as a
  sequence of properties in creation order. It covers:
  - the order in which `for…in` visits the own properties: array-index
    keys first, in ascending numeric order, then the other keys in creation
    order;
  - assignment to a property, which keeps an existing key in its place;
  - the object literal `{ [k]: v, ...src }`, which creates `k` first and
    then copies `src`'s properties over it.
- `spy_scroll.dfy` (module `SpyScroll`) models `spyScroll(scrollParent,
  _targetElements)`:
  - the `reduce` that builds the name → element object from the children
    that carry a `data-name`;
  - the `for…in` loop, as a method `BestMatch` proved against the function
    `Scan`;
  - what the result is.
- `aside.dfy` (module `Aside`) models:
  - the `scrollToTarget` guard;
  - the `currentSection === item.name ? 'active' : ''` rule;
  - what they mean for the rendered pane.

The DOM is abstract. A child is its `data-name` (`""` when the attribute is
missing or empty) and its `offsetTop`. The pane is its `scrollTop` and its
children in document order. Positions are whole pixels. `spyScroll`'s
three kinds of result are `NoParent` (`false`), `NoSection` (`undefined`)
and `Section(name)`.

What the reduce builds: `{ [name]: item, ...map }` creates `name` first.
The spread then re-assigns any key `map` already has, without moving it.
So a name seen again moves to the front and keeps the element of its
EARLIEST child. The loop therefore visits the names newest first, by
their last child. It replaces its best only on a strictly smaller
distance, so on a tie the name whose last child comes later in the pane
wins. With sections A, B and C at 0, 500 and 1000 and the pane scrolled
to 250, A and B are both 250 away and B is reported
(`SpyScrollTieOfThree`). A tie therefore goes to the later section, not
the earlier one.

## Model

| member | source | states |
|---|---|---|
| SpyScroll.SpyResult | src/components/Aside.js:10 | the result is `false` (NoParent) exactly when there is no scroll parent |
| SpyScroll.SpyScroll | src/components/Aside.js:9-40 | the step-by-step function returns `false` without scanning when the parent is missing, builds the table (or takes `_targetElements`), runs the loop and returns `bestMatch.sectionName`: exactly `SpyResult` |
| SpyScroll.BestMatch | src/components/Aside.js:21-36 | after the loop, `bestMatch` is the result of folding the loop body over the properties in visiting order (`Scan`); the loop invariant holds after every property |
| SpyScroll.Scan | src/components/Aside.js:21-39 | `bestMatch` stays `{}` exactly when nothing is visited; otherwise it holds the name and distance of some visited property |
| SpyScroll.ScanFindsFirstMinimum | src/components/Aside.js:26-34 | over non-empty names, the loop ends on the FIRST property in visiting order whose distance is smallest: no property is closer, and every property visited before it is strictly farther |
| SpyScroll.CollectNamedTable | src/components/Aside.js:13-19 | the table has no duplicate key; a name is a key exactly when it is non-empty and some child carries it (unnamed children are never candidates); each key's element is the earliest child with that name |
| SpyScroll.CollectNamedOrder | src/components/Aside.js:15-18 | when no name is an array index, the table lists its names by their last child, latest first |
| SpyScroll.CollectNamedEmpty | src/components/Aside.js:15-18 | the table is empty exactly when no child has a `data-name` |
| SpyScroll.SpyScrollNoSection | src/components/Aside.js:21-39 | over the parent's own children the result is `undefined` exactly when no child has a `data-name` |
| SpyScroll.ScanOverTable | src/components/Aside.js:23-34 | over an object whose keys are non-empty and which has a property, the loop ends on a key of the object, with that key's element's distance, and no property is closer |
| SpyScroll.SpyScrollClosest | src/components/Aside.js:23-39 | a section returned over the parent's own children is a non-empty name some child carries, and the element it stands for is at least as close as the element of every other name |
| SpyScroll.SpyScrollPrefersLatest | src/components/Aside.js:28-34 | when no name is an array index, every name whose last child comes after the winner's last child is strictly farther: ties go to the name used later in the pane |
| SpyScroll.SpyScrollOverTargets | src/components/Aside.js:13-14 | with `_targetElements` given (non-empty keys), the result is `undefined` exactly when it has no property, and otherwise one of its keys whose element is at least as close as every other |
| SpyScroll.ClosestOfThree | src/components/Aside.js:26-34 | sections at 0, 500 and 1000 with the pane at 490: only the middle one satisfies the closest-name property |
| SpyScroll.TieOfThree | src/components/Aside.js:32 | same sections at 250: the first two tie at 250, and only the second one (the later one) satisfies both the closest-name and the latest-among-closest properties |
| SpyScroll.SpyScrollClosestOfThree | src/components/Aside.js:26-34 | spyScroll over sections at 0, 500 and 1000 with the pane at 490 returns the middle one |
| SpyScroll.SpyScrollTieOfThree | src/components/Aside.js:15-34 | spyScroll over the same sections at 250, where the first two tie, returns the second (later) one, not the first |
| JsObject.OwnKeys | src/components/Aside.js:23 | `for…in` over a plain object visits every own property exactly once, and nothing else |
| JsObject.OwnKeysOrder | src/components/Aside.js:23 | the visiting order puts array-index keys first, in ascending numeric order, and the other keys after them |
| JsObject.OwnKeysOfNamed | src/components/Aside.js:23 | with no array-index key, properties are visited in creation order |
| JsObject.LiteralWithSpreadShape | src/components/Aside.js:17 | `{ [k]: v, ...src }` is `k` first, holding `src`'s value for `k` if it has one and `v` otherwise, followed by `src`'s other properties in visiting order |
| JsObject.LiteralWithSpreadContents | src/components/Aside.js:17 | the literal has the keys of `src` plus `k`, each once; `k` holds `src`'s value if `src` has `k`, else `v`; every other key keeps its value from `src` |
| Aside.ScrollTarget | src/components/Aside.js:77-81 | a click scrolls to an element exactly when the name is non-empty, registered in `sectionsRefs` and its ref is attached, and the element is the ref's `current`; otherwise it does nothing |
| Aside.ActiveClass | src/components/Aside.js:104 | a button (and, at line 114, a side section) gets class `active` exactly when `currentSection` is a section of its name, and `''` otherwise; `false` and `undefined` mark nothing |
| Aside.ExactlyOneActive | src/components/Aside.js:99-117 | over the rendered pane (distinct names), some button is active exactly when some section has a non-empty name; the active button is the only one, and its section is the closest named section |
| Aside.ScrolledToSectionIsActive | src/components/Aside.js:77-81 | once the pane's scroll position is the top of section `i`, and no other section starts there, spyScroll reports section `i`; its button is the only one marked active |

## Left out

- React: `useState`, the `useEffect` that attaches and detaches the scroll listener, `useMemo` and `useCallback`, and the creation and attaching of refs (lines 47-75 and 84-90). `sectionsRefs` is a parameter of `ScrollTarget`.
- The cleanup function at line 64 calls `removeEventListener` on `wrapperElm` even when it is undefined. It belongs to the React lifecycle and is not modelled.
- `sectionsRefs` is a new `{}` on every render of `Aside`, while `useMemo([])` fills it only on the first. This is not modelled for the same reason.
- The lodash `_.throttle` rate limit (lines 49-52) depends on wall-clock time and is not modelled. `_.capitalize` titles, icons, contents, JSX and styles are not modelled either.
- `scrollIntoView` (line 80) is a browser call. The model returns the element it would be called on.
- Fractional `scrollTop` and `offsetTop`. These are floating point in the browser; the model uses integers.
- Inherited enumerable properties: the `hasOwnProperty` check at line 24 skips them, and the model's objects have only own properties.
- src/index.js and src/App.js hold only wiring and are not part of this model.
- SpyScroll.CollectNamedOrder: assumes no `data-name` is an array index such as `"0"` or `"17"`. Such names are visited first, in numeric order. `JsObject.OwnKeysOrder` states that order, but the tie rule is not restated for it.
- SpyScroll.SpyScrollPrefersLatest: assumes no `data-name` is an array index, for the same reason.
- SpyScroll.SpyScrollOverTargets: assumes `_targetElements` has no `""` key. Such a key is falsy, so the next property replaces it whatever its distance. `SpyResult` models that case, but no lemma states the outcome.
- SpyScroll.ScanFindsFirstMinimum: assumes non-empty keys, for the same reason.
- Aside.ScrolledToSectionIsActive: assumes the smooth scroll ends with the pane's `scrollTop` equal to the section's `offsetTop`. It does not when the pane cannot scroll that far.

# overlay-js: the Overlay controller's state logic in Dafny

`Overlay` (in `src/overlay.js`) shows and hides one overlay element. It does
not store whether the overlay is visible. It reads that from the element's
`className` every time it needs it. `show()` and `hide()` rewrite the class
string and add or remove a marker class on `document.body`. `toggle()` picks
one of the two. Clicks on show/hide/toggle triggers are handled by one
delegated listener on the body. That listener walks up from the click target
to the nearest element matching the trigger's selector.

This project models the three parts of that logic that do not depend on the
browser:

- **Option merging** (module `Options`). Two fixed default tables: selectors
  for `content`, `hide`, `show` and `toggle`, and state class names for
  `hidden` and `shown`. The caller's entries override them key by key.
- **The visibility state machine** (modules `Text` and `Overlay`). The class
  string is a `string` and the body's classes are a `set<string>`.
  - The guards are `indexOf`: case-sensitive substring search.
  - The removal is `replace(new RegExp("\\s*" + name + "\\s*", "gi"), "")`.
    It is modelled as the regular expression actually behaves: global, left
    to right, ignoring ASCII case, and taking the whitespace on both sides of
    the name with it.
  - Module `Scenarios` states what the machine gives on concrete class strings.
- **The delegation walk** (module `Delegation`). The document is a parent map
  over nodes. "Matches the selector" is an abstract set of nodes.
  `ClosestMatch` is the `while` loop. The guard `matches(S + ", " + S + " *")`
  ensures a matching ancestor exists, and that is why the loop stops. A
  selector may be a list of alternatives; the model then also carries the
  set of nodes matching the last alternative, because the appended ` *`
  binds only to that one.

Module `ClassList` is the corrected state machine from the finding below. It
keeps the class attribute as a list of class names.

Two details of `src/overlay.js` that the model follows closely:
- The merge (lines 23-26 and 29-33) copies every own key of the caller's
  maps that is an ordinary property name, not only the six recognised
  roles. An extra key such as `selectors.foo` ends up in the resolved
  options.
- The delegated listener's guard (line 80) is
  `target.matches(S + ", " + S + " *")`. For a single complex selector S the
  target matches S or lies inside an element that does. For a selector list
  only descendants of the last alternative are covered (see Findings).

## Model

| member | source | states |
|---|---|---|
| Options.Override | src/overlay.js:22-34 | The merged map has exactly the default keys plus the caller's keys. Every caller key carries the caller's value. Every other default key keeps its default. |
| Options.Resolve | src/overlay.js:6-34 | Both tables are merged key by key over the hard-coded defaults. With no options the result is exactly the defaults. State names stay plain when the caller's overrides are plain. |
| Text.IndexOf | src/overlay.js:96 | `indexOf` returns -1 exactly when the needle does not occur. Otherwise it returns an index where the needle occurs, with no occurrence before it. |
| Text.StripPadded | src/overlay.js:100-103 | The padded, ignore-case removal never lengthens the string. |
| Text.StripWithoutMatch | src/overlay.js:100-103 | When the name has no ignore-case match, the removal gives back the string unchanged. |
| Text.StripWithMatch | src/overlay.js:100-103 | When the name has an ignore-case match, the removal takes away at least the name's length. |
| Text.StripLength | src/overlay.js:100-103 | Both cases together: the identity without a match, and a loss of at least the name's length with one. |
| Text.StripAround | src/overlay.js:100-103 | Suppose the text before the first match holds no match of its own. Then the text is kept minus its trailing whitespace, the name and the whitespace after it go, and the scan carries on in the rest. |
| Text.StripAppended | src/overlay.js:103 | Removing the name from `c + ' ' + name`, when `c` holds no match, leaves `c` with its trailing whitespace trimmed. |
| Text.StripFusesNeighbours | src/overlay.js:100-103 | Removing a padded name between two classes that hold no match concatenates those two classes with no separator. |
| Text.NoOccurrenceAroundSeparator | src/overlay.js:96-103 | A space-free name occurs in `a + ' ' + b` only if it occurs in `a` or in `b`. |
| Overlay.Show | src/overlay.js:95-116 | Returns false and changes nothing exactly when the shown name is already a substring. Otherwise the class string ends with `' ' + shown` and the body gains `overlay-<shown>`. No other body class changes. When the class string holds no match of the hidden name in any ASCII case, it is just extended; when it holds one in some case, at least the hidden name's length is cut. |
| Overlay.Hide | src/overlay.js:119-142 | The mirror image of show(): no-op exactly when the hidden name is present. Otherwise the class string ends with `' ' + hidden` and the marker leaves the body. No other body class changes. |
| Overlay.Toggle | src/overlay.js:145-151 | toggle() is show() exactly when the shown name is absent, and hide() otherwise. |
| Overlay.ShowIdempotent | src/overlay.js:96-103 | After show() the overlay is shown, and a second show() returns false and leaves the page unchanged. |
| Overlay.HideIdempotent | src/overlay.js:120-127 | After hide() the overlay is hidden, and a second hide() returns false and leaves the page unchanged. |
| Overlay.ToggleShows | src/overlay.js:145-147 | From a page that is not shown, toggle() always ends shown, with the marker on the body. |
| Overlay.ToggleStuckWhenBoth | src/overlay.js:145-150 | When the class string holds both names, toggle() changes nothing: it picks hide(), and hide()'s guard at line 120 refuses. |
| Overlay.ToggleTwice | src/overlay.js:145-150 | Start from a class string without a match of either name in any ASCII case, where hidden is not part of shown. toggle() shows, and a second toggle() hides. The result is the original classes, trimmed, followed by `' ' + hidden`. The body is back to its original classes without the marker. |
| Overlay.ShowFromHidden | src/overlay.js:95-116 | show() on `c + ' ' + hidden`, where `c` has no match of either name in any ASCII case and shown is not part of hidden, gives `trimEnd(c) + ' ' + shown` and adds the marker. |
| Overlay.HideFromShown | src/overlay.js:119-142 | hide() on `c + ' ' + shown`, where `c` has no match of either name in any ASCII case and hidden is not part of shown, gives `trimEnd(c) + ' ' + hidden` and removes the marker. |
| Overlay.ToggleAlternates | src/overlay.js:145-151 | HIDDEN to SHOWN to HIDDEN: when `c` has no match of either name in any ASCII case and no trailing whitespace, and neither name is part of the other, two toggles from `c + ' ' + hidden` pass through `c + ' ' + shown` and come back to `c + ' ' + hidden`. |
| Scenarios.PanelShow | src/overlay.js:95-116 | show() on "panel is-hidden" returns true, gives "panel is-shown" and adds `overlay-is-shown` to the body. |
| Scenarios.PanelShowAgain | src/overlay.js:96-98 | show() on "panel is-shown" returns false and changes nothing. |
| Scenarios.PanelHide | src/overlay.js:119-142 | hide() on "panel is-shown" returns true, gives "panel is-hidden" and removes the body marker. |
| Overlay.ShowFusesNeighbours | src/overlay.js:95-116 | show() on `a + ' ' + hidden + ' ' + b`, where `a` and `b` have no match of the hidden name in any ASCII case and no exact occurrence of the shown name, shown is not part of hidden, `a` does not end with whitespace and `b` does not start with it, gives `a + b + ' ' + shown`: the two neighbouring classes become one. |
| Scenarios.PanelDarkFused | src/overlay.js:100-103 | show() on "panel is-hidden dark" gives "paneldark is-shown". |
| Delegation.ClosestMatch | src/overlay.js:82-85 | If the target or one of its ancestors matches, the upward walk stops at the nearest one. That is the node at the smallest distance that matches. |
| Delegation.HasMatchingAncestor | src/overlay.js:80 | In a finite tree, the guard is true exactly when the target matches the selector or a proper ancestor matches its last alternative. |
| Delegation.GuardInScope | src/overlay.js:80-85 | Whenever the guard holds, some ancestor-or-self of the target matches the selector, so the walk that follows finds one. |
| Delegation.SingleSelectorGuard | src/overlay.js:79-80 | For a single complex selector the guard holds exactly when the target or one of its ancestors matches, as the comment on line 79 says. |
| Delegation.Dispatch | src/overlay.js:78-91 | The handler gets an element exactly when the guard holds. That element is the nearest matching ancestor-or-self of the target. |
| Delegation.ListGuardMissesDescendant | src/overlay.js:79-80 | With the list ".a, .b", a node whose parent matches `.a` lies inside a matching element, yet the guard is false. |
| Delegation.ScopeGuard | src/overlay.js:79-80 | The guard as the comment on line 79 describes it: true exactly when the target or one of its ancestors matches any alternative. |
| Delegation.DispatchInScope | src/overlay.js:78-91 | The listener with that guard: the handler gets the nearest matching ancestor-or-self exactly when there is one. |
| Delegation.NearestMatchUnique | src/overlay.js:83-89 | At most one element is the nearest matching ancestor, so the element passed to the handler is determined by the target. |
| Delegation.TargetMatchesItself | src/overlay.js:82-83 | A target that matches the selector is handed over itself, without any walk. |
| ClassList.Remove | src/overlay.js:132 | `classList.remove` keeps exactly the classes that differ from the name. It is the identity when the name is absent. |
| ClassList.Show | src/overlay.js:95-116 | Corrected show(): a token-membership guard, exact-token removal of the hidden class, the shown class appended last, and the marker added. Every other class survives. |
| ClassList.Hide | src/overlay.js:119-142 | Corrected hide(): the mirror image of ClassList.Show. |
| ClassList.Toggle | src/overlay.js:145-151 | Corrected toggle(): without the shown class it ends with the shown class last and the marker on. With the shown class and without the hidden one it ends with the hidden class last and the marker off. With both it changes nothing. |
| ClassList.ToggleTwice | src/overlay.js:145-150 | With distinct names and no shown class at the start, two toggles leave the other classes in order, followed by the hidden class. The body ends without the marker. |
| ClassList.ShowKeepsNeighbours | src/overlay.js:100-103 | Corrected show() on ["panel", "is-hidden", "dark"] gives ["panel", "dark", "is-shown"]. |

## Findings

| source | as written | input that shows it | evidently intended | confidence | as-written member | corrected member |
|---|---|---|---|---|---|---|
| src/overlay.js:100-103 (and the same in 124-127) | `className.replace(/\s*NAME\s*/gi, '')` deletes the whitespace on both sides of the state name. The classes on either side are glued into one. | `className = "panel is-hidden dark"`, then `show()`: the class becomes "paneldark is-shown", so `panel` and `dark` are both lost | only the state class is removed, giving "panel dark is-shown" | not executed; follows from the regular expression's semantics | Scenarios.PanelDarkFused (general forms: Overlay.ShowFusesNeighbours, Text.StripFusesNeighbours) | ClassList.Show (with ClassList.Hide, ClassList.Toggle, ClassList.ToggleTwice, ClassList.ShowKeepsNeighbours) |
| src/overlay.js:80 | The guard is built as `` `${selector}, ${selector} *` ``. For a selector list ".a, .b" this reads ".a, .b, .a, .b *": the ` *` binds only to the last alternative. | `selectors.show = '.a, .b'` and a click on a `<span>` inside a `.a` button: the guard is false and show() is not called | every click inside an element matching any alternative reaches the handler, as the comment on line 79 says | not executed; follows from the selector-list grammar | Delegation.ListGuardMissesDescendant (with Delegation.HasMatchingAncestor, Delegation.Dispatch) | Delegation.DispatchInScope (with Delegation.ScopeGuard) |

For the first row, module `Overlay` keeps the string rewrite as written, so
that it describes what the source does. The corrected machine is module `ClassList`. It treats
the class attribute as a list of classes, as `classList.remove`/`add` do. It
also uses class membership for its guards, where the source uses substring
search.

For the second row, module `Delegation` keeps both guards. `Dispatch` is the
listener as written, with the guard built from the selector text.
`DispatchInScope` is the listener with the guard the comment describes.
`SingleSelectorGuard` shows that the two agree when the selector has a
single alternative, which includes the default selectors.

## Left out

- Event wiring (src/overlay.js:45-68) is left out. This covers the body
  `keyup` listener that calls hide() on key code 27, the three delegated
  click bindings, and `preventDefault`. These are browser I/O that only call
  show/hide/toggle.
- The `overlay:show` / `overlay:hide` CustomEvent dispatches (lines 101, 105,
  125, 129) are left out. show() and hide() are modelled as atomic. The
  dispatch runs listeners after the class string is rewritten and before the
  body marker changes; listeners that observe or re-enter the controller at
  that point are not modelled.
- `render()` (lines 154-156) is left out. It is a `querySelector` plus an
  `innerHTML` assignment, and the platform parses the HTML.
- `init()` (lines 40-42) is left out. It returns `this` and does nothing.
- The constructor's default element (`document.getElementsByClassName`,
  line 6) is left out, and so are the failures when that element is absent.
  The model always has a class string to work on.
- The fallback branches without `classList` (lines 110-112 and 134-136) are
  left out. Only the set-based add/remove of the body marker is modelled.
  The hide() fallback also reads an undeclared `el`.
- The vendor-prefixed `matches` lookup (line 75) and CSS selector matching
  itself are left out. "Matches S" is a set of nodes.
- Overlay.Show, Overlay.Hide, Overlay.Toggle, ClassList.Show, ClassList.Hide
  and ClassList.Toggle: each
  requires both state names to be plain: non-empty ASCII letters, digits,
  `-` and `_`. For such names the string is both a literal and a regular
  expression, and ignoring case means ASCII case folding. Names with regular
  expression metacharacters or whitespace are not modelled.
- Text.IsSpace is the JavaScript `\s` class on code points. Dafny's `char`
  is a Unicode scalar value, while JavaScript strings are UTF-16 code units.
  Lone surrogates are not modelled.
- Delegation.Dispatch, Delegation.HasMatchingAncestor, Delegation.ScopeGuard
  and Delegation.DispatchInScope: each requires the target's parent chain to
  end. This always holds in a document tree, which
  is finite and acyclic. Delegation.ClosestMatch needs only the guard.
- ClassList.Remove: the class list may hold duplicates and Remove keeps the
  other duplicates, whereas a DOMTokenList is an ordered set and drops
  repeated tokens when it writes the attribute back.
- Delegation.Dispatch: requires that the nodes matching the last alternative
  of S also match S, which holds for every selector list.
- Options.Override and Options.Resolve: caller keys are assumed to be
  ordinary property names. An own key `__proto__` is not copied by the
  assignment at line 25 or 32 (it runs the prototype setter), and an own key
  `hasOwnProperty` shadows the method so that line 24 or 31 throws; the map
  model copies both like any other key. A `null` options object, which
  skips the default parameter and makes line 23 throw, is not modelled.
- Option values other than strings, and inherited enumerable properties of
  the caller's option objects, are left out. The `hasOwnProperty` filter
  drops inherited properties anyway.

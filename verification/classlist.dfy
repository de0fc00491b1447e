/**
  show(), hide() and toggle() with the overlay's class attribute kept as its
  list of class names and edited the way `classList.remove` and
  `classList.add` edit it. Taking a state name out then removes that class
  and nothing else, where the string rewrite in module Overlay also eats the
  whitespace around the name and glues its neighbours together.
 */
module ClassList {
  import opened Options
  import Text
  import Overlay

  /** The overlay's class names in order, and the body's class set. */
  datatype Page = Page(classes: seq<string>, bodyClasses: set<string>)

  datatype Step = Step(changed: bool, page: Page)

  /**
    `classList.remove(name)`: every copy of `name` goes and nothing else does.
    RemoveAppend shows that the other classes keep their order. A real
    DOMTokenList is an ordered set and drops duplicate tokens when it writes
    the attribute back; the list here keeps duplicates.
   */
  function Remove(classes: seq<string>, name: string): (r: seq<string>)
    ensures forall t :: t in r <==> t in classes && t != name
    ensures name !in classes ==> r == classes
  {
    if classes == [] then []
    else if classes[0] == name then Remove(classes[1..], name)
    else [classes[0]] + Remove(classes[1..], name)
  }

  /** Removal works piecewise: it neither reorders nor merges classes across a split. */
  lemma {:induction false} RemoveAppend(a: seq<string>, b: seq<string>, name: string)
    ensures Remove(a + b, name) == Remove(a, name) + Remove(b, name)
    decreases |a|
  {
    if a == [] {
      assert a + b == b;
    } else {
      assert (a + b)[1..] == a[1..] + b;
      RemoveAppend(a[1..], b, name);
    }
  }

  /**
    show(): no-op when the shown class is present; otherwise the hidden class
    is removed, the shown class is added at the end and the body is marked.
    Every other class stays.
   */
  function Show(config: Config, page: Page): (r: Step)
    requires HasPlainStates(config)
    ensures r.changed <==> Overlay.Shown(config) !in page.classes
    ensures !r.changed ==> r.page == page
    ensures r.changed ==> |r.page.classes| > 0 && r.page.classes[|r.page.classes| - 1] == Overlay.Shown(config)
    ensures r.changed && Overlay.Hidden(config) != Overlay.Shown(config) ==>
              Overlay.Hidden(config) !in r.page.classes
    ensures forall t :: t != Overlay.Hidden(config) && t != Overlay.Shown(config) ==>
              (t in r.page.classes <==> t in page.classes)
    ensures r.changed ==> Overlay.Marker(config) in r.page.bodyClasses
    ensures forall t :: t != Overlay.Marker(config) ==> (t in r.page.bodyClasses <==> t in page.bodyClasses)
  {
    var hidden, shown := Overlay.Hidden(config), Overlay.Shown(config);
    if shown in page.classes then
      Step(false, page)
    else
      Step(true, Page(Remove(page.classes, hidden) + [shown], page.bodyClasses + {Overlay.Marker(config)}))
  }

  /** hide(): the mirror image of show(), taking the marker off the body. */
  function Hide(config: Config, page: Page): (r: Step)
    requires HasPlainStates(config)
    ensures r.changed <==> Overlay.Hidden(config) !in page.classes
    ensures !r.changed ==> r.page == page
    ensures r.changed ==> |r.page.classes| > 0 && r.page.classes[|r.page.classes| - 1] == Overlay.Hidden(config)
    ensures r.changed && Overlay.Hidden(config) != Overlay.Shown(config) ==>
              Overlay.Shown(config) !in r.page.classes
    ensures forall t :: t != Overlay.Hidden(config) && t != Overlay.Shown(config) ==>
              (t in r.page.classes <==> t in page.classes)
    ensures r.changed ==> Overlay.Marker(config) !in r.page.bodyClasses
    ensures forall t :: t != Overlay.Marker(config) ==> (t in r.page.bodyClasses <==> t in page.bodyClasses)
  {
    var hidden, shown := Overlay.Hidden(config), Overlay.Shown(config);
    if hidden in page.classes then
      Step(false, page)
    else
      Step(true, Page(Remove(page.classes, shown) + [hidden], page.bodyClasses - {Overlay.Marker(config)}))
  }

  /**
    toggle(): show() when the shown class is absent, hide() otherwise. From
    a page without the shown class it ends shown and marked; from one with
    the shown class and without the hidden one it ends hidden and unmarked;
    with both classes present it changes nothing.
   */
  function Toggle(config: Config, page: Page): (r: Page)
    requires HasPlainStates(config)
    ensures Overlay.Shown(config) !in page.classes ==> r == Show(config, page).page
    ensures Overlay.Shown(config) in page.classes ==> r == Hide(config, page).page
    ensures Overlay.Shown(config) !in page.classes ==>
              |r.classes| > 0 && r.classes[|r.classes| - 1] == Overlay.Shown(config) &&
              Overlay.Marker(config) in r.bodyClasses
    ensures Overlay.Shown(config) in page.classes && Overlay.Hidden(config) !in page.classes ==>
              |r.classes| > 0 && r.classes[|r.classes| - 1] == Overlay.Hidden(config) &&
              Overlay.Marker(config) !in r.bodyClasses
    ensures Overlay.Shown(config) in page.classes && Overlay.Hidden(config) in page.classes ==> r == page
  {
    if Overlay.Shown(config) !in page.classes then Show(config, page).page else Hide(config, page).page
  }

  /**
    With distinct state names, toggling twice from a page without the shown
    class leaves the other classes in their order with the hidden class after
    them, and the body as it was minus the marker.
   */
  lemma ToggleTwice(config: Config, page: Page)
    requires HasPlainStates(config)
    requires Overlay.Hidden(config) != Overlay.Shown(config)
    requires Overlay.Shown(config) !in page.classes
    ensures Toggle(config, Toggle(config, page)) ==
              Page(Remove(page.classes, Overlay.Hidden(config)) + [Overlay.Hidden(config)],
                   page.bodyClasses - {Overlay.Marker(config)})
  {
    var hidden, shown, marker := Overlay.Hidden(config), Overlay.Shown(config), Overlay.Marker(config);
    var kept := Remove(page.classes, hidden);
    assert Toggle(config, page) == Page(kept + [shown], page.bodyClasses + {marker});
    RemoveAppend(kept, [shown], shown);
    assert Remove([shown], shown) == [];
    assert kept + [] == kept;
    assert page.bodyClasses + {marker} - {marker} == page.bodyClasses - {marker};
  }

  /**
    The classes around the hidden one survive show(): from "panel is-hidden
    dark" this yields "panel dark is-shown".
   */
  lemma ShowKeepsNeighbours()
    ensures HasPlainStates(Config(DefaultSelectors, DefaultStates))
    ensures Show(Config(DefaultSelectors, DefaultStates), Page(["panel", "is-hidden", "dark"], {})).page.classes ==
              ["panel", "dark", "is-shown"]
  {
    assert Text.PlainName("is-hidden") && Text.PlainName("is-shown");
  }
}

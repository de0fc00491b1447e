/**
  The overlay's visibility state machine. The state is never stored: it is
  read from the overlay element's class string each time, and show() and
  hide() rewrite that string and the document body's class set.
 */
module Overlay {
  import opened Text
  import opened Options

  /** The page state the controller reads and writes: `el.className` and `document.body.classList`. */
  datatype Page = Page(className: string, bodyClasses: set<string>)

  /** The boolean show() and hide() return, with the page they leave behind. */
  datatype Step = Step(changed: bool, page: Page)

  function Hidden(config: Config): string
    requires HasPlainStates(config)
  {
    config.states["hidden"]
  }

  function Shown(config: Config): string
    requires HasPlainStates(config)
  {
    config.states["shown"]
  }

  /** The body marker class, `'overlay-' + shown`. */
  function Marker(config: Config): string
    requires HasPlainStates(config)
  {
    "overlay-" + Shown(config)
  }

  /** The derived SHOWN state: the class string contains the shown name. */
  ghost predicate IsShown(config: Config, page: Page)
    requires HasPlainStates(config)
  {
    Occurs(page.className, Shown(config))
  }

  /** The derived HIDDEN state: the class string contains the hidden name. */
  ghost predicate IsHidden(config: Config, page: Page)
    requires HasPlainStates(config)
  {
    Occurs(page.className, Hidden(config))
  }

  /**
    show(): a no-op reporting false when the shown name is already in the
    class string; otherwise every whitespace-padded hidden name is cut out,
    `' ' + shown` is appended, the body gains the marker class, and it
    reports true.
   */
  function Show(config: Config, page: Page): (r: Step)
    requires HasPlainStates(config)
    ensures r.changed <==> !IsShown(config, page)
    ensures !r.changed ==> r.page == page
    ensures r.changed ==> EndsWith(r.page.className, " " + Shown(config))
    ensures r.changed ==> Marker(config) in r.page.bodyClasses
    ensures forall t :: t != Marker(config) ==> (t in r.page.bodyClasses <==> t in page.bodyClasses)
    ensures r.changed && !OccursIgnoringCase(page.className, Hidden(config)) ==>
              r.page.className == page.className + " " + Shown(config)
    ensures r.changed && OccursIgnoringCase(page.className, Hidden(config)) ==>
              |r.page.className| <= |page.className| - |Hidden(config)| + 1 + |Shown(config)|
  {
    if IndexOf(page.className, Shown(config)) != -1 then
      Step(false, page)
    else
      StripLength(page.className, Hidden(config));
      var className := StripPadded(page.className, Hidden(config)) + " " + Shown(config);
      Step(true, Page(className, page.bodyClasses + {Marker(config)}))
  }

  /**
    hide(): the mirror image of show(): a no-op reporting false when the
    hidden name is already present; otherwise the padded shown name is cut
    out, `' ' + hidden` is appended and the marker leaves the body.
   */
  function Hide(config: Config, page: Page): (r: Step)
    requires HasPlainStates(config)
    ensures r.changed <==> !IsHidden(config, page)
    ensures !r.changed ==> r.page == page
    ensures r.changed ==> EndsWith(r.page.className, " " + Hidden(config))
    ensures r.changed ==> Marker(config) !in r.page.bodyClasses
    ensures forall t :: t != Marker(config) ==> (t in r.page.bodyClasses <==> t in page.bodyClasses)
    ensures r.changed && !OccursIgnoringCase(page.className, Shown(config)) ==>
              r.page.className == page.className + " " + Hidden(config)
    ensures r.changed && OccursIgnoringCase(page.className, Shown(config)) ==>
              |r.page.className| <= |page.className| - |Shown(config)| + 1 + |Hidden(config)|
  {
    if IndexOf(page.className, Hidden(config)) != -1 then
      Step(false, page)
    else
      StripLength(page.className, Shown(config));
      var className := StripPadded(page.className, Shown(config)) + " " + Hidden(config);
      Step(true, Page(className, page.bodyClasses - {Marker(config)}))
  }

  /** toggle(): show() when the shown name is absent, hide() otherwise; the boolean is dropped. */
  function Toggle(config: Config, page: Page): (r: Page)
    requires HasPlainStates(config)
    ensures !IsShown(config, page) ==> r == Show(config, page).page
    ensures IsShown(config, page) ==> r == Hide(config, page).page
  {
    if IndexOf(page.className, Shown(config)) == -1 then
      Show(config, page).page
    else
      Hide(config, page).page
  }

  /** A second show() reports false and changes nothing. */
  lemma ShowIdempotent(config: Config, page: Page)
    requires HasPlainStates(config)
    ensures IsShown(config, Show(config, page).page)
    ensures Show(config, Show(config, page).page) == Step(false, Show(config, page).page)
  {
    var first := Show(config, page);
    if first.changed {
      EndsWithOccurs(first.page.className, Shown(config));
    }
  }

  /** A second hide() reports false and changes nothing. */
  lemma HideIdempotent(config: Config, page: Page)
    requires HasPlainStates(config)
    ensures IsHidden(config, Hide(config, page).page)
    ensures Hide(config, Hide(config, page).page) == Step(false, Hide(config, page).page)
  {
    var first := Hide(config, page);
    if first.changed {
      EndsWithOccurs(first.page.className, Hidden(config));
    }
  }

  /** From a page that is not shown, a toggle always ends shown. */
  lemma ToggleShows(config: Config, page: Page)
    requires HasPlainStates(config)
    requires !IsShown(config, page)
    ensures IsShown(config, Toggle(config, page))
    ensures Marker(config) in Toggle(config, page).bodyClasses
  {
    EndsWithOccurs(Toggle(config, page).className, Shown(config));
  }

  /**
    When the class string carries both names, toggle() chooses hide(), whose
    guard refuses: the page is stuck until something else edits the class.
   */
  lemma ToggleStuckWhenBoth(config: Config, page: Page)
    requires HasPlainStates(config)
    requires IsShown(config, page) && IsHidden(config, page)
    ensures Toggle(config, page) == page
  {
  }

  /**
    Starting from a class string that holds neither state name (in any case),
    toggle() shows and a second toggle() hides: the classes come back with
    their trailing whitespace trimmed and `' ' + hidden` after them, and the
    body is left as it was minus the marker. The requires ignore case because
    the removal does: on "is-IS-HIDDENhidden" show() cuts out the upper-case
    copy and joins "is-" and "hidden" into a fresh hidden name, which leaves
    the page in the stuck state of ToggleStuckWhenBoth.
   */
  lemma ToggleTwice(config: Config, page: Page)
    requires HasPlainStates(config)
    requires !OccursIgnoringCase(page.className, Hidden(config))
    requires !OccursIgnoringCase(page.className, Shown(config))
    requires !Occurs(Shown(config), Hidden(config))
    ensures Toggle(config, page) == Show(config, page).page
    ensures Toggle(config, page).className == page.className + " " + Shown(config)
    ensures Toggle(config, Toggle(config, page)) == Hide(config, Toggle(config, page)).page
    ensures Toggle(config, Toggle(config, page)) ==
              Page(TrimEnd(page.className) + " " + Hidden(config), page.bodyClasses - {Marker(config)})
  {
    var hidden, shown := Hidden(config), Shown(config);
    NoMatchNoOccurrence(page.className, shown);
    NoMatchNoOccurrence(page.className, hidden);
    var once := Toggle(config, page);
    ToggleShows(config, page);
    NoOccurrenceAroundSeparator(page.className, shown, hidden);
    StripAppended(page.className, shown);
  }

  /**
    show() on a hidden overlay whose other classes mention neither name:
    the trailing hidden name and the whitespace before it give way to
    `' ' + shown`, and the body gains the marker.
   */
  lemma ShowFromHidden(config: Config, c: string, body: set<string>)
    requires HasPlainStates(config)
    requires !OccursIgnoringCase(c, Hidden(config)) && !OccursIgnoringCase(c, Shown(config))
    requires !Occurs(Hidden(config), Shown(config))
    ensures Show(config, Page(c + " " + Hidden(config), body)) ==
              Step(true, Page(TrimEnd(c) + " " + Shown(config), body + {Marker(config)}))
  {
    NoMatchNoOccurrence(c, Shown(config));
    NoOccurrenceAroundSeparator(c, Hidden(config), Shown(config));
    StripAppended(c, Hidden(config));
  }

  /** hide() on a shown overlay whose other classes mention neither name: the mirror image of ShowFromHidden. */
  lemma HideFromShown(config: Config, c: string, body: set<string>)
    requires HasPlainStates(config)
    requires !OccursIgnoringCase(c, Hidden(config)) && !OccursIgnoringCase(c, Shown(config))
    requires !Occurs(Shown(config), Hidden(config))
    ensures Hide(config, Page(c + " " + Shown(config), body)) ==
              Step(true, Page(TrimEnd(c) + " " + Hidden(config), body - {Marker(config)}))
  {
    NoMatchNoOccurrence(c, Hidden(config));
    NoOccurrenceAroundSeparator(c, Shown(config), Hidden(config));
    StripAppended(c, Shown(config));
  }

  /**
    HIDDEN -> SHOWN -> HIDDEN: from `c + ' ' + hidden`, with `c` free of both
    names and of trailing whitespace, toggle() shows and toggle() hides again,
    returning the class string and the body classes other than the marker to
    where they started.
   */
  lemma ToggleAlternates(config: Config, c: string, body: set<string>)
    requires HasPlainStates(config)
    requires !OccursIgnoringCase(c, Hidden(config)) && !OccursIgnoringCase(c, Shown(config))
    requires !Occurs(Hidden(config), Shown(config)) && !Occurs(Shown(config), Hidden(config))
    requires TrimEnd(c) == c
    ensures Toggle(config, Page(c + " " + Hidden(config), body)) ==
              Page(c + " " + Shown(config), body + {Marker(config)})
    ensures Toggle(config, Page(c + " " + Shown(config), body + {Marker(config)})) ==
              Page(c + " " + Hidden(config), body - {Marker(config)})
  {
    var hidden, shown := Hidden(config), Shown(config);
    ShowFromHidden(config, c, body);
    NoMatchNoOccurrence(c, shown);
    NoOccurrenceAroundSeparator(c, hidden, shown);
    HideFromShown(config, c, body + {Marker(config)});
    EndsWithOccurs(c + " " + shown, shown);
    assert body + {Marker(config)} - {Marker(config)} == body - {Marker(config)};
  }

  /**
    show() on `a + ' ' + hidden + ' ' + b`, where `a` and `b` are classes that
    mention neither name: the hidden name goes together with the spaces on
    both sides, so `a` and `b` are fused into the single class `a + b`.
   */
  lemma ShowFusesNeighbours(config: Config, a: string, b: string, body: set<string>)
    requires HasPlainStates(config)
    requires !OccursIgnoringCase(a, Hidden(config)) && !OccursIgnoringCase(b, Hidden(config))
    requires !Occurs(a, Shown(config)) && !Occurs(b, Shown(config))
    requires !Occurs(Hidden(config), Shown(config))
    requires a == [] || !IsSpace(a[|a| - 1])
    requires b == [] || !IsSpace(b[0])
    ensures Show(config, Page(a + " " + Hidden(config) + " " + b, body)) ==
              Step(true, Page(a + b + " " + Shown(config), body + {Marker(config)}))
  {
    var hidden, shown := Hidden(config), Shown(config);
    NoOccurrenceAroundSeparator(a, hidden, shown);
    NoOccurrenceAroundSeparator(a + " " + hidden, b, shown);
    StripFusesNeighbours(a, hidden, b);
  }
}

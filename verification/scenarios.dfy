/**
  What the state machine gives on concrete class strings, with the
  default state names `is-hidden` and `is-shown`.
 */
module Scenarios {
  import opened Text
  import opened Options
  import opened Overlay

  const Defaults: Config := Config(DefaultSelectors, DefaultStates)

  lemma DefaultsPlain()
    ensures HasPlainStates(Defaults)
    ensures Hidden(Defaults) == "is-hidden" && Shown(Defaults) == "is-shown"
    ensures Marker(Defaults) == "overlay-is-shown"
  {
    assert PlainName("is-hidden") && PlainName("is-shown");
  }

  /** Neither default name occurs in the other. */
  lemma DefaultNamesApart()
    ensures !Occurs("is-hidden", "is-shown") && !Occurs("is-shown", "is-hidden")
  {
    var hidden, shown := "is-hidden", "is-shown";
    assert hidden[0..8][3] == 'h' != shown[3];
    assert hidden[1..9][0] == 's' != shown[0];
  }

  /** "panel" has no trailing whitespace and is too short to hold either default name. */
  lemma PanelIsPlain()
    ensures !OccursIgnoringCase("panel", "is-hidden") && !OccursIgnoringCase("panel", "is-shown")
    ensures TrimEnd("panel") == "panel"
  {
    TrimEndNoTrailingSpace("panel");
  }

  /** "dark" is too short to hold either default name and does not start with whitespace. */
  lemma DarkIsPlain()
    ensures !OccursIgnoringCase("dark", "is-hidden") && !Occurs("dark", "is-shown")
    ensures !IsSpace("dark"[0])
  {
  }

  /**
    An overlay starting as "panel is-hidden": show() turns it into
    "panel is-shown" and marks the body. (The class strings are written as
    concatenations so that the verifier does not evaluate show() on them
    character by character.)
   */
  lemma PanelShow()
    ensures HasPlainStates(Defaults)
    ensures Show(Defaults, Page("panel" + " " + "is-hidden", {})) ==
              Step(true, Page("panel" + " " + "is-shown", {"overlay-is-shown"}))
  {
    DefaultsPlain();
    DefaultNamesApart();
    PanelIsPlain();
    ShowFromHidden(Defaults, "panel", {});
  }

  /** A second show() on "panel is-shown" reports false and changes nothing. */
  lemma PanelShowAgain()
    ensures HasPlainStates(Defaults)
    ensures Show(Defaults, Page("panel" + " " + "is-shown", {"overlay-is-shown"})) ==
              Step(false, Page("panel" + " " + "is-shown", {"overlay-is-shown"}))
  {
    DefaultsPlain();
    EndsWithOccurs("panel" + " " + "is-shown", "is-shown");
  }

  /** hide() on "panel is-shown" restores the starting class string and body. */
  lemma PanelHide()
    ensures HasPlainStates(Defaults)
    ensures Hide(Defaults, Page("panel" + " " + "is-shown", {"overlay-is-shown"})) ==
              Step(true, Page("panel" + " " + "is-hidden", {}))
  {
    DefaultsPlain();
    DefaultNamesApart();
    PanelIsPlain();
    HideFromShown(Defaults, "panel", {"overlay-is-shown"});
  }

  /**
    show() on "panel is-hidden dark" yields "paneldark is-shown": the pattern
    takes the whitespace on both sides of the hidden name with it, so the
    class names on either side are fused into one and both are lost.
   */
  lemma PanelDarkFused()
    ensures HasPlainStates(Defaults)
    ensures Show(Defaults, Page("panel" + " " + "is-hidden" + " " + "dark", {})) ==
              Step(true, Page("panel" + "dark" + " " + "is-shown", {"overlay-is-shown"}))
  {
    DefaultsPlain();
    DefaultNamesApart();
    PanelIsPlain();
    NoMatchNoOccurrence("panel", "is-shown");
    DarkIsPlain();
    ShowFusesNeighbours(Defaults, "panel", "dark", {});
  }
}

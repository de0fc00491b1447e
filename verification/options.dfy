/**
  The overlay's configuration: selector strings per role and state class
  names per role, each a fixed default table that the caller's own entries
  override key by key when the controller is constructed.
 */
module Options {
  import opened Text

  /** `this.options`: role -> CSS selector, and role -> state class name. */
  datatype Config = Config(selectors: map<string, string>, states: map<string, string>)

  const DefaultSelectors: map<string, string> := map[
    "content" := ".js-overlay-content",
    "hide" := ".js-overlay-hide",
    "show" := ".js-overlay-show",
    "toggle" := ".js-overlay-toggle"
  ]

  const DefaultStates: map<string, string> := map[
    "hidden" := "is-hidden",
    "shown" := "is-shown"
  ]

  /** The options a caller passes when it passes none: `{ selectors: {}, states: {} }`. */
  const NoOverrides: Config := Config(map[], map[])

  /**
    The `for ... in` loop with its `hasOwnProperty` filter: every own key of
    `given` is written into a copy of `defaults`, one at a time.
   */
  method Override(defaults: map<string, string>, given: map<string, string>)
    returns (merged: map<string, string>)
    ensures merged.Keys == defaults.Keys + given.Keys
    ensures forall role :: role in given ==> merged[role] == given[role]
    ensures forall role :: role in defaults && role !in given ==> merged[role] == defaults[role]
  {
    merged := defaults;
    var pending := given.Keys;
    while pending != {}
      invariant pending <= given.Keys
      invariant merged.Keys == defaults.Keys + (given.Keys - pending)
      invariant forall role :: role in given.Keys - pending ==> merged[role] == given[role]
      invariant forall role :: role in defaults && role !in given.Keys - pending ==> merged[role] == defaults[role]
      decreases pending
    {
      var role :| role in pending;
      merged := merged[role := given[role]];
      pending := pending - {role};
    }
  }

  /**
    A configuration whose two state class names are present and plain, the
    shape the show/hide transitions work on.
   */
  predicate HasPlainStates(config: Config)
  {
    && "hidden" in config.states && PlainName(config.states["hidden"])
    && "shown" in config.states && PlainName(config.states["shown"])
  }

  /** The constructor's option merge: caller entries over the default tables. */
  method Resolve(given: Config) returns (config: Config)
    ensures config.selectors.Keys == DefaultSelectors.Keys + given.selectors.Keys
    ensures config.states.Keys == DefaultStates.Keys + given.states.Keys
    ensures forall role :: role in given.selectors ==> config.selectors[role] == given.selectors[role]
    ensures forall role :: role in given.states ==> config.states[role] == given.states[role]
    ensures forall role :: role in DefaultSelectors && role !in given.selectors ==>
              config.selectors[role] == DefaultSelectors[role]
    ensures forall role :: role in DefaultStates && role !in given.states ==>
              config.states[role] == DefaultStates[role]
    ensures given == NoOverrides ==> config == Config(DefaultSelectors, DefaultStates)
    ensures (forall role :: role in given.states ==> PlainName(given.states[role])) ==>
              HasPlainStates(config)
  {
    var selectors := Override(DefaultSelectors, given.selectors);
    var states := Override(DefaultStates, given.states);
    config := Config(selectors, states);
    assert PlainName("is-hidden") && PlainName("is-shown");
  }
}

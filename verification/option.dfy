/** `_option(module, option)` of `src/js/functions/_option.js`: the computed
    value of a module's option, from the statically declared configuration and
    the live presence of a modifier class on the module's root element.

    The global `_modules` becomes the parameter `modules` (module name to its
    configuration object), the document becomes `doc` (its elements in
    document order), and JavaScript's string-to-number conversion becomes
    `textIsZero` (see `JsValues.LooseNotFalse`). The `matches` polyfill the
    function installs on `Element.prototype` is left out: the engine is
    taken to provide a working `Element.prototype.matches`. */
module OptionResolver {
  import opened Results
  import opened Text
  import opened JsValues
  import opened Dom

  /** `_option['enabled']`, read only where the first value is a boolean,
      which happens only for an object. */
  function EnabledFlag(record: Value): Option<Value> {
    if record.Obj? then Get(record.props, "enabled") else None
  }

  /** The module's root element is at position `t` and carries the option's
      modifier class. */
  predicate RootHasModifier(doc: seq<Element>, moduleName: string, option: string) {
    exists t | 0 <= t < |doc| && IsFirstMatch(doc, BlockSelector(moduleName), t) :: Matches(doc[t], ModifierSelector(option))
  }

  predicate HasRoot(doc: seq<Element>, moduleName: string) {
    exists t | 0 <= t < |doc| :: Matches(doc[t], BlockSelector(moduleName))
  }

  /** The value the declaration alone gives the option. */
  function Declared(record: Value, textIsZero: string -> bool): bool {
    if IsBoolean(FirstValue(record)) then LooseNotFalse(EnabledFlag(record), textIsZero)
    else LooseNotFalse(Some(record), textIsZero)
  }

  /** `_option(module, option)`. It throws when the module, or the option
      within it, is not configured, and when no root element exists; otherwise
      it is true when the root element carries the modifier class, and the
      declared value otherwise. */
  function ResolveOption(modules: map<string, seq<Prop>>, doc: seq<Element>,
                         moduleName: string, option: string,
                         textIsZero: string -> bool): (r: Result<bool>)
    ensures moduleName !in modules <==> r == TypeError(ModuleUndefined)
    ensures r == TypeError(OptionUndefined) <==>
              moduleName in modules && !HasKey(modules[moduleName], option)
    ensures r == TypeError(NoRootElement) <==>
              moduleName in modules && HasKey(modules[moduleName], option) && !HasRoot(doc, moduleName)
    ensures r.Ok? <==>
              moduleName in modules && HasKey(modules[moduleName], option) && HasRoot(doc, moduleName)
    ensures r.Ok? && RootHasModifier(doc, moduleName, option) ==> r.value
    ensures r.Ok? && !RootHasModifier(doc, moduleName, option) ==>
              r.value == Declared(Get(modules[moduleName], option).value, textIsZero)
  {
    if moduleName !in modules then TypeError(ModuleUndefined)
    else match Get(modules[moduleName], option)
      case None => TypeError(OptionUndefined)
      case Some(record) =>
        match QuerySelector(doc, BlockSelector(moduleName))
        case None => TypeError(NoRootElement)
        case Some(t) =>
          var modified := Matches(doc[t], ModifierSelector(option));
          assert modified <==> RootHasModifier(doc, moduleName, option) by {
            forall t' | 0 <= t' < |doc| && IsFirstMatch(doc, BlockSelector(moduleName), t')
              ensures t' == t
            {
              FirstMatchUnique(doc, BlockSelector(moduleName), t, t');
            }
          }
          if IsBoolean(FirstValue(record)) then
            Ok(modified || LooseNotFalse(EnabledFlag(record), textIsZero))
          else
            Ok(modified || LooseNotFalse(Some(record), textIsZero))
  }

  /** The modifier class decides alone: with it on the root element the
      option is on, whatever the configuration declares. */
  lemma ModifierWins(modules: map<string, seq<Prop>>, doc: seq<Element>,
                     moduleName: string, option: string, textIsZero: string -> bool)
    requires moduleName in modules && HasKey(modules[moduleName], option)
    requires RootHasModifier(doc, moduleName, option)
    ensures ResolveOption(modules, doc, moduleName, option, textIsZero) == Ok(true)
  {
    var t :| 0 <= t < |doc| && IsFirstMatch(doc, BlockSelector(moduleName), t);
    assert HasRoot(doc, moduleName);
  }

  /** When the option's first value is a boolean, the option's `enabled`
      key decides: a missing `enabled` counts as on, `enabled: b` gives `b`. */
  lemma BooleanBranch(modules: map<string, seq<Prop>>, doc: seq<Element>,
                      moduleName: string, option: string, textIsZero: string -> bool)
    requires moduleName in modules && HasKey(modules[moduleName], option)
    requires HasRoot(doc, moduleName) && !RootHasModifier(doc, moduleName, option)
    requires IsBoolean(FirstValue(Get(modules[moduleName], option).value))
    ensures var record := Get(modules[moduleName], option).value;
            var r := ResolveOption(modules, doc, moduleName, option, textIsZero);
            && record.Obj?
            && (!HasKey(record.props, "enabled") ==> r == Ok(true))
            && (forall b :: Get(record.props, "enabled") == Some(Bool(b)) ==> r == Ok(b))
  {
  }

  /** When the option is an object whose first value is not a boolean, its
      `enabled` key is never read and the option is always on. */
  lemma ObjectBranch(modules: map<string, seq<Prop>>, doc: seq<Element>,
                     moduleName: string, option: string, textIsZero: string -> bool)
    requires moduleName in modules && HasKey(modules[moduleName], option)
    requires HasRoot(doc, moduleName)
    requires Get(modules[moduleName], option).value.Obj?
    requires !IsBoolean(FirstValue(Get(modules[moduleName], option).value))
    ensures ResolveOption(modules, doc, moduleName, option, textIsZero) == Ok(true)
  {
  }

  /** When the option is itself a boolean it has no keys, so the else branch
      runs and the boolean is the declared value. */
  lemma BooleanOption(modules: map<string, seq<Prop>>, doc: seq<Element>,
                      moduleName: string, option: string, textIsZero: string -> bool, b: bool)
    requires moduleName in modules && Get(modules[moduleName], option) == Some(Bool(b))
    requires HasRoot(doc, moduleName)
    ensures ResolveOption(modules, doc, moduleName, option, textIsZero)
              == Ok(RootHasModifier(doc, moduleName, option) || b)
  {
  }

  /** The branch follows the type of the first value, not the `enabled`
      key: `{size: "m", enabled: false}` is on, `{sticky: true, enabled: false}`
      is off. */
  lemma BranchFollowsFirstValue(textIsZero: string -> bool)
    ensures var root := [Element("nav", map[])];
            var offByFirst := [Prop("sticky", Obj([Prop("size", Text("m")), Prop("enabled", Bool(false))]))];
            var offByFlag := [Prop("sticky", Obj([Prop("sticky", Bool(true)), Prop("enabled", Bool(false))]))];
            && ResolveOption(map["nav" := offByFirst], root, "nav", "sticky", textIsZero) == Ok(true)
            && ResolveOption(map["nav" := offByFlag], root, "nav", "sticky", textIsZero) == Ok(false)
  {
    var root := [Element("nav", map[])];
    assert TokenAt("nav", "nav", 0);
    assert IsFirstMatch(root, BlockSelector("nav"), 0);
    assert !Contains("nav", "-sticky");
  }

  /** `_modules.nav.enabled` declared `true` with root `<div class="nav">`
      is on; declared `false` it is off, unless the root carries
      `nav-enabled`. */
  lemma DeclaredAndModifier(textIsZero: string -> bool)
    ensures ResolveOption(map["nav" := [Prop("enabled", Bool(true))]],
                          [Element("nav", map[])], "nav", "enabled", textIsZero) == Ok(true)
    ensures ResolveOption(map["nav" := [Prop("enabled", Bool(false))]],
                          [Element("nav", map[])], "nav", "enabled", textIsZero) == Ok(false)
    ensures ResolveOption(map["nav" := [Prop("enabled", Bool(false))]],
                          [Element("nav-enabled", map[])], "nav", "enabled", textIsZero) == Ok(true)
  {
    assert TokenAt("nav", "nav", 0);
    assert !Contains("nav", "-enabled");
    assert "nav" + "-" == "nav-" && "-" + "enabled" == "-enabled";
    assert OccursAt("nav-enabled", "nav-", 0);
    assert OccursAt("nav-enabled", "-enabled", 3);
    assert IsFirstMatch([Element("nav-enabled", map[])], BlockSelector("nav"), 0);
  }

  /** The root test is "has the class token, or contains `name-` anywhere":
      `xnav-y` is a root of `nav` although it does not start with `nav`, and
      `navigation` is not although it does. */
  lemma RootIsSubstringTest()
    ensures Matches(Element("xnav-y", map[]), BlockSelector("nav"))
    ensures Matches(Element("menu nav", map[]), BlockSelector("nav"))
    ensures !Matches(Element("navigation", map[]), BlockSelector("nav"))
  {
    assert "nav" + "-" == "nav-";
    assert OccursAt("xnav-y", "nav-", 1);
    assert TokenAt("menu nav", "nav", 5);
    var s := "navigation";
    forall i | 0 <= i <= |s|
      ensures !TokenAt(s, "nav", i) && !OccursAt(s, "nav-", i)
    {
      if 0 < i && i + 3 <= |s| {
        assert s[i..i + 3][0] == s[i];
      }
      if i + 4 <= |s| {
        assert s[i..i + 4][3] == s[i + 3];
      }
    }
  }
}

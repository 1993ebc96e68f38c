/** `$module(els, callback, custom, config)` and `Element.prototype.component`
    of `src/js/functions/module.js`.

    `$module` names the module after the `name` field of the configuration's
    first entry, stamps `data-module` on every target element, installs the
    `modifier` and `component` capabilities, and, when a callback is given,
    merges `custom` into the first entry and calls the callback once per
    element. Elements are values here: the run reports the elements after
    tagging, the configuration after the merge, and the list of callback
    calls in the order they are made. What the callback itself does is page
    code and not part of this model. */
module ModuleFactory {
  import opened Results
  import opened Text
  import opened JsValues
  import opened Dom
  import opened OptionResolver

  const DataModule: string := "data-module"

  /** What `modifier` returns when it is called without text. */
  const ModifierSentinel: string := "i_am_modifier"

  /** One entry of `config`; the model takes every entry to be an object. */
  datatype ConfigEntry = ConfigEntry(key: string, settings: seq<Prop>)

  /** `els`: a module name, or an element collection. */
  datatype Targets = ByName(name: string) | Collection(elements: seq<Element>)

  /** One call `callback(el, options, exports)`. */
  datatype Call = Call(element: Element, options: seq<Prop>)

  /** The state a successful `$module` call leaves behind. */
  datatype Run = Run(visited: seq<Element>, config: seq<ConfigEntry>, calls: seq<Call>)

  /** `after` is `before` with `data-module` set to `tag`, and nothing else changed. */
  predicate TaggedCopy(before: Element, after: Element, tag: string) {
    && after.className == before.className
    && DataModule in after.attributes && after.attributes[DataModule] == tag
    && (forall a | a in after.attributes && a != DataModule ::
          a in before.attributes && after.attributes[a] == before.attributes[a])
    && (forall a | a in before.attributes :: a in after.attributes)
  }

  /** `el.setAttribute('data-module', tag)`. */
  function Tag(el: Element, tag: string): (r: Element)
    ensures TaggedCopy(el, r, tag)
  {
    el.(attributes := el.attributes[DataModule := tag])
  }

  /** The first loop of `$module`, over every element in collection order. */
  function TagAll(els: seq<Element>, tag: string): (r: seq<Element>)
    ensures TagsInOrder(els, r, tag)
  {
    seq(|els|, i requires 0 <= i < |els| => Tag(els[i], tag))
  }

  /** `after` is `before` tagged element by element, in the same order. */
  predicate TagsInOrder(before: seq<Element>, after: seq<Element>, tag: string) {
    |after| == |before| && forall i | 0 <= i < |before| :: TaggedCopy(before[i], after[i], tag)
  }

  /** The `data-module` value: `config[Object.keys(config)[0]].name`, as
      `setAttribute` turns it into a string. */
  function BlockTag(config: seq<ConfigEntry>): (tag: string)
    requires |config| > 0
    ensures forall s :: Get(config[0].settings, "name") == Some(Text(s)) ==> tag == s
    ensures !HasKey(config[0].settings, "name") ==> tag == "undefined"
  {
    AttributeText(Get(config[0].settings, "name"))
  }

  /** The second loop of `$module`: one call per element, in order, all with
      the same options object. */
  function Calls(els: seq<Element>, options: seq<Prop>): (r: seq<Call>)
    ensures |r| == |els|
    ensures forall i | 0 <= i < |els| :: r[i].element == els[i] && r[i].options == options
  {
    seq(|els|, i requires 0 <= i < |els| => Call(els[i], options))
  }

  /** The configuration after a call: with a callback the first entry holds
      `Object.assign(entry, custom)` under the same key; nothing else changes. */
  predicate MergedConfig(config: seq<ConfigEntry>, custom: seq<Prop>, hasCallback: bool,
                         after: seq<ConfigEntry>)
    requires |config| > 0
  {
    && |after| == |config|
    && after[0].key == config[0].key
    && (forall i | 1 <= i < |config| :: after[i] == config[i])
    && after[0].settings == (if hasCallback then Assign(config[0].settings, custom) else config[0].settings)
  }

  /** Everything after the targets are known: tag them, and, with a callback,
      merge `custom` into the first entry (mutating it) and call back. */
  function Register(els: seq<Element>, hasCallback: bool, custom: seq<Prop>,
                    config: seq<ConfigEntry>): (r: Run)
    requires |config| > 0
    ensures TagsInOrder(els, r.visited, BlockTag(config))
    ensures MergedConfig(config, custom, hasCallback, r.config)
    ensures |r.calls| == if hasCallback then |els| else 0
    ensures forall i | 0 <= i < |r.calls| ::
              r.calls[i].element == r.visited[i] && r.calls[i].options == r.config[0].settings
  {
    var tagged := TagAll(els, BlockTag(config));
    if hasCallback then
      var options := Assign(config[0].settings, custom);
      Run(tagged, config[0 := ConfigEntry(config[0].key, options)], Calls(tagged, options))
    else
      Run(tagged, config, [])
  }

  /** How `$module` resolves `els`. A string goes through `querySelector`,
      which yields one element or `null`; `Array.prototype.forEach.call` on
      an element visits nothing (it has no `length`), and on `null` throws. */
  function Visit(doc: seq<Element>, targets: Targets): (r: Result<seq<Element>>)
    ensures targets.ByName? ==> (r.Ok? <==> HasRoot(doc, targets.name))
    ensures targets.ByName? && r.Ok? ==> r.value == []
    ensures targets.Collection? ==> r == Ok(targets.elements)
  {
    match targets
    case ByName(name) =>
      if QuerySelector(doc, BlockSelector(name)).None? then TypeError(NotIterable) else Ok([])
    case Collection(els) => Ok(els)
  }

  /** `$module(els, callback, custom, config)` as written. */
  function CreateModule(doc: seq<Element>, targets: Targets, hasCallback: bool,
                        custom: seq<Prop>, config: seq<ConfigEntry>): (r: Result<Run>)
    ensures |config| == 0 <==> r == TypeError(ConfigEmpty)
    ensures r == TypeError(NotIterable) <==>
              |config| > 0 && targets.ByName? && !HasRoot(doc, targets.name)
    ensures |config| > 0 && (targets.Collection? || HasRoot(doc, targets.name)) ==> r.Ok?
    ensures r.Ok? && targets.ByName? ==> r.value.visited == [] && r.value.calls == []
    ensures r.Ok? && targets.Collection? ==>
              TagsInOrder(targets.elements, r.value.visited, BlockTag(config))
    ensures r.Ok? ==> forall i | 0 <= i < |r.value.visited| ::
              DataModule in r.value.visited[i].attributes
              && r.value.visited[i].attributes[DataModule] == BlockTag(config)
    ensures r.Ok? ==> MergedConfig(config, custom, hasCallback, r.value.config)
    ensures r.Ok? ==> |r.value.calls| == if hasCallback then |r.value.visited| else 0
    ensures r.Ok? ==> forall i | 0 <= i < |r.value.calls| ::
              && r.value.calls[i].element == r.value.visited[i]
              && r.value.calls[i].options == r.value.config[0].settings
  {
    if |config| == 0 then TypeError(ConfigEmpty)
    else match Visit(doc, targets)
      case TypeError(cause) => TypeError(cause)
      case Ok(els) => Ok(Register(els, hasCallback, custom, config))
  }

  /** With a callback, the options every call receives are the first
      configuration entry overlaid with `custom`: `custom` wins every key it
      holds, the entry keeps the rest, and the entry itself now holds that
      merged object. */
  lemma CustomWins(doc: seq<Element>, targets: Targets, custom: seq<Prop>,
                   config: seq<ConfigEntry>, k: string)
    requires DistinctKeys(custom)
    requires |config| > 0
    requires targets.ByName? ==> HasRoot(doc, targets.name)
    ensures var r := CreateModule(doc, targets, true, custom, config);
            && r.Ok?
            && Get(r.value.config[0].settings, k)
                 == (if HasKey(custom, k) then Get(custom, k) else Get(config[0].settings, k))
            && r.value.config[0].key == config[0].key
  {
    if HasKey(custom, k) {
      AssignSourceWins(config[0].settings, custom, k);
    }
  }

  // ---------------------------------------------------------------------
  // The capabilities handed to the callback
  // ---------------------------------------------------------------------

  /** `modifier` treats its text as given only when it is a non-empty string. */
  predicate Truthy(text: Option<string>) {
    text.Some? && |text.value| > 0
  }

  /** The element after a `modifier` call, and what the call returned
      (`None` for `undefined`). */
  datatype ModifierOutcome = ModifierOutcome(element: Option<Element>, returned: Option<string>)

  /** `exports.modifier(modifier, el)`: with text, append it to the element's
      class attribute with no separator; without, return the sentinel and
      touch nothing. */
  function Modifier(text: Option<string>, el: Option<Element>): (r: Result<ModifierOutcome>)
    ensures r.TypeError? <==> Truthy(text) && el.None?
    ensures r.TypeError? ==> r.cause == ElementUndefined
    ensures r.Ok? && Truthy(text) ==>
              && r.value.returned.None?
              && r.value.element.Some?
              && r.value.element.value.attributes == el.value.attributes
              && |r.value.element.value.className| == |el.value.className| + |text.value|
              && r.value.element.value.className[..|el.value.className|] == el.value.className
              && r.value.element.value.className[|el.value.className|..] == text.value
    ensures !Truthy(text) ==> r == Ok(ModifierOutcome(el, Some(ModifierSentinel)))
  {
    if Truthy(text) then
      match el
      case None => TypeError(ElementUndefined)
      case Some(e) => Ok(ModifierOutcome(Some(e.(className := e.className + text.value)), None))
    else Ok(ModifierOutcome(el, Some(ModifierSentinel)))
  }

  /** `exports.component(component)`: does nothing and returns `undefined`. */
  function ComponentCapability(doc: seq<Element>, name: string): (r: (seq<Element>, Option<Value>))
    ensures r.0 == doc && r.1 == None
  {
    (doc, None)
  }

  /** Appending `-option` to the root element's class switches the option on:
      the element stays the module's first root (a trailing class token
      `module` turns into the substring `module-`), and it now carries the
      modifier. */
  lemma ModifierEnablesOption(modules: map<string, seq<Prop>>, doc: seq<Element>,
                              moduleName: string, option: string,
                              textIsZero: string -> bool, t: nat)
    requires moduleName in modules && HasKey(modules[moduleName], option)
    requires IsFirstMatch(doc, BlockSelector(moduleName), t)
    ensures var m := Modifier(Some("-" + option), Some(doc[t]));
            && m.Ok? && m.value.element.Some?
            && ResolveOption(modules, doc[t := m.value.element.value], moduleName, option, textIsZero) == Ok(true)
  {
    var cls := doc[t].className;
    var text := "-" + option;
    var el := doc[t].(className := cls + text);
    assert Modifier(Some(text), Some(doc[t])) == Ok(ModifierOutcome(Some(el), None));
    var doc' := doc[t := el];
    assert Matches(doc[t], BlockSelector(moduleName));
    assert Matches(doc[t], ClassToken(moduleName)) || Matches(doc[t], ClassContains(moduleName + "-"));
    assert Matches(el, BlockSelector(moduleName)) by {
      if Contains(cls, moduleName + "-") {
        ContainsAppend(cls, text, moduleName + "-");
      } else {
        var i :| 0 <= i <= |cls| && TokenAt(cls, moduleName, i);
        if i + |moduleName| == |cls| {
          assert (cls + text)[i..i + |moduleName| + 1] == moduleName + "-";
          assert OccursAt(cls + text, moduleName + "-", i);
        } else {
          assert (cls + text)[i..i + |moduleName|] == cls[i..i + |moduleName|];
          assert TokenAt(cls + text, moduleName, i);
        }
      }
    }
    assert IsFirstMatch(doc', BlockSelector(moduleName), t);
    ContainsSuffix(cls, text);
    assert Matches(doc'[t], ModifierSelector(option));
    ModifierWins(modules, doc', moduleName, option, textIsZero);
  }

  /** No separator is inserted: `modifier('sticky', <div class="nav">)` leaves
      `navsticky`, which is no longer a root of `nav`. */
  lemma ModifierNoSeparator()
    ensures var m := Modifier(Some("sticky"), Some(Element("nav", map[])));
            && m == Ok(ModifierOutcome(Some(Element("navsticky", map[])), None))
            && !Matches(Element("navsticky", map[]), BlockSelector("nav"))
  {
    var s := "navsticky";
    assert "nav" + "sticky" == s;
    assert "nav" + "-" == "nav-";
    forall i | 0 <= i <= |s|
      ensures !TokenAt(s, "nav", i) && !OccursAt(s, "nav-", i)
    {
      if 0 < i && i + 3 <= |s| {
        assert s[i..i + 3][0] == s[i];
      }
      if i + 4 <= |s| {
        assert s[i..i + 4][3] == s[i + 3];
      }
    }
  }

  // ---------------------------------------------------------------------
  // Element.prototype.component
  // ---------------------------------------------------------------------

  /** The class of a component: `block + '_' + component`. */
  function ComponentClass(block: string, name: string): (c: string)
    ensures |c| == |block| + 1 + |name|
    ensures c[..|block|] == block && c[|block|] == '_' && c[|block| + 1..] == name
  {
    block + "_" + name
  }

  /** `el.component(name)`. `path` is the receiving element followed by its
      ancestors, nearest first; `descendants` are the receiver's descendants
      in document order. The block is read from the nearest element of `path`
      carrying `data-module` (the receiver included); with none, reading its
      attribute throws. The result is the first descendant of the receiver
      that is a root of the component class, or `null`. */
  function Component(path: seq<Element>, descendants: seq<Element>, name: string)
    : (r: Result<Option<Element>>)
    ensures r.TypeError? <==> forall j | 0 <= j < |path| :: DataModule !in path[j].attributes
    ensures r.TypeError? ==> r.cause == NoTaggedAncestor
    ensures r.Ok? ==> forall c | 0 <= c < |path| && IsFirstMatch(path, HasAttribute(DataModule), c) ::
              r.value == QueryElement(descendants,
                           BlockSelector(ComponentClass(path[c].attributes[DataModule], name)))
  {
    match QuerySelector(path, HasAttribute(DataModule))
    case None => TypeError(NoTaggedAncestor)
    case Some(c) =>
      assert forall c' | 0 <= c' < |path| && IsFirstMatch(path, HasAttribute(DataModule), c') :: c' == c by {
        forall c' | 0 <= c' < |path| && IsFirstMatch(path, HasAttribute(DataModule), c')
          ensures c' == c
        {
          FirstMatchUnique(path, HasAttribute(DataModule), c, c');
        }
      }
      var block := path[c].attributes[DataModule];
      Ok(QueryElement(descendants, BlockSelector(ComponentClass(block, name))))
  }

  // ---------------------------------------------------------------------
  // The string form of `els`
  // ---------------------------------------------------------------------

  /** As written, a module name as `els` tags nothing and never calls back,
      even when matching elements exist. */
  lemma ByNameVisitsNothing(doc: seq<Element>, name: string, hasCallback: bool,
                            custom: seq<Prop>, config: seq<ConfigEntry>)
    requires |config| > 0 && HasRoot(doc, name)
    ensures var r := CreateModule(doc, ByName(name), hasCallback, custom, config);
            r.Ok? && r.value.visited == [] && r.value.calls == []
  {
  }

  /** The intended resolution of a module name: every matching element, as
      `querySelectorAll` would return them. */
  function VisitAll(doc: seq<Element>, targets: Targets): (r: seq<Element>)
    ensures targets.ByName? ==>
              var idx := MatchPositions(doc, BlockSelector(targets.name));
              |r| == |idx| && forall j | 0 <= j < |r| :: r[j] == doc[idx[j]]
    ensures targets.ByName? ==> forall i | 0 <= i < |doc| && Matches(doc[i], BlockSelector(targets.name)) :: doc[i] in r
    ensures targets.ByName? ==> forall e | e in r :: e in doc && Matches(e, BlockSelector(targets.name))
    ensures targets.Collection? ==> r == targets.elements
  {
    match targets
    case ByName(name) => QuerySelectorAll(doc, BlockSelector(name))
    case Collection(els) => els
  }

  /** Tagged copies of the matching positions, in order, cover every
      matching element. */
  lemma TaggedEveryMatch(doc: seq<Element>, name: string, visited: seq<Element>, tag: string)
    requires TagsInOrder(QuerySelectorAll(doc, BlockSelector(name)), visited, tag)
    ensures forall i | 0 <= i < |doc| && Matches(doc[i], BlockSelector(name)) ::
              exists j | 0 <= j < |visited| :: TaggedCopy(doc[i], visited[j], tag)
  {
    var found := QuerySelectorAll(doc, BlockSelector(name));
    forall i | 0 <= i < |doc| && Matches(doc[i], BlockSelector(name))
      ensures exists j | 0 <= j < |visited| :: TaggedCopy(doc[i], visited[j], tag)
    {
      var j :| 0 <= j < |found| && found[j] == doc[i];
      assert TaggedCopy(found[j], visited[j], tag);
    }
  }

  /** `$module` with `querySelectorAll` in place of `querySelector`. */
  function CreateModuleIntended(doc: seq<Element>, targets: Targets, hasCallback: bool,
                                custom: seq<Prop>, config: seq<ConfigEntry>): (r: Result<Run>)
    ensures |config| == 0 <==> r == TypeError(ConfigEmpty)
    ensures |config| > 0 ==> r.Ok?
    ensures r.Ok? && targets.ByName? ==>
              TagsInOrder(QuerySelectorAll(doc, BlockSelector(targets.name)), r.value.visited, BlockTag(config))
    ensures r.Ok? && targets.Collection? ==>
              TagsInOrder(targets.elements, r.value.visited, BlockTag(config))
    ensures r.Ok? && targets.ByName? ==>
              forall i | 0 <= i < |doc| && Matches(doc[i], BlockSelector(targets.name)) ::
                exists j | 0 <= j < |r.value.visited| :: TaggedCopy(doc[i], r.value.visited[j], BlockTag(config))
    ensures r.Ok? ==> forall i | 0 <= i < |r.value.visited| ::
              DataModule in r.value.visited[i].attributes
              && r.value.visited[i].attributes[DataModule] == BlockTag(config)
    ensures r.Ok? ==> MergedConfig(config, custom, hasCallback, r.value.config)
    ensures r.Ok? ==> |r.value.calls| == if hasCallback then |r.value.visited| else 0
    ensures r.Ok? ==> forall i | 0 <= i < |r.value.calls| ::
              && r.value.calls[i].element == r.value.visited[i]
              && r.value.calls[i].options == r.value.config[0].settings
  {
    if |config| == 0 then TypeError(ConfigEmpty)
    else
      var els := VisitAll(doc, targets);
      var run := Register(els, hasCallback, custom, config);
      assert targets.ByName? ==>
               forall i | 0 <= i < |doc| && Matches(doc[i], BlockSelector(targets.name)) ::
                 exists j | 0 <= j < |run.visited| :: TaggedCopy(doc[i], run.visited[j], BlockTag(config)) by {
        if targets.ByName? {
          TaggedEveryMatch(doc, targets.name, run.visited, BlockTag(config));
        }
      }
      Ok(run)
  }

  /** Every element a run tags carries `String(config[0].name)`: the text of
      the first entry's `name` field, `undefined` without one. Neither the
      entry's key nor any later entry changes which elements are tagged or
      what they carry. */
  lemma BlockIsNameField(doc: seq<Element>, targets: Targets, hasCallback: bool, custom: seq<Prop>,
                         config: seq<ConfigEntry>, key: string, later: seq<ConfigEntry>)
    requires |config| > 0
    ensures var r := CreateModuleIntended(doc, targets, hasCallback, custom, config);
            && r.Ok?
            && forall i | 0 <= i < |r.value.visited| ::
                 r.value.visited[i].attributes[DataModule] == AttributeText(Get(config[0].settings, "name"))
    ensures var r := CreateModuleIntended(doc, targets, hasCallback, custom, config);
            var r' := CreateModuleIntended(doc, targets, hasCallback, custom,
                                           [ConfigEntry(key, config[0].settings)] + later);
            r.Ok? && r'.Ok? && r'.value.visited == r.value.visited
  {
    var other := [ConfigEntry(key, config[0].settings)] + later;
    assert BlockTag(other) == BlockTag(config);
  }

  /** On an element collection the correction changes nothing. */
  lemma IntendedAgreesOnCollections(doc: seq<Element>, els: seq<Element>, hasCallback: bool,
                                    custom: seq<Prop>, config: seq<ConfigEntry>)
    ensures CreateModuleIntended(doc, Collection(els), hasCallback, custom, config)
              == CreateModule(doc, Collection(els), hasCallback, custom, config)
  {
  }

  /** Every element the callback receives is already tagged with the block name. */
  lemma CallbackSeesTaggedElements(doc: seq<Element>, targets: Targets, hasCallback: bool,
                                   custom: seq<Prop>, config: seq<ConfigEntry>)
    ensures var r := CreateModuleIntended(doc, targets, hasCallback, custom, config);
            r.Ok? ==> forall i | 0 <= i < |r.value.calls| ::
              DataModule in r.value.calls[i].element.attributes
              && r.value.calls[i].element.attributes[DataModule] == BlockTag(config)
  {
  }

  /** Inside a module's callback, `el.component(name)` on a tagged element
      looks for the class `<block>_<name>` of that module, whatever its
      ancestors are tagged with. */
  lemma ComponentAfterTagging(doc: seq<Element>, targets: Targets, hasCallback: bool,
                              custom: seq<Prop>, config: seq<ConfigEntry>, i: nat,
                              ancestors: seq<Element>, descendants: seq<Element>, name: string)
    requires CreateModuleIntended(doc, targets, hasCallback, custom, config).Ok?
    requires i < |CreateModuleIntended(doc, targets, hasCallback, custom, config).value.visited|
    ensures var el := CreateModuleIntended(doc, targets, hasCallback, custom, config).value.visited[i];
            Component([el] + ancestors, descendants, name)
              == Ok(QueryElement(descendants, BlockSelector(ComponentClass(BlockTag(config), name))))
  {
    var el := CreateModuleIntended(doc, targets, hasCallback, custom, config).value.visited[i];
    assert IsFirstMatch([el] + ancestors, HasAttribute(DataModule), 0);
  }

  /** The options the sample `card` call merges: `custom` overrides
      `theme` in place and `size` is kept. */
  lemma CardMerge()
    ensures Assign([Prop("theme", Text("light")), Prop("size", Text("m"))], [Prop("theme", Text("dark"))])
              == [Prop("theme", Text("dark")), Prop("size", Text("m"))]
  {
    var settings := [Prop("theme", Text("light")), Prop("size", Text("m"))];
    var merged := [Prop("theme", Text("dark")), Prop("size", Text("m"))];
    assert settings[1..] == [Prop("size", Text("m"))];
    assert Put(settings, "theme", Text("dark")) == merged;
    var custom := [Prop("theme", Text("dark"))];
    assert custom[1..] == [];
  }

  /** The configuration of the sample `card` call has no `name` field. */
  lemma CardTag()
    ensures BlockTag([ConfigEntry("card", [Prop("theme", Text("light")), Prop("size", Text("m"))])]) == "undefined"
  {
    var settings := [Prop("theme", Text("light")), Prop("size", Text("m"))];
    assert settings[1..] == [Prop("size", Text("m"))];
    assert settings[1..][1..] == [];
    assert Get(settings, "name") == None;
  }

  /** The sample call `$module('card', callback, {theme: 'dark'},
      {card: {theme: 'light', size: 'm'}})` over `<div class="card">`: as
      written it merges the options into the configuration but tags nothing
      and never calls back. */
  lemma CardExampleAsWritten()
    ensures var config := [ConfigEntry("card", [Prop("theme", Text("light")), Prop("size", Text("m"))])];
            var merged := [Prop("theme", Text("dark")), Prop("size", Text("m"))];
            CreateModule([Element("card", map[])], ByName("card"), true, [Prop("theme", Text("dark"))], config)
              == Ok(Run([], [ConfigEntry("card", merged)], []))
  {
    var doc := [Element("card", map[])];
    assert TokenAt("card", "card", 0);
    assert Matches(doc[0], ClassToken("card"));
    assert Matches(doc[0], BlockSelector("card"));
    assert HasRoot(doc, "card");
    assert Visit(doc, ByName("card")) == Ok([]);
    CardMerge();
    var config := [ConfigEntry("card", [Prop("theme", Text("light")), Prop("size", Text("m"))])];
    var merged := [Prop("theme", Text("dark")), Prop("size", Text("m"))];
    assert config[0 := ConfigEntry("card", merged)] == [ConfigEntry("card", merged)];
    assert Register([], true, [Prop("theme", Text("dark"))], config) == Run([], [ConfigEntry("card", merged)], []);
  }

  /** The same call with `querySelectorAll` tags the element with the missing
      `name` ("undefined") and calls back once with `{theme: 'dark', size: 'm'}`. */
  lemma CardExampleIntended()
    ensures var config := [ConfigEntry("card", [Prop("theme", Text("light")), Prop("size", Text("m"))])];
            var merged := [Prop("theme", Text("dark")), Prop("size", Text("m"))];
            var tagged := Element("card", map[DataModule := "undefined"]);
            CreateModuleIntended([Element("card", map[])], ByName("card"), true, [Prop("theme", Text("dark"))], config)
              == Ok(Run([tagged], [ConfigEntry("card", merged)], [Call(tagged, merged)]))
  {
    var doc := [Element("card", map[])];
    assert TokenAt("card", "card", 0);
    assert Matches(doc[0], ClassToken("card"));
    assert Matches(doc[0], BlockSelector("card"));
    assert QuerySelectorAll(doc, BlockSelector("card")) == doc;
    CardMerge();
    CardTag();
    var config := [ConfigEntry("card", [Prop("theme", Text("light")), Prop("size", Text("m"))])];
    var merged := [Prop("theme", Text("dark")), Prop("size", Text("m"))];
    var tagged := Element("card", map[DataModule := "undefined"]);
    assert TagAll(doc, "undefined") == [tagged];
    assert Calls([tagged], merged) == [Call(tagged, merged)];
    assert config[0 := ConfigEntry("card", merged)] == [ConfigEntry("card", merged)];
    assert Register(doc, true, [Prop("theme", Text("dark"))], config)
             == Run([tagged], [ConfigEntry("card", merged)], [Call(tagged, merged)]);
  }
}

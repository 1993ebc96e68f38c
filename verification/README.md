# Modular / Synergy core in Dafny

This project models the small JavaScript core of Modular (Synergy):

- The two string normalisers of `src/modular.js`. They turn the JSON text a stylesheet publishes into text `JSON.parse` can read.
  - `removeQuotes` is a global regular-expression replace. It drops the run of quotes that opens the input, one quote in the last position, all whitespace, all backslashes, and every run of `;}` or `;<whitespace>}`.
  - `camelCase` rewrites `-x` to `X`.
- The option resolver `_option(module, option)` of `src/js/functions/_option.js`. It reports whether a module option is on. The option is on when the module's root element carries the option's modifier class. Otherwise the option's declared configuration decides.
- The module factory `$module(els, callback, custom, config)` and `Element.prototype.component` of `src/js/functions/module.js`.
  - `$module` stamps `data-module` on the module's elements. It merges `custom` into the first configuration entry and calls back once per element. It hands out the `modifier` and `component` capabilities.
  - `el.component(name)` finds the element's nearest tagged ancestor. It then looks for the component class `<block>_<name>` below the receiving element.

Files:

| file | module | contents |
|---|---|---|
| `results.dfy` | `Results` | `Option`, and `Result` with one `Cause` per `TypeError` the model covers |
| `text.dfy` | `Text` | character classes (JavaScript `\s`, ASCII whitespace, `[a-z]`), substring and subsequence predicates |
| `modular.dfy` | `Modular` | `RemoveQuotes` as a left-to-right scan with first-alternative-wins matching; `CamelCase`; their properties |
| `jsvalues.dfy` | `JsValues` | configuration values; objects as ordered key/value lists; `Object.assign`; loose `!= false`; `String(v)` |
| `dom.dfy` | `Dom` | elements as values; the selector shapes the code builds and their matching rule; `querySelector`/`querySelectorAll` over a document order |
| `option.dfy` | `OptionResolver` | `_option` |
| `module_factory.dfy` | `ModuleFactory` | `$module`, `modifier`, the no-op `component`, `Element.prototype.component` |

Everything is a pure function over values:

- The global `_modules` is a parameter, a map from module name to its configuration.
- A document is its elements in document order.
- An ancestor chain is a sequence of elements, nearest first.
- A `$module` call returns a `Run`. It holds the elements after tagging, the configuration after the merge, and the callback calls in the order they are made.
- Every failure this model covers is a `TypeError` from using `undefined` or `null` as an object, by reading a property of it or converting it to an object. It becomes a `Result.TypeError` whose `Cause` names that use. The throws the model does not cover are listed under "## Left out".

Consequences of the code that are easy to miss:

- `removeQuotes(' "a";} ')` is `"a"`, quotes included, not `a`. `^` and `$` anchor the quote alternatives at the very ends of the input, and there they meet spaces (`Modular.RemoveQuotesExample`).
- Every `;}` and `; }` is removed, not only a trailing one.
- `removeQuotes` is not idempotent (`Modular.NotIdempotent`).
- `_option` reads `_modules[module][option]` and branches on the type of that record's first value. It does not go through a first "variant" key of the module.
- `$module` takes the block name from the `name` field of the first configuration entry, not from that entry's key. Without `name` it tags elements with the text `undefined`.
- Given a module name, `$module` tags nothing and calls back nowhere (see Findings).
- `el.component(name)` searches below the receiving element, not below the tagged ancestor. It returns `null` when nothing matches rather than failing.

## Model

| member | source | states |
|---|---|---|
| Modular.RemoveQuotes | src/modular.js:17-20 | the result only deletes characters (it is a subsequence of the input, so never longer) and holds no JavaScript whitespace and no backslash |
| Modular.RemoveQuotesKeeps | src/modular.js:18 | every character that is not whitespace, a backslash, `;`, `}`, part of the opening run of quotes, or a quote in the last position is kept, in input order |
| Modular.RemoveQuotesFixedPoints | src/modular.js:18 | `removeQuotes` leaves a string unchanged exactly when it has no whitespace, no backslash, no `;}`, and no quote as its first or last character |
| Modular.CleanUnchanged | src/modular.js:18 | text with no quote, whitespace, backslash or `;}` anywhere passes through unchanged |
| Modular.SurroundingQuotes | src/modular.js:18 | a leading run of quotes is removed whole, a trailing run loses only its last quote, and a clean body between them is kept |
| Modular.OnlyQuotes | src/modular.js:18 | a string made only of quotes becomes empty |
| Modular.RemoveQuotesExample | src/modular.js:18 | `' "a";} '` becomes `"a"` with its quotes: the quote alternatives only match at the ends of the input |
| Modular.NotIdempotent | src/modular.js:18 | `; }` with two spaces gives `;}`, which a second pass removes: deleting whitespace can create a new match |
| Modular.CamelCase | src/modular.js:23-28 | the output never holds a hyphen followed by a lower-case ASCII letter; it is empty exactly when the input is; its first character is the input's, or the upper-cased letter of a leading match |
| Modular.CamelCaseIsPiecewise | src/modular.js:24-26 | every hyphen directly followed by `[a-z]` is deleted, that letter is upper-cased, and every other character is kept in order |
| Modular.CamelCaseLength | src/modular.js:24-27 | the output length is the input length minus the number of `-[a-z]` occurrences, which is at most half the input length |
| Modular.CamelCaseFixedPoints | src/modular.js:24 | `camelCase` leaves a string unchanged exactly when it has no `-[a-z]` |
| Modular.CamelCaseIdempotent | src/modular.js:24-27 | applying `camelCase` twice equals applying it once |
| Modular.CamelCaseExample | src/modular.js:24-26 | `a-bc-d` becomes `aBcD` |
| Modular.CamelCaseEdgeCases | src/modular.js:24-26 | only a hyphen directly before `[a-z]` is rewritten: `--a` becomes `-A`, and `a-B-1` is unchanged |
| JsValues.Get | src/js/functions/_option.js:23 | a property read finds a value exactly when the key is present, and the value is one stored under that key |
| JsValues.Put | src/js/functions/module.js:34 | assigning one key overwrites an existing key in place or appends a new one at the end; existing keys keep their positions, and every property under another key is unchanged |
| JsValues.PutReads | src/js/functions/module.js:34 | after assigning one key, that key reads the new value and every other key reads as before |
| JsValues.PutDistinct | src/js/functions/module.js:34 | assigning one key keeps the keys of an object distinct |
| JsValues.Assign | src/js/functions/module.js:34 | `Object.assign(target, source)` keeps the target's keys in their places, adds at most one key per source property, and leaves every key the source lacks with the target's value |
| JsValues.AssignDistinct | src/js/functions/module.js:34 | `Object.assign` keeps an object's keys distinct |
| JsValues.AssignSourceWins | src/js/functions/module.js:34 | after `Object.assign(target, source)` every key of the source reads the source's value |
| JsValues.FirstValue | src/js/functions/_option.js:24 | `v[Object.keys(v)[0]]`: an object's first property value, `undefined` for an object without properties, a boolean or an empty string, and the first character for a non-empty string |
| JsValues.LooseNotFalse | src/js/functions/_option.js:31-33 | `v != false` is false exactly for `false` and for a string that converts to the number 0; `undefined` and every object compare unequal to `false` |
| JsValues.AttributeText | src/js/functions/module.js:19 | `setAttribute` stores `String(v)`: `undefined`, `true`/`false`, the string itself, or `[object Object]` |
| Dom.Matches | src/js/functions/_option.js:25-28 | a class-token selector matches only with a non-empty name found in the class attribute; `[class*=""]` matches nothing |
| Dom.BlockSelector | src/js/functions/_option.js:25 | the selector text is `.name, [class*="name-"]` |
| Dom.ModifierSelector | src/js/functions/_option.js:26 | the selector text is `[class*="-option"]` |
| Dom.QuerySelector | src/js/functions/_option.js:27 | a result exists exactly when some element matches, and it is the first match in document order |
| Dom.QueryElement | src/js/functions/module.js:48 | the element form of `querySelector`: `null` exactly when nothing matches, otherwise the first matching element |
| Dom.MatchPositions | src/js/functions/module.js:15 | the positions of the matching elements, strictly increasing, each one matching, and every matching position among them |
| Dom.QuerySelectorAll | src/js/functions/module.js:15 | the result is the elements at the matching positions, in document order, each once: only matching elements, and every matching element |
| OptionResolver.ResolveOption | src/js/functions/_option.js:16-36 | throws when the module is not configured, when the option is not, and when no root element exists, each exactly then; otherwise true when the first root element carries the modifier class, and the declared value when it does not |
| OptionResolver.ModifierWins | src/js/functions/_option.js:28-34 | with the modifier class on the root element the option is on, whatever the configuration declares |
| OptionResolver.BooleanBranch | src/js/functions/_option.js:30-31 | when the option's first value is a boolean, a missing `enabled` counts as on and `enabled: b` gives `b` |
| OptionResolver.ObjectBranch | src/js/functions/_option.js:32-33 | an option object whose first value is not a boolean is always on |
| OptionResolver.BooleanOption | src/js/functions/_option.js:23-33 | an option declared as a bare boolean `b` gives `modifier || b` |
| OptionResolver.BranchFollowsFirstValue | src/js/functions/_option.js:24-34 | the branch depends on the first value's type: `{size: "m", enabled: false}` is on, `{sticky: true, enabled: false}` is off |
| OptionResolver.DeclaredAndModifier | src/js/functions/_option.js:28-34 | `nav.enabled` declared true is on; declared false it is off, unless the root carries `nav-enabled` |
| OptionResolver.RootIsSubstringTest | src/js/functions/_option.js:25-27 | `xnav-y` and `menu nav` are roots of `nav`; `navigation` is not |
| ModuleFactory.BlockTag | src/js/functions/module.js:12 | the block is the first entry's `name` text, and `undefined` when the entry has no `name` |
| ModuleFactory.Tag | src/js/functions/module.js:19 | tagging sets `data-module` to the block name and changes neither the class nor any other attribute |
| ModuleFactory.TagAll | src/js/functions/module.js:18-20 | every element of the collection is tagged, in order |
| ModuleFactory.Calls | src/js/functions/module.js:36-38 | one callback call per element, in order, all with the same options object |
| ModuleFactory.Register | src/js/functions/module.js:18-39 | the targets are tagged; with a callback the first entry becomes `Object.assign(entry, custom)`, the other entries are unchanged, and each tagged element gets one call with that object; without a callback nothing else changes |
| ModuleFactory.Visit | src/js/functions/module.js:14-18 | a name with no matching element throws; a name with a match resolves to a single element, which `forEach.call` iterates as empty; a collection is iterated as given |
| ModuleFactory.CreateModule | src/js/functions/module.js:10-42 | an empty configuration throws; a name throws exactly when no element matches it, and otherwise tags and calls nothing; a collection is tagged in order; with a callback the first entry becomes `Object.assign(entry, custom)` and there is one call per tagged element with it; the other entries, and without a callback the whole configuration, are unchanged |
| ModuleFactory.CustomWins | src/js/functions/module.js:33-34 | the options the callback receives hold `custom`'s value for every key `custom` has and the first entry's value otherwise, and that merged object replaces the entry |
| ModuleFactory.BlockIsNameField | src/js/functions/module.js:12-20 | for every input, each tagged element carries `String` of the first entry's `name` field; the entry's key and the later entries change neither which elements are tagged nor their tag |
| ModuleFactory.Modifier | src/js/functions/module.js:22-28 | with non-empty text, a missing element throws; otherwise the text is appended to the class with no separator and nothing else changes; without text, the sentinel `i_am_modifier` is returned and nothing changes |
| ModuleFactory.ComponentCapability | src/js/functions/module.js:30-31 | the capability's `component` changes nothing and returns `undefined` |
| ModuleFactory.ModifierEnablesOption | src/js/functions/module.js:22-25 | `modifier('-' + option, root)` keeps the element the module's first root and makes `_option` return true |
| ModuleFactory.ModifierNoSeparator | src/js/functions/module.js:24 | `modifier('sticky', <div class="nav">)` leaves the class `navsticky`, which is no longer a root of `nav` |
| ModuleFactory.ComponentClass | src/js/functions/module.js:46 | the component class is the block, an underscore, and the component name |
| ModuleFactory.Component | src/js/functions/module.js:44-49 | throws exactly when neither the receiver nor any ancestor is tagged; otherwise returns the receiver's first descendant matching the component selector built from the nearest tag |
| ModuleFactory.ByNameVisitsNothing | src/js/functions/module.js:14-20 | as written, a module name whose elements exist yields no tagged element and no callback call |
| ModuleFactory.VisitAll | src/js/functions/module.js:15 | with `querySelectorAll`, the elements at the matching positions are visited in document order, each once: every element matching the block selector and nothing else |
| ModuleFactory.CreateModuleIntended | src/js/functions/module.js:14-39 | with `querySelectorAll`, only an empty configuration throws; the matching elements are tagged in document order, each once, and every matching element is among them; the first entry becomes `Object.assign(entry, custom)` when there is a callback, and each tagged element gets one call with it |
| ModuleFactory.IntendedAgreesOnCollections | src/js/functions/module.js:14-18 | on an element collection the corrected factory behaves exactly as the written one |
| ModuleFactory.CallbackSeesTaggedElements | src/js/functions/module.js:18-38 | every element the callback receives already carries `data-module` with the block name |
| ModuleFactory.ComponentAfterTagging | src/js/functions/module.js:44-48 | on a tagged element, `component(name)` looks for `<block>_<name>` of that element's own module, whatever the ancestors carry |
| ModuleFactory.CardExampleAsWritten | src/js/functions/module.js:10-42 | the sample call `$module('card', cb, {theme: 'dark'}, {card: {theme: 'light', size: 'm'}})` over `<div class="card">` merges the entry into `{theme: 'dark', size: 'm'}`, tags nothing and calls nothing |
| ModuleFactory.CardExampleIntended | src/js/functions/module.js:10-42 | the corrected factory tags that element `undefined` and calls back once with `{theme: 'dark', size: 'm'}` |

## Left out

- The `Element.prototype.matches` polyfill (`src/js/functions/_option.js:18-21`) is left out. The model assumes an engine where `Element.prototype.matches` works. Where `matches` is missing and neither `matchesSelector` nor `msMatchesSelector` exists, the code installs `undefined`, and `_option` throws a `TypeError` at `target.matches(modifier)`. No `Cause` models that throw.
- Reading `stylesConfigJSON` from the document (`src/modular.js:14`) is left out because it is I/O. The normalisers take the text as a parameter.
- JavaScript string-to-number conversion is a parameter, `textIsZero`. It is floating-point parsing and is used only by `v != false` on a string.
- Configuration values are booleans, strings and objects. Numbers, `null` and arrays are left out. So are non-object configuration entries, a `config` that is `undefined`, and a `custom` that is not an object (an absent `custom` is the empty list).
- `Object.keys` lists integer-like keys first, in numeric order. The model keeps insertion order for every key.
- A module or option name with characters invalid in a CSS selector makes `querySelector` throw a `SyntaxError`. This throw is not modelled. Module and option names are taken to be plain CSS identifiers. A name with a space, `,`, `.` or `#` would change the selector's meaning, and the model does not cover that: for example, `a b` is treated as one class token.
- Array-like elements (a `form` or `select` has a `length`) are left out. Every element is iterated as empty by `forEach.call`.
- The callback's own effects, its return value and anything it throws are page code and are left out. The run records each call's arguments.
- A truthy `callback` that is not a function throws a `TypeError` at `callback(el, ...)` (`src/js/functions/module.js:37`) once there is an element. This is not modelled: `hasCallback` stands for a function or for no callback.
- The document is taken to be in no-quirks mode. In quirks mode class selectors compare ASCII case-insensitively, so `.nav` would match `class="NAV"`. The model's class match is case-sensitive.
- `module.exports` and the shared `exports` object are left out. Its two members are modelled as `Modifier` and `ComponentCapability`. Re-installing them on every call changes nothing observable.
- `modifier` with a truthy non-string text (a number or an object) is left out. The text is a string, and an empty string is falsy.
- Property reads see own properties only. In the code, `_modules[module][option]` and `config[...]` also find inherited names such as `constructor` or `toString`. For example, `_option('nav', 'constructor')` returns true there, while the model reports the option as undefined.
- JavaScript strings are UTF-16 code units and Dafny's `char` is a Unicode scalar value. Neither regular expression matches a surrogate, so the difference is not modelled.

## Findings

| source | as written | input that shows it | evidently intended | confidence | as-written member | corrected member |
|---|---|---|---|---|---|---|
| src/js/functions/module.js:14-18 | a string `els` becomes `document.querySelector(...)`, a single element or `null`, which is then passed to `Array.prototype.forEach.call` | `$module('card', cb, {theme: 'dark'}, {card: {theme: 'light', size: 'm'}})` over `<div class="card">`: the element has no `length`, so nothing is tagged and `cb` is never called; with no matching element the call throws a `TypeError` | `querySelectorAll`, so every element matching the module name is tagged and passed to the callback | not executed; high | ModuleFactory.ByNameVisitsNothing | ModuleFactory.CreateModuleIntended |

# Angie component registry in Dafny

This project models the application component registry of angie-mvc. The
registry is implemented twice, almost identically: class `Angie` in
src/Angie.js and its older twin, class `Angular`, in src/Angular.js. Each
application object keeps:

- one table per component kind, from name to component: `constants`,
  `services`, `factories` (Angie only), `Controllers` and `directives`;
- a reverse index from name to the kind it was last registered under
  (`$$registry` / `_registry`);
- a queue of config functions, each with a `fired` flag;
- the list of dependency names already loaded (`$dependencies` /
  `_dependencies`);
- in Angie only, the `$$loaded` flag that stops a second `$$load`.

The model is organised in layers:

- `Js` defines the JavaScript values the registry stores, truthiness and `typeof`.
- `Text` and `BootFiles` model the path classification of the bootstrap pass:
  - the case-insensitive `/node_modules|bower_components|templates|static/i` test;
  - the `split('.').pop()` extension test;
  - the order in which each class tries "directory" and "module".
- `Admission` models the checks a component passes before registration:
  - the `typeof` checks of `service` and `factory`;
  - the `directive` check, including a model of `/api.?view/i` that follows
    JavaScript's UTF-16 strings, where `.` consumes one code unit, for
    strings that are sequences of Unicode scalar values.
- `Registry` holds the registry as a value (`Store`, with `Register` and
  `TearDown`) and the lemmas about it: last write wins, tear-down only touches
  the recorded table, register then tear-down restores the store, and the
  stale-entry quirk.
- `ConfigQueue` and `DependencyList` specify the config queue and the
  dependency dedup.
- `AngieApp.Angie` and `AngularApp.Angular` are classes whose fields are the
  source's tables. Their methods update the fields in place. Each method
  states its new state through the functions above and keeps the invariant
  `Valid()`, which says:
  - the store is sound;
  - every fired config was run exactly once.

The classes follow the source as written, including its two defects (see
"## Findings"): tearing down an unregistered name inherited from
`Object.prototype` throws, and a name repeated within one dependency list is
recorded twice. The intended behaviour is specified beside each as-written
function and proved about it.

The injector (`$injectionBinder`) is outside the model. A factory-style
directive therefore takes the injector's result as a parameter (`produced`),
and firing a config is recorded in a ghost log of queue positions.

## Model

| member | source | states |
|---|---|---|
| Text.FindFrom | src/Angie.js:272-274 | the scan answers true exactly when the word occurs, ignoring ASCII case, at some position from `k` on |
| Text.LastSegment | src/Angie.js:280 | `split('.').pop()` is the `.`-free suffix of the path that is either the whole path or preceded by a `.` |
| Text.LastSegmentUnique | src/Angular.js:213 | those three properties determine the last segment uniquely |
| Text.LastSegmentShape | src/Angular.js:213 | the last segment is the whole path or follows a `.` at the end of it |
| Text.LastSegmentIs | src/Angie.js:280 | the last segment is a given `.`-free word exactly when the path is that word or ends in `.` followed by it |
| Text.ContainsFoldedExtend | src/Angie.js:272-274 | an occurrence found in a prefix is still found when more text follows |
| BootFiles.Skipped | src/Angie.js:272-274 | a path is skipped exactly when one of the four words `node_modules`, `bower_components`, `templates`, `static` occurs at some position, ignoring ASCII case |
| BootFiles.IsModuleFile | src/Angie.js:280 | a path counts as a module exactly when it is `js` or `es6` or ends in `.js` or `.es6`, with the case as written |
| BootFiles.ClassifyAngie | src/Angie.js:271-299 | a path is skipped exactly when the skip test holds; an unskipped path is loaded exactly when it has a module extension, directory or not; it is descended into exactly when it is a directory without one; it gets the not-a-directory warning exactly when it is a file without one; no path is silently ignored |
| BootFiles.ClassifyAngular | src/Angular.js:199-225 | a path is skipped exactly when the skip test holds; an unskipped path is descended into exactly when it is a directory, whatever its name; it is loaded exactly when it is a file with a module extension; it is ignored exactly when it is a file without one; no path gets Angie's warning |
| BootFiles.SkippedInherited | src/Angie.js:272-278 | every path below a skipped directory is skipped, by both classes, whether it is a directory or not |
| BootFiles.SkippedExamples | src/Angular.js:200-205 | the skip test works on substrings and ignores case: `Templates/page.js` and `ecstatic.js` are both skipped |
| BootFiles.ClassifiersDisagree | src/Angular.js:199-225 | Angie (extension first, src/Angie.js:272-299) and Angular (directory first) disagree exactly on unskipped directories with a module extension and unskipped files without one |
| Admission.AdmitService | src/Angie.js:65-72 | `service` admits exactly the values whose `typeof` is "object" (objects and null), unchanged; anything else fails with `InvalidServiceConfig(name)` |
| Admission.AdmitFactory | src/Angie.js:73-79 | `factory` admits exactly the functions with a truthy prototype; anything else fails with `InvalidFactoryConfig(name)` |
| Admission.ApiViewFrom | src/Angie.js:121 | the scan is true exactly when `/api.?view/i` matches at some position: "api", then at most one character that is one UTF-16 code unit and not a line terminator, then "view", ignoring ASCII case |
| Admission.ApiViewType | src/Angie.js:121 | the test converts `dir.type` to a string first: undefined, null, booleans, numbers and NaN never match, and a string matches exactly when the pattern matches at some position |
| Admission.CheckDirective | src/Angie.js:114-124 | undefined or null throws TypeError. An object without an own `Controller` whose `type` matches api-view is rejected with `InvalidDirectiveConfig(name)`. Otherwise the definition passes with the same identity and the same properties, except that a non-string `Controller` is dropped |
| Admission.ApiViewExamples | src/Angular.js:101 | "ApiView" and "my-API_view" both match the api-view pattern |
| Admission.ApiViewNotAcrossAstral | src/Angular.js:101 | "api\U{1F600}view" does not match, since the emoji takes two UTF-16 code units and `.` consumes one |
| Admission.NoApiViewIn | src/Angie.js:121 | a string shorter than seven characters, or without an `a`, never matches |
| Admission.ApiViewNotAcrossLines | src/Angular.js:101 | "api\nview" does not match, since `.` excludes line terminators |
| Admission.NoApiViewAfterFirst | src/Angular.js:101 | a string whose only `a` is its first character can match only at position 0 |
| Registry.Register | src/Angie.js:137-149 | an accepted registration sets the index entry of the name to the kind and the table entry to the component, overwriting any earlier value, and leaves every other table as it was; a falsy name or component leaves the store unchanged |
| Registry.TearDown | src/Angie.js:152-159 | the intended tear-down: a registered name is removed from the index and from the table of the recorded kind, every other table is untouched, and the empty or an unregistered name changes nothing |
| Registry.TearDownAsWritten | src/Angie.js:152-158 | the tear-down as written: it throws TypeError exactly for a non-empty, unregistered name inherited from `Object.prototype`, where the intended tear-down would have changed nothing; otherwise it succeeds with the intended result |
| Registry.RegisterSound | src/Angie.js:137-149 | registration keeps the store sound: every indexed name is in the table its kind names, and every stored component is truthy |
| Registry.TearDownSound | src/Angie.js:152-159 | tear-down keeps the store sound |
| Registry.LastWriteWins | src/Angular.js:120-122 | registering the same name and kind twice equals registering only the second component |
| Registry.TearDownUndoesRegister | src/Angie.js:137-159 | registering a name that is in neither the index nor the target table and then tearing it down restores the store |
| Registry.StaleEntryAfterTearDown | src/Angie.js:141-156 | after a name is registered under `k1` and then under `k2`, tear-down removes it from the index and from `k2`, but the `k1` entry survives with its value |
| Registry.TearDownAsWrittenThrows | src/Angie.js:152-158 | as written, tearing down the unregistered name `toString` throws TypeError, where the own-key reading does nothing |
| ConfigQueue.Enqueue | src/Angie.js:126-136 | exactly a `typeof` "function" value is appended, as `{fn, fired: false}`, after the existing queue; any other value leaves the queue unchanged |
| ConfigQueue.UnfiredBelowExact | src/Angie.js:306-316 | the positions a pass has invoked after its first `n` steps are exactly the unfired ones below `n`, in increasing (queue) order |
| ConfigQueue.Unfired | src/Angie.js:306-316 | the positions a whole pass invokes are exactly the unfired ones of the queue, in queue order |
| ConfigQueue.AllFired | src/Angular.js:231-242 | after a pass the queue has the same configs, each with `fired` set |
| ConfigQueue.EnqueueLogged | src/Angular.js:106-116 | enqueuing keeps the invocation log exact |
| ConfigQueue.AllFiredLogged | src/Angie.js:306-316 | a pass appends each unfired position to the log once, and the log again lists exactly the fired configs, without repeats |
| ConfigQueue.SecondPassFiresNothing | src/Angie.js:309-311 | a pass after a pass invokes nothing |
| ConfigQueue.FiredExactlyOnce | src/Angular.js:234-240 | under the log invariant, every fired config was invoked exactly once |
| DependencyList.FilterUnseen | src/Angie.js:178-180 | the filter as written keeps exactly the names that are not already loaded (order and repeats: FilterUnseenByEntry) |
| DependencyList.FilterUnseenByEntry | src/Angie.js:178-180 | the filter as written decides each entry alone (kept exactly when not loaded) and keeps input order: filtering `a + b` gives the result for `a` followed by the result for `b` |
| DependencyList.Fresh | src/Angular.js:144-149 | the intended dedup keeps exactly the names that are not already loaded, and has no repeats |
| DependencyList.FreshSingle | src/Angie.js:178-180 | one entry alone is kept by the intended dedup exactly when it is not loaded |
| DependencyList.FreshByEntry | src/Angie.js:178-183 | the intended dedup keeps input order: deduplicating `a + b` gives the result for `a` followed by the result for `b` against the loaded names plus those kept from `a` |
| DependencyList.FreshKeepsNoDuplicates | src/Angie.js:178-183 | appending the fresh names to a list without duplicates gives a list without duplicates |
| DependencyList.FreshMatchesFilter | src/Angie.js:178-183 | when the input has no repeats, the as-written filter and the intended dedup agree |
| DependencyList.FilterSkipsAbsent | src/Angular.js:144-146 | adding a name the input lacks to the loaded list does not change the filter |
| DependencyList.FilterKeepsRepeats | src/Angie.js:178-183 | as written, `["angie-orm", "angie-orm"]` is recorded twice, where the intended dedup records it once |
| AngieApp.Angie.constructor | src/Angie.js:37-48 | all tables, the index, the queue and the dependency list start empty, `$$loaded` is false, and the invariant holds |
| AngieApp.Angie.TableOf | src/Angie.js:142 | `this[component]` is the table of that kind in the abstract store |
| AngieApp.Angie.Register | src/Angie.js:137-149 | the new store is `Registry.Register` of the old one; a warning is logged exactly when the name or component is falsy; the result is `this` |
| AngieApp.Angie.TearDown | src/Angie.js:152-159 | the outcome is `Registry.TearDownAsWritten` of the old store: it throws TypeError with nothing changed, or the new store is the intended tear-down of the old one and the result is `this` |
| AngieApp.Angie.Constant | src/Angie.js:62-64 | registers under `constants` |
| AngieApp.Angie.Service | src/Angie.js:65-72 | fails with `InvalidServiceConfig` exactly when `typeof obj` is not "object", changing nothing; otherwise registers under `services` and returns `this` |
| AngieApp.Angie.Factory | src/Angie.js:73-79 | fails with `InvalidFactoryConfig` exactly when `obj` is not a function with a prototype, changing nothing; otherwise registers under `factories` |
| AngieApp.Angie.Controller | src/Angie.js:80-82 | registers under `Controllers` |
| AngieApp.Angie.Directive | src/Angie.js:114-125 | fails exactly when `CheckDirective` fails on the definition (the injector's result for a function), changing nothing; otherwise registers the checked definition under `directives` |
| AngieApp.Angie.Config | src/Angie.js:126-136 | the queue becomes `Enqueue(old queue, fn)`; a warning is logged exactly when `fn` is not a function; the result is `this` |
| AngieApp.Angie.FireConfigs | src/Angie.js:305-316 | the queue becomes `AllFired` of the old queue; the log grows by exactly the unfired positions, in order; the invariant keeps each config run once |
| AngieApp.Angie.LoadDependencies | src/Angie.js:173-183 | the names added are `FilterUnseen(old list, deps)`, appended in order; for an input without repeats they are the intended `Fresh(old list, deps)`, and a list without repeats stays without repeats |
| AngieApp.Angie.Load | src/Angie.js:319-336 | a second call changes nothing. The first call appends `FilterUnseen(old list, deps)` to the dependencies, sets `$$loaded` and fires every unfired config |
| AngularApp.Angular.constructor | src/Angular.js:31-40 | all tables, the index, the queue and the dependency list start empty, and the invariant holds |
| AngularApp.Angular.TableOf | src/Angular.js:122 | `this[component]` is the table of that kind in the abstract store |
| AngularApp.Angular.Register | src/Angular.js:117-129 | the new store is `Registry.Register` of the old one; a warning is logged exactly when the name or component is falsy; the result is `this` |
| AngularApp.Angular.TearDown | src/Angular.js:132-139 | the outcome is `Registry.TearDownAsWritten` of the old store: it throws TypeError with nothing changed, or the new store is the intended tear-down of the old one and the result is `this` |
| AngularApp.Angular.Constant | src/Angular.js:54-56 | registers under `constants` |
| AngularApp.Angular.Service | src/Angular.js:57-59 | registers under `services`, without a type check |
| AngularApp.Angular.Controller | src/Angular.js:60-62 | registers under `Controllers` |
| AngularApp.Angular.Directive | src/Angular.js:94-105 | fails exactly when `CheckDirective` fails on the definition, changing nothing; otherwise registers the checked definition under `directives` |
| AngularApp.Angular.Config | src/Angular.js:106-116 | the queue becomes `Enqueue(old queue, fn)`; a warning is logged exactly when `fn` is not a function; the result is `this` |
| AngularApp.Angular.FireConfigs | src/Angular.js:231-242 | the queue becomes `AllFired` of the old queue; the log grows by exactly the unfired positions, in order |
| AngularApp.Angular.LoadDependencies | src/Angular.js:140-149 | the names added are `FilterUnseen(old list, deps)`, appended in order; for an input without repeats they are the intended `Fresh(old list, deps)`, and a list without repeats stays without repeats |

## Left out

- Directory listing, `require`, `System.import` and reading and parsing `AngieFile.json` are I/O. Whether a path is a directory is an input to the classifiers. What they do after choosing Load or Descend is not modelled.
- Promise chaining and timing are not modelled. That covers `$$load` setting `$$loaded` only after the dependencies resolve, and Angular resolving before sub-dependencies load. `Load` runs its steps in sequence.
- `$injectionBinder` is an external library and is not modelled:
  - a factory-style directive's definition is the parameter `produced`;
  - firing a config is an entry in a ghost log;
  - what a config function does is not modelled, including a config that enqueues more configs while the pass runs.
- Loading a dependency in `$$loadDependencies` is left out because it needs the file system and `require`. That step registers the dependency as a service and recurses into its sub-dependencies. The recursion reads `config.dependencies` where `$config.dependencies` is evidently meant (src/Angie.js:212). Only the dedup step is modelled.
- Log messages are modelled as a warning datatype, without their text or colouring.
- Names are strings. JavaScript's coercion of non-string names to property keys is not modelled, and the empty string is the only falsy name.
- Registering a component under the name `__proto__` is not modelled. In the source, that assignment changes an object's prototype instead of adding a key. Tearing down an unregistered `__proto__` is modelled: it is inherited from `Object.prototype` and throws like `toString`.
- Numbers are modelled without infinities.
- Admission.ApiViewFrom: strings are sequences of Unicode scalar values, so a JavaScript string with an unpaired surrogate (which `.` matches, as in "api\uD800view") is outside the model.
- Admission.CheckDirective: objects have no prototype chain in the model. `dir.type` is read from own properties only, so an inherited `type` (a getter on a class, say) is not seen. The model also assumes `hasOwnProperty` is always present; an object created with `Object.create(null)` has none, and the source's `dir.hasOwnProperty` call throws TypeError on it.
- Functions carry no own properties. A function-valued directive definition therefore never has a `Controller`.
- `directive` deletes `Controller` from the caller's own object. The model returns the changed definition as a new value, so aliasing is not captured.
- The module-level default registrations are left out; they do file reads and logging.
- src/Server.js, gulpfile.babel.js and the `$compile` template engine are not part of this model.

## Findings

| source | as written | input that shows it | evidently intended | confidence | as-written member | corrected member |
|---|---|---|---|---|---|---|
| src/Angie.js:152-158 (also src/Angular.js:132-139) | The guard `this.$$registry[name]` also finds names inherited from `Object.prototype`. For such a name, `this[type]` is undefined and the `delete` throws. | `$$tearDown('toString')` on a registry where `toString` was never registered throws a TypeError | Tearing down an unregistered name is a no-op | not executed | Registry.TearDownAsWrittenThrows | Registry.TearDown |
| src/Angie.js:178-183 (also src/Angular.js:144-149) | Each input name is compared only with the list as it was before the call, so a name repeated within one call passes the filter twice. | `$$loadDependencies(['angie-orm', 'angie-orm'])` on an empty list records `angie-orm` twice | "It will not load duplicate modules": each name is recorded once | not executed | DependencyList.FilterKeepsRepeats | DependencyList.FreshKeepsNoDuplicates |

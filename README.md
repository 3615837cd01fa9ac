# jfFactory in Dafny

A model of jfFactory, a named-class registry (a "factory"), in its two variants.

- **`src/Factory.js`** is the current `jfFactory`. Its private `#registry` object maps string keys to classes and enumerates them in insertion order.
  - `register` stores a class under a key. When the key is empty, it uses the class's own name instead.
  - `get` looks a key up. `registry()` hands out a copy of the registry.
  - `create` builds an instance of a class. The class is given directly or found by key. The public `initMethod` property selects one of two strategies:
    - When it is empty, the constructor receives the configuration.
    - Otherwise, the constructor receives nothing, and the init method receives the configuration if instances have it.
  - `unregister(key, method)` removes a key unless the class's static `method` returns exactly `false`.
  - `clear(method)` unregisters every key of a snapshot, in order.
  - The static `i(name)` hands out one factory per name from a module-level cache.
- **`index.js`** is the earlier `Factory`. It lacks `registry()` and `attach`, and three of the shared methods differ:
  - `register` uses the key exactly as given.
  - `unregister` deletes with no hook.
  - `clear(method)` either resets the registry or runs its own deletion loop.

Three modules:

- `Registry` (registry.dfy) holds what the two variants share:
  - registered classes as abstract values (`ClassRef`);
  - the ordered key→class table (`Table`: `order` lists the distinct keys in insertion order, `classes` maps them);
  - assignment and deletion of a property (`Put`, `Remove`);
  - the two construction strategies (`Construct`);
  - the specification of removal guarded by a hook (`Unregistered`, `UnregisterCalls`) and of clearing key by key (`ClearFrom`, `ClearCalls`), with the lemmas about them.
- `CurrentFactory` (current_factory.dfy) covers `src/Factory.js`. The class `Factory` updates its fields `order` and `classes` in place. The class `Instances` stands for the module-level `instances` object.
- `LegacyFactory` (legacy_factory.dfy) covers `index.js` in the same way. It also holds the specification of its `clear` loop as written, and the corrected loop.

How the source's dynamic features are modelled:

- A class is a `ClassRef`. It records an identity, its `name`, the callable members its instances expose, and, per static member name, whether that member is missing or not callable, returns `false`, or returns anything else.
- An instance is a record of its class, the argument its constructor received (or none) and the argument its init method received (or none).
- The first argument of `create` is a class (`ByClass`), a key (`ByKey`) or nothing usable (`NoTarget`).
- Static hook invocations are recorded in a ghost `hookLog`. This is how "invoked exactly once" is stated.

Edge cases of the code that the model keeps:

- Keys may be empty. `register` with an empty key falls back to `Class.name`, and when that is empty too the class is stored under `""` (`src/Factory.js:170`). The legacy `register` always takes the key as given (`index.js:138`).
- `unregister` with an empty method name still probes the static member named `""` (`src/Factory.js:200`). A class whose static `""` member returns `false` vetoes the removal.
- The two variants' `clear` differ; see "## Findings".

## Model

| member | source | states |
|---|---|---|
| `Registry.Lookup` | src/Factory.js:155-158 | reading a key gives the class bound to it, or absent exactly when the key is not registered |
| `Registry.Put` | src/Factory.js:168-171 | after assigning `k`, `k` reads back the new class and every other key reads as before. A new key is appended to the enumeration order. An existing key keeps its place. Keys stay distinct and match the map |
| `Registry.Without` | src/Factory.js:202 | deleting a key from the enumeration order leaves exactly the other keys. A missing key changes nothing |
| `Registry.Remove` | index.js:148-151 | after deleting `k`, `k` reads as absent and every other key reads as before. A well-formed table stays well formed, and deleting a missing key from it changes nothing |
| `Registry.WithoutAt` | src/Factory.js:202 | deleting the key at one position of a duplicate-free enumeration order leaves the keys before it and the keys after it, each in their original order |
| `Registry.ClearStep` | src/Factory.js:104-107 | one more step of the clearing loop is one more `unregister(k, m)` on the current registry, and adds that call's hooks to the log |
| `Registry.Unregistered` | src/Factory.js:194-205 | after `unregister(k, m)`, `k` is still present exactly when it was present and its class's static `m` is callable and returns `false`. When it stays, or was absent, nothing changes. When it goes, the result is `Remove(t, k)`, so the other keys keep their bindings and their order |
| `Registry.UnregisterCalls` | src/Factory.js:197-200 | `unregister(k, m)` invokes at most one hook. It invokes one, the static `m` of the class under `k`, exactly when `k` is present and that member is callable |
| `Registry.ClearFrom` | src/Factory.js:104-107 | unregistering the keys of a snapshot one after another keeps the table well formed |
| `Registry.ClearCallsMember` | src/Factory.js:104-107 | the hook calls of the clearing loop (`ClearCalls`: each step's `UnregisterCalls` on the table as that step finds it, in snapshot order) number at most one per snapshot key. Each is a call of the member `m` on behalf of a snapshot key |
| `Registry.ClearFromUntouched` | src/Factory.js:104-107 | a key outside the snapshot keeps its binding through the clearing loop |
| `Registry.ClearNextPresent` | src/Factory.js:104-106 | the key the loop visits next is still registered under its original class, so each snapshot key is examined with its original hook |
| `Registry.ClearPrefixClasses` | src/Factory.js:104-107 | after the first `i` snapshot keys: a key is present iff it was registered and either is not yet visited or vetoed. Present keys keep their classes |
| `Registry.ClearPrefixOrder` | src/Factory.js:104-107 | after the visited part of the snapshot, the vetoed keys among them stay in order in front of the unvisited rest |
| `Registry.ClearOutcome` | src/Factory.js:102-108 | `clear(m)` leaves exactly the keys whose class vetoes through `m`. They keep their classes and their relative order |
| `Registry.ClearEmptiesWithoutVeto` | src/Factory.js:102-108 | when no class vetoes, `clear(m)` leaves the registry empty |
| `Registry.ClearCallsOnce` | src/Factory.js:102-108 | `clear(m)` invokes the hooks in snapshot order, exactly once for each key whose class has a callable static `m` and never for the others. When every class has one, the number of calls equals the number of keys |
| `Registry.Resolve` | src/Factory.js:123-125 | the first argument of `create` resolves to nothing exactly when it is not a class and not a registered key. A class resolves to itself, and a key to the class bound to it |
| `Registry.Construct` | src/Factory.js:130-142 | with an empty init method name, the constructor gets `config` and no init method runs. Otherwise the constructor gets no argument, and the init method gets `config` exactly when instances have it |
| `CurrentFactory.Factory.constructor` | src/Factory.js:25-44 | a new factory has an empty init method name, an empty registry and no hook calls |
| `CurrentFactory.Factory.Register` | src/Factory.js:168-171 | the registry becomes the old one with `c` assigned under `name`, or under `c.name` when `name` is empty. No hook runs and `initMethod` is unchanged |
| `CurrentFactory.Factory.Get` | src/Factory.js:155-158 | returns the class under `name`, or absent exactly when `name` is not registered. Changes nothing |
| `CurrentFactory.Factory.RegistryCopy` | src/Factory.js:180-183 | returns a value equal to the current registry, in the same key order. As a value, it is independent of later changes on either side |
| `CurrentFactory.Factory.Create` | src/Factory.js:120-146 | `config` is optional and defaults to `undefined`. The result is absent exactly when there is no argument or the key is unregistered. Otherwise an instance of the given or registered class: with an empty `initMethod` the constructor got `config`; otherwise the constructor got nothing, and the init method got `config` exactly when instances have it |
| `CurrentFactory.Factory.Unregister` | src/Factory.js:194-205 | the registry becomes `Unregistered(old, name, hook)`, and the hook log grows by exactly `UnregisterCalls(old, name, hook)` |
| `CurrentFactory.Factory.Clear` | src/Factory.js:102-108 | the loop unregisters each key of the snapshot in order: the final registry is `ClearFrom` of the snapshot and the log grows by `ClearCalls`. Exactly the vetoed keys remain, in their old relative order |
| `CurrentFactory.Instances.constructor` | src/Factory.js:7 | the cache starts empty |
| `CurrentFactory.Instances.I` | src/Factory.js:219-227 | the first call with a name allocates a fresh, empty factory and stores it. Later calls return the identical object and change nothing. Every factory returned, new or cached, is `Valid()` and so usable. Different names never share a factory. Omitting the name is the same as `""` |
| `LegacyFactory.SelfProbed` | index.js:103-107 | one pass of the legacy clear loop removes key `k` exactly when its class's static member named `k` (not the method) is callable and does not return `false` |
| `LegacyFactory.SelfProbeCall` | index.js:104 | that pass calls the static member named after the key, at most once, exactly when it is callable |
| `LegacyFactory.SelfProbeFrom` | index.js:101-108 | running that loop over a snapshot keeps the table well formed |
| `LegacyFactory.SelfProbeCallsMember` | index.js:101-108 | the calls of the legacy loop (`SelfProbeCalls`: each pass's `SelfProbeCall` on the table as that pass finds it) number at most one per key. Each calls the static member named after its own key, so the method name never reaches a class |
| `LegacyFactory.SelfProbeStep` | index.js:101-108 | one more pass of the legacy loop is one more `SelfProbed` on the table the loop has left, and adds that pass's call |
| `LegacyFactory.SelfProbeOutcome` | index.js:96-109 | after the legacy loop, a key is gone exactly when it was visited and its class's static member named after the key returns something other than `false`. Remaining keys keep their classes |
| `LegacyFactory.SelfProbeNextPresent` | index.js:101-103 | the key the legacy loop visits next is still registered |
| `LegacyFactory.SelfProbePrefixOrder` | index.js:101-108 | after the legacy loop has visited part of the snapshot, the surviving visited keys (`Survivors`) stay in order in front of the unvisited rest, since `delete` keeps the other keys in insertion order |
| `LegacyFactory.SelfProbeWhole` | index.js:96-109 | over the whole snapshot, the legacy loop keeps exactly the keys without a callable self-named static member or whose member returns `false`. They keep their classes and their original relative order |
| `LegacyFactory.Factory.constructor` | index.js:24-48 | a new factory has an empty init method name and an empty registry |
| `LegacyFactory.Factory.Create` | index.js:60-86 | same two-strategy contract as the current `create`, with `config` optional: absent for no argument or an unregistered key; otherwise config goes to the constructor, or to the init method when one is named and present |
| `LegacyFactory.Factory.Clear` | index.js:96-114 | with no method name the registry is reset to empty. With one, the loop keeps exactly the keys whose class lacks a callable static member named after the key, or whose member returns `false`, in their original relative order (`Survivors`). It calls those members, as written |
| `LegacyFactory.Factory.SelfProbeKey` | index.js:103-107 | one pass of the loop as written over a registered key: the registry becomes `SelfProbed` of the old one, and the log grows by exactly `SelfProbeCall` |
| `LegacyFactory.Factory.ClearKey` | index.js:103-107 | one pass of the corrected loop over a registered key is exactly `unregister(k, m)` of the current variant: the same registry afterwards and the same hook call |
| `LegacyFactory.Factory.ClearAsDocumented` | index.js:89-114 | the corrected clear: with a method name, the result and the calls are those of the current variant's clear. Exactly the vetoing keys remain, and each hook runs once |
| `LegacyFactory.Factory.Get` | index.js:123-126 | returns the class under `name`, or absent exactly when `name` is not registered |
| `LegacyFactory.Factory.Register` | index.js:136-139 | the registry becomes the old one with `c` assigned under exactly `name`, with no fallback to the class name. Nothing else changes |
| `LegacyFactory.Factory.Unregister` | index.js:148-151 | deletes `name` unconditionally with no hook. A missing key changes nothing, and other entries and their order are untouched |
| `LegacyFactory.Instances.constructor` | index.js:7 | the cache starts empty |
| `LegacyFactory.Instances.I` | index.js:165-173 | allocates at most once per name and afterwards returns the identical factory, which is always `Valid()`. Different names never share one |
| `LegacyFactory.ClearProbesKeyNotHook` | index.js:104 | a key whose class has only a static `destroy` returning nothing survives the as-written `clear('destroy')` and `destroy` is never called. The documented clear calls it once and empties the registry |

## Left out

- `attach` (src/Factory.js:54-92). It installs property descriptors and bound methods on a foreign object. It is JavaScript object plumbing with no registry logic.
- JavaScript property-key semantics:
  - Keys are own keys of a map, so inherited names such as `toString` are not present.
  - Keys are assumed not to be integer-like, so enumeration order is insertion order.
  - Names passed to `i` are strings; number-to-string coercion is not modelled.
- Create: a call with no argument resolves to nothing (`NoTarget`). In JavaScript, `get(undefined)` looks up the key `"undefined"`, so this matches the source only when no class is registered under that key. Other non-class, non-string arguments, which JavaScript coerces to keys, are not modelled.
- Register: the registry holds classes only. Registering a non-constructible value is not modelled. So the `typeof _Class === 'function'` test in `create` always passes for a class found by key.
- Register: of the falsy names (`undefined`, `null`, `0`, …) only the empty string triggers the `Class.name` fallback.
- Real construction is not modelled. That covers constructor and init-method bodies, their side effects, their return values, hooks that throw, and hooks that mutate the registry while `clear` runs. Hook outcomes are fixed data of the class.
- `initMethod` is a public property in both variants, and so is `$$registry` in `index.js`. The model keeps the registry fields behind the class invariant `Valid()`. The cache `instances` is module-local (`src/Factory.js:7`, `index.js:7`) and reachable only through `i`. Its invariant holds every cached factory to the same `Valid()`. In `src/Factory.js` this is sound, because `#registry` is private (`src/Factory.js:25`) and changes only through the factory's own methods.
- LegacyFactory: direct writes to the public `$$registry` property (index.js:47), such as replacing a cached factory's registry from outside, are not modelled. The model changes the legacy registry only through the factory's methods.
- LegacyFactory.Factory.Clear: the ghost hook log records only the calls made by `clear`. The legacy `unregister` makes none.

## Findings

| source | as written | input that shows it | evidently intended | confidence | as-written member | corrected member |
|---|---|---|---|---|---|---|
| index.js:104 | `clear(method)` probes and calls `_Class[_name]`, the static member named after each key, not `_Class[method]`. It deletes a key only when that member exists and does not return `false` | one key `ClearWithMethod1` whose class has only a static `destroy` returning nothing. `clear('destroy')` keeps the key and never calls `destroy`, while the test scenario at tests/Factory.js:48-65 expects an empty registry and one call per key | call the static member named `method` on each class, and delete the key unless it returns exactly `false`. This is the doc comment at index.js:93-94 and what src/Factory.js:102-108 does | high (not executed) | `LegacyFactory.ClearProbesKeyNotHook` | `LegacyFactory.Factory.ClearAsDocumented` |

# keybinds — a verified model of the keybinding registry

`src/keybinds.js` is a small keyboard-binding registry for the browser. `keybinds.set(key, options)`
builds a `Bind` object (validated options, defaults for the modifier flags, an id taken from the
module-level counter `keybinds.index`) and appends it to the ordered list stored under the key in
either the global dictionary `keybinds.binds` or, when the options name an event target, that
target's own dictionary in `keybinds.targetBinds`. That target gets its own keydown listener the
first time it is seen. A one-character key (`key.length === 1`, which counts UTF-16 code units, so
a character beyond the Basic Multilingual Plane is a longer key) is stored lower-cased, and the same bind object is also
appended under the upper-case form, so that Shift does not hide it. `setOnce` registers a bind
whose action, after running the caller's callback, schedules the bind's removal with `setTimeout`.
`remove(bind)` splices the bind out of the global dictionary and reports whether it found it.
`invoke(e, dict)` runs, in list order and without stopping early, every enabled bind under the
event's key whose ctrl/shift/alt flags equal the event's, calling `preventDefault` /
`stopPropagation` on the event as the bind asks. The window listener and each target listener
call `invoke` only for keys their dictionary holds.

The model is imperative where the source is:

- `Binding.Bind` is a class whose `action` and `isEnabled` are mutable, as in the source.
- `Registry.Registry` is a class holding the counter, both dictionaries, the targets a listener
  was attached for, and the queue of pending `setTimeout` removals.
- Its methods update these fields with the same pushes, splices and loops as the source.
- Each method is proved against a specification function on values: `Insert` for the pushes of
  `set`, `RemoveOutcome` for `remove`, and `Firings` / `OnceRemovals` for `invoke`.
- The properties are lemmas about those functions.
- The class invariant `Valid()` is kept by every operation. It has three parts:
  - every one-character label comes with both its case forms;
  - every stored bind has an id below the counter;
  - exactly one listener exists per target dictionary.

Files:

- `wrappers.dfy` holds `Option` and `Result`.
- `keys.dfy` holds the JavaScript length of a key and the ASCII case mapping of one-character keys.
- `binding.dfy` holds the options, the merge of `set` with `Object.assign`, the constructor's
  validation, and the `Bind` class.
- `dispatch.dfy` holds the matching rule of `invoke`.
- `registry.dfy` holds the dictionaries, `set`, `setOnce`, `remove`, `invoke`, the listener
  guards and the timeout queue.
- `findings.dfy` holds two defects of the code as written and their corrections.

The registry follows the code as written, including where it departs from what its own comments
promise:

- `remove` is documented to return "whether the bind was removed successfully"
  (src/keybinds.js:125). It only looks at the global dictionary and only splices the list spelled
  like `bind.key`, so a bind on a letter key stays under the other case and a second `remove`
  returns true again. `Findings` states a removal that clears both case lists and proves it.
- A caseless one-character key with an existing list is pushed twice onto that list, so it fires
  twice per event. `Findings` states a push that stores each bind once per label and proves it.
- `invoke` iterates the live list (`for...of`). Actions are opaque here and never change a list,
  so iterating the live list and iterating a copy give the same firings in this model.

## Model

| member | source | states |
|---|---|---|
| Keys.JsLength | src/keybinds.js:81 | `key.length` counts UTF-16 code units: at least one and at most two per character |
| Keys.SingleIsLengthOne | src/keybinds.js:81 | the one-character test `key.length === 1` holds exactly for a key of one character below U+10000 |
| Keys.LowerKey | src/keybinds.js:82 | `toLowerCase` of a one-character key is again one character, and changes it exactly when it is an upper-case letter |
| Keys.UpperKey | src/keybinds.js:88 | `toUpperCase` of a one-character key is again one character, and changes it exactly when it is a lower-case letter |
| Keys.StorageKey | src/keybinds.js:81-82 | a one-character key is stored under its lower-case form, which is a fixed point of lower-casing; longer keys are stored as given |
| Keys.CaseForms | src/keybinds.js:82-94 | lower- and upper-casing a one-character key are idempotent and each undoes the other's case, and the key is one of its two forms |
| Binding.MergeOptions | src/keybinds.js:63 | a bare callback becomes `{ key, action }`; an options object keeps its action and target, and its own `key` property, string or not, overrides the key argument |
| Binding.Validate | src/keybinds.js:26-43 | fails exactly when the key is not a string (checked first) or the action is not a function; otherwise modifiers are true only when given true, `isEnabled` is true unless given false, the suppression flags are true only when given true, and key, action and target are copied |
| Binding.SetOptionsAccepted | src/keybinds.js:63-64 | `set` throws exactly for an options object with a non-string `key` or no callable `action`; the bind's key is the options' own string `key` if present, else the key argument |
| Binding.Bind.constructor | src/keybinds.js:31-43 | the new bind carries the given id and exactly the validated fields |
| Dispatch.ModifiersMatch | src/keybinds.js:161-163 | ctrl, shift and alt of the event each equal the bind's; there is no "don't care" |
| Dispatch.Eligible | src/keybinds.js:159-163 | a bind is considered only when enabled, and runs when its modifiers match |
| Dispatch.Firings | src/keybinds.js:158-175 | the firings of one pass over a list, in list order, at most one per entry |
| Dispatch.OnceRemovals | src/keybinds.js:108-116 | the removals one pass schedules, never more than the firings of the same pass |
| Dispatch.PassStep | src/keybinds.js:158-175 | visiting one more bind appends its firing, and its removal if it is one-shot, after those of the earlier binds |
| Dispatch.FiringsAppend | src/keybinds.js:158-175 | a pass over two lists fires the first list's binds and then the second's |
| Dispatch.FiringsExactlyEligible | src/keybinds.js:159-171 | a firing is produced exactly for an enabled bind whose ctrl, shift and alt equal the event's, and records that bind's id, action and `preventDefault`/`stopPropagation` flags |
| Dispatch.FiringsInListOrder | src/keybinds.js:158-175 | two eligible binds both fire, the earlier one in the list first: no early exit, registration order |
| Dispatch.OnceRemovalsFired | src/keybinds.js:108-116 | a bind queues its removal in a pass exactly when it is in the list, eligible, and carries the one-shot action |
| Registry.StoredUnder | src/keybinds.js:81-94 | the labels a key is stored under: both case forms of a one-character key, the key itself otherwise |
| Registry.Insert | src/keybinds.js:81-95 | the dictionary after `set`'s pushes: its labels are the old ones plus the labels the key is stored under |
| Registry.InsertAt | src/keybinds.js:84-95 | the list `set` leaves under each label: unchanged where the key is not stored; the old list plus the bind, or plus the bind twice when a caseless one-character key already had a list |
| Registry.InsertShape | src/keybinds.js:81-95 | `set` keeps both case forms present, adds exactly the key's labels, only appends (old entries keep their order), leaves every other list alone, and stores no bind but the new one |
| Registry.InsertAppendsOnce | src/keybinds.js:84-94 | for a key with case, or longer than one character, the same bind object ends up once at the end of every list the key is stored under |
| Registry.InsertThenDispatch | src/keybinds.js:84-94 | after `set`, an event on any label of the key fires what fired before and then the new bind, once, if it is eligible |
| Registry.Push | src/keybinds.js:81-95 | the pushes performed in place compute `Insert` |
| Registry.DictValidInsert | src/keybinds.js:84-95 | storing the bind numbered with the counter keeps a dictionary case-closed with all ids below the incremented counter |
| Registry.TargetsValidInsert | src/keybinds.js:71-76 | the same for every target dictionary, including the one written |
| Registry.ListenersAttach | src/keybinds.js:71-74 | a listener is attached for a target exactly when its dictionary is created, so there is one per target and none twice |
| Registry.StoreKeepsValid | src/keybinds.js:68-95 | storing a bind, in the global dictionary or in its target's, keeps the registry invariant for the incremented counter |
| Registry.Scanned | src/keybinds.js:128-130 | the list `remove` scans: a one-character key's lower-case list followed by its upper-case list, failing when either is missing; otherwise the key's own list, empty when missing |
| Registry.Splice | src/keybinds.js:139 | `splice(i, 1)` drops one entry when `i` is in range and nothing otherwise |
| Registry.SpliceMatches | src/keybinds.js:137-142 | the list under `bind.key` after the copy loop has visited a prefix of the copy: only shortened, and holding only its own entries |
| Registry.CountId | src/keybinds.js:135-141 | the `removed` counter after the loop has visited `n` entries, at most `n` |
| Registry.CountIdPositive | src/keybinds.js:137-144 | the counter of the copy scan is positive exactly when a visited entry has the bind's id |
| Registry.LiveScan | src/keybinds.js:130-142 | scanning and splicing the live list of a longer key only shortens it and keeps only its own entries |
| Registry.LiveScanCountPositive | src/keybinds.js:137-144 | the live scan counts a removal exactly when some entry has the bind's id |
| Registry.LiveScanNone | src/keybinds.js:137-142 | a live scan that meets no entry with the id changes nothing |
| Registry.LiveScanUnique | src/keybinds.js:137-142 | a live scan over a list holding the id once removes exactly that entry |
| Registry.RemoveOutcome | src/keybinds.js:127-145 | `remove` throws exactly when the scanned copy cannot be built; otherwise it keeps every label, changes no list but the one under `bind.key`, and adds no entry |
| Registry.RemoveReportsPresence | src/keybinds.js:132-144 | `remove` returns false when the scanned list is empty or missing; otherwise it returns true exactly when some scanned entry has the bind's id |
| Registry.SpliceMatchesNone | src/keybinds.js:137-142 | splicing at indices where the id does not occur leaves the list as it was |
| Registry.SpliceMatchesUnique | src/keybinds.js:137-142 | when the id occurs once in the scanned list, the loop splices exactly that entry |
| Registry.RemoveUniqueEntry | src/keybinds.js:127-145 | for a longer key holding the bind once, `remove` returns true and drops exactly that entry, leaving the rest in order and no entry with the id |
| Registry.SurrogatePairKey | src/keybinds.js:81-132 | a key of one character beyond U+FFFF has length 2: two `set` calls store it once each, and `remove` on a missing list returns false |
| Registry.RemoveKeepsValid | src/keybinds.js:127-145 | `remove` keeps the global dictionary case-closed and stores no new bind |
| Registry.Registry.constructor | src/keybinds.js:53-55 | the registry starts with empty dictionaries, counter zero, no target listener and nothing pending |
| Registry.Registry.ChooseDict | src/keybinds.js:68-79 | a bind with a target gets that target's dictionary, created empty with its listener attached the first time; without a target, the global one |
| Registry.Registry.Store | src/keybinds.js:68-95 | the bind is pushed into exactly the dictionary its target selects, and nothing else changes |
| Registry.Registry.Set | src/keybinds.js:62-98 | throws exactly as the constructor does, changing nothing; otherwise returns a fresh bind with the validated fields, an id equal to the old counter and above every stored id, increments the counter, stores the bind as `Insert` says in the chosen dictionary, and keeps the invariant |
| Registry.Registry.SetOnce | src/keybinds.js:105-120 | as `set`, with the returned bind's action replaced by the one-shot wrapper around the caller's callback |
| Registry.Registry.Remove | src/keybinds.js:127-145 | the copy or live-list loop computes `RemoveOutcome` of the global dictionary; the target dictionaries are untouched and the invariant is kept |
| Registry.Registry.Invoke | src/keybinds.js:152-176 | with no dictionary given, uses the global one; throws exactly when the event's key has no list; otherwise returns `Firings` of that list and queues `OnceRemovals` of it |
| Registry.Registry.Pass | src/keybinds.js:158-175 | the loop of `invoke` fires exactly `Firings` of the list and queues exactly `OnceRemovals` of it |
| Registry.Registry.WindowKeyDown | src/keybinds.js:193-195 | the window listener invokes the global dictionary only for a key it holds, and never throws |
| Registry.Registry.TargetKeyDown | src/keybinds.js:185-189 | a target's listener invokes that target's dictionary only for a key it holds, and never throws |
| Registry.Registry.RunNextTimeout | src/keybinds.js:116 | the oldest deferred removal runs `remove` on its bind, with the result `RemoveOutcome` predicts |
| Findings.OtherCase | src/keybinds.js:129 | the case form of a one-character key other than its own spelling, distinct from it when the key has case |
| Findings.CaselessKeyFiresTwice | src/keybinds.js:84-88 | as written, a second bind on a caseless one-character key is listed twice, so one event fires it twice |
| Findings.DigitKeyListed | src/keybinds.js:84-94 | as written, two `set("1", …)` calls leave the list `[b1, b2, b2]` |
| Findings.InsertIntended | src/keybinds.js:84-94 | the intended push adds exactly the key's labels |
| Findings.InsertIntendedAppendsOnce | src/keybinds.js:84-94 | the intended push appends the bind exactly once under every label of the key |
| Findings.InsertIntendedShape | src/keybinds.js:84-94 | the intended push keeps the dictionary case-closed and leaves other labels alone |
| Findings.InsertIntendedAgrees | src/keybinds.js:84-94 | the intended push equals the written one for every key with case or longer than one character |
| Findings.InsertIntendedFiresOnce | src/keybinds.js:84-94 | with the intended push, a new bind fires once per event on any of its labels, for caseless keys too |
| Findings.DoubledCopySplice | src/keybinds.js:129-141 | splicing a list at the matching indices of its doubled copy removes only the first occurrence |
| Findings.RemoveLeavesOtherCase | src/keybinds.js:128-144 | as written, removing a letter-key bind returns true but drops it only from the list spelled like `bind.key`; the other case list still holds it, an event on that label with the bind's modifiers still fires it, and a second `remove` again returns true |
| Findings.RemoveTakesOtherBind | src/keybinds.js:128-144 | as written, after `set("a", f)`, `set("A", g)` and `remove` of the first bind, removing the second bind takes the first one out of "A" and leaves the second under both labels |
| Findings.Without | src/keybinds.js:137-142 | the list without the entries carrying an id, and nothing else dropped |
| Findings.RemoveIntended | src/keybinds.js:127-145 | the intended removal keeps every label, changes only the key's labels, and reports true exactly when some list of the key held the id |
| Findings.RemoveIntendedClears | src/keybinds.js:127-145 | after the intended removal, the dictionary stays case-closed and no event on any label of the key fires the bind |
| Findings.RemoveIntendedOnce | src/keybinds.js:127-145 | a second intended removal of the same bind returns false and changes nothing |

## Left out

- `Bind.prototype.remove` (src/keybinds.js:49-51) is the same call as `Registry.Registry.Remove` on that bind and is not modelled separately.
- Registering DOM listeners with `addEventListener` is not modelled. The registry records the targets a listener was attached for. The listener bodies are the `WindowKeyDown` / `TargetKeyDown` methods.
- Stamping a target with a random `id` (`Math.random`) is not modelled. A target is identified by a caller-supplied id, and changes to a target's `id` after registration are not modelled.
- `window.setTimeout` is modelled as the `pending` queue. `RunNextTimeout` drains it one removal at a time, and timers never run during a pass of `invoke`.
- User callbacks are opaque (`Callback` handles), so a firing records what ran, not its effects.
  - Callbacks that call `set`, `remove` or `invoke`, or mutate the live list during the `for...of` pass, are not modelled.
  - Toggling `isEnabled` from outside is not modelled.
  - The one-shot wrapper calls the callback without the event and reads `options.action` when it runs. The model records the callback captured at registration.
- Case mapping is ASCII. Non-ASCII letters are treated as caseless.
- Keys are sequences of Unicode scalar values. A key holding a lone surrogate code unit cannot be written, so such keys are not modelled.
- Callbacks that throw are not modelled. In the source, a throwing action ends the `invoke` pass early, so the later binds do not run and the event's `preventDefault` / `stopPropagation` calls for the thrower are skipped. A throwing callback inside the one-shot wrapper also skips the deferred removal. `FiringsInListOrder` and `Pass` hold for callbacks that return.
- Dynamic typing is reduced to typed options:
  - "not a string" and "not a function" are absent values;
  - option flags are `true`, `false` or absent, so truthy non-boolean flags are not modelled;
  - `null` options (which `Object.assign` ignores, so the constructor throws for the missing action) behave like an options object with nothing set;
  - a bind's `preventDefault` / `stopPropagation` hold `undefined` rather than `false` when not given, and only their truthiness is modelled.
- Key labels that are properties of `Object.prototype` (for example `"toString"`) are not modelled. Those labels would make `in` and `binds[key]` see inherited members.

## Findings

| source | as written | input that shows it | evidently intended | confidence | as-written member | corrected member |
|---|---|---|---|---|---|---|
| src/keybinds.js:84-88 | a one-character key with an existing list is pushed onto `binds[key]` and then onto `binds[key.toUpperCase()]`, which is the same array when the character has no case | `set("1", f)` then `set("1", g)`: the list under "1" is `[b1, b2, b2]`, so a "1" event runs `g` twice | push once under each distinct label, so each bind fires once per event | high, not executed | Findings.CaselessKeyFiresTwice | Findings.InsertIntendedFiresOnce |
| src/keybinds.js:128-141 | `remove` scans a copy of the lower- and upper-case lists but splices only `binds[bind.key]`, at indices of that copy | `b = set("a", f)`, `remove(b)` twice: both return true, and `b` still fires from the "A" list on an "A" event without Shift (Caps Lock on) | remove every entry with the bind's id from both case lists; true only on the first call | high, not executed | Findings.RemoveLeavesOtherCase | Findings.RemoveIntendedClears |
| src/keybinds.js:128-141 | the indices taken from the copy can point at a different bind in the spliced list | `b0 = set("a", f)`, `b1 = set("A", g)`, `remove(b0)`, `remove(b1)`: `b0` is taken out of "A" and `b1` stays under both labels | only entries with the removed bind's id are dropped | high, not executed | Findings.RemoveTakesOtherBind | Findings.RemoveIntendedOnce |

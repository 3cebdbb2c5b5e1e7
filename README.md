# ValidatorJSChain, modelled in Dafny

`ValidatorJSChain` is a fluent validation chain for one value at a time.

- `setValue(label, value)` declares a labelled value.
- Checks and transforms from validator.js then run on it.
- Modifiers steer what runs: `optional`, `not`, `bail`/`unbail`, `if`/`endif`, `withMessage`, `default`.
- Every outcome goes into a keyed accumulator, `status.results`. Its shape is `{label: {value, <check>: {error, message?}}}`.
- The getters `errorCount`, `errors`, `values` and `results` derive views from that accumulator.

The project models the class in `src/index.ts`. It has six modules, one per file:

- `wrappers.dfy`, module `Wrappers`: `Option`.
- `js_values.dfy`, module `JsValues`: the JavaScript values the chain handles, JavaScript falsiness, `String(v)` (`ToText`), and the text normalisation of `setValue` (`Normalise`).
- `accumulator.dfy`, module `Accumulator`:
  - JavaScript objects as ordered association lists: `Find`, `Put` (assign in place, or append a new key), `Remove` (`delete`);
  - the outcome naming of checks: `Disambiguate`, `Record`, with the start-anchored prefix count of the pattern `^(name)(_d+)?`;
  - the derived views;
  - `addResultValues` as a function.
- `chain_state.dfy`, module `ChainState`: the state (the `input` and `status` fields) and one step function per public operation. These functions are the specification of the class. Beside them, the invariant `Valid`, and lemmas stating what each operation promises.
- `validator_chain.dfy`, module `ValidatorChain`: the class `ValidatorJSChain` itself.
  - Its fields are those of `input` and `status`.
  - Every mutating method is proved to move the fields to exactly the state its step function gives, and to keep `Valid`.
  - The getters and `addResultValues` are loops, proved against the views they compute.
  - The inner loops of the source are separate methods, each with its own loop invariant. They count erroring outcomes, collect erroring outcomes, count the keys that collide with a check's name, and convert a value.
- `chain_scripts.dfy`, module `ChainScripts`: sequences of calls. `Run` stops at the first throw. This module holds the promises that span several calls: the invariant over any script, bail, one-shot inversion, skip, branch scoping, label reuse, transform composition, and a worked example.

How the model represents the source:

- **Checks and transforms** are a name plus an uninterpreted function: `Value -> bool` for a check, `string -> Value` for a transform. An anonymous function's name is `""`, which records under `custom`.
- **Throws**: an operation that throws returns `Thrown(error)` together with the state at the throw point. For example, `setValue` has already cleared `skipped` before it checks the label.
- **An absent `status.results`** is the empty accumulator. The views give `{}`, `{}` and 0 on it, which is what the source gives when `results` is absent. Two guards read `!!results`. In `setValue` an absent and an empty accumulator give the same answer. In `withMessage` the guard is covered by the invariant: a recorded `lastValidator` implies that the label's entry exists.
- **`lastValidator`** is `undefined` in a new chain and after `clearResults`, and `null` after `setValue`. The model writes `None` for both. `withMessage` only tests whether it is set, so the two cannot be told apart there, but the `lastValidator` getter (src/index.ts:121-123) returns `undefined` or `null` where `LastValidator` returns `None`. This difference is not modelled.
- **Key order** of every object is insertion order. So the key renamed to `<name>_0` by assign-then-delete moves to the end, as in JavaScript.

## Model

| member | source | states |
|---|---|---|
| ValidatorChain.ValidatorJSChain.constructor | src/index.ts:44-61 | a new chain has no label, an undefined value, every flag clear, no `lastValidator`, an empty accumulator, and is valid |
| ValidatorChain.ValidatorJSChain.SetValue | src/index.ts:147-176 | moves the fields to exactly the state `ChainState.SetValue` gives, with its status, and keeps the invariant; an explicit `undefined` takes the default `''` |
| ValidatorChain.ValidatorJSChain.Declare | src/index.ts:154-173 | past the gate: throws `Invalid validation chain label` for an empty or known label, else stores the (optionally normalised) value as a new entry and resets the per-value flags, exactly as `ChainState.Declare` |
| ValidatorChain.ConvertToString | src/index.ts:158-163 | the three sequential conversions of `setValue` compute `Normalise` |
| JsValues.Normalise | src/index.ts:158-163 | the converted value is always text; text is kept; `null`/`undefined` give `''`; an object gives its JSON text; other values give `String(v)` |
| JsValues.NormaliseIdempotent | src/index.ts:158-163 | converting twice is converting once, and `String` of a converted value is its text |
| JsValues.NatToDecInjective | src/index.ts:208 | distinct counts give distinct decimal suffixes |
| ChainState.SetValueContract | src/index.ts:147-176 | `unbail` clears `bailed` before the gate; a bailed or suspended chain changes nothing else and does not throw; otherwise `skipped` is cleared even on a throw; it throws exactly for an empty label or one already in `results`; on success `input` is replaced by the value, with `undefined` taken as the default `''` and then converted when `convertToString` is set, `suspended`/`lastValidator`/`invertNext` are reset, `{value}` is appended for the label and no other label changes |
| ChainState.SetValueUndefined | src/index.ts:147 | passing `undefined` is the same call as passing `''`, so a declared label stores `''` with or without conversion |
| ChainState.SetValueValid | src/index.ts:147-176 | `setValue` keeps labels distinct and entries well formed |
| ChainState.DeclareValid | src/index.ts:165-173 | declaring a fresh label keeps the invariant |
| ValidatorChain.ValidatorJSChain.ValidatorMethod | src/index.ts:179-222 | moves the fields to exactly the state `ChainState.ValidatorMethod` gives and keeps the invariant |
| ValidatorChain.ValidatorJSChain.SeedEntry | src/index.ts:182-188 | creates `{value: input.value}` for the label only when the entry is missing |
| ValidatorChain.ValidatorJSChain.Execute | src/index.ts:192-221 | stores the check's outcome under its disambiguated key, sets `lastValidator` to that key and consumes `invertNext`, exactly as `ChainState.Execute` |
| ValidatorChain.NextKey | src/index.ts:192-209 | the counting loop and the rename compute `Disambiguate`: the number of keys starting with the name (`value` included), then `<name>` moved to `<name>_0` and the key `<name>_<count>` |
| ChainState.ValidatorMethodGated | src/index.ts:181-190 | with no label, or while bailed, suspended or skipped, a check changes nothing but creating the missing entry `{value}`, and leaves `invertNext` set |
| ChainState.ValidatorMethodRecords | src/index.ts:190-221 | an executed check stores `error = !verdict`, or `error = verdict` after `not()`, under the key `Record` returns, which starts with its name; exactly that key becomes `lastValidator`; `invertNext` is cleared; the value and every other label are untouched |
| ChainState.SeededEntry | src/index.ts:182-188 | seeding gives the entry the check then works on, and keeps the invariant |
| ChainState.ValidatorMethodValid | src/index.ts:179-222 | a check keeps labels distinct and entries well formed, and a recorded `lastValidator` comes with a current label that has an entry |
| Accumulator.RecordStores | src/index.ts:192-219 | whatever the entry holds, the new outcome is found under a key extending the name, the value is untouched and the entry stays well formed (distinct keys, none is `value`) |
| Accumulator.RepeatedCheckNaming | src/index.ts:192-209 | repeating one check: the first run keeps the plain name, the second renames it `<name>_0` and stores `<name>_1`, the k-th stores `<name>_<k-1>`; the number of outcome keys grows by the number of runs |
| Accumulator.FirstExecution | src/index.ts:198-219 | with no colliding key the outcome is appended under the plain name |
| Accumulator.SecondExecution | src/index.ts:200-209 | the second run renames the plain key to `<name>_0` and appends `<name>_1` |
| Accumulator.SecondExecutionMoves | src/index.ts:200-209 | with other keys before and after the plain key, the second run keeps those keys in order, moves the renamed `<name>_0` to the end and appends `<name>_1` |
| Accumulator.LaterExecution | src/index.ts:200-209 | after `<name>_0 … <name>_{k-1}` the next run appends `<name>_k` |
| Accumulator.PrefixCollision | src/index.ts:194-209 | a prior `isIPRange` makes `isIP` count one match and land on `isIP_1` |
| Accumulator.CountPrefixed | src/index.ts:196-199 | the count is at most the number of keys, and zero exactly when no key starts with the name |
| Accumulator.SuffixedProperties | src/index.ts:205-208 | a suffixed key starts with the name, differs from the name and from `value`, and distinct counts give distinct keys |
| Accumulator.PutFacts | src/index.ts:170-172 | assigning a property: its key now holds the value, other keys keep theirs, a new key goes last, an existing one stays in place, keys stay distinct |
| Accumulator.RemoveFacts | src/index.ts:206 | `delete`: the key is gone, every other key keeps its value and order, keys stay distinct |
| ValidatorChain.ValidatorJSChain.SanitizerMethod | src/index.ts:225-238 | moves the fields to exactly the state `ChainState.SanitizerMethod` gives and keeps the invariant |
| ChainState.SanitizerMethodContract | src/index.ts:225-238 | a gated transform changes nothing at all; an ungated one sets both `input.value` and the label's stored value to `f(String(value))`, keeps every outcome of the label and `lastValidator`/`invertNext`, and touches no other label |
| ChainState.SanitizerMethodValid | src/index.ts:225-238 | a transform keeps the invariant |
| ValidatorChain.ValidatorJSChain.Default | src/index.ts:241-247 | moves the fields to exactly the state `ChainState.Default` gives and keeps the invariant |
| ChainState.DefaultContract | src/index.ts:241-247 | it applies only to a falsy value and is not gated; the input gets `String(value)` (or `null`) and the stored value the raw value; with no entry it throws a TypeError after changing the input; no flag, label or `lastValidator` moves, and no other label changes |
| ChainState.DefaultValid | src/index.ts:241-247 | `default` keeps the invariant |
| ValidatorChain.ValidatorJSChain.Optional | src/index.ts:250-254 | moves the fields to exactly the state `ChainState.Optional` gives |
| ChainState.OptionalContract | src/index.ts:250-254 | `skipped` is set exactly for undefined, null or `''` (not for other falsy values), and nothing else changes |
| ValidatorChain.ValidatorJSChain.Not | src/index.ts:258-261 | moves the fields to exactly the state `ChainState.Not` gives |
| ValidatorChain.ValidatorJSChain.Bail | src/index.ts:264-270 | reads `errorCount` through the getter and moves the fields to exactly the state `ChainState.Bail` gives |
| ChainState.BailContract | src/index.ts:264-270 | `bailed` is set exactly when some label has an erroring outcome (or it was already set); when some outcome errs the call sets `bailed` and clears `suspended` and nothing else, and when none does it changes nothing |
| ValidatorChain.ValidatorJSChain.Unbail | src/index.ts:273-276 | moves the fields to exactly the state `ChainState.Unbail` gives |
| ValidatorChain.ValidatorJSChain.If | src/index.ts:280-284 | moves the fields to exactly the state `ChainState.If` gives |
| ChainState.IfContract | src/index.ts:280-290 | a no-op while bailed or suspended, otherwise suspends exactly when the condition is false; one `endif` clears the suspension of any number of `if`s |
| ValidatorChain.ValidatorJSChain.EndIf | src/index.ts:287-290 | moves the fields to exactly the state `ChainState.EndIf` gives |
| ChainState.FlagModifiers | src/index.ts:258-290 | `not` sets `invertNext`, `unbail` clears `bailed` and `endif` clears `suspended`, unconditionally and changing nothing else; `unbail` does not end a suspension |
| ValidatorChain.ValidatorJSChain.WithMessage | src/index.ts:293-308 | moves the fields to exactly the state `ChainState.WithMessage` gives, with its status, and keeps the invariant |
| ChainState.WithMessageContract | src/index.ts:293-308 | while not bailed or suspended (skipping does not matter), the message goes only onto the `lastValidator` outcome of the current label and only when that outcome is an error; a missing outcome throws a TypeError and leaves the chain as it was; nothing else changes |
| ChainState.WithMessageAttached | src/index.ts:300-306 | the case with a `lastValidator`: throws exactly for a missing outcome, sets the message only on an error |
| ChainState.WithMessageValid | src/index.ts:293-308 | `withMessage` keeps the invariant |
| ValidatorChain.ValidatorJSChain.AddResultValues | src/index.ts:133-144 | the loop, which reads the `values` view anew for each key, moves the accumulator to exactly `AddValues` and keeps the invariant |
| ValidatorChain.ValidatorJSChain.AddResultValue | src/index.ts:136-142 | one key is written as `{value}` when `overwrite` is set or its value in the `values` view is falsy; nothing else changes |
| Accumulator.AddValuesContract | src/index.ts:133-144 | for an object's distinct keys: a key is replaced wholesale by `{value}`, dropping its outcomes, exactly when `overwrite` is set or its stored value is falsy (an absent key reads as undefined); every other label keeps its entry |
| Accumulator.AddValuesPreserves | src/index.ts:133-144 | labels stay distinct, none disappears, entries stay well formed |
| ChainState.AddResultValuesValid | src/index.ts:133-144 | `addResultValues` keeps the invariant |
| ValidatorChain.ValidatorJSChain.ClearResults | src/index.ts:126-129 | moves the fields to exactly the state `ChainState.ClearResults` gives |
| ChainState.ClearResultsContract | src/index.ts:126-129 | all of `status` is reset and the accumulator emptied while `input` is kept, so any non-empty label can be declared again |
| ValidatorChain.ValidatorJSChain.ErrorCount | src/index.ts:66-78 | the nested loops count the erroring outcomes over all labels (`ErrorTotal`) |
| ValidatorChain.CountErrors | src/index.ts:72-76 | the inner loop counts the erroring outcomes of one label |
| Accumulator.ErrorTotalPositive | src/index.ts:66-78 | the count is positive exactly when some label holds an erroring outcome |
| ValidatorChain.ValidatorJSChain.Errors | src/index.ts:81-98 | the nested loops build `ErrorsView` |
| ValidatorChain.ErrorsOf | src/index.ts:87-94 | the inner loop collects the erroring outcomes of one label, in order |
| Accumulator.ErrorsIn | src/index.ts:87-94 | an outcome is kept exactly when it is in the entry and is an error |
| Accumulator.ErrorsViewFind | src/index.ts:81-98 | a label is in `errors` exactly when it has an erroring outcome, and then with its value and exactly those outcomes |
| Accumulator.ErrorsViewKeys | src/index.ts:81-98 | `errors` has no label the accumulator lacks |
| Accumulator.ErrorsViewTotal | src/index.ts:66-98 | counting the errors of the `errors` view gives `errorCount` |
| Accumulator.ErrorsInIdempotent | src/index.ts:87-94 | filtering errors twice is filtering once |
| ValidatorChain.ValidatorJSChain.Values | src/index.ts:101-108 | the loop builds `ValuesView` |
| Accumulator.ValuesViewFind | src/index.ts:101-108 | `values` has exactly the labels of the accumulator, each with its stored value |
| ValidatorChain.ValidatorJSChain.Results | src/index.ts:111-113 | the getter returns the accumulator's contents and changes nothing |
| ValidatorChain.ValidatorJSChain.CurrentValue | src/index.ts:116-118 | the getter returns the current value and changes nothing |
| ValidatorChain.ValidatorJSChain.LastValidator | src/index.ts:121-123 | the getter returns the key of the last executed check and changes nothing |
| ValidatorChain.ValidatorJSChain.Peek | src/index.ts:321-324 | the executor is called on the current value (what it returns is handed back, the source discards it); the chain is unchanged |
| ChainScripts.RunValid | src/index.ts:51-324 | every state that any sequence of calls reaches from a valid state is valid |
| ChainScripts.RunAppend | src/index.ts:51-324 | running two scripts one after the other is running their concatenation, stopping at a throw |
| ChainScripts.BailFreezesResults | src/index.ts:147-308 | once bailed, checks, transforms, messages, `if`s and new values change neither the input nor the accumulator and never throw; only `suspended`, `skipped` and `invertNext` can move |
| ChainScripts.InvertConsumedOnce | src/index.ts:216-220 | after `not()` the next executed check stores `error = verdict`, the one after it `error = !verdict`, and `invertNext` is clear |
| ChainScripts.CheckRecordsLast | src/index.ts:211-220 | the outcome of an executed check is what `lastValidator` points at |
| ChainScripts.SkipRecordsNothing | src/index.ts:250-254 | `optional()` on an undefined, null or empty value makes every later check and transform record nothing and replace nothing, and never throw; at most the label's missing entry `{value}` is created (as after `clearResults()`), so on a label that has its entry, as after `setValue`, the chain is left as it was apart from `skipped` |
| ChainScripts.BranchScoping | src/index.ts:280-290 | `if(c)` with `c` false, then any checks, transforms, messages, new values or nested `if`s, then one `endif()`, records nothing, replaces nothing and never throws; at most the label's missing entry `{value}` is created (as after `clearResults()`), so on a label that has its entry, as after `setValue`, the chain is left exactly as it was |
| ChainScripts.SeedingFacts | src/index.ts:182-188 | what a gated check leaves: at most the label's empty entry `{value}` is appended, nothing else changes, and doing it twice is doing it once |
| ChainScripts.DuplicateLabelRejected | src/index.ts:154-156 | declaring a label twice throws, unless `clearResults()` came in between |
| ChainScripts.TransformsCompose | src/index.ts:225-237 | after transforms f1..fn the value, and the label's entry in `values`, is `fn(String(…f1(String(v))))`; outcomes are kept and nothing else changes |
| ChainScripts.AgeScenario | src/index.ts:147-308 | `setValue('age', 17).isInt().min().withMessage(…).bail().max()`: "17" is stored, `min`'s error carries the message, `max` never runs, and one error is counted |

## Left out

- The validator.js catalog (src/index.ts:328-627) is not part of this model. Each of its methods is a one-line delegation to the check or transform wrapper, so the model takes a check as its name plus an uninterpreted `Value -> bool`, and a transform as an uninterpreted `string -> Value`. This includes `isPhoneNumber` and `toJSON`, and the float, date and boolean transforms.
- `custom` and `customSanitizer` (src/index.ts:311-318) are `ValidatorMethod` and `SanitizerMethod` called with the caller's own function.
- Extra arguments to checks and transforms are folded into the uninterpreted function.
- Exceptions thrown by a check or transform itself are not modelled. The TypeError that `default` throws when the label has no entry is modelled as `Thrown(TypeError)` with the state at the throw point, after the input has changed, and `Run` stops there.
- `peek`'s callback is a pure function in the model, so its side effects are not modelled. `Peek` calls it on the value and changes nothing.
- Numbers are integers. Floating point, `NaN` and `-0` are not modelled. An object is represented by its two texts, `JSON.stringify(v)` and `String(v)`, without modelling how they are computed.
- JavaScript puts integer-like keys (e.g. a label `"1"`) before other keys. The model keeps every object in plain insertion order.
- Prototype keys such as `__proto__` as labels are not modelled.
- Aliasing between the object `results` returns and the chain's own accumulator is not modelled: `Results` returns a value copy.
- Aliasing between the `errors` view and the accumulator is not modelled either. `errors` hands out the accumulator's own outcome objects (src/index.ts:92), so a later `withMessage` (src/index.ts:305) changes an object already returned. `Errors` returns a value copy.
- An absent `status.results` and an empty one are the same state in the model.
- ValidatorChain.ValidatorJSChain.ValidatorMethod: this requires a check name that the pattern `'^(' + name + ')(_d+)?'` reads literally, with no regular-expression metacharacter, and that is not `value`. Names with metacharacters, and the name `value`, are not modelled.
- ValidatorChain.ValidatorJSChain.Execute: requires the same literal check name as `ValidatorMethod`.
- ChainState.ValidatorMethodRecords: requires the same literal check name as `ValidatorMethod`.
- ChainState.ValidatorMethodValid: requires the same literal check name as `ValidatorMethod`. The excluded name `value` would overwrite the stored value with an outcome, so the invariant would not hold for it.
- ChainScripts.CheckRecordsLast: requires a literal check name, as `ValidatorMethod` does.
- ChainScripts.RunValid: requires every check of the script to have a literal name, for the same reason.
- ChainScripts.InvertConsumedOnce: requires literal check names, for the same reason.
- dist/index.js is not part of this model. It is build output of an older revision and its semantics differ from src/index.ts.

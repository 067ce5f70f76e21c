# eventdispatcher, modelled in Dafny

A model of the in-process publish/subscribe dispatcher in `dispatcher.go`. A
`Dispatcher` holds a fixed source and a table from `EventType` to the ordered
callbacks registered under that type. It has four operations:

- `Init` sets the source and empties the table.
- `Register` appends a callback.
- `Remove` deletes a matching callback.
- `Dispatch` builds one event `{etype, source, value}` and calls the type's
  callbacks in order. It stops at the first callback that returns a non-nil
  error and returns that error.

Modules:

- `events.dfy` (`Events`): the `uint16` event type as a newtype, the four
  predefined categories, their display names, the event record and `Option`.
  `None` is a nil error.
- `dispatcher.dfy` (`Dispatching`): the dispatcher as an immutable record and
  its operations as pure functions. `RemoveLoop` and `DispatchLoop` restate the
  loops as the program writes them and are proved equal to the functions. It
  also has a first-occurrence removal that fixes the defect recorded below,
  plus sequences of operations.
- `demo.dfy` (`Demo`): the call sequence of `main.go`, and fail-fast
  dispatch on the commit category.

Callbacks are opaque identities (`CallbackId = nat`). The program compares them
by code pointer, and two ids are the same callback exactly when they are equal.
Callbacks only matter through what they return. `Dispatch` takes an outcome
function from a callback and the event it receives to that callback's error,
if it has one.

`Remove` follows the code rather than first-occurrence removal. The loop has no `break`.
`append(callbacks[:idx], callbacks[idx+1:]...)` shifts the shared backing array
down in place while the `range` loop keeps reading that array, and the last cell
keeps its old value. `ShiftDown` models one such shift and `Scan` models the whole
loop. When the callback occurs once, the result is a plain deletion. With repeated
registrations it is not (see Findings).

## Model

| member | source | states |
|---|---|---|
| Events.Name | dispatcher.go:15-23 | each of the four declared categories maps to its entry in the name table (including the spelling "unkown"); other values are outside the table and have no name |
| Events.NamedCategories | dispatcher.go:8-17 | exactly the four `iota` constants 0..3 have a display name |
| Events.NameInjective | dispatcher.go:15-17 | two named categories have the same name iff they are the same category |
| Dispatching.Callbacks | dispatcher.go:74 | a category with an entry reads as that entry; a category without one reads as the empty sequence, as a missing key reads as a nil slice |
| Dispatching.Init | dispatcher.go:59-62 | the source is the given one, the table has no entries, and every category reads as having no callbacks |
| Dispatching.Register | dispatcher.go:63-67 | the category gets an entry equal to its old callbacks (empty if it had none) with the new callback at the end; every other category, and the source, are unchanged |
| Dispatching.ShiftDown | dispatcher.go:77 | one in-place `append` deletion keeps the array length, moves the cells after the index down by one, and leaves the last cell as it was |
| Dispatching.Scan | dispatcher.go:74-79 | the removal loop keeps the array length and the already-scanned prefix, only ever holds callbacks from the input, and reports a match iff the callback occurs in the unscanned part |
| Dispatching.RemoveAsWritten | dispatcher.go:74-79 | what the program stores under the category: the sequence unchanged when the callback is absent, otherwise one cell shorter, and never a callback that was not already there |
| Dispatching.Remove | dispatcher.go:68-80 | an absent callback leaves the dispatcher unchanged and creates no entry; otherwise the category loses exactly one cell; other categories and the source never change |
| Dispatching.RemoveLoop | dispatcher.go:72-79 | the loop with its in-place shifts stores a new sequence iff the callback occurs, and stores exactly what `Remove` puts in the table |
| Dispatching.ScanNoMatch | dispatcher.go:75-79 | if nothing matches from a position onwards, the loop leaves the array and the match flag unchanged |
| Dispatching.ScanToFirstMatch | dispatcher.go:75-78 | the loop passes over non-matching callbacks and makes its first deletion at the first match |
| Dispatching.RemoveAsWrittenPrefix | dispatcher.go:74-78 | for any number of occurrences, removal drops exactly one cell and keeps every callback before the first match in place |
| Dispatching.RemoveAsWrittenOnce | dispatcher.go:74-78 | a callback that occurs exactly once is deleted, and the other callbacks keep their relative order |
| Dispatching.RemoveExactlyOnce | dispatcher.go:68-80 | `Remove` of a callback registered once under a category deletes that registration, keeps the rest in order, shortens the sequence by one, and leaves other categories and the source untouched |
| Dispatching.RemoveFirst | dispatcher.go:74-78 | corrected removal: an absent callback leaves the sequence unchanged; otherwise the result holds the same callbacks minus one copy of the removed one |
| Dispatching.RemoveFirstAt | dispatcher.go:74-78 | corrected removal deletes exactly the cell at the first match |
| Dispatching.RemoveFirstOccurrence | dispatcher.go:68-80 | corrected `Remove`: absent callback means no change and no new entry; otherwise one copy leaves the category; other categories and the source are unchanged |
| Dispatching.RemoveAgreesWhenUnique | dispatcher.go:74-78 | when the callback is registered at most once, the program's `Remove` and first-occurrence removal give the same dispatcher |
| Dispatching.RemoveAsWrittenDuplicates | dispatcher.go:75-78 | removing 1 from `[1, 2, 1, 3]` stores `[2, 3, 3]`, while first-occurrence removal gives `[2, 1, 3]` |
| Dispatching.FanOut | dispatcher.go:89-94 | the called callbacks are a prefix of the registered ones; every callback called before the last one succeeded; nil means all were called and all succeeded; an error is exactly the last called callback's error |
| Dispatching.Dispatch | dispatcher.go:81-95 | the event's `Type()`, `Source()` and `Value()` are the category, the dispatcher's source and the payload; callbacks are called in registration order; nil is returned iff every registered callback succeeds, and then all of them were called |
| Dispatching.DispatchFirstError | dispatcher.go:89-92 | if callback k is the first to fail, exactly callbacks 0..k are called and the dispatch returns k's error |
| Dispatching.DispatchAllSucceed | dispatcher.go:89-94 | when every callback succeeds, including when none is registered, all are called in order and the result is nil |
| Dispatching.DispatchLoop | dispatcher.go:84-94 | the `range` loop with its early `return err` calls the same callbacks and returns the same error as `Dispatch` |
| Dispatching.Apply | dispatcher.go:59-95 | a dispatch leaves the dispatcher unchanged and returns exactly `Dispatch`'s result; a register appends to its category and a remove leaves what `Remove` leaves, and neither returns anything; no call changes the source |
| Dispatching.RunKeepsSource | dispatcher.go:59-95 | the source set by `Init` is the same after any sequence of register, remove and dispatch calls |
| Dispatching.RegisterAllOrder | dispatcher.go:63-67 | registering a list of callbacks appends them in order, duplicates included, and keeps the source |
| Dispatching.DispatchInRegistrationOrder | dispatcher.go:81-94 | after registrations on a fresh dispatcher, a dispatch where all callbacks succeed calls them in registration order, once per registration |
| Demo.DemoTable | main.go:6-24 | after the demo's registrations the message category holds `[h1, h2]`, and after removing `h1` it holds `[h2]`; the source stays "arni" |
| Demo.MainScenario | main.go:6-26 | the first dispatch calls `h1` then `h2` with the event (message, "arni", "First Hello World!") and returns nil; after `h1` is removed the second dispatch calls only `h2` and returns nil |
| Demo.FailFastScenario | dispatcher.go:89-92 | with a failing callback registered before a normal one on the commit category, only the failing one is called and its error is returned |

## Left out

- The `sync.RWMutex` and its `Lock`/`RLock` calls (dispatcher.go:54, 64-65, 69-70, 82-83) exist only for concurrency. Each operation is modelled as atomic.
- The callback identity comes from `reflect.ValueOf(cb).Pointer()` (dispatcher.go:73, 76), a runtime call. It is replaced by equality on opaque callback ids. Two closures built from the same function literal share a code pointer, so the caller would give them the same id.
- The `interface{}` source and payload are type parameters `S` and `V`. The error is a type parameter `E`. Nothing in the dispatcher inspects them.
- What callbacks do besides returning an error is left out, including printing and other side effects. A callback is modelled only by the outcome function. Re-entrant calls from a callback are not modelled either. A callback that calls `Register` or `Remove` deadlocks, because each takes the write lock (dispatcher.go:64, 69) while the outer `Dispatch` holds the read lock (dispatcher.go:82-83). A nested `Dispatch` takes a second read lock and proceeds unless a writer is waiting; it cannot change the table, so its effect on the callback's result fits in the outcome function. `Init` takes no lock (dispatcher.go:59-62), so calling it from a callback replaces the table and the source while the outer loop keeps iterating the old slice.
- The model has no nil table: every `Dispatcher` value holds a map, though only `Init` builds the empty one. In the program only `Register` panics on a nil map (dispatcher.go:66); `Remove` and `Dispatch` read it as empty, as the model reads any absent key.
- `Events.Name` covers only types 0..3. Indexing the four-entry name table with any larger value panics in the program, so the model makes `t < 4` a precondition instead of modelling the panic.
- The model has no nil callback. In the program `Register(t, nil)` is accepted (dispatcher.go:66), a later `Dispatch` panics when it calls the nil function (dispatcher.go:90), and `Remove(t, nil)` matches nil entries, whose code pointer is 0 (dispatcher.go:73, 76). Every `CallbackId` stands for a real function.
- Dispatching.Dispatch: a callback's result is fixed by its identity and the event it receives. The program also allows results that depend on hidden state: two closures from one function literal share an identity but can return different errors, and a stateful callback registered twice can succeed on its first call and fail on its second within one dispatch (dispatcher.go:89-91). The model cannot express either.
- `main.go`'s printing (main.go:10-11, 15-16) is I/O. The demo replays only the sequence of calls.

## Findings

| source | as written | input that shows it | evidently intended | confidence | as-written member | corrected member |
|---|---|---|---|---|---|---|
| dispatcher.go:75-78 | the removal loop does not stop after a match, and each `append` shifts the backing array that `range` is still reading | `Remove` of callback 1 when the category holds `[1, 2, 1, 3]` stores `[2, 3, 3]`: both copies of 1 are gone and callback 3, registered once, would be called twice per dispatch | delete one registration, the earliest, and leave the others as they were, giving `[2, 1, 3]` | high that duplicating 3 is unintended; medium that the earliest copy is the one meant; not executed | Dispatching.RemoveAsWrittenDuplicates | Dispatching.RemoveFirstOccurrence |

`Dispatching.Remove` and `Dispatching.Apply` keep the program's behaviour. The
corrected `Dispatching.RemoveFirstOccurrence` is proved to agree with it whenever
the callback is registered at most once (`Dispatching.RemoveAgreesWhenUnique`),
and that covers the sample program's calls.

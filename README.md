# JODConverter: the installed office manager holder

JODConverter converts documents by driving external office processes through an
`OfficeManager`. Converters that are built without an explicit office manager
fall back on a process-wide default, kept by
`org.jodconverter.office.InstalledOfficeManagerHolder`. That class is a single
static, initially `null` reference to an `OfficeManager` with two
`synchronized` static methods:

- `getInstance()` returns the reference;
- `setInstance(manager)` stores `manager`, with no check (so `null` clears the
  slot), and returns the reference it replaced.

The holder never starts, stops or inspects the manager it keeps.

This project models that holder in Dafny (`installed_office_manager_holder.dfy`,
module `OfficeManagerHolder`; `wrappers.dfy` holds the `Option` type, whose
`None` stands for Java `null`):

- `OfficeManager` is an opaque type with equality: the holder knows a manager
  only by its identity.
- `Step` is one atomic call, `Run` a sequence of calls from a given slot value,
  and `LastInstalled` an independent reference definition (the argument of the
  last `setInstance`, read from the end of the sequence).
- The class `Holder` has one mutable field `instance`, the static field. Its
  `GetInstance` is a read-only function and its `SetInstance` a method that
  modifies only the holder. Both are proved against `Step`.
- Lemmas state how calls compose: every call returns the manager given to the
  most recent earlier `setInstance` (or `null`); reads change nothing; a get
  after a set sees the set's argument; a set after a set returns the first
  argument; `setInstance(null)` clears the slot; re-installing the current
  manager changes nothing.
- `Replay` makes a sequence of calls on a `Holder` object and is proved to agree
  with `Run`, so the sequencing lemmas apply to the class itself.

## Model

| member | source | states |
|---|---|---|
| `OfficeManagerHolder.Holder.constructor` | jodconverter-core/src/main/java/org/jodconverter/office/InstalledOfficeManagerHolder.java:30 | The static field starts out `null`. |
| `OfficeManagerHolder.Holder.GetInstance` | jodconverter-core/src/main/java/org/jodconverter/office/InstalledOfficeManagerHolder.java:37-40 | `getInstance` returns the installed manager; as a `Get` step it leaves the slot as it was. |
| `OfficeManagerHolder.Holder.SetInstance` | jodconverter-core/src/main/java/org/jodconverter/office/InstalledOfficeManagerHolder.java:49-54 | `setInstance(m)` is a `Set` step: it returns the manager held before the call (`null` if none) and leaves `m` installed; it modifies nothing but the holder, so neither manager is touched. |
| `OfficeManagerHolder.Step` | jodconverter-core/src/main/java/org/jodconverter/office/InstalledOfficeManagerHolder.java:37-54 | A get returns the slot and keeps it; a set stores its argument unchecked and returns the slot it replaced. |
| `OfficeManagerHolder.Run` | jodconverter-core/src/main/java/org/jodconverter/office/InstalledOfficeManagerHolder.java:37-54 | Running a sequence of calls yields exactly one returned value per call. |
| `OfficeManagerHolder.FinalSlotIsLastInstalled` | jodconverter-core/src/main/java/org/jodconverter/office/InstalledOfficeManagerHolder.java:49-54 | After any sequence of calls the slot holds the argument of the last `setInstance`, or the initial value if there was none. |
| `OfficeManagerHolder.ReplyIsSlotBefore` | jodconverter-core/src/main/java/org/jodconverter/office/InstalledOfficeManagerHolder.java:37-54 | Every call, get or set, returns the value the slot held just before it. |
| `OfficeManagerHolder.ReplyIsLastInstalled` | jodconverter-core/src/main/java/org/jodconverter/office/InstalledOfficeManagerHolder.java:37-54 | Every call returns the argument of the most recent earlier `setInstance`, or the initial value if there was none. |
| `OfficeManagerHolder.NullBeforeFirstSet` | jodconverter-core/src/main/java/org/jodconverter/office/InstalledOfficeManagerHolder.java:30-40 | From the initial `null` field, every call made before the first `setInstance` returns `null`. |
| `OfficeManagerHolder.SetsOnlyAppend` | jodconverter-core/src/main/java/org/jodconverter/office/InstalledOfficeManagerHolder.java:49-54 | Keeping only the `setInstance` calls of a sequence preserves their order: the sets of a concatenation are the sets of each part, in turn. |
| `OfficeManagerHolder.GetsDoNotChangeSlot` | jodconverter-core/src/main/java/org/jodconverter/office/InstalledOfficeManagerHolder.java:37-40 | Dropping every `getInstance` from a sequence of calls does not change the final slot. |
| `OfficeManagerHolder.ReadsBetweenAgree` | jodconverter-core/src/main/java/org/jodconverter/office/InstalledOfficeManagerHolder.java:37-40 | If only reads lie between calls i and j, call j returns what call i returned. |
| `OfficeManagerHolder.RepeatedReadsAgree` | jodconverter-core/src/main/java/org/jodconverter/office/InstalledOfficeManagerHolder.java:37-40 | Repeated `getInstance` calls with no `setInstance` in between return the same manager. |
| `OfficeManagerHolder.SeesLatestSet` | jodconverter-core/src/main/java/org/jodconverter/office/InstalledOfficeManagerHolder.java:49-54 | A call that follows `setInstance(m)` with only reads in between returns `m`, whether it is a get or a further set. |
| `OfficeManagerHolder.GetAfterSet` | jodconverter-core/src/main/java/org/jodconverter/office/InstalledOfficeManagerHolder.java:37-54 | `setInstance(m)` then `getInstance()` returns the previous value, then `m`, and leaves `m` installed. |
| `OfficeManagerHolder.SetAfterSet` | jodconverter-core/src/main/java/org/jodconverter/office/InstalledOfficeManagerHolder.java:49-54 | `setInstance(a)` then `setInstance(b)` makes the second call return `a` and leaves `b` installed. |
| `OfficeManagerHolder.SetNullClears` | jodconverter-core/src/main/java/org/jodconverter/office/InstalledOfficeManagerHolder.java:49-54 | `setInstance(null)` is accepted, returns the previous value, and a following `getInstance` returns `null`. |
| `OfficeManagerHolder.Replay` | jodconverter-core/src/main/java/org/jodconverter/office/InstalledOfficeManagerHolder.java:37-54 | Making a sequence of `getInstance`/`setInstance` calls on the holder object leaves it in the state, and returns the values, that `Run` gives, so every lemma about `Run` holds of the class. |
| `OfficeManagerHolder.SetSameIsIdempotent` | jodconverter-core/src/main/java/org/jodconverter/office/InstalledOfficeManagerHolder.java:51-53 | Calling `setInstance` with the manager already installed returns that manager and leaves the slot unchanged. |

## Left out

- `synchronized` (lines 37 and 49): each call is modelled as one atomic sequential step; locks and concurrent callers are not modelled.
- The private constructor that throws `AssertionError` (lines 57-59): the Java class is never instantiated; one `Holder` object stands for its static state.
- `OfficeManager` itself (its process pool, start/stop, task execution): its source is not part of this model, and the holder only stores a reference to it, so it is an opaque type.
- `DefaultConverter`'s use of the holder as a fallback: not part of this model.
- The integration tests (`ConvertITest`, `StressITest`, `DefaultFilterChainITest`): they drive real office processes, threads, the file system and process exit, and hold no logic of the holder.

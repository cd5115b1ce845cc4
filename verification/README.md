# Persona form: session slots and batch submit

This project models the bookkeeping of the Streamlit "Character Persona
Generator" script (`app.py`). Everything else in that script calls Streamlit,
Google auth or gspread.

The modelled parts are:

- **Session slots.** The script keeps a map, `persona_inputs`, from keys
  such as `name_0` or `profession_3` to the text typed so far. On every
  rerun the script first deletes each key whose numeric suffix is at least
  the requested count N. Then it creates every missing key of slots
  `0..N-1` with `""`. The form then writes the typed values back.
- **Batch submit.** The script walks slots `0..N-1` in order. It skips any
  slot whose name or profession is empty, with a warning. Every other slot
  becomes a persona with `id = i + 1`. That persona is collected, and then
  appended as the row `[id, name, dob, profession, description]` to the
  sheet. An append may fail; the failure is reported and the walk goes on.

Modules:

- `Keys` (`keys.dfy`) holds the string side of the keys: `MakeKey` builds
  `f"{field}_{i}"`, and `ParseIndex` is `int(key.split("_")[-1])`. It also
  holds `Split`/`Join` and decimal rendering and parsing, with their round
  trips.
- `Session` (`session.dfy`) holds the slot map: pruning (`Prune`, and the
  loop `PruneSlots`), lazy initialisation (`Populate`, and the loop
  `InitSlots`), the rerun `Sync`, and the form's write-back (`Record`).
- `Batch` (`batch.dfy`) holds the submit fold `Submit`, its rows
  (`SavedRows`) and the properties of a batch.
- `Wrappers` (`wrappers.dfy`) holds `Option`.

The sheet is an abstract `seq<Row>` with `Row = (int, string, string, string, string)`.
Whether an append fails is decided by a parameter `failed`. It is the set of
persona ids whose append raises, and it only decides whether that row lands.

The number input bounds the count to 1..10 (`min_value=1, max_value=10` at
`app.py:55`); `Session.MaxPersonas` is 10, and `Session.Count` is the subset
type `1..10`.

## Model

| member | source | states |
|---|---|---|
| Keys.FieldName | app.py:68-75 | the four field names used in keys are non-empty and contain no underscore |
| Keys.Split | app.py:63 | `split("_")` yields at least one piece, and no piece contains the separator |
| Keys.JoinSplit | app.py:63 | joining the pieces of `split("_")` with the separator gives back the original key, so the split loses nothing |
| Keys.NatToString | app.py:68-75 | the index rendered in `f"{field}_{i}"` is non-empty and all decimal digits, so it contains no underscore |
| Keys.ParseNatRoundTrip | app.py:63 | `int()` applied to the decimal rendering of `i` gives back `i` |
| Keys.KeySplit | app.py:63 | splitting `f"{field}_{i}"` on `_` gives exactly `[field, str(i)]`, because no field name contains an underscore |
| Keys.KeyIndexRoundTrip | app.py:63 | the suffix parse `int(key.split("_")[-1])` of a key built for slot `i` gives back `i` |
| Keys.KeyLayout | app.py:68-75 | the key `f"{field}_{i}"` is the field name, one underscore and `str(i)`, and that underscore is the only one in the key |
| Keys.ParseIndex | app.py:63 | a key without an underscore is converted whole, as `split("_")[-1]` returns the whole string |
| Keys.ParseIndexSuffix | app.py:63 | whatever precedes the last underscore, the index is `int()` of the text after it |
| Keys.MakeKeyInjective | app.py:68-75 | two keys are equal exactly when they have the same field and the same index, so slots never share a key |
| Session.WellFormedParses | app.py:61-64 | if every key was built by the script, then every key's suffix converts to an integer, so the pruning loop never raises |
| Session.Prune | app.py:61-64 | pruning keeps exactly the entries whose index is below N, with their values unchanged, and leaves no key with index N or more |
| Session.PruneSlots | app.py:61-64 | the delete-while-iterating loop, visiting the keys in any order, deletes exactly the keys with suffix at least N and leaves every other entry as it was |
| Session.AddMissing | app.py:68-69 | `if key not in state: state[key] = ""` adds the key when missing and never overwrites an existing value |
| Session.AddSlot | app.py:68-75 | one loop iteration adds the four keys of slot `i`, writes only `""` into new entries, and keeps the existing values |
| Session.Populate | app.py:67-75 | after lazy init all four keys exist for every slot below N; existing values are kept; new entries are `""` |
| Session.InitSlots | app.py:67-75 | the initialisation loop adds exactly the missing keys of slots `0..N-1` with `""` and never overwrites an existing entry |
| Session.Sync | app.py:57-75 | one rerun of the sync block (prune, then initialise) leaves all four keys of every slot below N |
| Session.SyncIndicesBelow | app.py:61-75 | after a sync every key still parses, and no key has an index of N or more |
| Session.SyncExactSlots | app.py:57-75 | starting from script-built keys, a sync leaves exactly the keys of the first N slots; retained entries keep their value and new ones hold `""` |
| Session.SlotKeysCount | app.py:67-75 | the first N slots have exactly `4 * N` distinct keys |
| Session.SyncPreservesWellFormed | app.py:57-75 | a sync keeps every key a script-built slot key, so the suffix parse cannot fail on any later rerun |
| Session.PrunePopulate | app.py:61-75 | pruning below a smaller count after initialising a larger one equals initialising the pruned map |
| Session.SyncIdempotent | app.py:57-75 | re-running the sync block with the same count leaves the state unchanged, so typed values are never reset |
| Session.ShrinkAfterGrow | app.py:55-75 | lowering the count after raising it leaves exactly the state that lowering it directly would, so values of the retained slots survive |
| Session.WriteSlot | app.py:80-91 | given that the four keys of slot `i` exist (each widget reads its key first), writing the slot stores the four typed values so that they read back, adds no key, and leaves every other key unchanged |
| Session.WriteSlotKeepsOthers | app.py:80-91 | writing slot `i` does not change what slot `j != i` reads back |
| Session.Record | app.py:78-91 | given that every key of the first N slots exists (each widget reads its key before the write), the form loop overwrites exactly those keys, adds no key, and leaves every other entry unchanged |
| Session.RecordReadBack | app.py:78-101 | after the form loop, reading slot `i` gives exactly the values typed into it |
| Session.RerunState | app.py:57-91 | after sync and form, the state holds exactly the keys of the first N slots, each holding what was typed, and every key is still a slot key |
| Batch.MakePersona | app.py:107-113 | the persona built from slot `i` has `id = i + 1` and carries the slot's four values |
| Batch.ToRow | app.py:37-43 | the appended row holds the persona's id, name, dob, profession and description, in that column order |
| Batch.Save | app.py:33-46 | an append never changes existing rows and adds at most one row; it adds one exactly when the append does not fail, and that row is the persona's |
| Batch.ReadSlots | app.py:97-101 | the submit loop reads, for each of the first N slots in order, the four values stored under that slot's keys |
| Batch.SavedRows | app.py:114-115 | saving the collected personas in turn adds at most one row per persona |
| Batch.SavedRowsLanded | app.py:114-115 | saving the personas in turn lands exactly the rows of those whose append does not fail, in order, as a front-to-back filter defines them |
| Batch.SavedRowsMembers | app.py:114-115 | a row is on the sheet after the saves exactly when it is the row of a collected persona whose append did not fail |
| Batch.SavedRowsNoFailures | app.py:37-46 | when no append fails, every persona's row `[id, name, dob, profession, description]` lands, in order |
| Batch.Submit | app.py:95-115 | each slot is either collected or skipped; each collected persona is built from its complete slot with `id = i + 1`; ids strictly increase in submission order |
| Batch.SubmitCollectsComplete | app.py:97-114 | every slot with a name and a profession yields a persona, so later slots are still processed after a skip |
| Batch.SubmitSkipsIncomplete | app.py:103-105 | the warned-about slots are exactly those with an empty name or profession |
| Batch.SubmitAppends | app.py:114-115 | the sheet only grows, by the rows of the collected personas whose append succeeded, in collection order |
| Batch.SavedRowsComplete | app.py:103-115 | personas with a name and a profession only ever produce rows with a name and a profession |
| Batch.SubmitRowsComplete | app.py:103-115 | a slot with an empty name or profession never reaches the append: every appended row has both |
| Batch.NoFailuresAllLand | app.py:37-43 | with no failed append, the sheet grows by exactly one row `[id, name, dob, profession, description]` per collected persona, in order |
| Batch.PersonasIgnoreSaveFailures | app.py:114-115 | a persona is collected before its save is attempted, so failed saves change neither the collected personas nor the skipped slots |
| Batch.SubmitSession | app.py:55-108 | with the count bounded to 1..10, every persona id lies in 1..10 |
| Batch.RerunThenSubmit | app.py:57-101 | after a rerun in which values were typed, submitting sees exactly those values |
| Batch.ExampleBatch | app.py:95-115 | Ana/Pilot, a nameless Chef and Bo/Clerk give two personas (ids 1 and 3) and two rows, and slot 2 is skipped |
| Batch.ExampleFailedSave | app.py:95-118 | in the same batch, when Ana's append fails, both personas are still collected and only Bo's row lands |

## Left out

- Streamlit rendering: `set_page_config`, `title`, `number_input`, `subheader`, the form and its widgets, and all messages (app.py:51-55, 77-93, 104, 117-118). The values the widgets return are parameters (`inputs`, `n`), and only the form's write-back of those values to the session state is modelled (`Session.Record`).
- Credential assembly and `gspread.authorize` (app.py:8-28), which read configuration and call foreign code. `save_persona_to_gsheet` calls `get_gsheet_client` outside its `try`. A credential failure there ends the run through `st.stop()` instead of being caught like an append failure. The model assumes the client is always obtained.
- The remote calls `client.open("prompts_generated")`, `append_row` and `get_all_records`, and the "View All Personas" read-back (app.py:36-37, 123-130). The sheet is an abstract sequence of rows, and an append failure is the parameter `failed`.
- Exception contents and success/error message text (app.py:27, 44-46, 104, 118). Only whether an append succeeded is modelled. The skipped slots are recorded by their 1-based number, which is the number the warning shows.
- Keys.ParseNat: accepts only plain ASCII decimal digits. Python's `int()` also accepts a sign, surrounding whitespace and non-ASCII digits. Every key is built by `MakeKey`, and `Session.SyncPreservesWellFormed` with `Session.RerunState` shows that stays true, so those inputs never reach the parse.
- Session.Prune: requires every key's suffix to parse. For other keys Python raises `ValueError` part-way through the loop, and the model does not describe that partial state. The requirement always holds from the initial empty map (see the previous line).
- Session.PruneSlots: iterates over the keys in an arbitrary order instead of the dict's insertion order. The result does not depend on the order.
- Batch.SubmitSession: requires all four keys of every slot below N (through `Batch.ReadSlots`), where Python would raise `KeyError` at app.py:98-101. `Session.Sync` establishes this before every submit.
- Session.WriteSlot: requires all four keys of slot `i`, where the widget's `value=` lookup would raise `KeyError` at app.py:81-90.
- Session.Record: requires all four keys of every slot below N, where the widget's `value=` lookup would raise `KeyError` at app.py:81-90. `Session.Sync` establishes this before the form runs.
- Other writers and partial failures: every session appends to the same sheet (`client.open("prompts_generated")`, app.py:36). `Batch.SubmitAppends` and `Batch.NoFailuresAllLand` describe the sheet as if this batch were its only writer. An append that raises is taken to mean that its row did not land; an append that writes the row and then reports an error, or a failure of the `st.success` call that follows it inside the same `try` (app.py:44), is not modelled.
- Integer widths: Python integers are unbounded and ids are at most 10, so there is no wrap-around to model.

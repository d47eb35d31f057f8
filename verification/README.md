# SQLiteMemory message log, modelled in Dafny

`SQLiteMemory` (GeneralAgent/memory/sqlite_memory.py) is the working memory of a
conversational agent: a SQLite table `messages(id INTEGER PRIMARY KEY
AUTOINCREMENT, role, content, timestamp)` holding role-tagged turns. It
supports adding a turn (`add_message`, with multimodal content encoded to JSON
blocks), merging text into a turn by newline concatenation (`append_message`,
targeted at an id or at the latest turn of a role), rolling back by id
threshold (`recover`), reading every turn back with best-effort JSON decoding
(`get_messages`), and seeding a store when it is constructed.

The model is functional. The table is `Table.Store(rows, nextId)`: rows in
ascending id order, and the AUTOINCREMENT counter, one above the largest id
ever issued. The calls that can raise return `Memory.Step(store, result)`:
the table the call leaves behind, and what it returned or raised.
`Memory.Recover`, which cannot raise, returns only the new table, and
`Memory.GetMessages` returns only the entries it reads. So "a raising call leaves
the table unchanged" and "seeding leaves the earlier seeds in place" are
ordinary postconditions. The SQL statements are modelled by what they mean on
any row list (`UPDATE ... WHERE id = ?` updates every row with that id,
`DELETE ... WHERE id > ?` keeps the rows at or below the threshold). Their
positional consequences are proved under the table invariant `Table.Valid`:
ids strictly increasing, positive, below the counter.

The collaborators the store calls but does not define are fields of
`Memory.Env`: the image encoder (`encode_image`), `json.dumps` and
`json.loads`. Their only assumed property, that parsing the serialisation of
an encoded block list gives the list back, is the predicate
`Memory.DumpsRoundTrips`. It appears as a hypothesis of the lemma that needs
it.

Modules: `Wrappers` (Option, Result), `Json` (parsed JSON values),
`Multimodal` (content items, blocks, the encoding and its inverse), `Table`
(rows, the counter, the SQL statements), `Memory` (the store's operations and
seeding), `Properties` (lemmas relating calls), `Trace` (sequences of calls
and id freshness), `Scenarios` (the module's own usage scenario).

Behaviours the model keeps as the code has them (the first one with a
version-dependent return value):
- Targeted `append_message` returns `cursor.lastrowid`, not the target id. No
  INSERT runs on a merge path, so the model returns `None` there, which is the
  value the sqlite3 documentation gives for a fresh cursor. What a merge path
  really returns depends on the CPython version (see "## Left out"). Only the
  fallback insert of the untargeted mode is sure to return the id of the row
  the call wrote.
- Seeding is not all-or-nothing. Validation checks only shape and role. A seed
  whose content list holds a dict with neither `image` nor `text` raises inside
  `add_message`, after the earlier seeds were committed.
- `append_message` does not check the role. Its fallback insert can store a
  row with any role, so roles are strings, not a three-value enum.
- Merging into a row that holds multimodal content concatenates onto the
  stored JSON text. The model does the same string concatenation.

## Model

| member | source | states |
|---|---|---|
| Table.Empty | GeneralAgent/memory/sqlite_memory.py:20-31 | a freshly created table has no rows, satisfies the table invariant and its counter is 1, so numbering starts at 1 |
| Table.Insert | GeneralAgent/memory/sqlite_memory.py:52-55 | an INSERT appends exactly one row at the end, keeps every existing row, and gives it an id at or above the counter, so it is above every id ever issued; the invariant is kept |
| Table.FindId | GeneralAgent/memory/sqlite_memory.py:63-64 | the lookup by id finds a position holding that id, or reports none exactly when no row has it; on an ordered table that position is the only one with the id |
| Table.LatestOfRole | GeneralAgent/memory/sqlite_memory.py:74-75 | the lookup finds a row of that role with no later row of that role (the highest id of that role on an ordered table), or none exactly when no row has the role |
| Table.SetContent | GeneralAgent/memory/sqlite_memory.py:69 | the UPDATE changes only the content of rows with that id; row count, ids, roles and all other rows are kept |
| Table.SetContentAt | GeneralAgent/memory/sqlite_memory.py:79 | on an ordered table, updating by the id at position i changes exactly position i |
| Table.DeleteAbove | GeneralAgent/memory/sqlite_memory.py:104 | on an ordered table the rows the DELETE keeps are a prefix, and a position survives iff its id is at most k |
| Table.DeleteAboveMembers | GeneralAgent/memory/sqlite_memory.py:104 | on any row list the DELETE keeps exactly the rows with id at most k |
| Table.ContentUpdateKeepsOrder | GeneralAgent/memory/sqlite_memory.py:69 | changing one row's content keeps the ids in ascending order |
| Table.UpdateThenCut | GeneralAgent/memory/sqlite_memory.py:68-71 | on an ordered table, updating the row at position i and deleting above its id leaves rows 0..i-1 unchanged followed by the updated row i |
| Table.DeleteAboveAt | GeneralAgent/memory/sqlite_memory.py:71 | on an ordered table, deleting above the id at position i keeps exactly positions 0..i |
| Table.DeleteAboveIdempotent | GeneralAgent/memory/sqlite_memory.py:104 | deleting above k and then above any k2 >= k removes nothing more |
| Table.DeleteAboveNothing | GeneralAgent/memory/sqlite_memory.py:104 | deleting above k is the identity when no id exceeds k |
| Table.SetContentValid | GeneralAgent/memory/sqlite_memory.py:69 | the UPDATE keeps the table invariant |
| Table.DeleteAboveValid | GeneralAgent/memory/sqlite_memory.py:71 | the DELETE keeps the table invariant |
| Multimodal.EncodeItems | GeneralAgent/memory/sqlite_memory.py:37-49 | encoding fails iff some item is a dict with neither `image` nor `text`; otherwise one block per item in the same order: non-dict to a text block, a dict with `image` to an image block through the encoder, a dict with only `text` to a text block |
| Multimodal.BlockRoundTrip | GeneralAgent/memory/sqlite_memory.py:43-45 | the dict built for a block reads back as that block |
| Multimodal.BlockDecodeExact | GeneralAgent/memory/sqlite_memory.py:43-45 | a value reads as a block only if it is exactly the dict built for that block |
| Multimodal.BlocksRoundTrip | GeneralAgent/memory/sqlite_memory.py:39-50 | the list built for any block list reads back as that block list |
| Multimodal.BlocksDecodeExact | GeneralAgent/memory/sqlite_memory.py:93-95 | a parsed value reads as a block list only if it is exactly the list built for it |
| Multimodal.BlockListDecodeExact | GeneralAgent/memory/sqlite_memory.py:93-95 | the element-wise form of the previous row |
| Memory.AddMessage | GeneralAgent/memory/sqlite_memory.py:33-55 | succeeds iff the role is user, system or assistant and every content item is well shaped; a bad role is reported first; a failure leaves the table unchanged; success appends one row holding the role and the stored text (raw string or JSON of the blocks), with a fresh id above every existing id; the invariant is kept |
| Memory.AppendToId | GeneralAgent/memory/sqlite_memory.py:61-71 | on an ordered table, fails iff no row has that id with that role; failure leaves the table unchanged; success returns no row id, keeps the counter and leaves no row with a larger id |
| Memory.AppendToLatest | GeneralAgent/memory/sqlite_memory.py:73-81 | never fails; returns a row id iff no row has the role, and then appends one row with the raw content; otherwise the row count and counter are unchanged |
| Memory.AppendMessage | GeneralAgent/memory/sqlite_memory.py:57-84 | only the targeted mode can raise, iff the id/role pair is absent, and a raise leaves the table unchanged; the returned lastrowid is an id iff the call inserted a row (untargeted, no row of that role); the counter never decreases; the invariant is kept |
| Memory.Recover | GeneralAgent/memory/sqlite_memory.py:101-105 | exactly the rows with id at most the index remain, as a prefix in their order; the counter is untouched |
| Memory.GetMessages | GeneralAgent/memory/sqlite_memory.py:86-99 | one entry per row in ascending id order with the role kept; the content is the parsed value when the stored text parses, otherwise the stored text |
| Memory.FirstRejected | GeneralAgent/memory/sqlite_memory.py:17-18 | the position of the first message add_message would reject: all before it are accepted, it is not |
| Memory.AddAll | GeneralAgent/memory/sqlite_memory.py:17-18 | adding in turn keeps the existing rows and appends exactly the messages before the first rejected one, each with an id in [old counter, new counter); it succeeds iff none is rejected, and otherwise reports that message's error |
| Memory.AddAllContents | GeneralAgent/memory/sqlite_memory.py:17-18 | the i-th appended row holds the i-th message's role and stored text |
| Memory.Open | GeneralAgent/memory/sqlite_memory.py:7-18 | with no seeds the persisted table is returned unchanged; any seed failing the shape/role check (role must be user or assistant) rejects the whole list before any insert; otherwise the persisted rows stay in place, followed by exactly the seeds before the first bad content list, each with its role and stored text and a fresh id at or above the persisted counter (the counter never decreases), and the call fails iff such a list exists |
| Properties.TargetedAppendEffect | GeneralAgent/memory/sqlite_memory.py:61-71 | targeted append to row i of the same role yields exactly rows 0..i-1 unchanged, then row i with content old + "\n" + content and its id and role kept; later rows are gone, the counter is unchanged and no row id is returned |
| Properties.LatestAppendEffect | GeneralAgent/memory/sqlite_memory.py:73-79 | untargeted append when row i is the latest of that role changes only row i's content to old + "\n" + content; the row count, all other rows and the counter are unchanged |
| Properties.RecoverIdempotent | GeneralAgent/memory/sqlite_memory.py:101-105 | rolling back to k and then to k or any larger id changes nothing further |
| Properties.RecoverNoOp | GeneralAgent/memory/sqlite_memory.py:101-105 | rolling back to k is a no-op when no id exceeds k, whether or not k is an existing id |
| Properties.RecoverCutsAtThreshold | GeneralAgent/memory/sqlite_memory.py:104 | on an ordered table, position i survives a rollback to k iff its id is at most k, and then it is unchanged |
| Properties.AddThenGetMessages | GeneralAgent/memory/sqlite_memory.py:52-55 | after a successful add, the read-back is the earlier read-back plus one entry for the new row |
| Properties.PlainReadBack | GeneralAgent/memory/sqlite_memory.py:93-98 | a plain string that does not parse as JSON reads back unchanged, as the last entry |
| Properties.MultimodalReadBack | GeneralAgent/memory/sqlite_memory.py:37-50 | given that parsing inverts serialisation on block lists, content added as a list reads back as parsed JSON whose blocks are exactly the encoded items, one per item |
| Properties.SystemSeedRejected | GeneralAgent/memory/sqlite_memory.py:117-123 | a seed with role system rejects the whole seed list before any insert, although add_message would accept that role |
| Properties.LaterBadSeedKeepsEarlierSeeds | GeneralAgent/memory/sqlite_memory.py:15-18 | when seed n has a dict with neither key, the call raises 'message type wrong' after the persisted rows and exactly seeds 0..n-1, each with its role and stored text, were appended |
| Trace.Apply | GeneralAgent/memory/sqlite_memory.py:25 | one call never lowers the counter, keeps the invariant, and an id it inserts lies in [old counter, new counter) on a new last row |
| Trace.Run | GeneralAgent/memory/sqlite_memory.py:25 | across any sequence of calls, including deletes, the issued ids strictly increase, lie above every id the table held at the start and below the final counter, so no id is reused |
| Scenarios.HelloHiScenario | GeneralAgent/memory/sqlite_memory.py:143-159 | user "hello" then assistant "hi" gives two entries; reopening keeps them; appending assistant "hi" keeps two entries and the last becomes "hi\nhi" |

## Left out

- SQLite connection lifecycle: `connect`, `commit`, `CREATE TABLE IF NOT EXISTS`, `__del__`. Reopening is the identity on the table (`Memory.Open` with no seeds). Durability and storage errors are not modelled.
- The `timestamp` column: it is never read back.
- `show_messages`: it only logs truncated previews.
- `encode_image`, `json.dumps`, `json.loads`: external functions, supplied as fields of `Memory.Env`. The JSON text format and its escaping are not modelled. JSON numbers are integers only.
- Content that is neither a string nor a list (a number stored as text by SQLite's type affinity): `Memory.MessageContent` is a string or an item list. Item values are strings, although the source passes any value through to `json.dumps`.
- Memory.AppendMessage: `lastrowid` on the merge paths is modelled as `None`, as the sqlite3 documentation gives for a fresh cursor with no INSERT. Some CPython versions report the connection's last inserted row id there instead, which can be any earlier insert on the same connection, including the merged row's own id.
- SQLite's AUTOINCREMENT limit (id 2^63-1, after which inserts fail): ids are unbounded naturals.
- Concurrency: one writer issues calls sequentially.
- Role and seed validation are Python `assert` statements (GeneralAgent/memory/sqlite_memory.py:35 and :120-123). The model assumes they run. Under `python -O`, which removes them, `add_message` stores any role and seeding checks nothing; that mode is not modelled.
- GeneralAgent/skills/application_builder.py: file handling and LLM prompt glue with no state to verify.

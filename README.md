# Object persistence: a verified model of the persistence system

This project models the core of a Unity persistence package in Dafny 4.11.
The core is the `PersistenceSystem` component and the default methods of its
`IPersistenceSystem` interface. The component keeps a set of storage
*adapters*, each with a name, a priority and an enabled flag, and offers two
groups of operations:

- **Adapter selection.** `GetAdapters` orders the registered adapters by
  ascending priority. The sort is stable: adapters with equal priority keep
  their registration order. `GetEnabledAdapters`, `TryGetAdapter`,
  `GetAdapter`, `TryGetFirstEnabledAdapter` and `GetFirstEnabledAdapter` are
  queries over that order. The `Get…` forms raise a persistence error when the
  `TryGet…` form finds nothing.
- **File operations.** A *file* is a handle made of an adapter and a path.
  The operations are `List`, `Exists`, `ReadData`, both `Read` overloads,
  `WriteData`, both `Write` overloads, `Move`, `Copy` and `Delete`. Each
  operation that changes or reads a file publishes an event (`onFileRead`,
  `onFileWritten`, `onFileMoved`, `onFileCopied`, `onFileDeleted`) after the
  storage call returns.

The project has three layers:

- `errors.dfy` and `storage.dfy` are the vocabulary. They define the error
  kinds and the adapter, with its path-to-bytes store. They also define the
  file handle and the events.
- `adapter_order.dfy`, `adapter_queries.dfy` and `file_protocol.dfy` are
  functions over values. The file operations are step functions on a
  `World`, which holds every adapter's store plus the event log. Every
  function states what its result means: sorted and a permutation, the same
  per-priority subsequences, first match, which location holds which bytes,
  and which event was appended.
- `persistence_system.dfy` is the component itself. It is a class with the
  registered adapters, the serializer and the event log. Its methods change
  the adapters' stores and the log in place. Each method's postcondition
  says the new state is what the matching step function computes. Each
  method's frame names exactly the adapters the source touches. The static
  `_current` instance rule of `Awake` and `OnDestroy` is modelled on a
  `Host` object.

`serialization.dfy` holds the codec that the component delegates to. It is a
value of function type: `EncodeState`/`DecodeState` work on documents, and
`Encode`/`Decode` work on an object's content. The model assumes nothing
about it except where a lemma says so, through `RoundTrips`.

## Model

| member | source | states |
|---|---|---|
| AdapterOrder.GetAdapters | Runtime/PersistenceSystem.cs:72-75 | The result is sorted by ascending priority and is a permutation of the registered adapters (multisets equal). For every priority, the adapters with that priority appear in registration order (stable `OrderBy`). |
| AdapterOrder.InsertStable | Runtime/PersistenceSystem.cs:74 | For every priority, inserting an adapter into any sequence gives the same subsequence as putting it at the front. So the inserted adapter goes ahead of the adapters of equal priority already there, and no other priority's subsequence changes. `GetAdapters` inserts the earliest-registered adapter last, which keeps registration order within a priority. |
| AdapterOrder.StableSortUnique | Runtime/PersistenceSystem.cs:74 | Two sorted sequences with the same per-priority subsequences are equal. |
| AdapterOrder.GetAdaptersIsStableSort | Runtime/PersistenceSystem.cs:72-75 | Any sorted sequence with the registration order inside each priority equals `GetAdapters`, so the order is fully determined by priorities and registration order. |
| AdapterQueries.Enabled | Runtime/IPersistenceSystem.cs:38 | Filtering keeps exactly the enabled adapters of its input. |
| AdapterQueries.EnabledAt | Runtime/IPersistenceSystem.cs:36-39 | The i-th input adapter, if enabled, sits in the filtered sequence at the position given by the number of enabled adapters before it. This is the order-preserving subsequence property. |
| AdapterQueries.GetEnabledAdapters | Runtime/IPersistenceSystem.cs:36-39 | Contains exactly the registered adapters that are enabled. It is sorted by priority, its length is the number of enabled adapters, and each keeps its relative position from `GetAdapters`. |
| AdapterQueries.FirstNamed | Runtime/IPersistenceSystem.cs:44 | `Where(name).FirstOrDefault()`: finds nothing exactly when no adapter of the sequence has the name. Otherwise the result has the name and no earlier adapter has it. |
| AdapterQueries.FirstNamedMinimal | Runtime/IPersistenceSystem.cs:44 | In a priority-sorted sequence that holds an adapter with the name, the first-match search finds one. The one it finds has a priority value no higher than any adapter with that name. |
| AdapterQueries.TryGetAdapter | Runtime/IPersistenceSystem.cs:42-46 | Returns something exactly when some registered adapter has the name. The returned adapter is registered, has the name and is the first such adapter in `GetAdapters` order. No adapter of that name has a lower priority. |
| AdapterQueries.GetAdapter | Runtime/IPersistenceSystem.cs:49-55 | Returns exactly what `TryGetAdapter` found. When nothing is found it fails with a persistence error whose message is "Could not find a registered adapter with name " followed by the name. |
| AdapterQueries.GetAdapterDuplicateNames | Runtime/IPersistenceSystem.cs:42-46 | Take two distinct registered adapters with the same name, the later-registered one with priority not lower. Then `GetAdapter` never returns the later one: ties go to registration order, and otherwise the lower priority value wins. |
| AdapterQueries.TryGetFirstEnabledAdapter | Runtime/IPersistenceSystem.cs:58-62 | Returns something exactly when some registered adapter is enabled. The result is enabled, is the head of `GetEnabledAdapters`, and no enabled adapter has a lower priority. |
| AdapterQueries.GetFirstEnabledAdapter | Runtime/IPersistenceSystem.cs:65-71 | Returns exactly what `TryGetFirstEnabledAdapter` found. Otherwise it fails with the persistence error "Could not find an enabled registered adapter". |
| FileProtocol.ListIn | Runtime/PersistenceSystem.cs:82 | The concatenation of the adapters' listings contains a handle exactly when its adapter is in the sequence and lists its path. |
| FileProtocol.ListInBlock | Runtime/PersistenceSystem.cs:82 | The `i`-th adapter's handles form one block of the concatenation, in its listing's order. The block starts right after the paths listed by the adapters before it. |
| FileProtocol.ListInLength | Runtime/PersistenceSystem.cs:82 | The concatenation is as long as all the listings together. |
| FileProtocol.ListInSorted | Runtime/PersistenceSystem.cs:82 | Concatenating the listings of priority-sorted adapters gives handles in non-decreasing priority. |
| FileProtocol.ListInFacts | Runtime/PersistenceSystem.cs:82 | The concatenation's length is the sum of the listings' lengths, so nothing is de-duplicated. Every adapter's handles lie in their block, in the order the adapters are visited. With priority-sorted adapters, the handles come in non-decreasing priority. |
| FileProtocol.List | Runtime/PersistenceSystem.cs:80-83 | The adapters' listings, one block per adapter, the blocks in `GetAdapters` order and each block in listing order. Its length is the sum of the listings' lengths, so nothing is de-duplicated. A handle is in it exactly when its adapter is registered and lists the path. Handles come in non-decreasing adapter priority. |
| FileProtocol.ListMatchesStores | Runtime/PersistenceSystem.cs:80-83 | Suppose each adapter lists exactly its stored paths that satisfy the predicate. Then the listed handles are exactly the existing files whose paths satisfy it. |
| FileProtocol.ListScenario | Runtime/PersistenceSystem.cs:80-83 | A "local" adapter at priority 0 with files a.dat and b.dat and a "backup" at priority 1 with a.dat, registered backup first, list as local/a.dat, local/b.dat, backup/a.dat. The same path on two adapters gives two handles. |
| FileProtocol.ReadData | Runtime/PersistenceSystem.cs:92-97 | Succeeds exactly when the file exists and returns its stored bytes. Otherwise it fails with path-not-found. No store changes. One `FileRead` event is appended exactly when the raw read succeeded. |
| FileProtocol.Read | Runtime/PersistenceSystem.cs:100-104 | The result is the decoding of the stored bytes. The `FileRead` event is logged when the raw read succeeds, before and regardless of decoding. A missing file logs nothing and fails with path-not-found. |
| FileProtocol.ReadInto | Runtime/PersistenceSystem.cs:107-111 | As `Read`, with decoding into an existing object's content. |
| FileProtocol.WriteData | Runtime/PersistenceSystem.cs:114-118 | Afterwards the file holds exactly the given bytes and every other location is unchanged. One `FileWritten` event is appended. |
| FileProtocol.Write | Runtime/PersistenceSystem.cs:121-125 | Encodes first. An encoding failure leaves stores and log exactly as they were. Otherwise the file holds the encoded bytes, nothing else changes, and one `FileWritten` event is appended. |
| FileProtocol.WriteSerializable | Runtime/PersistenceSystem.cs:128-132 | The same protocol for an object's content, with the object encoder. |
| FileProtocol.WriteThenRead | Runtime/PersistenceSystem.cs:100-125 | For a codec that round-trips the document, a successful `Write` followed by `Read` makes the file exist and returns the document. The log gains `FileWritten` then `FileRead`. |
| FileProtocol.Move | Runtime/PersistenceSystem.cs:135-149 | Covers both branches (same adapter: rename; different: read, write, delete). It succeeds exactly when the source exists. Afterwards the destination holds the source's old bytes, the source is gone unless it is the destination, and nothing else changes. One `FileMoved` event is appended. A failure changes nothing. |
| FileProtocol.Copy | Runtime/PersistenceSystem.cs:152-165 | As written: on one adapter its outcome and stores equal `Move`'s. Across adapters the destination gets the source's bytes and nothing else changes. Succeeds exactly when the source exists and appends one `FileCopied` event. |
| FileProtocol.CopySameAdapterRemovesSource | Runtime/PersistenceSystem.cs:154-157 | On one adapter, copying an existing file to another path succeeds and leaves the source missing. `CopyFixed` leaves it present. |
| FileProtocol.CopyFixed | Runtime/PersistenceSystem.cs:152-165 | Corrected copy: succeeds exactly when the source exists. The destination gets the source's bytes, the source and every other location are unchanged, and one `FileCopied` event is appended. |
| FileProtocol.Delete | Runtime/PersistenceSystem.cs:168-172 | Succeeds exactly when the file exists. Afterwards the file is gone and nothing else changes, and one `FileDeleted` event is appended. A missing file fails with path-not-found and changes nothing. |
| Persistence.PersistenceSystem.Exists | Runtime/PersistenceSystem.cs:86-89 | True exactly when the file's adapter stores its path. |
| Persistence.PersistenceSystem.ReadData | Runtime/PersistenceSystem.cs:92-97 | Result and new log are those of `FileProtocol.ReadData`. No adapter changes. |
| Persistence.PersistenceSystem.Read | Runtime/PersistenceSystem.cs:100-104 | Result and new log are those of `FileProtocol.Read` with the system's serializer. |
| Persistence.PersistenceSystem.ReadInto | Runtime/PersistenceSystem.cs:107-111 | The new log and the target object's new content follow `FileProtocol.ReadInto`. The target is only changed when decoding succeeds. |
| Persistence.PersistenceSystem.WriteData | Runtime/PersistenceSystem.cs:114-118 | The new store of the file's adapter and the new log are those of `FileProtocol.WriteData`. |
| Persistence.PersistenceSystem.Write | Runtime/PersistenceSystem.cs:121-125 | Outcome, new store and new log are those of `FileProtocol.Write`. |
| Persistence.PersistenceSystem.WriteSerializable | Runtime/PersistenceSystem.cs:128-132 | Outcome, new store and new log are those of `FileProtocol.WriteSerializable` on the object's content. |
| Persistence.PersistenceSystem.Move | Runtime/PersistenceSystem.cs:135-149 | Changes only the two adapters involved. Outcome, their new stores and the new log are those of `FileProtocol.Move`. |
| Persistence.PersistenceSystem.Copy | Runtime/PersistenceSystem.cs:152-165 | Changes only the two adapters involved. Outcome, their new stores and the new log are those of `FileProtocol.Copy`. |
| Persistence.PersistenceSystem.CopyFixed | Runtime/PersistenceSystem.cs:152-165 | May change only the two adapters involved. Outcome, their new stores and the new log are those of `FileProtocol.CopyFixed`, which leaves the source's store as it was. |
| Persistence.PersistenceSystem.Delete | Runtime/PersistenceSystem.cs:168-172 | Outcome, the new store of the file's adapter and the new log are those of `FileProtocol.Delete`. |
| Persistence.AfterAwake | Runtime/PersistenceSystem.cs:52-55 | With no current instance, the waking system becomes current and survives. Otherwise the current instance is kept and the waking system is destroyed. |
| Persistence.AfterDestroy | Runtime/PersistenceSystem.cs:65-66 | The current instance is cleared exactly when it is the system being destroyed. Otherwise it is unchanged. |
| Persistence.PersistenceSystem.Awake | Runtime/PersistenceSystem.cs:49-59 | The host's current instance and the destroy flag follow `AfterAwake`. |
| Persistence.PersistenceSystem.OnDestroy | Runtime/PersistenceSystem.cs:62-67 | The host's current instance follows `AfterDestroy`. |
| Persistence.SecondSystemDestroyed | Runtime/PersistenceSystem.cs:49-67 | Two systems wake in turn: the second is destroyed and the first stays current. Destroying the second then leaves the first current. Destroying the first clears the instance. |

## Left out

- The file handle is a value (adapter, path). The source's `File` object may update its own path after a same-adapter move. The model does not track that aliasing. It states where the bytes are afterwards instead.
- The concrete adapters (local disk and others) are not part of this model. An adapter is a map from paths to bytes. Its read and delete fail with path-not-found on a missing path, its write always succeeds, and its rename overwrites an existing destination. Medium failures such as I/O errors or a full disk are not modelled.
- `Adapter.List` is not part of this model. `FileProtocol.List` therefore takes each adapter's listing (already filtered by the optional predicate) as a parameter. `FileProtocol.ListMatchesStores` relates it to the stores for a given predicate.
- The serializer and its MessagePack backend are not part of this model. They are abstract functions in `Serialization.Serializer`. Round-tripping is a hypothesis (`RoundTrips`) of the lemma that needs it, not a proved fact. The choice of file format in `Awake` is therefore a constructor parameter.
- Events are C# delegates. The model records each invocation as an entry in an append-only log. Subscribers, their side effects and exceptions they throw are not modelled.
- A cross-adapter `Move` runs as three storage calls. The model treats each operation as running to completion, with no concurrent callers. An interruption between the write and the delete, which would leave both copies, is not modelled.
- `Persistence.PersistenceSystem.ReadInto`: when decoding fails the model leaves the target object unchanged. A real decoder may have partly populated it.
- Unity's lifecycle: `GetComponents<Adapter>()` is the `registered` sequence of adapters. These are distinct components, which is why `AdapterQueries.GetAdapterDuplicateNames` requires `Distinct`. The name, priority and enabled flag are constants of an adapter during an enumeration. `Destroy(gameObject)` is the boolean returned by `Awake`, and `_current` is a field of a `Host` object.
- Exceptions are results. A raised `PersistenceException` or a read of a missing file becomes an `Err`/`Fail` value carrying the error kind. Exception types beyond those three kinds are collapsed.
- `GetAdapters`, `GetEnabledAdapters` and `List` return deferred LINQ queries. The source reads priorities and enabled flags, and calls each adapter's `List`, only when the caller enumerates the result. The model computes the whole result when it is called. A caller that writes, moves or deletes files while enumerating `List` would see later adapters' listings after its own changes, and the model does not capture that interleaving.
- The `serializer` and `current` getters only return a field, and are not separate members.
- Editor/Adapters/FileReferenceDrawer.cs (an editor inspector widget) and Runtime/Backends/MessagePackBackend.cs are not part of this model.

## Findings

| source | as written | input that shows it | evidently intended | confidence | as-written member | corrected member |
|---|---|---|---|---|---|---|
| Runtime/PersistenceSystem.cs:154-157 | When source and destination share an adapter, `Copy` calls `file.Move(destination.path)`, so the source file disappears | One adapter storing "a.dat"; copy `(adapter, "a.dat")` to `(adapter, "b.dat")`. Afterwards "a.dat" no longer exists | A copy leaves its source in place on both branches and only writes the destination | not executed | FileProtocol.CopySameAdapterRemovesSource | FileProtocol.CopyFixed |

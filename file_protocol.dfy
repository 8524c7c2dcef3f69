/// The file protocol of the persistence system, stated on values. A world is
/// the contents of the adapters involved plus the log of notifications
/// published so far; each operation maps a world to an outcome and a new
/// world. The imperative system in module Persistence is proved to follow
/// these functions step for step.
module FileProtocol {
  import opened Errors
  import opened Storage
  import opened Serialization
  import opened AdapterOrder

  /** The contents of each adapter taking part. */
  type Stores = map<Adapter, Store>

  /** The observable state: adapter contents and the notifications published
      so far, oldest first. */
  datatype World = World(stores: Stores, log: seq<Event>)

  /** The bytes stored at a location, if any. */
  function At(stores: Stores, adapter: Adapter, path: Path): Option<Bytes>
  {
    if adapter in stores && path in stores[adapter] then Some(stores[adapter][path]) else None
  }

  /** Whether a file exists (`Exists(file)` delegates to its adapter). */
  predicate Exists(w: World, file: File)
  {
    At(w.stores, file.adapter, file.path).Some?
  }

  /** Only the locations in `files` may differ between two worlds' stores. */
  ghost predicate SameElsewhere(before: Stores, after: Stores, files: set<File>)
  {
    && after.Keys == before.Keys
    && forall a, p :: a in before && File(a, p) !in files ==> At(after, a, p) == At(before, a, p)
  }

  /** Raw read (`ReadData`): the stored bytes, and one `FileRead` event
      appended after the read succeeded; no store changes. A failed raw read
      publishes nothing. */
  function ReadData(w: World, file: File): (r: (Result<Bytes>, World))
    requires file.adapter in w.stores
    ensures r.0.Ok? <==> Exists(w, file)
    ensures r.0.Ok? ==> At(w.stores, file.adapter, file.path) == Some(r.0.value)
    ensures r.0.Err? ==> r.0.error == PathNotFound(file.path)
    ensures r.1.stores == w.stores
    ensures r.1.log == if r.0.Ok? then w.log + [FileRead(file)] else w.log
  {
    match Lookup(w.stores[file.adapter], file.path)
    case Err(e) => (Err(e), w)
    case Ok(data) => (Ok(data), w.(log := w.log + [FileRead(file)]))
  }

  /** `Read(file)`: raw read, then the `FileRead` event, then decoding. The
      event is logged exactly when the raw read succeeds, whether or not
      decoding then fails; the document returned is what the stored bytes
      decode to. */
  function Read(w: World, ser: Serializer, file: File): (r: (Result<State>, World))
    requires file.adapter in w.stores
    ensures r.1.stores == w.stores
    ensures r.1.log == if Exists(w, file) then w.log + [FileRead(file)] else w.log
    ensures !Exists(w, file) ==> r.0 == Err(PathNotFound(file.path))
    ensures Exists(w, file) ==> r.0 == ser.decodeState(At(w.stores, file.adapter, file.path).value)
  {
    var (data, w') := ReadData(w, file);
    match data
    case Err(e) => (Err(e), w')
    case Ok(bytes) => (ser.decodeState(bytes), w')
  }

  /** `Read(file, deserializable)`: as `Read`, but decoding into an existing
      object; the result is the object's new content, computed from the
      stored bytes and its content before. */
  function ReadInto(w: World, ser: Serializer, file: File, target: State): (r: (Result<State>, World))
    requires file.adapter in w.stores
    ensures r.1.stores == w.stores
    ensures r.1.log == if Exists(w, file) then w.log + [FileRead(file)] else w.log
    ensures !Exists(w, file) ==> r.0 == Err(PathNotFound(file.path))
    ensures Exists(w, file) ==> r.0 == ser.decode(At(w.stores, file.adapter, file.path).value, target)
  {
    var (data, w') := ReadData(w, file);
    match data
    case Err(e) => (Err(e), w')
    case Ok(bytes) => (ser.decode(bytes, target), w')
  }

  /** `WriteData`: the file holds exactly `data` afterwards, every other
      location is untouched, and one `FileWritten` event follows. */
  function WriteData(w: World, file: File, data: Bytes): (r: World)
    requires file.adapter in w.stores
    ensures At(r.stores, file.adapter, file.path) == Some(data)
    ensures SameElsewhere(w.stores, r.stores, {file})
    ensures r.log == w.log + [FileWritten(file)]
  {
    var s := w.stores[file.adapter];
    World(w.stores[file.adapter := s[file.path := data]], w.log + [FileWritten(file)])
  }

  /** Encoding first, then `WriteData`: an encoding failure leaves the world
      exactly as it was (nothing written, nothing published). */
  function WriteEncoded(w: World, encoded: Result<Bytes>, file: File): (r: (Outcome, World))
    requires file.adapter in w.stores
    ensures encoded.Err? ==> r == (Fail(encoded.error), w)
    ensures encoded.Ok? ==> r.0 == Pass
    ensures encoded.Ok? ==> At(r.1.stores, file.adapter, file.path) == Some(encoded.value)
    ensures encoded.Ok? ==> SameElsewhere(w.stores, r.1.stores, {file})
    ensures encoded.Ok? ==> r.1.log == w.log + [FileWritten(file)]
  {
    match encoded
    case Err(e) => (Fail(e), w)
    case Ok(data) => (Pass, WriteData(w, file, data))
  }

  /** `Write(file, state)`. */
  function Write(w: World, ser: Serializer, file: File, state: State): (r: (Outcome, World))
    requires file.adapter in w.stores
    ensures ser.encodeState(state).Err? ==> r == (Fail(ser.encodeState(state).error), w)
    ensures ser.encodeState(state).Ok? ==>
              && r.0 == Pass
              && At(r.1.stores, file.adapter, file.path) == Some(ser.encodeState(state).value)
              && SameElsewhere(w.stores, r.1.stores, {file})
              && r.1.log == w.log + [FileWritten(file)]
  {
    WriteEncoded(w, ser.encodeState(state), file)
  }

  /** `Write(file, serializable)`: the same protocol for an object's content. */
  function WriteSerializable(w: World, ser: Serializer, file: File, contents: State): (r: (Outcome, World))
    requires file.adapter in w.stores
    ensures ser.encode(contents).Err? ==> r == (Fail(ser.encode(contents).error), w)
    ensures ser.encode(contents).Ok? ==>
              && r.0 == Pass
              && At(r.1.stores, file.adapter, file.path) == Some(ser.encode(contents).value)
              && SameElsewhere(w.stores, r.1.stores, {file})
              && r.1.log == w.log + [FileWritten(file)]
  {
    WriteEncoded(w, ser.encode(contents), file)
  }

  /** `Move(file, destination)`. On one adapter the adapter renames the path
      itself; across adapters the bytes are read, written to the destination
      and the source is deleted. Either way: it succeeds exactly when the
      source exists, the destination then holds the source's old bytes, the
      source is gone (unless it is the destination), nothing else changes,
      and one `FileMoved` event follows. A failure changes nothing. */
  function Move(w: World, file: File, destination: File): (r: (Outcome, World))
    requires file.adapter in w.stores && destination.adapter in w.stores
    ensures r.0.Pass? <==> Exists(w, file)
    ensures r.0.Fail? ==> r == (Fail(PathNotFound(file.path)), w)
    ensures r.0.Pass? ==> At(r.1.stores, destination.adapter, destination.path) == At(w.stores, file.adapter, file.path)
    ensures r.0.Pass? && file != destination ==> At(r.1.stores, file.adapter, file.path) == None
    ensures SameElsewhere(w.stores, r.1.stores, {file, destination})
    ensures r.0.Pass? ==> r.1.log == w.log + [FileMoved(file, destination)]
  {
    var source := w.stores[file.adapter];
    if file.adapter == destination.adapter then
      match Rename(source, file.path, destination.path)
      case Err(e) => (Fail(e), w)
      case Ok(renamed) => (Pass, World(w.stores[file.adapter := renamed], w.log + [FileMoved(file, destination)]))
    else
      match Lookup(source, file.path)
      case Err(e) => (Fail(e), w)
      case Ok(data) =>
        var written := w.stores[destination.adapter := w.stores[destination.adapter][destination.path := data]];
        var removed := Remove(written[file.adapter], file.path).value;
        (Pass, World(written[file.adapter := removed], w.log + [FileMoved(file, destination)]))
  }

  /** `Copy(file, destination)` as the source has it: on one adapter it
      renames, exactly like `Move`; across adapters it reads the source and
      writes the destination, leaving the source adapter untouched. A
      `FileCopied` event follows a success. */
  function Copy(w: World, file: File, destination: File): (r: (Outcome, World))
    requires file.adapter in w.stores && destination.adapter in w.stores
    ensures r.0.Pass? <==> Exists(w, file)
    ensures r.0.Fail? ==> r == (Fail(PathNotFound(file.path)), w)
    ensures r.0.Pass? ==> At(r.1.stores, destination.adapter, destination.path) == At(w.stores, file.adapter, file.path)
    ensures file.adapter == destination.adapter ==> r.0 == Move(w, file, destination).0 && r.1.stores == Move(w, file, destination).1.stores
    ensures file.adapter != destination.adapter ==> SameElsewhere(w.stores, r.1.stores, {destination})
    ensures r.0.Pass? ==> r.1.log == w.log + [FileCopied(file, destination)]
  {
    var source := w.stores[file.adapter];
    if file.adapter == destination.adapter then
      match Rename(source, file.path, destination.path)
      case Err(e) => (Fail(e), w)
      case Ok(renamed) => (Pass, World(w.stores[file.adapter := renamed], w.log + [FileCopied(file, destination)]))
    else
      match Lookup(source, file.path)
      case Err(e) => (Fail(e), w)
      case Ok(data) =>
        var written := w.stores[destination.adapter := w.stores[destination.adapter][destination.path := data]];
        (Pass, World(written, w.log + [FileCopied(file, destination)]))
  }

  /** A copy that leaves its source intact on both branches: the
      destination gets the source's bytes and nothing else changes. */
  function CopyFixed(w: World, file: File, destination: File): (r: (Outcome, World))
    requires file.adapter in w.stores && destination.adapter in w.stores
    ensures r.0.Pass? <==> Exists(w, file)
    ensures r.0.Fail? ==> r == (Fail(PathNotFound(file.path)), w)
    ensures r.0.Pass? ==> At(r.1.stores, destination.adapter, destination.path) == At(w.stores, file.adapter, file.path)
    ensures r.0.Pass? && file != destination ==> At(r.1.stores, file.adapter, file.path) == At(w.stores, file.adapter, file.path)
    ensures SameElsewhere(w.stores, r.1.stores, {destination})
    ensures r.0.Pass? ==> r.1.log == w.log + [FileCopied(file, destination)]
  {
    match Lookup(w.stores[file.adapter], file.path)
    case Err(e) => (Fail(e), w)
    case Ok(data) =>
      var target := w.stores[destination.adapter];
      (Pass, World(w.stores[destination.adapter := target[destination.path := data]], w.log + [FileCopied(file, destination)]))
  }

  /** `Delete(source)`: succeeds exactly when the file exists; then only that
      path is removed and one `FileDeleted` event follows. */
  function Delete(w: World, source: File): (r: (Outcome, World))
    requires source.adapter in w.stores
    ensures r.0.Pass? <==> Exists(w, source)
    ensures r.0.Fail? ==> r == (Fail(PathNotFound(source.path)), w)
    ensures r.0.Pass? ==> !Exists(r.1, source)
    ensures SameElsewhere(w.stores, r.1.stores, {source})
    ensures r.0.Pass? ==> r.1.log == w.log + [FileDeleted(source)]
  {
    match Remove(w.stores[source.adapter], source.path)
    case Err(e) => (Fail(e), w)
    case Ok(removed) => (Pass, World(w.stores[source.adapter := removed], w.log + [FileDeleted(source)]))
  }

  /** After a successful `Write`, the file exists and reading it back gives
      the document written, provided the codec round-trips that document;
      the log then shows the write followed by the read. */
  lemma WriteThenRead(w: World, ser: Serializer, file: File, state: State)
    requires file.adapter in w.stores
    requires RoundTrips(ser, state)
    requires Write(w, ser, file, state).0.Pass?
    ensures var w1 := Write(w, ser, file, state).1;
      && Exists(w1, file)
      && Read(w1, ser, file).0 == Ok(state)
      && Read(w1, ser, file).1.log == w.log + [FileWritten(file), FileRead(file)]
  {
  }

  /** The source as written: on one adapter, `Copy` removes the file it
      copies from, because it calls the adapter's rename. */
  lemma CopySameAdapterRemovesSource(w: World, file: File, destination: File)
    requires file.adapter in w.stores && destination.adapter == file.adapter
    requires file.path != destination.path && Exists(w, file)
    ensures Copy(w, file, destination).0 == Pass
    ensures !Exists(Copy(w, file, destination).1, file)
    ensures Exists(CopyFixed(w, file, destination).1, file)
  {
  }

  /** The handles for `paths` on `adapter` (`adapter[path]` for each path). */
  function Wrap(adapter: Adapter, paths: seq<Path>): (r: seq<File>)
    ensures |r| == |paths|
    ensures forall i :: 0 <= i < |paths| ==> r[i] == File(adapter, paths[i])
  {
    seq(|paths|, i requires 0 <= i < |paths| => File(adapter, paths[i]))
  }

  /** The handles listed by `ordered`, adapter after adapter. */
  function ListIn(ordered: seq<Adapter>, listing: Adapter -> seq<Path>): (r: seq<File>)
    ensures forall f :: f in r ==> f.adapter in ordered && f.path in listing(f.adapter)
    ensures forall a, p :: a in ordered && p in listing(a) ==> File(a, p) in r
  {
    if ordered == [] then []
    else
      var here := Wrap(ordered[0], listing(ordered[0]));
      assert forall p :: p in listing(ordered[0]) ==> File(ordered[0], p) in here by {
        forall p | p in listing(ordered[0]) ensures File(ordered[0], p) in here {
          var k :| 0 <= k < |listing(ordered[0])| && listing(ordered[0])[k] == p;
          assert here[k] == File(ordered[0], p);
        }
      }
      assert ordered == [ordered[0]] + ordered[1..];
      here + ListIn(ordered[1..], listing)
  }

  /** How many paths the adapters of `ordered` list in all. */
  function Listed(ordered: seq<Adapter>, listing: Adapter -> seq<Path>): nat
  {
    if ordered == [] then 0 else |listing(ordered[0])| + Listed(ordered[1..], listing)
  }

  /** Handles appear in non-decreasing priority of their adapters. */
  predicate FilesByPriority(files: seq<File>)
  {
    forall i, j :: 0 <= i < j < |files| ==> files[i].adapter.priority <= files[j].adapter.priority
  }

  /** How many paths the adapters before the `i`-th one of `ordered` list:
      where that adapter's block of handles starts. */
  function BlockStart(ordered: seq<Adapter>, listing: Adapter -> seq<Path>, i: nat): nat
    requires i <= |ordered|
  {
    Listed(ordered[..i], listing)
  }

  /** Each adapter's handles form one block of `files`, the blocks in the
      order of `ordered`: the block of the `i`-th adapter starts after the
      paths that the adapters before it list, and holds exactly the handles
      of its own listing, in listing order. */
  predicate InBlocks(files: seq<File>, ordered: seq<Adapter>, listing: Adapter -> seq<Path>)
  {
    forall i :: 0 <= i < |ordered| ==>
      && BlockStart(ordered, listing, i) + |listing(ordered[i])| <= |files|
      && files[BlockStart(ordered, listing, i)..BlockStart(ordered, listing, i) + |listing(ordered[i])|]
         == Wrap(ordered[i], listing(ordered[i]))
  }

  /** The block of the `i`-th adapter in the concatenated listing (`SelectMany`
      keeps each adapter's paths together and in their order). */
  lemma {:induction false} ListInBlock(ordered: seq<Adapter>, listing: Adapter -> seq<Path>, i: nat)
    requires i < |ordered|
    ensures BlockStart(ordered, listing, i) + |listing(ordered[i])| <= |ListIn(ordered, listing)|
    ensures ListIn(ordered, listing)[BlockStart(ordered, listing, i)..BlockStart(ordered, listing, i) + |listing(ordered[i])|]
            == Wrap(ordered[i], listing(ordered[i]))
  {
    var here, rest := Wrap(ordered[0], listing(ordered[0])), ListIn(ordered[1..], listing);
    assert ListIn(ordered, listing) == here + rest;
    if i == 0 {
      assert ordered[..0] == [];
    } else {
      ListInBlock(ordered[1..], listing, i - 1);
      assert ordered[1..][i - 1] == ordered[i];
      assert ordered[..i][0] == ordered[0] && ordered[..i][1..] == ordered[1..][..i - 1];
      var lo := BlockStart(ordered[1..], listing, i - 1);
      assert BlockStart(ordered, listing, i) == |here| + lo;
      SliceAfterPrefix(here, rest, lo, lo + |listing(ordered[i])|);
    }
  }

  lemma SliceAfterPrefix(a: seq<File>, b: seq<File>, lo: nat, hi: nat)
    requires lo <= hi <= |b|
    ensures (a + b)[|a| + lo..|a| + hi] == b[lo..hi]
  {
    assert forall j :: 0 <= j < hi - lo ==> (a + b)[|a| + lo..|a| + hi][j] == b[lo..hi][j];
  }

  lemma {:induction false} ListInLength(ordered: seq<Adapter>, listing: Adapter -> seq<Path>)
    ensures |ListIn(ordered, listing)| == Listed(ordered, listing)
  {
    if ordered != [] {
      ListInLength(ordered[1..], listing);
    }
  }

  lemma {:induction false} ListInSorted(ordered: seq<Adapter>, listing: Adapter -> seq<Path>)
    requires SortedByPriority(ordered)
    ensures FilesByPriority(ListIn(ordered, listing))
  {
    if ordered != [] {
      var here, rest := Wrap(ordered[0], listing(ordered[0])), ListIn(ordered[1..], listing);
      assert SortedByPriority(ordered[1..]) by {
        forall i, j | 0 <= i < j < |ordered[1..]| ensures ordered[1..][i].priority <= ordered[1..][j].priority {
          assert ordered[1..][i] == ordered[i + 1] && ordered[1..][j] == ordered[j + 1];
        }
      }
      ListInSorted(ordered[1..], listing);
      forall f | f in rest ensures ordered[0].priority <= f.adapter.priority {
        SortedHeadMinimal(ordered, f.adapter);
      }
      var r := here + rest;
      forall i, j | 0 <= i < j < |r| ensures r[i].adapter.priority <= r[j].adapter.priority {
        if j < |here| {
        } else if i < |here| {
          assert r[j] == rest[j - |here|];
          assert r[j] in rest;
        } else {
          assert r[i] == rest[i - |here|] && r[j] == rest[j - |here|];
        }
      }
    }
  }

  /** The concatenated listing: its length is the sum of the listings, the
      listings lie in blocks in the order of `ordered`, and with sorted
      adapters the handles come in non-decreasing priority. */
  lemma ListInFacts(ordered: seq<Adapter>, listing: Adapter -> seq<Path>)
    ensures |ListIn(ordered, listing)| == Listed(ordered, listing)
    ensures InBlocks(ListIn(ordered, listing), ordered, listing)
    ensures SortedByPriority(ordered) ==> FilesByPriority(ListIn(ordered, listing))
  {
    ListInLength(ordered, listing);
    forall i | 0 <= i < |ordered|
      ensures && BlockStart(ordered, listing, i) + |listing(ordered[i])| <= |ListIn(ordered, listing)|
              && ListIn(ordered, listing)[BlockStart(ordered, listing, i)..BlockStart(ordered, listing, i) + |listing(ordered[i])|]
                 == Wrap(ordered[i], listing(ordered[i]))
    {
      ListInBlock(ordered, listing, i);
    }
    if SortedByPriority(ordered) {
      ListInSorted(ordered, listing);
    }
  }

  /** `List(predicate)`: every registered adapter's listing, in `GetAdapters`
      order, each path bound to the adapter that listed it. Nothing is
      dropped or merged: the length is the sum of the listings' lengths, the
      listings lie in blocks in that order, a handle is listed exactly when
      its adapter is registered and lists its path, and handles come in non-decreasing priority of their adapters.
      `listing(a)` is what `a.List(predicate)` returns. */
  function List(registered: seq<Adapter>, listing: Adapter -> seq<Path>): (r: seq<File>)
    ensures |r| == Listed(GetAdapters(registered), listing)
    ensures InBlocks(r, GetAdapters(registered), listing)
    ensures forall f :: f in r ==> f.adapter in registered && f.path in listing(f.adapter)
    ensures forall a, p :: a in registered && p in listing(a) ==> File(a, p) in r
    ensures FilesByPriority(r)
  {
    var ordered := GetAdapters(registered);
    assert forall a :: a in ordered ==> a in registered by {
      assert forall a :: a in ordered ==> a in multiset(ordered);
    }
    assert forall a :: a in registered ==> a in ordered by {
      assert forall a :: a in registered ==> a in multiset(registered);
    }
    ListInFacts(ordered, listing);
    ListIn(ordered, listing)
  }

  /** When every adapter lists exactly its stored paths that satisfy the
      caller's predicate, `List` holds exactly the existing files that
      satisfy it, on enabled and disabled adapters alike. */
  lemma ListMatchesStores(registered: seq<Adapter>, listing: Adapter -> seq<Path>, matches: Path -> bool)
    requires forall a, p :: a in registered ==> (p in listing(a) <==> p in a.store && matches(p))
    ensures forall f :: f in List(registered, listing) ==> f.adapter in registered && f.path in f.adapter.store && matches(f.path)
    ensures forall a, p :: a in registered && p in a.store && matches(p) ==> File(a, p) in List(registered, listing)
  {
    var r := List(registered, listing);
    forall f | f in r ensures f.adapter in registered && f.path in f.adapter.store && matches(f.path) {
      assert f.adapter in registered && f.path in listing(f.adapter);
      assert f.path in listing(f.adapter) <==> f.path in f.adapter.store && matches(f.path);
    }
  }

  /** The listing example: "local" (priority 0) holds a.dat and b.dat,
      "backup" (priority 1) holds a.dat. Registered backup first, the list
      has three handles, those of "local" first, and a.dat twice. */
  lemma ListScenario(local: Adapter, backup: Adapter, listing: Adapter -> seq<Path>)
    requires local.priority == 0 && backup.priority == 1
    requires listing(local) == ["a.dat", "b.dat"] && listing(backup) == ["a.dat"]
    ensures List([backup, local], listing) == [File(local, "a.dat"), File(local, "b.dat"), File(backup, "a.dat")]
  {
    assert [backup, local][1..] == [local];
    assert [local][1..] == [];
    assert GetAdapters([local]) == [local];
    assert GetAdapters([backup, local]) == Insert(backup, [local]) == [local, backup];
    assert [local, backup][1..] == [backup];
    assert [backup][1..] == [];
    assert ListIn([backup], listing) == Wrap(backup, listing(backup)) + ListIn([], listing);
    assert ListIn([local, backup], listing) == Wrap(local, listing(local)) + ListIn([backup], listing);
    assert Wrap(local, listing(local)) == [File(local, "a.dat"), File(local, "b.dat")];
    assert Wrap(backup, listing(backup)) == [File(backup, "a.dat")];
  }
}

/// The persistence system as the source runs it: an object holding the
/// registered adapters, the serializer and the notifications it has
/// published, whose operations change adapter contents step by step through
/// file handles. Each operation is proved to have exactly the effect of the
/// corresponding function of module FileProtocol on the adapters it touches;
/// adapters outside its `modifies` clause are untouched by construction.
module Persistence {
  import opened Errors
  import opened Storage
  import opened Serialization
  import opened FileProtocol

  /** The contents of the adapter of `file`, as protocol stores. */
  ghost function StoresOf(file: File): Stores
    reads file.adapter
  {
    var none: Stores := map[];
    none[file.adapter := file.adapter.store]
  }

  /** The contents of the adapters of `file` and `destination` (one adapter
      when they share it), as protocol stores. */
  ghost function PairStores(file: File, destination: File): Stores
    reads file.adapter, destination.adapter
  {
    var none: Stores := map[];
    var one: Stores := none[file.adapter := file.adapter.store];
    one[destination.adapter := destination.adapter.store]
  }

  class PersistenceSystem {
    /** The adapters attached to the system, in attachment order
        (`GetComponents<Adapter>()`); `AdapterOrder.GetAdapters` orders them. */
    const registered: seq<Adapter>
    /** Chosen once, when the system wakes. */
    const serializer: Serializer
    /** The notifications published so far, oldest first. */
    var log: seq<Event>

    constructor (registered: seq<Adapter>, serializer: Serializer)
      ensures this.registered == registered && this.serializer == serializer
      ensures log == []
    {
      this.registered := registered;
      this.serializer := serializer;
      log := [];
    }

    /** `Exists(file)`: whether the file's adapter stores its path. */
    method Exists(file: File) returns (b: bool)
      ensures b <==> file.path in file.adapter.store
    {
      b := file.adapter.Exists(file.path);
    }

    method ReadData(file: File) returns (r: Result<Bytes>)
      modifies this
      ensures (r, World(StoresOf(file), log)) == FileProtocol.ReadData(World(StoresOf(file), old(log)), file)
    {
      r := file.adapter.Read(file.path);
      if r.Ok? {
        log := log + [FileRead(file)];
      }
    }

    method Read(file: File) returns (r: Result<State>)
      modifies this
      ensures (r, World(StoresOf(file), log)) == FileProtocol.Read(World(StoresOf(file), old(log)), serializer, file)
    {
      var data := ReadData(file);
      if data.Err? {
        r := Err(data.error);
        return;
      }
      r := serializer.decodeState(data.value);
    }

    /** `Read(file, deserializable)`: on success the target takes the decoded
        content; on any failure it keeps its content. */
    method ReadInto(file: File, target: Record) returns (o: Outcome)
      modifies this, target
      ensures var (decoded, w) := FileProtocol.ReadInto(World(StoresOf(file), old(log)), serializer, file, old(target.contents));
        && log == w.log
        && (decoded.Ok? ==> o == Pass && target.contents == decoded.value)
        && (decoded.Err? ==> o == Fail(decoded.error) && target.contents == old(target.contents))
    {
      var data := ReadData(file);
      if data.Err? {
        o := Fail(data.error);
        return;
      }
      var decoded := serializer.decode(data.value, target.contents);
      if decoded.Err? {
        o := Fail(decoded.error);
        return;
      }
      target.contents := decoded.value;
      o := Pass;
    }

    method WriteData(file: File, data: Bytes)
      modifies this, file.adapter
      ensures World(StoresOf(file), log) == FileProtocol.WriteData(World(old(StoresOf(file)), old(log)), file, data)
    {
      file.adapter.Write(file.path, data);
      log := log + [FileWritten(file)];
    }

    method Write(file: File, state: State) returns (o: Outcome)
      modifies this, file.adapter
      ensures (o, World(StoresOf(file), log)) == FileProtocol.Write(World(old(StoresOf(file)), old(log)), serializer, file, state)
    {
      var data := serializer.encodeState(state);
      if data.Err? {
        o := Fail(data.error);
        return;
      }
      WriteData(file, data.value);
      o := Pass;
    }

    /** `Write(file, serializable)`. */
    method WriteSerializable(file: File, serializable: Record) returns (o: Outcome)
      modifies this, file.adapter
      ensures (o, World(StoresOf(file), log)) ==
              FileProtocol.WriteSerializable(World(old(StoresOf(file)), old(log)), serializer, file, serializable.contents)
    {
      var data := serializer.encode(serializable.contents);
      if data.Err? {
        o := Fail(data.error);
        return;
      }
      WriteData(file, data.value);
      o := Pass;
    }

    method Move(file: File, destination: File) returns (o: Outcome)
      modifies this, file.adapter, destination.adapter
      ensures (o, World(PairStores(file, destination), log)) ==
              FileProtocol.Move(World(old(PairStores(file, destination)), old(log)), file, destination)
    {
      if file.adapter == destination.adapter {
        o := file.adapter.Move(file.path, destination.path);
        if o.Fail? {
          return;
        }
        assert PairStores(file, destination) == old(PairStores(file, destination))[file.adapter := file.adapter.store];
      } else {
        var data := file.adapter.Read(file.path);
        if data.Err? {
          o := Fail(data.error);
          return;
        }
        destination.adapter.Write(destination.path, data.value);
        o := file.adapter.Delete(file.path);
        if o.Fail? {
          return;
        }
        assert PairStores(file, destination) ==
               old(PairStores(file, destination))[destination.adapter := destination.adapter.store][file.adapter := file.adapter.store];
      }
      log := log + [FileMoved(file, destination)];
    }

    /** `Copy` as the source has it: on one adapter it renames. */
    method Copy(file: File, destination: File) returns (o: Outcome)
      modifies this, file.adapter, destination.adapter
      ensures (o, World(PairStores(file, destination), log)) ==
              FileProtocol.Copy(World(old(PairStores(file, destination)), old(log)), file, destination)
    {
      if file.adapter == destination.adapter {
        o := file.adapter.Move(file.path, destination.path);
        if o.Fail? {
          return;
        }
        assert PairStores(file, destination) == old(PairStores(file, destination))[file.adapter := file.adapter.store];
      } else {
        var data := file.adapter.Read(file.path);
        if data.Err? {
          o := Fail(data.error);
          return;
        }
        destination.adapter.Write(destination.path, data.value);
        o := Pass;
        assert PairStores(file, destination) == old(PairStores(file, destination))[destination.adapter := destination.adapter.store];
      }
      log := log + [FileCopied(file, destination)];
    }

    /** A copy that reads and writes on both branches, so the source stays. */
    method CopyFixed(file: File, destination: File) returns (o: Outcome)
      modifies this, file.adapter, destination.adapter
      ensures (o, World(PairStores(file, destination), log)) ==
              FileProtocol.CopyFixed(World(old(PairStores(file, destination)), old(log)), file, destination)
    {
      var data := file.adapter.Read(file.path);
      if data.Err? {
        o := Fail(data.error);
        return;
      }
      destination.adapter.Write(destination.path, data.value);
      o := Pass;
      assert PairStores(file, destination) == old(PairStores(file, destination))[destination.adapter := destination.adapter.store];
      log := log + [FileCopied(file, destination)];
    }

    method Delete(source: File) returns (o: Outcome)
      modifies this, source.adapter
      ensures (o, World(StoresOf(source), log)) == FileProtocol.Delete(World(old(StoresOf(source)), old(log)), source)
    {
      o := source.adapter.Delete(source.path);
      if o.Fail? {
        return;
      }
      assert StoresOf(source) == old(StoresOf(source))[source.adapter := source.adapter.store];
      log := log + [FileDeleted(source)];
    }

    /** `Awake`: the first system to wake becomes the current one; any later
        one is destroyed by its host (the returned flag). */
    method Awake(host: Host) returns (destroyed: bool)
      modifies host
      ensures (host.current, destroyed) == AfterAwake(old(host.current), this)
    {
      if host.current.None? {
        host.current := Some(this);
        destroyed := false;
      } else {
        destroyed := true;
      }
    }

    /** `OnDestroy`: the current system, and only it, clears the slot. */
    method OnDestroy(host: Host)
      modifies host
      ensures host.current == AfterDestroy(old(host.current), this)
    {
      if host.current == Some(this) {
        host.current := None;
      }
    }
  }

  /** Holder of the process-wide current system (the static `_current`). */
  class Host {
    var current: Option<PersistenceSystem>

    constructor ()
      ensures current == None
    {
      current := None;
    }
  }

  /** The slot after `system` wakes, and whether `system` is destroyed:
      afterwards some system is current; a system already current stays so,
      and the newcomer is destroyed exactly then. */
  function AfterAwake(current: Option<PersistenceSystem>, system: PersistenceSystem): (r: (Option<PersistenceSystem>, bool))
    ensures r.0.Some?
    ensures r.1 <==> current.Some?
    ensures r.1 ==> r.0 == current
    ensures !r.1 ==> r.0 == Some(system)
  {
    if current.None? then (Some(system), false) else (current, true)
  }

  /** The slot after `system` is destroyed: emptied exactly when `system`
      was current, unchanged otherwise. */
  function AfterDestroy(current: Option<PersistenceSystem>, system: PersistenceSystem): (r: Option<PersistenceSystem>)
    ensures r.None? <==> current.None? || current == Some(system)
    ensures r.Some? ==> r == current
  {
    if current == Some(system) then None else current
  }

  /** Two systems waking one after the other: the first stays current, the
      second is destroyed, and destroying the second leaves the first
      current. */
  lemma SecondSystemDestroyed(first: PersistenceSystem, second: PersistenceSystem)
    requires first != second
    ensures var (slot1, d1) := AfterAwake(None, first);
      var (slot2, d2) := AfterAwake(slot1, second);
      && !d1 && d2
      && slot2 == Some(first)
      && AfterDestroy(slot2, second) == Some(first)
      && AfterDestroy(AfterDestroy(slot2, second), first) == None
  {
  }
}

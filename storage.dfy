/// Storage adapters and file handles. An adapter is one storage medium that
/// keeps raw bytes under adapter-relative paths; a file handle names one path
/// on one adapter. The adapters' own implementations are not part of this
/// model, so an adapter is given the plain semantics of a map from paths to
/// bytes: read is lookup, write is update, delete is removal and move is a
/// rename inside the map.
module Storage {
  import opened Errors

  newtype byte = x: int | 0 <= x < 256
  type Bytes = seq<byte>
  type Path = string

  /** The contents of one adapter's medium. */
  type Store = map<Path, Bytes>

  /** Reading a path: its bytes, or a failure when nothing is stored there. */
  function Lookup(s: Store, path: Path): (r: Result<Bytes>)
    ensures r.Ok? <==> path in s
    ensures r.Ok? ==> r.value == s[path]
    ensures r.Err? ==> r.error == PathNotFound(path)
  {
    if path in s then Ok(s[path]) else Err(PathNotFound(path))
  }

  /** Renaming `from` to `to`: the bytes move to `to` (overwriting what was
      there) and `from` is gone; every other path keeps its bytes. */
  function Rename(s: Store, from: Path, to: Path): (r: Result<Store>)
    ensures r.Ok? <==> from in s
    ensures r.Err? ==> r.error == PathNotFound(from)
    ensures r.Ok? ==> to in r.value && r.value[to] == s[from]
    ensures r.Ok? && from != to ==> from !in r.value
    ensures r.Ok? ==> r.value - {from, to} == s - {from, to}
  {
    if from in s then Ok((s - {from})[to := s[from]]) else Err(PathNotFound(from))
  }

  /** Deleting a path: it is gone and nothing else changes. */
  function Remove(s: Store, path: Path): (r: Result<Store>)
    ensures r.Ok? <==> path in s
    ensures r.Err? ==> r.error == PathNotFound(path)
    ensures r.Ok? ==> r.value.Keys == s.Keys - {path}
    ensures r.Ok? ==> r.value - {path} == s - {path}
  {
    if path in s then Ok(s - {path}) else Err(PathNotFound(path))
  }

  /** A storage medium: identity metadata that the system orders and selects
      adapters by, and the bytes it stores. Adapters are compared by
      reference, as the source does. */
  class Adapter {
    const name: string
    const priority: int
    const enabled: bool
    var store: Store

    constructor (name: string, priority: int, enabled: bool, store: Store)
      ensures this.name == name && this.priority == priority && this.enabled == enabled
      ensures this.store == store
    {
      this.name := name;
      this.priority := priority;
      this.enabled := enabled;
      this.store := store;
    }

    predicate Exists(path: Path)
      reads this
    {
      path in store
    }

    method Read(path: Path) returns (r: Result<Bytes>)
      ensures r == Lookup(store, path)
    {
      if path in store {
        r := Ok(store[path]);
      } else {
        r := Err(PathNotFound(path));
      }
    }

    method Write(path: Path, data: Bytes)
      modifies this
      ensures store == old(store)[path := data]
    {
      store := store[path := data];
    }

    method Move(path: Path, newPath: Path) returns (o: Outcome)
      modifies this
      ensures Rename(old(store), path, newPath).Ok? ==> o == Pass && store == Rename(old(store), path, newPath).value
      ensures Rename(old(store), path, newPath).Err? ==> o == Fail(Rename(old(store), path, newPath).error) && store == old(store)
    {
      var r := Rename(store, path, newPath);
      if r.Ok? {
        store := r.value;
        o := Pass;
      } else {
        o := Fail(r.error);
      }
    }

    method Delete(path: Path) returns (o: Outcome)
      modifies this
      ensures Remove(old(store), path).Ok? ==> o == Pass && store == Remove(old(store), path).value
      ensures Remove(old(store), path).Err? ==> o == Fail(Remove(old(store), path).error) && store == old(store)
    {
      var r := Remove(store, path);
      if r.Ok? {
        store := r.value;
        o := Pass;
      } else {
        o := Fail(r.error);
      }
    }
  }

  /** A file handle: one path on one adapter. Two handles name the same
      location exactly when their adapters are the same object and their
      paths are equal. */
  datatype File = File(adapter: Adapter, path: Path)

  /** One notification the system publishes, carrying the affected handles. */
  datatype Event =
    | FileRead(file: File)
    | FileWritten(file: File)
    | FileMoved(file: File, destination: File)
    | FileCopied(file: File, destination: File)
    | FileDeleted(file: File)
}

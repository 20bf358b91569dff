/**
 * The document accessor: one nullable reference to a record and the decision
 * logic that guards every operation on it, stamps audit fields and routes the
 * call to one store primitive.
 */
module Document {
  import opened Wrappers
  import opened Store

  /** The audit field `set` stamps. */
  const Created: string := "created"
  /** The audit field `merge` and `update` stamp. */
  const Updated: string := "updated"

  /**
   * `{ ...data, [field]: timestamp }`: the spread copies every caller field and
   * the stamp, written last, overrides any caller value of that field.
   */
  function Stamped(data: Content, field: string, ts: Timestamp): (r: Content)
    ensures r.Keys == data.Keys + {field}
    ensures r[field] == Time(ts)
    ensures forall k :: k in data && k != field ==> r[k] == data[k]
  {
    data[field := Time(ts)]
  }

  /** Stand-in for the snapshot-to-content mapping: the content of an existing snapshot. */
  function SnapshotData(snapshot: Option<Snapshot>): (r: Option<Content>)
    ensures r.Some? <==> snapshot.Some? && snapshot.value.Exists()
    ensures r.Some? ==> snapshot.value.data == r
  {
    if snapshot.Some? && snapshot.value.Exists() then snapshot.value.data else None
  }

  /** `db.counter(collection, shards)`: a sharded counter handle over a child collection. */
  datatype CounterHandle = CounterHandle(shards: CollectionRef, count: Option<int>)

  class DatabaseDocument {
    /** The bound reference; None is the legal, inert unbound state. */
    var ref: Option<DocRef>
    /** The remote store the reference points into. */
    var store: Db

    /** Binds to the reference the store resolved from a path, a reference or nothing. */
    constructor (db: Db, resolved: Option<DocRef>)
      ensures ref == resolved && store == db
    {
      ref := resolved;
      store := db;
    }

    /** Adopts the snapshot's reference (unbinding on a null snapshot) and returns its content. */
    method Unwrap(snapshot: Option<Snapshot>) returns (data: Option<Content>)
      modifies this`ref
      ensures ref == (if snapshot.Some? then Some(snapshot.value.ref) else None)
      ensures data == SnapshotData(snapshot)
      ensures data.Some? ==> snapshot.Some? && snapshot.value.Exists()
    {
      ref := if snapshot.Some? then Some(snapshot.value.ref) else None;
      data := SnapshotData(snapshot);
    }

    /** `id`: the falsy reference when unbound, otherwise the document id. */
    function Id(): (r: Option<string>)
      reads this
      ensures r.Some? <==> ref.Some?
      ensures r.Some? ==> r.value == ref.value.id
      ensures r.Some? ==>
        |r.value| < |DocPath(ref.value)| && DocPath(ref.value)[|DocPath(ref.value)| - |r.value| - 1..] == "/" + r.value
    {
      if ref.Some? then Some(ref.value.id) else None
    }

    /** `path`: the falsy reference when unbound, otherwise the path from the root. */
    function Path(): (r: Option<string>)
      reads this
      ensures r.Some? <==> ref.Some?
      ensures r.Some? ==> |r.value| > |Id().value| && r.value[|r.value| - |Id().value| - 1..] == "/" + Id().value
    {
      if ref.Some? then Some(DocPath(ref.value)) else None
    }

    /** `parent`: the falsy reference when unbound, otherwise the collection holding the document. */
    function Parent(): (r: Option<CollectionRef>)
      reads this
      ensures r.Some? <==> ref.Some?
      ensures r.Some? ==> CollectionPath(r.value) + "/" + Id().value == Path().value
    {
      if ref.Some? then Some(ref.value.parent) else None
    }

    /** `collection(name)`: the falsy reference when unbound, otherwise the child collection. */
    function Collection(name: string): (r: Option<CollectionRef>)
      reads this
      ensures r.Some? <==> ref.Some?
      ensures r.Some? ==> CollectionPath(r.value) == Path().value + "/" + name
    {
      if ref.Some? then Some(ChildCollection(ref.value, name)) else None
    }

    /** `counter(name, shards)`: the falsy reference when unbound, otherwise a counter over the child collection. */
    function Counter(name: string, shards: Option<int>): (r: Option<CounterHandle>)
      reads this
      ensures r.Some? <==> ref.Some?
      ensures r.Some? ==> CollectionPath(r.value.shards) == Path().value + "/" + name && r.value.count == shards
    {
      if ref.Some? then Some(CounterHandle(ChildCollection(ref.value, name), shards)) else None
    }

    /**
     * `set(data)`: destructive write of the caller's fields with `created`
     * stamped over any caller value; a caller `updated` field is written as given.
     */
    method Set(data: Content, ts: Timestamp, fault: Fault) returns (o: Outcome)
      modifies this`store
      ensures ref.None? ==> o == Failed(RefError) && store == old(store)
      ensures ref.Some? ==> Step(o, store) == SetDoc(old(store), ref.value, Stamped(data, Created, ts), fault)
      ensures ref.Some? && fault.None? ==>
        && o == Done
        && store[ref.value].Keys == data.Keys + {Created}
        && store[ref.value][Created] == Time(ts)
        && (forall k :: k in data && k != Created ==> store[ref.value][k] == data[k])
    {
      if ref.None? {
        o := Failed(RefError);
        return;
      }
      var step := SetDoc(store, ref.value, Stamped(data, Created, ts), fault);
      o, store := step.outcome, step.db;
    }

    /**
     * `merge(data)`: merge-mode set of the caller's fields with `updated`
     * stamped over any caller value; succeeds on an absent document.
     */
    method Merge(data: Content, ts: Timestamp, fault: Fault) returns (o: Outcome)
      modifies this`store
      ensures ref.None? ==> o == Failed(RefError) && store == old(store)
      ensures ref.Some? ==> Step(o, store) == MergeDoc(old(store), ref.value, Stamped(data, Updated, ts), fault)
      ensures ref.Some? && fault.None? ==>
        && o == Done
        && store[ref.value][Updated] == Time(ts)
        && (ref.value !in old(store) ==> store[ref.value] == Stamped(data, Updated, ts))
    {
      if ref.None? {
        o := Failed(RefError);
        return;
      }
      var step := MergeDoc(store, ref.value, Stamped(data, Updated, ts), fault);
      o, store := step.outcome, step.db;
      MergeIntoEmpty(Stamped(data, Updated, ts));
    }

    /**
     * `update(data)`: top-level update of the caller's fields with `updated`
     * stamped over any caller value; the store rejects an absent document with `not-found`.
     */
    method Update(data: Content, ts: Timestamp, fault: Fault) returns (o: Outcome)
      modifies this`store
      ensures ref.None? ==> o == Failed(RefError) && store == old(store)
      ensures ref.Some? ==> Step(o, store) == UpdateDoc(old(store), ref.value, Stamped(data, Updated, ts), fault)
      ensures ref.Some? && fault.None? && ref.value !in old(store) ==>
        o == Failed(StoreError(NotFoundCode)) && store == old(store)
      ensures ref.Some? && fault.None? && ref.value in old(store) ==>
        && o == Done
        && store[ref.value][Updated] == Time(ts)
        && (forall k :: k in data && k != Updated ==> store[ref.value][k] == data[k])
    {
      if ref.None? {
        o := Failed(RefError);
        return;
      }
      var step := UpdateDoc(store, ref.value, Stamped(data, Updated, ts), fault);
      o, store := step.outcome, step.db;
    }

    /** `exists()`: false without a round trip when unbound, else the snapshot's flag. */
    function Exists(fault: Fault): (r: Result<bool, Error>)
      reads this
      ensures ref.None? ==> r == Ok(false)
      ensures ref.Some? && fault.Some? ==> r == Err(StoreError(fault.value))
      ensures ref.Some? && fault.None? ==> r == Ok(ref.value in store)
    {
      if ref.None? then Ok(false)
      else
        match GetDoc(store, ref.value, fault)
        case Ok(snap) => Ok(snap.Exists())
        case Err(e) => Err(e)
    }

    /**
     * `upsert(data)`: one transaction reads existence, then updates an
     * existing document or sets an absent one, with `data` unstamped.
     */
    method Upsert(data: Content, fault: Fault) returns (o: Outcome)
      modifies this`store
      ensures ref.None? ==> o == Failed(RefError) && store == old(store)
      ensures ref.Some? && fault.Some? ==> o == Failed(StoreError(fault.value)) && store == old(store)
      ensures ref.Some? && fault.None? ==>
        && o == Done
        && ref.value in store
        && store - {ref.value} == old(store) - {ref.value}
        && store[ref.value] == (if ref.value in old(store) then old(store)[ref.value] + data else data)
    {
      if ref.None? {
        o := Failed(RefError);
        return;
      }
      if fault.Some? {
        // the transaction did not commit: none of its writes are applied
        o := Failed(StoreError(fault.value));
        return;
      }
      var snap := GetDoc(store, ref.value, None);
      var step := if snap.value.Exists() then UpdateDoc(store, ref.value, data, None)
                  else SetDoc(store, ref.value, data, None);
      o, store := step.outcome, step.db;
    }

    /**
     * `overwrite(data)`: `update`, falling back to `set` only when `update`
     * rejects with `not-found`; any other rejection is passed on with no write.
     */
    method Overwrite(data: Content, ts: Timestamp, updateFault: Fault, setFault: Fault) returns (o: Outcome)
      modifies this`store
      ensures ref.None? ==> o == Failed(RefError) && store == old(store)
      ensures ref.Some? ==>
        var u := UpdateDoc(old(store), ref.value, Stamped(data, Updated, ts), updateFault);
        if u.outcome.Failed? && IsNotFound(u.outcome.error)
        then Step(o, store) == SetDoc(old(store), ref.value, Stamped(data, Created, ts), setFault)
        else Step(o, store) == u
      ensures ref.Some? && updateFault.None? && ref.value in old(store) ==>
        o == Done && store[ref.value] == old(store)[ref.value] + Stamped(data, Updated, ts)
      ensures ref.Some? && updateFault.None? && setFault.None? && ref.value !in old(store) ==>
        o == Done && store[ref.value] == Stamped(data, Created, ts)
      ensures ref.Some? && updateFault.Some? && updateFault.value != NotFoundCode ==>
        o == Failed(StoreError(updateFault.value)) && store == old(store)
    {
      o := Update(data, ts, updateFault);
      if o.Failed? {
        if !IsNotFound(o.error) {
          return;
        }
        o := Set(data, ts, setFault);
      }
    }

    /** `snap()`: rejects without a round trip when unbound, else the store's snapshot. */
    function Snap(fault: Fault): (r: Result<Snapshot, Error>)
      reads this
      ensures ref.None? ==> r == Err(RefError)
      ensures ref.Some? && fault.Some? ==> r == Err(StoreError(fault.value))
      ensures ref.Some? && fault.None? ==>
        r.Ok? && r.value.ref == ref.value && (r.value.Exists() <==> ref.value in store)
      ensures ref.Some? && fault.None? ==>
        r.value.data == (if ref.value in store then Some(store[ref.value]) else None)
    {
      if ref.None? then Err(RefError) else GetDoc(store, ref.value, fault)
    }

    /** `get()`: the snapshot's content; reads through `Snap` and leaves `ref` alone. */
    function Get(fault: Fault): (r: Result<Option<Content>, Error>)
      reads this
      ensures ref.None? ==> r == Err(RefError)
      ensures ref.Some? && fault.Some? ==> r == Err(StoreError(fault.value))
      ensures ref.Some? && fault.None? ==>
        r == Ok(if ref.value in store then Some(store[ref.value]) else None)
    {
      match Snap(fault)
      case Ok(snapshot) => Ok(SnapshotData(Some(snapshot)))
      case Err(e) => Err(e)
    }

    /** `delete()`: rejects without a round trip when unbound, else removes the document. */
    method Delete(fault: Fault) returns (o: Outcome)
      modifies this`store
      ensures ref.None? ==> o == Failed(RefError) && store == old(store)
      ensures ref.Some? ==> Step(o, store) == DeleteDoc(old(store), ref.value, fault)
      ensures ref.Some? && fault.None? ==> o == Done && store == old(store) - {ref.value}
    {
      if ref.None? {
        o := Failed(RefError);
        return;
      }
      var step := DeleteDoc(store, ref.value, fault);
      o, store := step.outcome, step.db;
    }
  }
}

/**
 * The remote document store the accessor delegates to, reduced to what the
 * accessor relies on: a map from document reference to content, and the
 * one-round-trip primitives `set`, `set` with merge, `update`, `get` and
 * `delete`. Every primitive takes a `fault`: the error code, if any, that the
 * backend reports for that round trip (permission, transport, ...). The
 * store's own behaviour (its deep merge, its not-found rule) is given here as
 * specification functions; the accessor's decision logic lives in Document.
 */
module Store {
  import opened Wrappers

  /** The opaque value the backend's clock supplies for audit fields. */
  type Timestamp = int

  /** Schema-free field values. */
  datatype Value =
    | Null
    | Bool(b: bool)
    | Number(n: int)
    | Text(s: string)
    | Time(at: Timestamp)
    | List(items: seq<Value>)
    | Object(fields: map<string, Value>)

  /** Record content: field name to value. */
  type Content = map<string, Value>

  /** A collection, either at the root or under a document. */
  datatype CollectionRef = CollectionRef(parent: Option<DocRef>, id: string)

  /** A document, always inside a collection. */
  datatype DocRef = DocRef(parent: CollectionRef, id: string)

  function CollectionPath(c: CollectionRef): string
    decreases c
  {
    match c.parent
    case None => c.id
    case Some(d) => DocPath(d) + "/" + c.id
  }

  function DocPath(d: DocRef): (p: string)
    decreases d
    ensures |p| > |d.id|
    ensures p[|p| - |d.id| - 1..] == "/" + d.id
  {
    CollectionPath(d.parent) + "/" + d.id
  }

  /** `ref.collection(name)`: the child collection rooted under a document. */
  function ChildCollection(d: DocRef, name: string): (c: CollectionRef)
    ensures CollectionPath(c) == DocPath(d) + "/" + name
    ensures c.parent == Some(d)
  {
    CollectionRef(Some(d), name)
  }

  /** The code the store rejects with when `update` targets a missing document. */
  const NotFoundCode: string := "not-found"

  /** A rejection: the accessor's own unbound-reference rejection, or a store error code. */
  datatype Error = RefError | StoreError(code: string)

  predicate IsNotFound(e: Error) {
    e.StoreError? && e.code == NotFoundCode
  }

  /** How a write settled. */
  datatype Outcome = Done | Failed(error: Error)

  type Db = map<DocRef, Content>

  /** The settlement of a write together with the store afterwards. */
  datatype Step = Step(outcome: Outcome, db: Db)

  /** The error code the backend reports for one round trip, if any. */
  type Fault = Option<string>

  /** A point-in-time read: the reference and, when the document exists, its content. */
  datatype Snapshot = Snapshot(ref: DocRef, data: Option<Content>) {
    predicate Exists() { data.Some? }
  }

  /** `ref.set(content)`: destructively replaces the document, creating it if absent. */
  function SetDoc(db: Db, ref: DocRef, content: Content, fault: Fault): (r: Step)
    ensures fault.Some? ==> r == Step(Failed(StoreError(fault.value)), db)
    ensures fault.None? ==> r.outcome == Done && ref in r.db && r.db[ref] == content
    ensures r.db - {ref} == db - {ref}
  {
    if fault.Some? then Step(Failed(StoreError(fault.value)), db)
    else Step(Done, db[ref := content])
  }

  /**
   * Deep merge of `patch` into `base`: two objects merge field by field,
   * recursively; in every other case the patch value replaces the base value.
   */
  function MergeValue(base: Value, patch: Value): (r: Value)
    decreases patch, 1
    ensures !(base.Object? && patch.Object?) ==> r == patch
    ensures base.Object? && patch.Object? ==> r.Object? && r.fields.Keys == base.fields.Keys + patch.fields.Keys
    ensures base.Object? && patch.Object? ==> r.fields == MergeContent(base.fields, patch.fields)
  {
    if base.Object? && patch.Object? then Object(MergeContent(base.fields, patch.fields))
    else patch
  }

  /** Field-by-field deep merge of two contents: every base field survives unless the patch names it. */
  function MergeContent(base: Content, patch: Content): (r: Content)
    decreases Object(patch), 0
    ensures r.Keys == base.Keys + patch.Keys
    ensures forall k :: k in base && k !in patch ==> r[k] == base[k]
    ensures forall k :: k in patch && k !in base ==> r[k] == patch[k]
    ensures forall k :: k in patch && k in base ==> r[k] == MergeValue(base[k], patch[k])
  {
    map k | k in base.Keys + patch.Keys ::
      if k in patch then (if k in base then MergeValue(base[k], patch[k]) else patch[k])
      else base[k]
  }

  /** `ref.set(content, { merge: true })`: merges into the document, creating it if absent. */
  function MergeDoc(db: Db, ref: DocRef, content: Content, fault: Fault): (r: Step)
    ensures fault.Some? ==> r == Step(Failed(StoreError(fault.value)), db)
    ensures fault.None? ==> r.outcome == Done && ref in r.db
    ensures fault.None? ==> r.db[ref] == MergeContent(if ref in db then db[ref] else map[], content)
    ensures r.db - {ref} == db - {ref}
  {
    if fault.Some? then Step(Failed(StoreError(fault.value)), db)
    else Step(Done, db[ref := MergeContent(if ref in db then db[ref] else map[], content)])
  }

  /**
   * `ref.update(content)`: replaces the named top-level fields of an existing
   * document (nested objects wholesale); rejects with `not-found` when absent.
   */
  function UpdateDoc(db: Db, ref: DocRef, content: Content, fault: Fault): (r: Step)
    ensures r.outcome == Done <==> fault.None? && ref in db
    ensures fault.Some? ==> r == Step(Failed(StoreError(fault.value)), db)
    ensures fault.None? && ref !in db ==> r == Step(Failed(StoreError(NotFoundCode)), db)
    ensures r.outcome == Done ==>
      && ref in r.db
      && r.db[ref].Keys == db[ref].Keys + content.Keys
      && (forall k :: k in content ==> r.db[ref][k] == content[k])
      && (forall k :: k in db[ref] && k !in content ==> r.db[ref][k] == db[ref][k])
    ensures r.db - {ref} == db - {ref}
  {
    if fault.Some? then Step(Failed(StoreError(fault.value)), db)
    else if ref !in db then Step(Failed(StoreError(NotFoundCode)), db)
    else Step(Done, db[ref := db[ref] + content])
  }

  /** `ref.get()`: a snapshot of the document, which reports whether it exists. */
  function GetDoc(db: Db, ref: DocRef, fault: Fault): (r: Result<Snapshot, Error>)
    ensures fault.Some? <==> r.Err?
    ensures r.Err? ==> r.error == StoreError(fault.value)
    ensures r.Ok? ==> r.value.ref == ref && (r.value.Exists() <==> ref in db)
    ensures r.Ok? && ref in db ==> r.value.data == Some(db[ref])
  {
    if fault.Some? then Err(StoreError(fault.value))
    else Ok(Snapshot(ref, if ref in db then Some(db[ref]) else None))
  }

  /** `ref.delete()`: removes the document; deleting an absent document succeeds. */
  function DeleteDoc(db: Db, ref: DocRef, fault: Fault): (r: Step)
    ensures fault.Some? ==> r == Step(Failed(StoreError(fault.value)), db)
    ensures fault.None? ==> r.outcome == Done && ref !in r.db
    ensures r.db - {ref} == db - {ref}
  {
    if fault.Some? then Step(Failed(StoreError(fault.value)), db)
    else Step(Done, db - {ref})
  }

  /**
   * On a nested object named by both sides, merge keeps the stored sub-fields
   * the patch does not name, while update replaces the object wholesale.
   */
  lemma NestedMergeVersusUpdate(db: Db, ref: DocRef, patch: Content, k: string)
    requires ref in db && k in db[ref] && k in patch
    requires db[ref][k].Object? && patch[k].Object?
    ensures MergeDoc(db, ref, patch, None).db[ref][k].fields.Keys == db[ref][k].fields.Keys + patch[k].fields.Keys
    ensures forall f :: f in db[ref][k].fields && f !in patch[k].fields ==>
      MergeDoc(db, ref, patch, None).db[ref][k].fields[f] == db[ref][k].fields[f]
    ensures UpdateDoc(db, ref, patch, None).db[ref][k] == patch[k]
  {
  }

  /** Merging `{a: {x: 1}}` into a stored `{a: {y: 2}}` gives `{a: {x: 1, y: 2}}`. */
  lemma MergeSubObjects(db: Db, ref: DocRef)
    requires ref in db && db[ref] == map["a" := Object(map["y" := Number(2)])]
    ensures MergeDoc(db, ref, map["a" := Object(map["x" := Number(1)])], None).db[ref]
      == map["a" := Object(map["x" := Number(1), "y" := Number(2)])]
  {
    var merged := MergeContent(map["y" := Number(2)], map["x" := Number(1)]);
    assert merged.Keys == {"x", "y"};
    assert merged == map["x" := Number(1), "y" := Number(2)];
  }

  /** Merging into a missing document stores exactly the patch: merge-mode set creates. */
  lemma MergeIntoEmpty(patch: Content)
    ensures MergeContent(map[], patch) == patch
  {
  }
}

/**
 * A document collection as the services see it: its documents in natural
 * order, and whether the database is reachable. When it is not, every driver
 * call throws an `Error` carrying `fault`.
 */
module Store {
  import opened Wrappers
  import opened Sequences

  datatype Collection<T> = Collection(docs: seq<T>, fault: Option<string>)

  /** `findOne(filter)`: the first matching document in natural order, or a thrown driver error. */
  function FindOne<T>(c: Collection<T>, filter: T -> bool): (r: Outcome<Option<T>>)
    ensures c.fault.Some? <==> r.Thrown?
    ensures c.fault.Some? ==> r.message == c.fault.value
    ensures r.Ok? && r.value.Some? ==> r.value.value in c.docs && filter(r.value.value)
    ensures r.Ok? && r.value.Some? ==>
      exists k :: 0 <= k < |c.docs| && c.docs[k] == r.value.value && forall j :: 0 <= j < k ==> !filter(c.docs[j])
    ensures r.Ok? && r.value.None? <==> c.fault.None? && forall j :: 0 <= j < |c.docs| ==> !filter(c.docs[j])
  {
    if c.fault.Some? then Thrown(c.fault.value) else Ok(Find(c.docs, filter))
  }
}

/** What zbackup knows about one filesystem's properties: for each bare
    property name, its value and where that value comes from, kept in a
    dictionary that remembers the order in which names were first stored
    (as a Python `dict` does). */
module Properties {

  /** The sources zbackup distinguishes. */
  const Local: string := "local"
  const Received: string := "received"
  const Inherited: string := "inherited"

  /** The pair `(value, source)` stored for a property. */
  datatype PropValue = PropValue(value: string, source: string)

  /** An insertion-ordered dictionary from bare property name to `PropValue`:
      `order` lists the keys in the order they were first stored. */
  datatype PropertyDict = PropertyDict(order: seq<string>, entries: map<string, PropValue>)
  {
    /** The keys are listed once each, and exactly the keys are listed. */
    predicate Valid()
    {
      && (forall i, j :: 0 <= i < j < |order| ==> order[i] != order[j])
      && (forall k :: k in entries ==> k in order)
      && (forall k :: k in order ==> k in entries)
    }
  }

  /** `{}`. */
  function Empty(): (d: PropertyDict)
    ensures d.Valid() && d.entries == map[]
  {
    PropertyDict([], map[])
  }

  /** `d[k] = v`: a new key goes to the end of the order, an existing one
      keeps its place and takes the new value. */
  function Insert(d: PropertyDict, k: string, v: PropValue): (r: PropertyDict)
    requires d.Valid()
    ensures r.Valid()
    ensures r.entries == d.entries[k := v]
    ensures r.order == if k in d.entries then d.order else d.order + [k]
  {
    if k in d.entries then PropertyDict(d.order, d.entries[k := v])
    else PropertyDict(d.order + [k], d.entries[k := v])
  }
}

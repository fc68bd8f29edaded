// The Map of legoHDL as the models use it: a dictionary whose string keys
// the callers lower-case before every lookup and assignment, kept in
// insertion order as a Python dict is.
module Dict {
  import opened Lists

  /** A dictionary with case-blind string keys: its keys in insertion order and its entries. */
  datatype Shelf<W> = Shelf(keys: seq<string>, jar: map<string, W>)

  /** Each key once, and the key order lists exactly the entries. */
  ghost predicate Ordered<W>(s: Shelf<W>)
  {
    Distinct(s.keys) && forall k :: k in s.keys <==> k in s.jar
  }

  /** Assignment to a key: a new key goes last, an existing one keeps its place. */
  function Put<W>(s: Shelf<W>, k: string, w: W): Shelf<W>
  {
    Shelf(if k in s.jar then s.keys else s.keys + [k], s.jar[k := w])
  }

  /** Deletion of a key. */
  function Del<W>(s: Shelf<W>, k: string): Shelf<W>
  {
    Shelf(RemoveFirst(s.keys, k), s.jar - {k})
  }

  lemma PutOrdered<W>(s: Shelf<W>, k: string, w: W)
    requires Ordered(s)
    ensures Ordered(Put(s, k, w))
  {
    if k !in s.jar {
      DistinctAppend(s.keys, k);
    }
  }

  lemma DelOrdered<W>(s: Shelf<W>, k: string)
    requires Ordered(s)
    ensures Ordered(Del(s, k))
  {
    RemoveFirstDistinct(s.keys, k);
  }
}

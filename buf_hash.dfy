/** The buffer hash table (BufHashTbl), seen only through its contract: a map
    from (file, page number) to frame number. Its hashing and chaining are not
    part of this model. */
module BufHash {
  import opened BufTypes

  type Index = map<Key, int>

  /** insert(file, pageNo, frameNo): fails with HashTblError when the key is already present. */
  function Insert(m: Index, k: Key, frame: int): (r: (Status, Index))
    ensures (r.0 == HashTblError <==> k in m) && (r.0 == HashTblError || r.0 == Ok)
    ensures r.1.Keys == m.Keys + {k}
    ensures r.0 == Ok ==> r.1[k] == frame && r.1 - {k} == m - {k}
    ensures r.0 != Ok ==> r.1 == m
  {
    if k in m then (HashTblError, m) else (Ok, m[k := frame])
  }

  /** remove(file, pageNo): HashNotFound when the key is absent; the key is gone afterwards. */
  function Remove(m: Index, k: Key): (r: (Status, Index))
    ensures (r.0 == Ok <==> k in m) && (r.0 == Ok || r.0 == HashNotFound)
    ensures k !in r.1 && r.1.Keys == m.Keys - {k}
    ensures forall j :: j in r.1 ==> r.1[j] == m[j]
  {
    if k in m then (Ok, m - {k}) else (HashNotFound, m)
  }
}

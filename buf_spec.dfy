/** The state of BufMgr as a value, its invariant, and one function per
    operation of buf.C giving the status, the out-parameters and the new state. */
module BufSpec {
  import opened BufTypes
  import opened BufHash
  import opened Clock

  /** The buffer manager's state: the frame table, the clock hand, the hash
      table, the frames' page contents (bufPool) and the page store of all files. */
  datatype Pool = Pool(
    table: seq<BufDesc>,
    hand: int,
    index: Index,
    frames: seq<Page>,
    disk: map<Key, Page>)

  /** What an empty or a valid frame looks like. */
  predicate FrameOk(d: BufDesc) {
    (d.valid ==> d.file.Some? && d.pinCnt >= 0) &&
    (!d.valid ==> d.file.None? && d.pinCnt == 0 && !d.dirty)
  }

  predicate HandOk(hand: int, n: int) {
    if n == 0 then hand == -1 else 0 <= hand < n
  }

  /** The class invariant of BufMgr. Its last two clauses together say that the
      hash table maps (f, p) to i exactly when frame i is valid and holds page p of f. */
  predicate Inv(p: Pool) {
    |p.frames| == |p.table| &&
    HandOk(p.hand, |p.table|) &&
    (forall i :: 0 <= i < |p.table| ==> p.table[i].frameNo == i && FrameOk(p.table[i])) &&
    (forall k :: k in p.index ==> 0 <= p.index[k] < |p.table| && Holds(p.table[p.index[k]], k)) &&
    (forall i :: 0 <= i < |p.table| && p.table[i].valid && p.table[i].file.Some? ==>
       KeyOf(p.table[i]) in p.index && p.index[KeyOf(p.table[i])] == i)
  }

  /** What the page store holds for a page; a page it never stored reads as blank. */
  function StoredPage(disk: map<Key, Page>, k: Key): (pg: Page) {
    if k in disk then disk[k] else BLANK_PAGE
  }

  /** The state the constructor BufMgr(bufs) builds over page store `store`. */
  function InitPool(n: nat, store: map<Key, Page>): (p: Pool)
    ensures Inv(p) && |p.table| == n && p.hand == n - 1 && p.index == map[]
    ensures forall i :: 0 <= i < n ==> !p.table[i].valid && p.table[i].frameNo == i
  {
    Pool(seq(n, i => BufDesc(None, 0, i, 0, false, false, false)), n - 1, map[], seq(n, _ => BLANK_PAGE), store)
  }

  /** Clearing a valid frame and removing its key keeps the invariant. */
  lemma ClearKeepsInv(p: Pool, i: int)
    requires Inv(p) && 0 <= i < |p.table| && p.table[i].valid
    ensures Inv(p.(table := p.table[i := p.table[i].Clear()], index := p.index - {KeyOf(p.table[i])}))
  {
    var k := KeyOf(p.table[i]);
    var q := p.(table := p.table[i := p.table[i].Clear()], index := p.index - {k});
    forall k' | k' in q.index
      ensures 0 <= q.index[k'] < |q.table| && Holds(q.table[q.index[k']], k')
    {
      assert p.index[k'] != i;
    }
  }

  /** Setting an empty frame to a page that is not indexed, and indexing it, keeps the invariant. */
  lemma SetKeepsInv(p: Pool, i: int, f: FileId, pg: int)
    requires Inv(p) && 0 <= i < |p.table| && !p.table[i].valid && (f, pg) !in p.index
    ensures Inv(p.(table := p.table[i := p.table[i].Set(f, pg)], index := p.index[(f, pg) := i]))
  {
  }

  /** Refbits, the page contents and the page store play no part in the invariant. */
  lemma RefbitsKeepInv(p: Pool, t: seq<BufDesc>, h: int, frames: seq<Page>, disk: map<Key, Page>)
    requires Inv(p) && OnlyRefbitsCleared(p.table, t) && HandOk(h, |t|) && |frames| == |t|
    ensures Inv(Pool(t, h, p.index, frames, disk))
  {
    var q := Pool(t, h, p.index, frames, disk);
    forall i | 0 <= i < |t| && t[i].valid && t[i].file.Some?
      ensures KeyOf(t[i]) in q.index && q.index[KeyOf(t[i])] == i
    {
      assert KeyOf(t[i]) == KeyOf(p.table[i]);
    }
  }

  /** Result of allocBuf: the status, the frame (-1 unless Ok) and the new state. */
  datatype AllocOut = AllocOut(status: Status, frame: int, pool: Pool)

  /** Lines 91-117 of buf.C: the victim at the hand is written back when dirty,
      looked up again in the hash table (which overwrites the frame number),
      cleared and unindexed. */
  function Evict(q: Pool, i: int, ws: Status): (r: AllocOut)
    requires Inv(q) && 0 <= i < |q.table| && q.table[i].valid
    ensures r.status == Ok || r.status == UnixErr
    ensures r.status == UnixErr <==> q.table[i].dirty && ws != Ok
    ensures r.status != Ok ==> r.frame == -1 && r.pool == q
    ensures |r.pool.table| == |q.table| && r.pool.hand == q.hand && r.pool.frames == q.frames
  {
    var d := q.table[i];
    var key := KeyOf(d);
    if d.dirty && ws != Ok then AllocOut(UnixErr, -1, q)
    else
      var disk := if d.dirty then q.disk[key := q.frames[i]] else q.disk;
      var frameNo := if key in q.index then q.index[key] else i;
      var table := if key in q.index then q.table[frameNo := q.table[frameNo].Clear()] else q.table;
      AllocOut(Ok, frameNo, q.(table := table, index := Remove(q.index, key).1, disk := disk))
  }

  /** A successful eviction leaves the victim empty and unindexed, and keeps the invariant. */
  lemma EvictKeepsInv(q: Pool, i: int, ws: Status)
    requires Inv(q) && 0 <= i < |q.table| && q.table[i].valid
    ensures var r := Evict(q, i, ws);
            Inv(r.pool) && r.pool.hand == q.hand && |r.pool.table| == |q.table| &&
            (r.status == Ok || r.status == UnixErr) &&
            (r.status == Ok ==> r.frame == i && !r.pool.table[i].valid)
  {
    ClearKeepsInv(q, i);
  }

  /** allocBuf (buf.C:74-127); `ws` is what the page store's writePage returns if it is called. */
  function AllocBufSpec(p: Pool, ws: Status): (r: AllocOut)
    requires Inv(p)
    ensures r.status == Ok || r.status == UnixErr || r.status == BufferExceeded
    ensures r.status != Ok ==> r.frame == -1
    ensures |r.pool.table| == |p.table| && r.pool.frames == p.frames
  {
    var n := |p.table|;
    var s := Scan(p.table, p.hand, 2 * n);
    var q := p.(table := s.table, hand := s.hand);
    ScanFacts(p.table, p.hand, 2 * n);
    RefbitsKeepInv(p, s.table, s.hand, p.frames, p.disk);
    match s.outcome
    case Free(i) => AllocOut(Ok, i, q)
    case Exhausted => AllocOut(BufferExceeded, -1, q)
    case Victim(i) => Evict(q, i, ws)
  }

  /** allocBuf keeps the invariant, and a frame it returns is empty and under the hand. */
  lemma AllocBufKeepsInv(p: Pool, ws: Status)
    requires Inv(p)
    ensures var r := AllocBufSpec(p, ws);
            Inv(r.pool) && |r.pool.table| == |p.table| &&
            (r.status == Ok || r.status == UnixErr || r.status == BufferExceeded) &&
            (r.status == Ok ==> r.frame == r.pool.hand && 0 <= r.frame < |p.table| && !r.pool.table[r.frame].valid)
  {
    var s := Scan(p.table, p.hand, 2 * |p.table|);
    ScanFacts(p.table, p.hand, 2 * |p.table|);
    RefbitsKeepInv(p, s.table, s.hand, p.frames, p.disk);
    if s.outcome.Victim? {
      EvictKeepsInv(p.(table := s.table, hand := s.hand), s.outcome.frame, ws);
    }
  }

  /** Result of readPage: the status, the frame holding the page (-1 unless Ok) and the new state. */
  datatype FrameOut = FrameOut(status: Status, frame: int, pool: Pool)

  /** The hash-table insertion and Set() that readPage (buf.C:160-163) and
      allocPage (buf.C:240-243) end with, for the empty frame `i`. */
  function InstallSpec(p: Pool, f: FileId, pg: int, i: int): (r: (Status, Pool))
    requires Inv(p) && 0 <= i < |p.table| && !p.table[i].valid
    ensures Inv(r.1)
    ensures r.0 == Ok <==> (f, pg) !in p.index
    ensures r.0 != Ok ==> r.0 == HashTblError && r.1 == p
    ensures r.0 == Ok ==>
              |r.1.table| == |p.table| && Holds(r.1.table[i], (f, pg)) && r.1.table[i].pinCnt == 1 &&
              !r.1.table[i].dirty && r.1.table[i].refbit && r.1.index == p.index[(f, pg) := i] &&
              r.1.frames == p.frames && r.1.disk == p.disk && r.1.hand == p.hand &&
              (forall j :: 0 <= j < |p.table| && j != i ==> r.1.table[j] == p.table[j])
  {
    var ins := Insert(p.index, (f, pg), i);
    if ins.0 != Ok then (ins.0, p)
    else
      SetKeepsInv(p, i, f, pg);
      (Ok, p.(table := p.table[i := p.table[i].Set(f, pg)], index := ins.1))
  }

  /** readPage (buf.C:145-182); `ws` is the result of allocBuf's write-back, `rs` that of file->readPage. */
  function ReadPageSpec(p: Pool, f: FileId, pg: int, ws: Status, rs: Status): (r: FrameOut)
    requires Inv(p)
    ensures Inv(r.pool)
  {
    var key := (f, pg);
    if key !in p.index then
      var a := AllocBufSpec(p, ws);
      AllocBufKeepsInv(p, ws);
      if a.status != Ok then FrameOut(a.status, -1, a.pool)
      else if rs != Ok then FrameOut(rs, -1, a.pool)
      else
        var q := a.pool.(frames := a.pool.frames[a.frame := StoredPage(a.pool.disk, key)]);
        var ins := InstallSpec(q, f, pg, a.frame);
        FrameOut(ins.0, if ins.0 == Ok then a.frame else -1, ins.1)
    else
      var i := p.index[key];
      FrameOut(Ok, i, Rehit(p, i))
  }

  /** readPage on a page already in frame `i` (buf.C:172-173): one more pin, and the refbit set. */
  function Rehit(p: Pool, i: int): (q: Pool)
    requires 0 <= i < |p.table|
    ensures |q.table| == |p.table| && q.table[i].pinCnt == p.table[i].pinCnt + 1 && q.table[i].refbit
    ensures q.index == p.index && q.frames == p.frames && q.disk == p.disk && q.hand == p.hand
  {
    p.(table := p.table[i := p.table[i].(refbit := true, pinCnt := p.table[i].pinCnt + 1)])
  }

  /** unPinPage (buf.C:189-216). The dirty flag is set before the pin count is checked. */
  function UnPinPageSpec(p: Pool, f: FileId, pg: int, dirty: bool): (r: (Status, Pool))
    requires Inv(p)
    ensures Inv(r.1)
  {
    var key := (f, pg);
    if key !in p.index then (HashNotFound, p)
    else
      var i := p.index[key];
      var d := if dirty then p.table[i].(dirty := true) else p.table[i];
      if d.pinCnt <= 0 then (PageNotPinned, p.(table := p.table[i := d]))
      else (Ok, p.(table := p.table[i := d.(pinCnt := d.pinCnt - 1)]))
  }

  /** Result of allocPage: the status, the new page number (-1 when the file could not
      allocate one), the frame (-1 unless Ok) and the new state. */
  datatype PageOut = PageOut(status: Status, pageNo: int, frame: int, pool: Pool)

  /** allocPage (buf.C:228-246); `fs` and `newNo` are what file->allocatePage returns,
      `ws` the result of allocBuf's write-back. */
  function AllocPageSpec(p: Pool, f: FileId, fs: Status, newNo: int, ws: Status): (r: PageOut)
    requires Inv(p)
    ensures Inv(r.pool)
  {
    if fs != Ok then PageOut(fs, -1, -1, p)
    else
      var a := AllocBufSpec(p, ws);
      AllocBufKeepsInv(p, ws);
      if a.status != Ok then PageOut(a.status, newNo, -1, a.pool)
      else
        var ins := InstallSpec(a.pool, f, newNo, a.frame);
        if ins.0 != Ok then PageOut(HashTblError, newNo, -1, ins.1)
        else PageOut(Ok, newNo, a.frame, ins.1)
  }

  /** disposePage (buf.C:248-263); `ds` is what file->disposePage returns. */
  function DisposePageSpec(p: Pool, f: FileId, pg: int, ds: Status): (r: (Status, Pool))
    requires Inv(p)
    ensures Inv(r.1)
  {
    var key := (f, pg);
    var table := if key in p.index then p.table[p.index[key] := p.table[p.index[key]].Clear()] else p.table;
    var disk := if ds == Ok then p.disk - {key} else p.disk;
    if key in p.index then ClearKeepsInv(p, p.index[key]); (ds, p.(table := table, index := Remove(p.index, key).1, disk := disk))
    else (ds, p.(table := table, index := Remove(p.index, key).1, disk := disk))
  }

  /** Lines 276-292 of buf.C: the unpinned frame `i` of file `f` is written back
      if dirty, unindexed and marked empty. Its pin count (zero) and refbit are left. */
  function TearDown(p: Pool, f: FileId, i: int): (q: Pool)
    requires 0 <= i < |p.table| && |p.frames| == |p.table|
    ensures |q.table| == |p.table| && !q.table[i].valid && q.table[i].file.None?
    ensures q.table[i].pinCnt == p.table[i].pinCnt && q.frames == p.frames && q.hand == p.hand
    ensures (f, p.table[i].pageNo) !in q.index && q.disk.Keys >= p.disk.Keys
  {
    var d := p.table[i];
    var disk := if d.dirty then p.disk[(f, d.pageNo) := p.frames[i]] else p.disk;
    p.(table := p.table[i := d.(dirty := false, file := None, pageNo := -1, valid := false)],
       index := Remove(p.index, (f, d.pageNo)).1,
       disk := disk)
  }

  /** Tearing down one unpinned frame of file `f` keeps the invariant. */
  lemma TearDownKeepsInv(p: Pool, f: FileId, i: int)
    requires Inv(p) && 0 <= i < |p.table|
    requires p.table[i].valid && p.table[i].file == Some(f) && p.table[i].pinCnt <= 0
    ensures Inv(TearDown(p, f, i))
  {
    var q := TearDown(p, f, i);
    assert q.index == p.index - {KeyOf(p.table[i])};
    forall k | k in q.index
      ensures 0 <= q.index[k] < |q.table| && Holds(q.table[q.index[k]], k)
    {
      assert p.index[k] != i;
    }
  }

  /** The loop of flushFile (buf.C:269-297) from frame `i` on; `ws[j]` is what
      writePage returns for the page of frame `j`. */
  function FlushFrom(p: Pool, f: FileId, ws: seq<Status>, i: nat): (r: (Status, Pool))
    requires i <= |p.table| && |p.frames| == |p.table|
    ensures |r.1.table| == |p.table| && |r.1.frames| == |p.frames|
    ensures Inv(p) ==> Inv(r.1)
    decreases |p.table| - i
  {
    if i == |p.table| then (Ok, p)
    else
      var d := p.table[i];
      if d.valid && d.file == Some(f) then
        if d.pinCnt > 0 then (PagePinned, p)
        else if d.dirty && StatusAt(ws, i) != Ok then (StatusAt(ws, i), p)
        else
          if Inv(p) then TearDownKeepsInv(p, f, i); FlushFrom(TearDown(p, f, i), f, ws, i + 1)
          else FlushFrom(TearDown(p, f, i), f, ws, i + 1)
      else if !d.valid && d.file == Some(f) then (BadBuffer, p)
      else FlushFrom(p, f, ws, i + 1)
  }

  /** The page store after the destructor's loop (buf.C:48-60) from frame `i` on:
      every valid dirty frame is written back; a failed write is ignored. */
  function WriteBackFrom(p: Pool, ws: seq<Status>, i: nat): (r: map<Key, Page>)
    requires Inv(p) && i <= |p.table|
    ensures r.Keys >= p.disk.Keys
    decreases |p.table| - i
  {
    if i == |p.table| then p.disk
    else
      var d := p.table[i];
      if d.valid && d.dirty && StatusAt(ws, i) == Ok then
        WriteBackFrom(p.(disk := p.disk[KeyOf(d) := p.frames[i]]), ws, i + 1)
      else WriteBackFrom(p, ws, i + 1)
  }
}

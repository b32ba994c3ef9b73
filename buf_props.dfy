/** What the buffer manager promises its callers, proved about the operation
    functions of BufSpec: how allocBuf chooses and empties a frame, the readPage
    hit and miss paths, unPinPage's cases, allocPage, disposePage and flushFile,
    and the destructor's write-back. */
module BufProps {
  import opened BufTypes
  import opened BufHash
  import opened Clock
  import opened BufSpec

  /** The hash table is exact: it maps page `k` to frame `i` if and only if frame `i` holds `k`. */
  lemma IndexExact(p: Pool, k: Key, i: int)
    requires Inv(p) && 0 <= i < |p.table|
    ensures (k in p.index && p.index[k] == i) <==> Holds(p.table[i], k)
  {
    if Holds(p.table[i], k) {
      assert KeyOf(p.table[i]) == k;
    }
  }

  /** No page is in two frames at once. */
  lemma NoPageTwice(p: Pool, i: int, j: int)
    requires Inv(p) && 0 <= i < |p.table| && 0 <= j < |p.table| && i != j
    requires p.table[i].valid && p.table[j].valid
    ensures KeyOf(p.table[i]) != KeyOf(p.table[j])
  {
  }

  // ---------------------------------------------------------------- allocBuf

  /** The hash-table lookup of the victim's page in allocBuf, which overwrites the
      frame number, gives back the victim's own frame. So the overwrite is
      harmless, and a successful eviction returns the frame under the hand. */
  lemma EvictLookupFindsVictim(q: Pool, i: int, ws: Status)
    requires Inv(q) && 0 <= i < |q.table| && q.table[i].valid
    ensures KeyOf(q.table[i]) in q.index && q.index[KeyOf(q.table[i])] == i
    ensures Evict(q, i, ws).status == Ok ==> Evict(q, i, ws).frame == i
  {
  }

  /** allocBuf only hands out a frame that was empty or held an unpinned page,
      and leaves the hand on it. Every other frame changes at most by losing
      its refbit. */
  lemma AllocBufChoosesUnpinned(p: Pool, ws: Status)
    requires Inv(p)
    ensures var r := AllocBufSpec(p, ws);
            var i := r.frame;
            r.status == Ok ==>
              0 <= i < |p.table| && r.pool.hand == i && p.table[i].pinCnt == 0 &&
              r.pool.frames == p.frames && |r.pool.table| == |p.table| &&
              (forall j :: 0 <= j < |p.table| && j != i ==>
                 SameButRefbit(p.table[j], r.pool.table[j]) && (r.pool.table[j].refbit ==> p.table[j].refbit))
  {
    ScanFacts(p.table, p.hand, 2 * |p.table|);
  }

  /** The frame allocBuf hands out: an empty one as it was; an occupied one
      written back first if dirty, then cleared and unindexed. */
  lemma AllocBufEmptiesFrame(p: Pool, ws: Status)
    requires Inv(p)
    ensures var r := AllocBufSpec(p, ws);
            var i := r.frame;
            r.status == Ok ==>
              0 <= i < |p.table| && |r.pool.table| == |p.table| &&
              (!p.table[i].valid ==>
                 r.pool.table[i] == p.table[i] && r.pool.index == p.index && r.pool.disk == p.disk) &&
              (p.table[i].valid ==>
                 r.pool.table[i] == p.table[i].Clear() &&
                 r.pool.index == p.index - {KeyOf(p.table[i])} &&
                 (p.table[i].dirty ==> ws == Ok && r.pool.disk == p.disk[KeyOf(p.table[i]) := p.frames[i]]) &&
                 (!p.table[i].dirty ==> r.pool.disk == p.disk))
  {
    var s := Scan(p.table, p.hand, 2 * |p.table|);
    ScanFacts(p.table, p.hand, 2 * |p.table|);
    var q := p.(table := s.table, hand := s.hand);
    RefbitsKeepInv(p, s.table, s.hand, p.frames, p.disk);
    if s.outcome.Victim? {
      var i := s.outcome.frame;
      assert KeyOf(q.table[i]) == KeyOf(p.table[i]);
    }
  }

  /** The clock policy as allocBuf applies it, first lap: it takes the candidate
      nearest the hand (empty, or unpinned with its refbit clear) and leaves the
      hand there. Every frame the hand passed loses its refbit and every other
      frame is untouched. An empty frame is returned at once. An occupied one is
      evicted, which fails (UNIXERR, frame intact) exactly when it is dirty and
      its write fails. */
  lemma AllocBufTakesNearestCandidate(p: Pool, ws: Status, c: int)
    requires Inv(p) && 0 <= c < |p.table| && FirstLapCandidate(p.table[c])
    requires forall j :: 0 <= j < |p.table| && Dist(p.hand, j, |p.table|) < Dist(p.hand, c, |p.table|) ==>
               !FirstLapCandidate(p.table[j])
    ensures var r := AllocBufSpec(p, ws);
            var n := |p.table|;
            r.pool.hand == c && |r.pool.table| == n &&
            (r.status == Ok ==> r.frame == c) &&
            (forall j :: 0 <= j < n && j != c ==>
               r.pool.table[j] == if Dist(p.hand, j, n) < Dist(p.hand, c, n) then p.table[j].(refbit := false) else p.table[j]) &&
            (!p.table[c].valid ==> r.status == Ok && r.pool.table[c] == p.table[c]) &&
            (p.table[c].valid ==> (r.status == UnixErr <==> p.table[c].dirty && ws != Ok)) &&
            (p.table[c].valid && r.status == Ok ==> r.pool.table[c] == p.table[c].Clear()) &&
            (r.status == UnixErr ==> r.pool.table[c] == p.table[c])
  {
    var n := |p.table|;
    ScanTakesNearestCandidate(p.table, p.hand, c);
    var s := Scan(p.table, p.hand, 2 * n);
    ScanFacts(p.table, p.hand, 2 * n);
    RefbitsKeepInv(p, s.table, s.hand, p.frames, p.disk);
    if p.table[c].valid {
      var q := p.(table := s.table, hand := s.hand);
      EvictLookupFindsVictim(q, c, ws);
    }
  }

  /** The clock policy as allocBuf applies it, second lap: when no frame is a
      candidate on the first lap, every refbit ends clear and allocBuf evicts the
      unpinned frame nearest the hand, leaving the hand there. */
  lemma AllocBufTakesNearestUnpinned(p: Pool, ws: Status, c: int)
    requires Inv(p) && 0 <= c < |p.table|
    requires forall j :: 0 <= j < |p.table| ==> !FirstLapCandidate(p.table[j])
    requires p.table[c].pinCnt == 0
    requires forall j :: 0 <= j < |p.table| && Dist(p.hand, j, |p.table|) < Dist(p.hand, c, |p.table|) ==>
               p.table[j].pinCnt != 0
    ensures var r := AllocBufSpec(p, ws);
            var n := |p.table|;
            r.pool.hand == c && |r.pool.table| == n &&
            (r.status == Ok ==> r.frame == c) &&
            (forall j :: 0 <= j < n && j != c ==> r.pool.table[j] == p.table[j].(refbit := false)) &&
            (r.status == UnixErr <==> p.table[c].dirty && ws != Ok) &&
            (r.status == Ok ==> r.pool.table[c] == p.table[c].Clear()) &&
            (r.status == UnixErr ==> r.pool.table[c] == p.table[c].(refbit := false))
  {
    var n := |p.table|;
    ScanTakesNearestUnpinned(p.table, p.hand, c);
    var s := Scan(p.table, p.hand, 2 * n);
    ScanFacts(p.table, p.hand, 2 * n);
    RefbitsKeepInv(p, s.table, s.hand, p.frames, p.disk);
    var q := p.(table := s.table, hand := s.hand);
    EvictLookupFindsVictim(q, c, ws);
  }

  /** A failed write-back of the victim gives UNIXERR and leaves the victim in
      place: still valid, dirty, unpinned and indexed, under the hand. Nothing
      but refbits has changed. */
  lemma AllocBufWriteFails(p: Pool, ws: Status)
    requires Inv(p)
    ensures var r := AllocBufSpec(p, ws);
            r.status == UnixErr ==>
              ws != Ok && r.frame == -1 && 0 <= r.pool.hand < |p.table| &&
              OnlyRefbitsCleared(p.table, r.pool.table) &&
              r.pool.index == p.index && r.pool.frames == p.frames && r.pool.disk == p.disk &&
              r.pool.table[r.pool.hand].valid && r.pool.table[r.pool.hand].dirty &&
              r.pool.table[r.pool.hand].pinCnt == 0 &&
              KeyOf(r.pool.table[r.pool.hand]) in r.pool.index &&
              r.pool.index[KeyOf(r.pool.table[r.pool.hand])] == r.pool.hand
  {
    var s := Scan(p.table, p.hand, 2 * |p.table|);
    ScanFacts(p.table, p.hand, 2 * |p.table|);
    RefbitsKeepInv(p, s.table, s.hand, p.frames, p.disk);
  }

  /** BUFFEREXCEEDED is returned exactly when every frame holds a pinned page. */
  lemma AllocBufExceededIffAllPinned(p: Pool, ws: Status)
    requires Inv(p)
    ensures AllocBufSpec(p, ws).status == BufferExceeded <==>
            forall i :: 0 <= i < |p.table| ==> p.table[i].valid && p.table[i].pinCnt > 0
  {
    var s := Scan(p.table, p.hand, 2 * |p.table|);
    ScanFacts(p.table, p.hand, 2 * |p.table|);
    RefbitsKeepInv(p, s.table, s.hand, p.frames, p.disk);
    ScanExhaustedIffAllPinned(p.table, p.hand);
    if s.outcome.Victim? {
      EvictKeepsInv(p.(table := s.table, hand := s.hand), s.outcome.frame, ws);
    }
  }

  /** When allocBuf gives up, the only change it made is that every refbit is now
      clear; the hand is back where it was. */
  lemma AllocBufExceededClearsRefbits(p: Pool, ws: Status)
    requires Inv(p) && forall i :: 0 <= i < |p.table| ==> p.table[i].valid && p.table[i].pinCnt > 0
    ensures var r := AllocBufSpec(p, ws);
            r.status == BufferExceeded && r.frame == -1 && r.pool.hand == p.hand &&
            r.pool.index == p.index && r.pool.frames == p.frames && r.pool.disk == p.disk &&
            |r.pool.table| == |p.table| &&
            forall i :: 0 <= i < |p.table| ==> r.pool.table[i] == p.table[i].(refbit := false)
  {
    var n := |p.table|;
    var s := Scan(p.table, p.hand, 2 * n);
    ScanFacts(p.table, p.hand, 2 * n);
    AllPinnedExhausts(p.table, p.hand, 2 * n);
    if n > 0 {
      ExhaustedScanKeepsHand(p.table, p.hand);
    }
    forall i | 0 <= i < n
      ensures s.table[i] == p.table[i].(refbit := false)
    {
      assert Dist(p.hand, i, n) < 2 * n;
    }
  }

  // ---------------------------------------------------------------- readPage

  /** A page already in the pool is returned from its frame: the pin count rises
      by one and the refbit is set. Nothing else changes and no I/O is done. */
  lemma ReadPageHit(p: Pool, f: FileId, pg: int, ws: Status, rs: Status)
    requires Inv(p) && (f, pg) in p.index
    ensures var r := ReadPageSpec(p, f, pg, ws, rs);
            var i := p.index[(f, pg)];
            r == FrameOut(Ok, i, Rehit(p, i)) && Holds(r.pool.table[i], (f, pg)) &&
            r.pool.table[i].pinCnt == p.table[i].pinCnt + 1 && r.pool.table[i].refbit &&
            r.pool.table[i].dirty == p.table[i].dirty &&
            |r.pool.table| == |p.table| &&
            (forall j :: 0 <= j < |p.table| && j != i ==> r.pool.table[j] == p.table[j]) &&
            r.pool.index == p.index && r.pool.frames == p.frames &&
            r.pool.disk == p.disk && r.pool.hand == p.hand
  {
  }

  /** A page not in the pool is read into the frame allocBuf gives. An error from
      allocBuf or from the read is passed on, with the state allocBuf left and
      the page unindexed. On
      success the frame holds the stored page, pinned once, clean and referenced;
      the insertion into the hash table cannot fail, and nothing else changes
      after allocBuf. */
  lemma ReadPageMiss(p: Pool, f: FileId, pg: int, ws: Status, rs: Status)
    requires Inv(p) && (f, pg) !in p.index
    ensures var r := ReadPageSpec(p, f, pg, ws, rs);
            var a := AllocBufSpec(p, ws);
            (a.status != Ok ==> r.status == a.status && r.frame == -1 && r.pool == a.pool) &&
            (a.status == Ok && rs != Ok ==> r.status == rs && r.frame == -1 && r.pool == a.pool && (f, pg) !in r.pool.index) &&
            (a.status == Ok && rs == Ok ==>
               r.status == Ok && r.frame == a.frame && 0 <= r.frame < |r.pool.table| &&
               r.pool.index == a.pool.index[(f, pg) := r.frame] &&
               Holds(r.pool.table[r.frame], (f, pg)) && r.pool.table[r.frame].pinCnt == 1 &&
               r.pool.table[r.frame].refbit && !r.pool.table[r.frame].dirty &&
               |a.pool.frames| == |r.pool.frames| &&
               r.pool.frames == a.pool.frames[r.frame := StoredPage(p.disk, (f, pg))] &&
               r.pool.hand == a.pool.hand && r.pool.disk == a.pool.disk && |r.pool.table| == |a.pool.table| &&
               forall j :: 0 <= j < |a.pool.table| && j != r.frame ==> r.pool.table[j] == a.pool.table[j])
  {
    var a := AllocBufSpec(p, ws);
    AllocBufKeepsInv(p, ws);
    AllocBufChoosesUnpinned(p, ws);
    AllocBufEmptiesFrame(p, ws);
    if a.status == Ok && rs == Ok {
      var i := a.frame;
      assert (f, pg) !in a.pool.index;
      assert StoredPage(a.pool.disk, (f, pg)) == StoredPage(p.disk, (f, pg)) by {
        if p.table[i].valid {
          assert KeyOf(p.table[i]) in p.index;
        }
      }
    }
  }

  /** A page allocated by allocPage is in the pool: reading it next is a hit on
      the same frame, which it pins a second time. */
  lemma AllocPageThenReadHits(p: Pool, f: FileId, newNo: int, ws: Status, ws': Status, rs: Status)
    requires Inv(p)
    requires AllocPageSpec(p, f, Ok, newNo, ws).status == Ok
    ensures var a := AllocPageSpec(p, f, Ok, newNo, ws);
            var r := ReadPageSpec(a.pool, f, newNo, ws', rs);
            r.status == Ok && r.frame == a.frame && r.pool.table[r.frame].pinCnt == 2 &&
            r.pool.index == a.pool.index && r.pool.disk == a.pool.disk
  {
    AllocBufKeepsInv(p, ws);
  }

  // ---------------------------------------------------------------- unPinPage

  /** unPinPage: HASHNOTFOUND changes nothing. Otherwise the dirty flag is set
      when asked, even if the page turns out not to be pinned (PAGENOTPINNED),
      and a pinned page loses exactly one pin. No other frame changes. */
  lemma UnPinPageCases(p: Pool, f: FileId, pg: int, dirty: bool)
    requires Inv(p)
    ensures var r := UnPinPageSpec(p, f, pg, dirty);
            ((f, pg) !in p.index ==> r == (HashNotFound, p)) &&
            ((f, pg) in p.index ==>
               var i := p.index[(f, pg)];
               r.1.index == p.index && r.1.frames == p.frames && r.1.disk == p.disk &&
               r.1.hand == p.hand && |r.1.table| == |p.table| &&
               (forall j :: 0 <= j < |p.table| && j != i ==> r.1.table[j] == p.table[j]) &&
               Holds(r.1.table[i], (f, pg)) && r.1.table[i].refbit == p.table[i].refbit &&
               r.1.table[i].dirty == (p.table[i].dirty || dirty) &&
               (p.table[i].pinCnt == 0 ==> r.0 == PageNotPinned && r.1.table[i].pinCnt == 0) &&
               (p.table[i].pinCnt > 0 ==> r.0 == Ok && r.1.table[i].pinCnt == p.table[i].pinCnt - 1))
  {
  }

  /** unPinPage never clears a dirty flag. */
  lemma UnPinPageKeepsDirty(p: Pool, f: FileId, pg: int, dirty: bool)
    requires Inv(p)
    ensures var r := UnPinPageSpec(p, f, pg, dirty);
            forall j :: 0 <= j < |p.table| && p.table[j].dirty ==> r.1.table[j].dirty
  {
  }

  /** The pool after `n` further readPage hits on the page in frame `i`
      (by ReadPageHit, each hit is a Rehit). */
  function Fetched(p: Pool, i: int, n: nat): (q: Pool)
    requires 0 <= i < |p.table|
    ensures |q.table| == |p.table|
  {
    if n == 0 then p else Rehit(Fetched(p, i, n - 1), i)
  }

  /** Each hit pins the page once more; nothing else changes but the refbit. */
  lemma {:induction false} FetchesAddPins(p: Pool, i: int, n: nat)
    requires 0 <= i < |p.table|
    ensures var q := Fetched(p, i, n);
            q.table[i].pinCnt == p.table[i].pinCnt + n && SameButPin(p.table[i], q.table[i]) &&
            q.index == p.index && q.frames == p.frames && q.disk == p.disk && q.hand == p.hand &&
            forall j :: 0 <= j < |p.table| && j != i ==> q.table[j] == p.table[j]
  {
    if n > 0 {
      FetchesAddPins(p, i, n - 1);
    }
  }

  /** Two descriptors that agree on the page they hold and on its state, except for pin count and refbit. */
  predicate SameButPin(a: BufDesc, b: BufDesc) {
    a.file == b.file && a.pageNo == b.pageNo && a.frameNo == b.frameNo && a.dirty == b.dirty && a.valid == b.valid
  }

  /** Hits on a valid frame keep the invariant. */
  lemma FetchedKeepsInv(p: Pool, i: int, n: nat)
    requires Inv(p) && 0 <= i < |p.table| && p.table[i].valid
    ensures Inv(Fetched(p, i, n)) && Fetched(p, i, n).index == p.index
  {
    FetchesAddPins(p, i, n);
    var q := Fetched(p, i, n);
    forall j | 0 <= j < |q.table| && q.table[j].valid && q.table[j].file.Some?
      ensures KeyOf(q.table[j]) in q.index && q.index[KeyOf(q.table[j])] == j
    {
      assert KeyOf(q.table[j]) == KeyOf(p.table[j]);
    }
  }

  /** The pool after `n` further unPinPage calls on page `k`, none marking it dirty. */
  function Released(p: Pool, k: Key, n: nat): (q: Pool)
    requires Inv(p) && k in p.index
    ensures Inv(q) && q.index == p.index && |q.table| == |p.table|
  {
    if n == 0 then p else UnPinPageSpec(Released(p, k, n - 1), k.0, k.1, false).1
  }

  /** Each unpin of a pinned page succeeds and removes one pin. */
  lemma {:induction false} ReleasesRemovePins(p: Pool, k: Key, n: nat)
    requires Inv(p) && k in p.index && p.table[p.index[k]].pinCnt >= n
    ensures Released(p, k, n).table[p.index[k]].pinCnt == p.table[p.index[k]].pinCnt - n
    ensures n > 0 ==> UnPinPageSpec(Released(p, k, n - 1), k.0, k.1, false).0 == Ok
  {
    if n > 0 {
      ReleasesRemovePins(p, k, n - 1);
      UnpinRemovesPin(Released(p, k, n - 1), k);
    }
  }

  /** One unpin of a pinned page succeeds and removes one pin. */
  lemma UnpinRemovesPin(q: Pool, k: Key)
    requires Inv(q) && k in q.index && q.table[q.index[k]].pinCnt > 0
    ensures var u := UnPinPageSpec(q, k.0, k.1, false);
            u.0 == Ok && |u.1.table| == |q.table| && u.1.table[q.index[k]].pinCnt == q.table[q.index[k]].pinCnt - 1
  {
  }

  /** Pins balance: after `n` hits and `n` unpins an unpinned page is unpinned
      again, and one more unpin reports PAGENOTPINNED. */
  lemma PinsBalance(p: Pool, k: Key, n: nat)
    requires Inv(p) && k in p.index && p.table[p.index[k]].pinCnt == 0
    ensures var i := p.index[k];
            (FetchedKeepsInv(p, i, n);
             var q := Released(Fetched(p, i, n), k, n);
             q.table[i].pinCnt == 0 && UnPinPageSpec(q, k.0, k.1, false).0 == PageNotPinned)
  {
    var i := p.index[k];
    FetchesAddPins(p, i, n);
    FetchedKeepsInv(p, i, n);
    ReleasesRemovePins(Fetched(p, i, n), k, n);
  }

  // ---------------------------------------------------------------- allocPage

  /** allocPage: a failure of the file comes first and changes nothing; then an
      allocBuf failure is passed on; HASHTBLERROR happens exactly when the page
      number the file returned is still in the pool after allocBuf, and leaves
      allocBuf's state. Otherwise the new page is indexed to the allocBuf frame,
      pinned once, clean and referenced, and nothing else changes after allocBuf. */
  lemma AllocPageCases(p: Pool, f: FileId, fs: Status, newNo: int, ws: Status)
    requires Inv(p)
    ensures var r := AllocPageSpec(p, f, fs, newNo, ws);
            var a := AllocBufSpec(p, ws);
            (fs != Ok ==> r.status == fs && r.pageNo == -1 && r.frame == -1 && r.pool == p) &&
            (fs == Ok ==> r.pageNo == newNo) &&
            (fs == Ok && a.status != Ok ==> r.status == a.status && r.frame == -1 && r.pool == a.pool) &&
            (fs == Ok && r.status == HashTblError ==> (f, newNo) in p.index) &&
            (fs == Ok && a.status == Ok ==> (r.status == HashTblError <==> (f, newNo) in a.pool.index)) &&
            (fs == Ok && a.status == Ok && (f, newNo) in a.pool.index ==> r.frame == -1 && r.pool == a.pool) &&
            (fs == Ok && a.status == Ok && (f, newNo) !in a.pool.index ==>
               r.status == Ok && r.frame == a.frame && 0 <= r.frame < |r.pool.table| &&
               r.pool.index == a.pool.index[(f, newNo) := r.frame] &&
               Holds(r.pool.table[r.frame], (f, newNo)) && r.pool.table[r.frame].pinCnt == 1 &&
               r.pool.table[r.frame].refbit && !r.pool.table[r.frame].dirty &&
               r.pool.frames == a.pool.frames && r.pool.disk == a.pool.disk && r.pool.hand == a.pool.hand &&
               |r.pool.table| == |a.pool.table| &&
               forall j :: 0 <= j < |a.pool.table| && j != r.frame ==> r.pool.table[j] == a.pool.table[j])
  {
    AllocBufKeepsInv(p, ws);
    AllocBufChoosesUnpinned(p, ws);
    AllocBufEmptiesFrame(p, ws);
  }

  // ---------------------------------------------------------------- disposePage

  /** disposePage frees the page's frame whatever its pin count, drops the page
      from the hash table, and returns the file's status. The page is gone from
      the store only when the file's disposePage succeeded. */
  lemma DisposePageCases(p: Pool, f: FileId, pg: int, ds: Status)
    requires Inv(p)
    ensures var r := DisposePageSpec(p, f, pg, ds);
            r.0 == ds && r.1.index == p.index - {(f, pg)} &&
            r.1.frames == p.frames && r.1.hand == p.hand && |r.1.table| == |p.table| &&
            ((f, pg) in p.index ==>
               var i := p.index[(f, pg)];
               r.1.table[i] == p.table[i].Clear() &&
               forall j :: 0 <= j < |p.table| && j != i ==> r.1.table[j] == p.table[j]) &&
            ((f, pg) !in p.index ==> r.1.table == p.table) &&
            (ds == Ok ==> r.1.disk == p.disk - {(f, pg)}) &&
            (ds != Ok ==> r.1.disk == p.disk)
  {
  }

  // ---------------------------------------------------------------- flushFile

  /** What tearing down frame `i` of `f` changes: that frame, its hash entry and
      (if dirty) the stored page. */
  lemma TearDownFacts(p: Pool, f: FileId, i: int)
    requires 0 <= i < |p.table| && |p.frames| == |p.table| && p.table[i].file == Some(f)
    ensures var q := TearDown(p, f, i);
            |q.table| == |p.table| && q.hand == p.hand && q.frames == p.frames &&
            (forall j :: 0 <= j < |p.table| && j != i ==> q.table[j] == p.table[j]) &&
            !q.table[i].valid && q.table[i].file == None &&
            q.index == p.index - {KeyOf(p.table[i])} &&
            (forall k: Key :: k != KeyOf(p.table[i]) ==> (k in q.disk <==> k in p.disk) && (k in q.disk ==> q.disk[k] == p.disk[k])) &&
            (p.table[i].dirty ==> KeyOf(p.table[i]) in q.disk && q.disk[KeyOf(p.table[i])] == p.frames[i])
  {
  }

  /** One iteration of flushFile's loop that does not return tears the frame down if it belongs to `f`. */
  lemma FlushUnfolds(p: Pool, f: FileId, ws: seq<Status>, i: nat)
    requires i < |p.table| && |p.frames| == |p.table|
    ensures var d := p.table[i];
            (d.valid && d.file == Some(f) && d.pinCnt <= 0 && !(d.dirty && StatusAt(ws, i) != Ok) ==>
               FlushFrom(p, f, ws, i) == FlushFrom(TearDown(p, f, i), f, ws, i + 1)) &&
            (d.file != Some(f) ==> FlushFrom(p, f, ws, i) == FlushFrom(p, f, ws, i + 1)) &&
            (d.valid && d.file == Some(f) && d.pinCnt > 0 ==> FlushFrom(p, f, ws, i) == (PagePinned, p)) &&
            (d.valid && d.file == Some(f) && d.pinCnt <= 0 && d.dirty && StatusAt(ws, i) != Ok ==>
               FlushFrom(p, f, ws, i) == (StatusAt(ws, i), p)) &&
            (!d.valid && d.file == Some(f) ==> FlushFrom(p, f, ws, i) == (BadBuffer, p))
  {
  }

  /** flushFile from frame `i` only changes frames of file `f` from `i` on, and
      never one that is pinned. It only removes hash entries, never those of
      other files, and only writes pages of `f`. */
  lemma {:induction false} FlushKeepsOthers(p: Pool, f: FileId, ws: seq<Status>, i: nat)
    requires i <= |p.table| && |p.frames| == |p.table|
    ensures var r := FlushFrom(p, f, ws, i).1;
            r.hand == p.hand && r.frames == p.frames &&
            (forall j :: 0 <= j < |p.table| && (j < i || p.table[j].file != Some(f)) ==> r.table[j] == p.table[j]) &&
            (forall j :: 0 <= j < |p.table| && r.table[j] != p.table[j] ==> p.table[j].pinCnt <= 0) &&
            (forall k :: k in r.index ==> k in p.index) &&
            (forall k :: k in p.index && k.0 != f ==> k in r.index && r.index[k] == p.index[k]) &&
            (forall k: Key :: k.0 != f ==> (k in r.disk <==> k in p.disk) && (k in r.disk ==> r.disk[k] == p.disk[k]))
    decreases |p.table| - i
  {
    if i < |p.table| {
      var d := p.table[i];
      FlushUnfolds(p, f, ws, i);
      if d.valid && d.file == Some(f) && d.pinCnt <= 0 && !(d.dirty && StatusAt(ws, i) != Ok) {
        TearDownFacts(p, f, i);
        FlushKeepsOthers(TearDown(p, f, i), f, ws, i + 1);
      } else if d.file != Some(f) {
        FlushKeepsOthers(p, f, ws, i + 1);
      }
    }
  }

  /** A flush from frame `i` that returns OK leaves no frame from `i` on owned by
      `f`, and met no pinned frame of `f` on the way. */
  lemma {:induction false} FlushOkFrom(p: Pool, f: FileId, ws: seq<Status>, i: nat)
    requires i <= |p.table| && |p.frames| == |p.table|
    ensures var r := FlushFrom(p, f, ws, i);
            r.0 == Ok ==>
              (forall j :: i <= j < |p.table| ==> r.1.table[j].file != Some(f)) &&
              (forall j :: i <= j < |p.table| && p.table[j].valid && p.table[j].file == Some(f) ==> p.table[j].pinCnt <= 0)
    decreases |p.table| - i
  {
    if i < |p.table| {
      var d := p.table[i];
      FlushUnfolds(p, f, ws, i);
      if d.valid && d.file == Some(f) && d.pinCnt <= 0 && !(d.dirty && StatusAt(ws, i) != Ok) {
        var q := TearDown(p, f, i);
        TearDownFacts(p, f, i);
        FlushOkFrom(q, f, ws, i + 1);
        FlushKeepsOthers(q, f, ws, i + 1);
      } else if d.file != Some(f) {
        FlushOkFrom(p, f, ws, i + 1);
        FlushKeepsOthers(p, f, ws, i + 1);
      }
    }
  }

  /** A flush from frame `i` that returns OK met no failed write: every dirty
      page of `f` from `i` on was written successfully. */
  lemma {:induction false} FlushOkWritesSucceeded(p: Pool, f: FileId, ws: seq<Status>, i: nat)
    requires i <= |p.table| && |p.frames| == |p.table|
    ensures FlushFrom(p, f, ws, i).0 == Ok ==>
              forall j :: i <= j < |p.table| && p.table[j].valid && p.table[j].file == Some(f) && p.table[j].dirty ==>
                StatusAt(ws, j) == Ok
    decreases |p.table| - i
  {
    if i < |p.table| {
      var d := p.table[i];
      FlushUnfolds(p, f, ws, i);
      if d.valid && d.file == Some(f) && d.pinCnt <= 0 && !(d.dirty && StatusAt(ws, i) != Ok) {
        TearDownFacts(p, f, i);
        FlushOkWritesSucceeded(TearDown(p, f, i), f, ws, i + 1);
      } else if d.file != Some(f) {
        FlushOkWritesSucceeded(p, f, ws, i + 1);
      }
    }
  }

  /** flushFile returns OK only when no page of `f` was pinned and every write of
      a dirty page of `f` succeeded. It has then removed every page of `f` from
      the pool, frames and hash table alike, and left every other file's pages
      where they were. */
  lemma FlushOkDropsFile(p: Pool, f: FileId, ws: seq<Status>)
    requires Inv(p)
    ensures var r := FlushFrom(p, f, ws, 0);
            r.0 == Ok ==>
              (forall j :: 0 <= j < |p.table| && p.table[j].valid && p.table[j].file == Some(f) ==> p.table[j].pinCnt == 0) &&
              (forall j :: 0 <= j < |p.table| && p.table[j].valid && p.table[j].file == Some(f) && p.table[j].dirty ==>
                 StatusAt(ws, j) == Ok) &&
              (forall j :: 0 <= j < |p.table| ==> r.1.table[j].file != Some(f)) &&
              (forall k :: k in r.1.index ==> k.0 != f) &&
              (forall j :: 0 <= j < |p.table| && p.table[j].file != Some(f) ==> r.1.table[j] == p.table[j])
  {
    FlushOkFrom(p, f, ws, 0);
    FlushOkWritesSucceeded(p, f, ws, 0);
    FlushKeepsOthers(p, f, ws, 0);
  }

  /** Where flushFile stopped on frame `j` of `f`: that frame and every later one
      are as they were, and every earlier page of `f` was unpinned and has been
      torn down and unindexed. */
  predicate StoppedAt(p: Pool, r: Pool, f: FileId, i: nat, j: int)
    requires |r.table| == |p.table|
  {
    i <= j < |p.table| && p.table[j].valid && p.table[j].file == Some(f) &&
    (forall m :: j <= m < |p.table| ==> r.table[m] == p.table[m]) &&
    forall m :: i <= m < j && p.table[m].file == Some(f) ==>
      p.table[m].pinCnt <= 0 && !r.table[m].valid && KeyOf(p.table[m]) !in r.index
  }

  /** No empty frame is owned by file `f`: the case flushFile reports as BADBUFFER. */
  predicate NoEmptyFrameOf(t: seq<BufDesc>, f: FileId) {
    forall j :: 0 <= j < |t| && t[j].file == Some(f) ==> t[j].valid
  }

  /** A stop found after frame `i` is also one found from frame `i`, once frame `i` is dealt with. */
  lemma StoppedEarlier(p: Pool, q: Pool, r: Pool, f: FileId, i: nat, j: int)
    requires |q.table| == |p.table| && |r.table| == |p.table| && i < |p.table|
    requires StoppedAt(q, r, f, i + 1, j)
    requires forall m :: 0 <= m < |p.table| && m != i ==> q.table[m] == p.table[m]
    requires p.table[i].file == Some(f) ==> p.table[i].pinCnt <= 0 && !r.table[i].valid && KeyOf(p.table[i]) !in r.index
    ensures StoppedAt(p, r, f, i, j)
  {
    forall m | i <= m < j && p.table[m].file == Some(f)
      ensures p.table[m].pinCnt <= 0 && !r.table[m].valid && KeyOf(p.table[m]) !in r.index
    {
      if m > i {
        assert p.table[m] == q.table[m];
      }
    }
  }

  /** flushFile fails with PAGEPINNED at a pinned frame of `f`, or with a
      page-store status at an unpinned dirty frame of `f` whose write failed.
      That frame and every later one are left as they were, and every earlier
      page of `f` is torn down.
      With no empty frame owned by `f` there is no other way to fail. */
  lemma {:induction false} FlushFails(p: Pool, f: FileId, ws: seq<Status>, i: nat)
    requires i <= |p.table| && |p.frames| == |p.table| && NoEmptyFrameOf(p.table, f)
    ensures var r := FlushFrom(p, f, ws, i);
            r.0 != Ok ==>
              exists j :: StoppedAt(p, r.1, f, i, j) &&
                ((p.table[j].pinCnt > 0 && r.0 == PagePinned) ||
                 (p.table[j].pinCnt <= 0 && p.table[j].dirty && StatusAt(ws, j) == r.0))
    decreases |p.table| - i
  {
    var r := FlushFrom(p, f, ws, i);
    if i < |p.table| {
      var d := p.table[i];
      FlushUnfolds(p, f, ws, i);
      var q := if d.file == Some(f) then TearDown(p, f, i) else p;
      if d.file != Some(f) || (d.pinCnt <= 0 && !(d.dirty && StatusAt(ws, i) != Ok)) {
        if d.file == Some(f) {
          TearDownFacts(p, f, i);
        }
        assert NoEmptyFrameOf(q.table, f);
        FlushFails(q, f, ws, i + 1);
        FlushKeepsOthers(q, f, ws, i + 1);
        if r.0 != Ok {
          var j :| StoppedAt(q, r.1, f, i + 1, j) &&
                   ((q.table[j].pinCnt > 0 && r.0 == PagePinned) ||
                    (q.table[j].pinCnt <= 0 && q.table[j].dirty && StatusAt(ws, j) == r.0));
          StoppedEarlier(p, q, r.1, f, i, j);
        }
      } else {
        assert StoppedAt(p, r.1, f, i, i);
      }
    }
  }

  /** Under the invariant flushFile reports BADBUFFER only when the page store
      returned it for the write of an unpinned dirty page of `f`, at the frame where
      the flush stopped. */
  lemma FlushBadBufferOnlyFromStore(p: Pool, f: FileId, ws: seq<Status>)
    requires Inv(p)
    ensures var r := FlushFrom(p, f, ws, 0);
            r.0 == BadBuffer ==>
              exists j :: StoppedAt(p, r.1, f, 0, j) && p.table[j].pinCnt == 0 && p.table[j].dirty &&
                0 <= j < |ws| && ws[j] == BadBuffer
  {
    var r := FlushFrom(p, f, ws, 0);
    FlushFails(p, f, ws, 0);
    if r.0 == BadBuffer {
      var j :| StoppedAt(p, r.1, f, 0, j) &&
               ((p.table[j].pinCnt > 0 && r.0 == PagePinned) ||
                (p.table[j].pinCnt <= 0 && p.table[j].dirty && StatusAt(ws, j) == r.0));
      assert ws[j] == BadBuffer;
    }
  }

  /** A page not in the hash table keeps its stored contents through a flush. */
  lemma {:induction false} FlushSparesUnindexed(p: Pool, f: FileId, ws: seq<Status>, i: nat, k: Key)
    requires Inv(p) && i <= |p.table| && k !in p.index
    ensures var r := FlushFrom(p, f, ws, i).1;
            (k in r.disk <==> k in p.disk) && (k in r.disk ==> r.disk[k] == p.disk[k])
    decreases |p.table| - i
  {
    if i < |p.table| {
      var d := p.table[i];
      FlushUnfolds(p, f, ws, i);
      if d.valid && d.file == Some(f) && d.pinCnt <= 0 && !(d.dirty && StatusAt(ws, i) != Ok) {
        assert KeyOf(d) in p.index;
        TearDownFacts(p, f, i);
        TearDownKeepsInv(p, f, i);
        FlushSparesUnindexed(TearDown(p, f, i), f, ws, i + 1, k);
      } else if d.file != Some(f) {
        FlushSparesUnindexed(p, f, ws, i + 1, k);
      }
    }
  }

  /** Every dirty page of `f` that the flush tore down was first written to the store. */
  lemma {:induction false} FlushWritesBack(p: Pool, f: FileId, ws: seq<Status>, i: nat, j: int)
    requires Inv(p) && i <= j < |p.table|
    requires p.table[j].valid && p.table[j].file == Some(f) && p.table[j].dirty
    requires !FlushFrom(p, f, ws, i).1.table[j].valid
    ensures var r := FlushFrom(p, f, ws, i).1;
            KeyOf(p.table[j]) in r.disk && r.disk[KeyOf(p.table[j])] == p.frames[j]
    decreases |p.table| - i
  {
    var d := p.table[i];
    FlushUnfolds(p, f, ws, i);
    if d.valid && d.file == Some(f) && d.pinCnt <= 0 && !(d.dirty && StatusAt(ws, i) != Ok) {
      var q := TearDown(p, f, i);
      TearDownFacts(p, f, i);
      TearDownKeepsInv(p, f, i);
      if i == j {
        FlushSparesUnindexed(q, f, ws, i + 1, KeyOf(d));
      } else {
        FlushWritesBack(q, f, ws, i + 1, j);
      }
    } else if d.file != Some(f) {
      FlushWritesBack(p, f, ws, i + 1, j);
    }
  }

  /** flushFile writes a page of the pool only when its frame is dirty and torn
      down: a clean frame, and one the flush leaves in place (pinned, after the
      stop, or of another file), keeps its page's stored contents. */
  lemma FlushWritesOnlyTornDownDirty(p: Pool, f: FileId, ws: seq<Status>, i: nat, j: int)
    requires Inv(p) && i <= |p.table| && 0 <= j < |p.table| && p.table[j].valid
    requires !p.table[j].dirty || FlushFrom(p, f, ws, i).1.table[j].valid
    ensures var r := FlushFrom(p, f, ws, i).1;
            var k := KeyOf(p.table[j]);
            (k in r.disk <==> k in p.disk) && (k in r.disk ==> r.disk[k] == p.disk[k])
  {
    var k := KeyOf(p.table[j]);
    forall m | i <= m < |p.table| && p.table[m].valid && p.table[m].file.Some? && KeyOf(p.table[m]) == k
      ensures !p.table[m].dirty || FlushFrom(p, f, ws, i).1.table[m].valid
    {
      if m != j {
        NoPageTwice(p, m, j);
      }
    }
    FlushKeepsEntry(p, f, ws, i, k);
  }

  /** The stored contents of page `k` survive a flush from frame `i` when every
      frame from `i` on holding `k` is clean or is left valid by the flush. */
  lemma {:induction false} FlushKeepsEntry(p: Pool, f: FileId, ws: seq<Status>, i: nat, k: Key)
    requires i <= |p.table| && |p.frames| == |p.table|
    requires forall m :: i <= m < |p.table| && p.table[m].valid && p.table[m].file.Some? && KeyOf(p.table[m]) == k ==>
               !p.table[m].dirty || FlushFrom(p, f, ws, i).1.table[m].valid
    ensures var r := FlushFrom(p, f, ws, i).1;
            (k in r.disk <==> k in p.disk) && (k in r.disk ==> r.disk[k] == p.disk[k])
    decreases |p.table| - i
  {
    if i < |p.table| {
      var d := p.table[i];
      FlushUnfolds(p, f, ws, i);
      if d.valid && d.file == Some(f) && d.pinCnt <= 0 && !(d.dirty && StatusAt(ws, i) != Ok) {
        var q := TearDown(p, f, i);
        TearDownFacts(p, f, i);
        if KeyOf(d) == k {
          FlushLeavesTornDownEmpty(p, f, ws, i);
        }
        FlushKeepsEntry(q, f, ws, i + 1, k);
      } else if d.file != Some(f) {
        FlushKeepsEntry(p, f, ws, i + 1, k);
      }
    }
  }

  /** Tearing down frame `i` leaves another valid frame `j`, and its page's stored contents, as they were. */
  lemma TearDownSparesOther(p: Pool, f: FileId, i: int, j: int)
    requires Inv(p) && 0 <= i < |p.table| && 0 <= j < |p.table| && i != j
    requires p.table[i].valid && p.table[i].file == Some(f) && p.table[i].pinCnt <= 0 && p.table[j].valid
    ensures var q := TearDown(p, f, i);
            var k := KeyOf(p.table[j]);
            Inv(q) && q.table[j] == p.table[j] &&
            (k in q.disk <==> k in p.disk) && (k in q.disk ==> q.disk[k] == p.disk[k])
  {
    TearDownKeepsInv(p, f, i);
    NoPageTwice(p, i, j);
  }

  /** A frame the flush tears down at step `i` stays empty for the rest of the flush. */
  lemma FlushLeavesTornDownEmpty(p: Pool, f: FileId, ws: seq<Status>, i: nat)
    requires i < |p.table| && |p.frames| == |p.table|
    ensures !FlushFrom(TearDown(p, f, i), f, ws, i + 1).1.table[i].valid
  {
    FlushKeepsOthers(TearDown(p, f, i), f, ws, i + 1);
  }

  /** A frame the flush tears down at step `i` was written back only if dirty:
      if it is clean, its page keeps its stored contents. */
  lemma FlushTearsDownClean(p: Pool, f: FileId, ws: seq<Status>, i: nat)
    requires Inv(p) && i < |p.table|
    requires p.table[i].valid && p.table[i].file == Some(f) && p.table[i].pinCnt <= 0
    requires !p.table[i].dirty
    ensures var r := FlushFrom(TearDown(p, f, i), f, ws, i + 1).1;
            var k := KeyOf(p.table[i]);
            (k in r.disk <==> k in p.disk) && (k in r.disk ==> r.disk[k] == p.disk[k])
  {
    var q := TearDown(p, f, i);
    var k := KeyOf(p.table[i]);
    TearDownFacts(p, f, i);
    TearDownKeepsInv(p, f, i);
    assert q.disk == p.disk && k !in q.index;
    FlushSparesUnindexed(q, f, ws, i + 1, k);
  }

  // ---------------------------------------------------------------- destructor

  /** The destructor's write-back leaves the stored contents of every page that
      is not in the pool as they were. */
  lemma {:induction false} WriteBackSparesUnindexed(p: Pool, ws: seq<Status>, i: nat, k: Key)
    requires Inv(p) && i <= |p.table| && k !in p.index
    ensures var disk := WriteBackFrom(p, ws, i);
            (k in disk <==> k in p.disk) && (k in disk ==> disk[k] == p.disk[k])
    decreases |p.table| - i
  {
    if i < |p.table| {
      var d := p.table[i];
      if d.valid && d.dirty && StatusAt(ws, i) == Ok {
        assert KeyOf(d) in p.index;
        WriteBackSparesUnindexed(p.(disk := p.disk[KeyOf(d) := p.frames[i]]), ws, i + 1, k);
      } else {
        WriteBackSparesUnindexed(p, ws, i + 1, k);
      }
    }
  }

  /** Every dirty page whose write succeeds ends up in the store with the contents of its frame. */
  lemma {:induction false} WriteBackSaves(p: Pool, ws: seq<Status>, i: nat, j: int)
    requires Inv(p) && i <= j < |p.table|
    requires p.table[j].valid && p.table[j].dirty && StatusAt(ws, j) == Ok
    ensures var disk := WriteBackFrom(p, ws, i);
            KeyOf(p.table[j]) in disk && disk[KeyOf(p.table[j])] == p.frames[j]
    decreases |p.table| - i
  {
    var d := p.table[i];
    var q := if d.valid && d.dirty && StatusAt(ws, i) == Ok then p.(disk := p.disk[KeyOf(d) := p.frames[i]]) else p;
    assert WriteBackFrom(p, ws, i) == WriteBackFrom(q, ws, i + 1);
    if i == j {
      WriteBackSkipsWritten(q, ws, i + 1, KeyOf(d), i);
    } else {
      WriteBackSaves(q, ws, i + 1, j);
    }
  }

  /** The destructor writes a page of the pool only when its frame is dirty and
      the write succeeds: otherwise the page keeps its stored contents. */
  lemma {:induction false} WriteBackSkipsClean(p: Pool, ws: seq<Status>, i: nat, j: int)
    requires Inv(p) && i <= |p.table| && 0 <= j < |p.table| && p.table[j].valid
    requires !p.table[j].dirty || StatusAt(ws, j) != Ok
    ensures var disk := WriteBackFrom(p, ws, i);
            var k := KeyOf(p.table[j]);
            (k in disk <==> k in p.disk) && (k in disk ==> disk[k] == p.disk[k])
    decreases |p.table| - i
  {
    if i < |p.table| {
      var d := p.table[i];
      if d.valid && d.dirty && StatusAt(ws, i) == Ok {
        assert KeyOf(d) != KeyOf(p.table[j]) by { NoPageTwice(p, i, j); }
        WriteBackSkipsClean(p.(disk := p.disk[KeyOf(d) := p.frames[i]]), ws, i + 1, j);
      } else {
        WriteBackSkipsClean(p, ws, i + 1, j);
      }
    }
  }

  /** Frames past `i` never hold the page of frame `j`, so its stored contents stay. */
  lemma {:induction false} WriteBackSkipsWritten(p: Pool, ws: seq<Status>, i: nat, k: Key, j: int)
    requires Inv(p) && 0 <= j < i <= |p.table|
    requires p.table[j].valid && KeyOf(p.table[j]) == k
    ensures var disk := WriteBackFrom(p, ws, i);
            (k in disk <==> k in p.disk) && (k in disk ==> disk[k] == p.disk[k])
    decreases |p.table| - i
  {
    if i < |p.table| {
      var d := p.table[i];
      if d.valid && d.dirty && StatusAt(ws, i) == Ok {
        assert KeyOf(d) != k by { NoPageTwice(p, i, j); }
        WriteBackSkipsWritten(p.(disk := p.disk[KeyOf(d) := p.frames[i]]), ws, i + 1, k, j);
      } else {
        WriteBackSkipsWritten(p, ws, i + 1, k, j);
      }
    }
  }
}

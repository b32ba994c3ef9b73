/** BufMgr of buf.C: a fixed table of frame descriptors, the page frames, the
    buffer hash table and the clock hand, updated in place. `disk` stands for the
    page store behind every File; what each File call returns is a parameter. */
module BufManager {
  import opened BufTypes
  import opened BufHash
  import opened Clock
  import opened BufSpec

  class BufMgr {
    const numBufs: nat
    const bufTable: array<BufDesc>
    const bufPool: array<Page>
    var hashTable: Index
    var clockHand: int
    var disk: map<Key, Page>

    /** The state as a value. */
    ghost function Abs(): Pool
      reads this, bufTable, bufPool
    {
      Pool(bufTable[..], clockHand, hashTable, bufPool[..], disk)
    }

    ghost predicate Valid()
      reads this, bufTable, bufPool
    {
      bufTable.Length == numBufs && bufPool.Length == numBufs && Inv(Abs())
    }

    /** BufMgr(bufs) (buf.C:23-42) over a page store holding `store`. */
    constructor (bufs: nat, store: map<Key, Page>)
      ensures Valid() && fresh(bufTable) && fresh(bufPool)
      ensures Abs() == InitPool(bufs, store)
    {
      var table := new BufDesc[bufs];
      for i := 0 to bufs
        invariant forall j :: 0 <= j < i ==> table[j] == BufDesc(None, 0, j, 0, false, false, false)
      {
        table[i] := BufDesc(None, 0, i, 0, false, false, false);
      }
      numBufs := bufs;
      bufTable := table;
      bufPool := new Page[bufs](_ => BLANK_PAGE);
      hashTable := map[];
      clockHand := bufs - 1;
      disk := store;
      new;
      assert bufTable[..] == InitPool(bufs, store).table;
      assert bufPool[..] == InitPool(bufs, store).frames;
    }

    /** allocBuf (buf.C:74-127). `writeStatus` is what file->writePage returns when
        the victim is dirty. `frame` is -1 unless the status is Ok. */
    method AllocBuf(writeStatus: Status) returns (status: Status, frame: int)
      requires Valid()
      modifies this, bufTable
      ensures AllocOut(status, frame, Abs()) == AllocBufSpec(old(Abs()), writeStatus)
      ensures Valid()
    {
      ghost var p0 := Abs();
      AllocBufKeepsInv(p0, writeStatus);
      var outcome := Sweep();
      ScanFacts(p0.table, p0.hand, 2 * numBufs);
      ghost var q := p0.(table := bufTable[..], hand := clockHand);
      RefbitsKeepInv(p0, q.table, q.hand, p0.frames, p0.disk);
      assert Abs() == q;
      match outcome
      case Free(i) =>
        return Ok, i;
      case Exhausted =>
        return BufferExceeded, -1;
      case Victim(i) =>
        status, frame := EvictAtHand(writeStatus);
        EvictKeepsInv(q, i, writeStatus);
    }

    /** The loop of allocBuf (buf.C:78-121) up to the point where it has found a
        free frame or a victim, or has made 2 * numBufs steps. */
    method Sweep() returns (outcome: Outcome)
      requires bufTable.Length == numBufs && (numBufs == 0 || 0 <= clockHand < numBufs)
      modifies `clockHand, bufTable
      ensures ScanOut(outcome, bufTable[..], clockHand) == Scan(old(bufTable[..]), old(clockHand), 2 * numBufs)
    {
      ghost var t0, h0 := bufTable[..], clockHand;
      ScannedStarts(t0, h0);
      for x := 0 to numBufs * 2
        invariant Scanned(t0, h0, bufTable[..], clockHand, 2 * numBufs - x)
      {
        ghost var t := bufTable[..];
        var frameNo := clockHand;
        if !bufTable[clockHand].valid {
          return Free(frameNo);
        } else if bufTable[clockHand].refbit {
          bufTable[clockHand] := bufTable[clockHand].(refbit := false);
          assert bufTable[..] == t[frameNo := t[frameNo].(refbit := false)];
        } else if bufTable[clockHand].pinCnt == 0 {
          return Victim(frameNo);
        }
        ScannedSteps(t0, h0, t, frameNo, 2 * numBufs - x);
        clockHand := Advance(clockHand, numBufs);
      }
      return Exhausted;
    }

    /** The victim branch of allocBuf (buf.C:94-117): the frame at the hand is
        valid, unpinned and has its refbit clear. */
    method EvictAtHand(writeStatus: Status) returns (status: Status, frame: int)
      requires Valid() && numBufs > 0
      requires bufTable[clockHand].valid
      modifies this, bufTable
      ensures AllocOut(status, frame, Abs()) == Evict(old(Abs()), old(clockHand), writeStatus)
      ensures Valid()
    {
      EvictKeepsInv(Abs(), clockHand, writeStatus);
      var frameNo := clockHand;
      var tempFile := bufTable[clockHand].file.value;
      var tempPageNo := bufTable[clockHand].pageNo;
      if bufTable[frameNo].dirty {
        if writeStatus != Ok {
          return UnixErr, -1;
        }
        disk := disk[(tempFile, tempPageNo) := bufPool[frameNo]];
      }
      if (tempFile, tempPageNo) in hashTable {
        frameNo := hashTable[(tempFile, tempPageNo)];
        bufTable[frameNo] := bufTable[frameNo].Clear();
      }
      hashTable := Remove(hashTable, (tempFile, tempPageNo)).1;
      return Ok, frameNo;
    }

    /** readPage (buf.C:145-182). The page handle is the frame number: the caller's
        page is bufPool[frame]. `writeStatus` is the result of allocBuf's write-back,
        `readStatus` that of file->readPage. */
    method ReadPage(file: FileId, pageNo: int, writeStatus: Status, readStatus: Status)
      returns (status: Status, frame: int)
      requires Valid()
      modifies this, bufTable, bufPool
      ensures FrameOut(status, frame, Abs()) == ReadPageSpec(old(Abs()), file, pageNo, writeStatus, readStatus)
      ensures Valid()
    {
      if (file, pageNo) !in hashTable {
        AllocBufKeepsInv(Abs(), writeStatus);
        var frameNo;
        status, frameNo := AllocBuf(writeStatus);
        if status != Ok {
          return status, -1;
        }
        if readStatus != Ok {
          return readStatus, -1;
        }
        ghost var a := Abs();
        bufPool[frameNo] := StoredPage(disk, (file, pageNo));
        RefbitsKeepInv(a, a.table, a.hand, bufPool[..], disk);
        status := Install(file, pageNo, frameNo);
        if status != Ok {
          return status, -1;
        }
        return Ok, frameNo;
      } else {
        var frameNo := hashTable[(file, pageNo)];
        bufTable[frameNo] := bufTable[frameNo].(refbit := true);
        bufTable[frameNo] := bufTable[frameNo].(pinCnt := bufTable[frameNo].pinCnt + 1);
        return Ok, frameNo;
      }
    }

    /** The hash-table insertion and Set() of readPage (buf.C:160-163) and
        allocPage (buf.C:240-243), for the empty frame `frameNo`. */
    method Install(file: FileId, pageNo: int, frameNo: int) returns (status: Status)
      requires Valid() && 0 <= frameNo < numBufs && !bufTable[frameNo].valid
      modifies `hashTable, bufTable
      ensures (status, Abs()) == InstallSpec(old(Abs()), file, pageNo, frameNo)
      ensures Valid()
    {
      ghost var r0 := InstallSpec(Abs(), file, pageNo, frameNo);
      assert Inv(r0.1);
      var ins := Insert(hashTable, (file, pageNo), frameNo);
      if ins.0 != Ok {
        return ins.0;
      }
      hashTable := ins.1;
      bufTable[frameNo] := bufTable[frameNo].Set(file, pageNo);
      return Ok;
    }

    /** unPinPage (buf.C:189-216). */
    method UnPinPage(file: FileId, pageNo: int, dirty: bool) returns (status: Status)
      requires Valid()
      modifies bufTable
      ensures (status, Abs()) == UnPinPageSpec(old(Abs()), file, pageNo, dirty)
      ensures Valid()
    {
      ghost var r0 := UnPinPageSpec(Abs(), file, pageNo, dirty);
      assert Inv(r0.1);
      if (file, pageNo) in hashTable {
        var frameNo := hashTable[(file, pageNo)];
        if dirty {
          bufTable[frameNo] := bufTable[frameNo].(dirty := dirty);
        }
        if bufTable[frameNo].pinCnt <= 0 {
          assert bufTable[..] == old(bufTable[..])[frameNo := bufTable[frameNo]];
          return PageNotPinned;
        }
        bufTable[frameNo] := bufTable[frameNo].(pinCnt := bufTable[frameNo].pinCnt - 1);
        assert bufTable[..] == old(bufTable[..])[frameNo := bufTable[frameNo]];
        return Ok;
      }
      return HashNotFound;
    }

    /** allocPage (buf.C:228-246). `allocStatus` and `newPageNo` are what
        file->allocatePage returns; `writeStatus` is the result of allocBuf's write-back. */
    method AllocPage(file: FileId, allocStatus: Status, newPageNo: int, writeStatus: Status)
      returns (status: Status, pageNo: int, frame: int)
      requires Valid()
      modifies this, bufTable
      ensures PageOut(status, pageNo, frame, Abs()) == AllocPageSpec(old(Abs()), file, allocStatus, newPageNo, writeStatus)
      ensures Valid()
    {
      ghost var r0 := AllocPageSpec(Abs(), file, allocStatus, newPageNo, writeStatus);
      assert Inv(r0.pool);
      if allocStatus != Ok {
        return allocStatus, -1, -1;
      }
      pageNo := newPageNo;
      AllocBufKeepsInv(Abs(), writeStatus);
      var frameNo;
      status, frameNo := AllocBuf(writeStatus);
      if status != Ok {
        return status, pageNo, -1;
      }
      status := Install(file, pageNo, frameNo);
      if status != Ok {
        return HashTblError, pageNo, -1;
      }
      return Ok, pageNo, frameNo;
    }

    /** disposePage (buf.C:248-263). `disposeStatus` is what file->disposePage returns. */
    method DisposePage(file: FileId, pageNo: int, disposeStatus: Status) returns (status: Status)
      requires Valid()
      modifies this, bufTable
      ensures (status, Abs()) == DisposePageSpec(old(Abs()), file, pageNo, disposeStatus)
      ensures Valid()
    {
      ghost var r0 := DisposePageSpec(Abs(), file, pageNo, disposeStatus);
      assert Inv(r0.1);
      if (file, pageNo) in hashTable {
        var frameNo := hashTable[(file, pageNo)];
        bufTable[frameNo] := bufTable[frameNo].Clear();
      }
      hashTable := Remove(hashTable, (file, pageNo)).1;
      if disposeStatus == Ok {
        disk := disk - {(file, pageNo)};
      }
      return disposeStatus;
    }

    /** flushFile (buf.C:265-300). `writeStatus[i]` is what writePage returns for
        the page of frame i. */
    method FlushFile(file: FileId, writeStatus: seq<Status>) returns (status: Status)
      requires Valid()
      modifies this, bufTable
      ensures (status, Abs()) == FlushFrom(old(Abs()), file, writeStatus, 0)
      ensures Valid()
    {
      ghost var p0 := Abs();
      assert Inv(FlushFrom(p0, file, writeStatus, 0).1);
      for i := 0 to numBufs
        invariant FlushFrom(p0, file, writeStatus, 0) == FlushFrom(Abs(), file, writeStatus, i)
      {
        ghost var p := Abs();
        var d := bufTable[i];
        if d.valid && d.file == Some(file) {
          if d.pinCnt > 0 {
            return PagePinned;
          }
          if d.dirty {
            var st := StatusAt(writeStatus, i);
            if st != Ok {
              return st;
            }
            disk := disk[(file, d.pageNo) := bufPool[i]];
            bufTable[i] := bufTable[i].(dirty := false);
          }
          hashTable := Remove(hashTable, (file, d.pageNo)).1;
          bufTable[i] := bufTable[i].(file := None, pageNo := -1, valid := false);
          assert bufTable[..] == TearDown(p, file, i).table;
        } else if !d.valid && d.file == Some(file) {
          return BadBuffer;
        }
      }
      return Ok;
    }

    /** ~BufMgr (buf.C:45-64): every valid dirty frame is written back, pinned or not;
        `writeStatus[i]` is what writePage returns for frame i, and a failure is ignored. */
    method Destroy(writeStatus: seq<Status>)
      requires Valid()
      modifies this
      ensures disk == WriteBackFrom(old(Abs()), writeStatus, 0)
      ensures bufTable[..] == old(bufTable[..]) && hashTable == old(hashTable) && clockHand == old(clockHand)
      ensures Valid()
    {
      ghost var p0 := Abs();
      for i := 0 to numBufs
        invariant Abs() == p0.(disk := disk)
        invariant WriteBackFrom(p0, writeStatus, 0) == WriteBackFrom(Abs(), writeStatus, i)
      {
        var d := bufTable[i];
        if d.valid && d.dirty {
          var st := StatusAt(writeStatus, i);
          if st == Ok {
            disk := disk[(d.file.value, d.pageNo) := bufPool[i]];
          }
        }
      }
    }
  }
}

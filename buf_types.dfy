/** Value types shared by the buffer manager: status codes, the frame
    descriptor of buf.h with its Set and Clear helpers, and the key of the
    buffer hash table. */
module BufTypes {

  /** Identity of an open file: the `File*` handed to the buffer manager. */
  type FileId = nat

  /** Key of the buffer hash table: a file and a page number in it. */
  type Key = (FileId, int)

  /** The raw bytes of one page frame; the buffer manager never looks inside. */
  type Page = seq<bv8>

  /** The contents of a frame that nothing was read into (the constructor's memset). */
  const BLANK_PAGE: Page := []

  datatype Option<T> = None | Some(value: T)

  /** The status codes the buffer manager returns or passes on. */
  datatype Status =
    | Ok
    | UnixErr
    | BadBuffer
    | HashNotFound
    | HashTblError
    | BufferExceeded
    | PageNotPinned
    | PagePinned

  /** One frame descriptor (BufDesc of buf.h). `file == None` is the null `File*`. */
  datatype BufDesc = BufDesc(
    file: Option<FileId>,
    pageNo: int,
    frameNo: int,
    pinCnt: int,
    dirty: bool,
    valid: bool,
    refbit: bool)
  {
    /** buf.h's Clear(): the frame becomes empty and unowned; its frame number is kept. */
    function Clear(): (c: BufDesc)
      ensures !c.valid && c.file.None? && c.pinCnt == 0 && !c.dirty && c.frameNo == frameNo
    {
      this.(file := None, pageNo := -1, pinCnt := 0, dirty := false, valid := false, refbit := false)
    }

    /** buf.h's Set(file, pageNo): the frame holds that page, pinned once, clean and just referenced. */
    function Set(f: FileId, p: int): (c: BufDesc)
      ensures Holds(c, (f, p)) && c.pinCnt == 1 && c.refbit && !c.dirty && c.frameNo == frameNo
    {
      this.(file := Some(f), pageNo := p, pinCnt := 1, dirty := false, valid := true, refbit := true)
    }
  }

  /** The hash-table key of a frame that holds a page. */
  function KeyOf(d: BufDesc): (k: Key)
    requires d.file.Some?
  {
    (d.file.value, d.pageNo)
  }

  /** Frame `d` holds page `k`. */
  predicate Holds(d: BufDesc, k: Key) {
    d.valid && d.file == Some(k.0) && d.pageNo == k.1
  }

  /** The status a per-frame sequence of page-store results gives for frame `i`;
      frames past its end succeed. */
  function StatusAt(ws: seq<Status>, i: int): (s: Status) {
    if 0 <= i < |ws| then ws[i] else Ok
  }
}

/** Values shared by the buffer manager model: identities, frame descriptors,
    the (file, page) -> frame table, the external file calls and the errors.
 */
module BufferTypes {

  /** Identity of a File object (the source compares File pointers). */
  type FileId = nat
  /** Page number within a file. */
  type PageId = nat
  /** Index of a frame in the pool. */
  type FrameId = nat
  /** Key of the buffer hash table. */
  type Key = (FileId, PageId)

  /** The page number a cleared descriptor carries (BadgerDB's Page::INVALID_NUMBER). */
  const NoPage: PageId := 0

  /** Frame counts are 32-bit and the allocation loop compares a 32-bit counter
      against numBufs with `<=`, so numBufs must stay below this bound. */
  const MaxBufs: nat := 0xFFFF_FFFF

  datatype Option<T> = None | Some(value: T)

  /** One frame descriptor (BufDesc). `file == None` is the source's NULL owner. */
  datatype BufDesc = BufDesc(
    file: Option<FileId>,
    pageNo: PageId,
    frameNo: FrameId,
    pinCnt: nat,
    dirty: bool,
    valid: bool,
    refbit: bool)
  {
    /** BufDesc::Set: the frame now holds page `p` of file `f`, pinned once. */
    function Set(f: FileId, p: PageId): (d: BufDesc)
      ensures d.valid && d.refbit && !d.dirty && d.pinCnt == 1
      ensures d.file == Some(f) && d.pageNo == p && d.frameNo == frameNo
    {
      this.(file := Some(f), pageNo := p, pinCnt := 1, dirty := false, valid := true, refbit := true)
    }

    /** BufDesc::Clear: the frame is free and has no owner. */
    function Clear(): (d: BufDesc)
      ensures !d.valid && !d.refbit && !d.dirty && d.pinCnt == 0
      ensures d.file == None && d.frameNo == frameNo
    {
      this.(file := None, pageNo := NoPage, pinCnt := 0, dirty := false, valid := false, refbit := false)
    }
  }

  /** The descriptor of frame `i` right after the pool is built. */
  function EmptyDesc(i: FrameId): BufDesc {
    BufDesc(None, NoPage, i, 0, false, false, false)
  }

  /** A call into the external File layer; page contents are not modelled. */
  datatype IoEvent =
    | Read(file: FileId, pageNo: PageId)
    | Write(file: FileId, pageNo: PageId, frame: FrameId)
    | Allocate(file: FileId, pageNo: PageId)
    | Delete(file: FileId, pageNo: PageId)

  /** The exceptions the buffer manager lets escape. */
  datatype BufError =
    | BufferExceeded
    | PageNotPinned(file: FileId, pageNo: PageId, frame: FrameId)
    | PagePinned(file: FileId, pageNo: PageId, frame: FrameId)
    | BadBuffer(frame: FrameId, dirty: bool, valid: bool, refbit: bool)
    | HashNotFound(file: FileId, pageNo: PageId)
    | HashAlreadyPresent(file: FileId, pageNo: PageId, frame: FrameId)

  datatype Result<T> = Ok(value: T) | Err(error: BufError)

  /** The whole mutable state of a BufMgr as a value: descriptor table,
      clock hand and hash table. */
  datatype Pool = Pool(descs: seq<BufDesc>, clockHand: nat, hashTable: map<Key, FrameId>)

  /** What one operation does: the new pool, the File calls it made, in order,
      and its outcome. */
  datatype Step<T> = Step(pool: Pool, events: seq<IoEvent>, result: Result<T>)

  /** The facts every reachable pool satisfies: a non-empty table whose entries
      know their own index, a clock hand inside it, an owner for every valid
      frame and hash entries that point inside the table. */
  predicate WellFormed(p: Pool) {
    0 < |p.descs| && p.clockHand < |p.descs| &&
    (forall i :: 0 <= i < |p.descs| ==> p.descs[i].frameNo == i) &&
    (forall i :: 0 <= i < |p.descs| && p.descs[i].valid ==> p.descs[i].file.Some?) &&
    (forall k :: k in p.hashTable ==> p.hashTable[k] < |p.descs|)
  }

  /** BufHashTbl::insert: fails when the key is already present. */
  function Insert(h: map<Key, FrameId>, k: Key, f: FrameId): (r: Result<map<Key, FrameId>>)
    ensures r.Ok? <==> k !in h
    ensures r.Ok? ==> r.value == h[k := f]
    ensures r.Err? ==> r.error == HashAlreadyPresent(k.0, k.1, f)
  {
    if k in h then Err(HashAlreadyPresent(k.0, k.1, f)) else Ok(h[k := f])
  }

  /** BufHashTbl::remove: fails when the key is absent. */
  function Remove(h: map<Key, FrameId>, k: Key): (r: Result<map<Key, FrameId>>)
    ensures r.Ok? <==> k in h
    ensures r.Ok? ==> r.value == h - {k} && r.value.Keys + {k} == h.Keys
    ensures r.Err? ==> r.error == HashNotFound(k.0, k.1)
  {
    if k in h then Ok(h - {k}) else Err(HashNotFound(k.0, k.1))
  }
}

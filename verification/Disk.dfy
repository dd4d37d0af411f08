/** The files of PageManager and DiskManager: each open file id with its pages as 4096-byte blocks. */
module Disks {
  import opened Bytes
  import opened PageImages
  import opened PageCodec

  type Blocks = s: seq<seq<byte>> | |s| <= INVALID_ID && forall i :: 0 <= i < |s| ==> |s[i]| == PAGE_SIZE

  type FileId = f: u32 | f < INVALID_ID

  datatype Disk = Disk(files: map<FileId, Blocks>, nextFile: u32)

  /** Ids of existing pages are valid: files stop short of the invalid page number. */
  predicate OnDisk(d: Disk, pid: PageId) {
    pid.file in d.files && pid.num < |d.files[pid.file]|
  }

  /** getPage: read the block and decode it. */
  function ReadDisk(d: Disk, pid: PageId): PageImage
    requires OnDisk(d, pid)
  {
    Deserialize(d.files[pid.file][pid.num])
  }

  /** All pages of a file, decoded. */
  function Decoded(pages: Blocks): seq<PageImage> {
    seq(|pages|, n requires 0 <= n < |pages| => Deserialize(pages[n]))
  }

  /** writePage: encode the page and overwrite its block; a page that does not exist is not written. */
  function WriteDisk(d: Disk, pid: PageId, p: PageImage): Disk {
    if OnDisk(d, pid) then
      var bs, n := d.files[pid.file], pid.num;
      d.(files := d.files[pid.file := bs[n := Serialize(p)]])
    else d
  }

  /** How the block of zeros that allocatePage writes reads back. */
  const BLANK_PAGE: PageImage := Deserialize(Zeros(PAGE_SIZE))

  /** allocatePage: extend the file by one block of zeros, or report an invalid id. */
  function AllocatePage(d: Disk, file: u32): (Disk, PageId) {
    if file !in d.files || |d.files[file]| == INVALID_ID then (d, INVALID_PAGE_ID)
    else (d.(files := d.files[file := d.files[file] + [Zeros(PAGE_SIZE)]]), PageId(file, |d.files[file]|))
  }

  /** Opening a table file gives it the next id; dropping one closes its id for good. */
  function OpenFile(d: Disk, pages: Blocks): Disk
    requires d.nextFile < INVALID_ID
  {
    d.(files := d.files[d.nextFile := pages], nextFile := d.nextFile + 1)
  }

  function DropFile(d: Disk, file: u32): Disk {
    d.(files := d.files - {file})
  }

  predicate DiskOk(d: Disk) {
    forall f :: f in d.files ==> f < d.nextFile
  }

  /** A write is read back, and no other page notices it. */
  lemma ReadWrite(d: Disk, pid: PageId, p: PageImage, other: PageId)
    ensures OnDisk(WriteDisk(d, pid, p), other) <==> OnDisk(d, other)
    ensures OnDisk(d, other) ==>
              ReadDisk(WriteDisk(d, pid, p), other) == if other == pid then p else ReadDisk(d, other)
  {
    DeserializeSerialize(p);
  }

  /** A new page is a blank page at the end of its file, and no other page notices it. */
  lemma ReadAllocated(d: Disk, file: u32, other: PageId)
    ensures var (e, pid) := AllocatePage(d, file);
            && (pid.IsValid() ==> !OnDisk(d, pid) && OnDisk(e, pid) && ReadDisk(e, pid) == BLANK_PAGE)
            && (OnDisk(e, other) <==> OnDisk(d, other) || (pid.IsValid() && other == pid))
            && (OnDisk(d, other) ==> ReadDisk(e, other) == ReadDisk(d, other))
  {
  }
}

/** Page I/O over the open table files. */
module PageManagers {
  import opened Bytes
  import opened PageImages
  import opened PageCodec
  import opened Pages
  import opened Disks

  class PageManager {
    var disk: Disk

    constructor (d: Disk)
      ensures disk == d
    {
      disk := d;
    }

    /** Reads a page of an open file into the given page object. */
    method GetPage(pid: PageId, page: Page) returns (ok: bool)
      requires page.Sized()
      modifies page, page.body
      ensures ok == OnDisk(disk, pid)
      ensures page.Image() == if ok then ReadDisk(disk, pid) else old(page.Image())
    {
      if !OnDisk(disk, pid) { return false; }
      page.DeserializeFrom(disk.files[pid.file][pid.num]);
      return true;
    }

    /** Writes a page over its block; fails when its file is not open or has no such page. */
    method WritePage(pid: PageId, page: Page) returns (ok: bool)
      requires page.Sized()
      modifies this
      ensures ok == OnDisk(old(disk), pid)
      ensures disk == WriteDisk(old(disk), pid, page.Image())
    {
      var buf := new byte[PAGE_SIZE];
      page.SerializeTo(buf);
      if !OnDisk(disk, pid) { return false; }
      var blocks := disk.files[pid.file];
      disk := disk.(files := disk.files[pid.file := blocks[pid.num := buf[..]]]);
      return true;
    }

    method AllocatePage(file: u32) returns (pid: PageId)
      modifies this
      ensures (disk, pid) == Disks.AllocatePage(old(disk), file)
    {
      if file !in disk.files || |disk.files[file]| == INVALID_ID { return INVALID_PAGE_ID; }
      var n := |disk.files[file]|;
      disk := disk.(files := disk.files[file := disk.files[file] + [Zeros(PAGE_SIZE)]]);
      return PageId(file, n);
    }

    method PageCount(file: u32) returns (n: u32)
      ensures n == if file in disk.files then |disk.files[file]| else 0
    {
      if file !in disk.files { return 0; }
      return |disk.files[file]|;
    }
  }
}

/**
 The virtualchar character device: one 4096-byte memory region, read and
 written through open files, each file carrying its own cursor.

 `ReadAt` and `WriteAt` state what one `read` or `write` call does to the
 memory and the cursor, as values; the methods of `File` do it in place and
 are proved to agree with them.
 */
module VirtualChar {
  import opened UserCopy

  /** Size of the device memory, in bytes. */
  const MEM_SIZE: nat := 0x1000

  /** The errno a failed user copy reports, negated in the return value. */
  const EFAULT: int := 14

  /** One more than the largest `unsigned int`. */
  const UINT_RANGE: nat := 0x1_0000_0000

  /** The conversion of the `size_t` request to the driver's `unsigned int`
      count, which keeps the low 32 bits. */
  function ToUInt(size: nat): (count: nat)
    ensures count < UINT_RANGE && count <= size
    ensures size < UINT_RANGE ==> count == size
  {
    size % UINT_RANGE
  }

  /** The number of bytes a request of `size` bytes at cursor `p` transfers:
      the request, cut at the end of the memory. */
  function Clamp(p: nat, size: nat): (count: nat)
    requires p < MEM_SIZE
    ensures count <= ToUInt(size) && p + count <= MEM_SIZE
    ensures count == ToUInt(size) || p + count == MEM_SIZE
  {
    var count := ToUInt(size);
    if count > MEM_SIZE - p then MEM_SIZE - p else count
  }

  /** `a` and `b` hold the same bytes everywhere except, perhaps, in `[lo, hi)`. */
  predicate AgreeOutside(a: seq<bv8>, b: seq<bv8>, lo: int, hi: int) {
    |a| == |b| && forall i :: 0 <= i < |a| && !(lo <= i < hi) ==> a[i] == b[i]
  }

  /** The outcome of one read: its return value, the bytes that reached the
      caller's buffer, and the new cursor. */
  datatype ReadResult = ReadResult(ret: int, delivered: seq<bv8>, pos: nat)

  /** The outcome of one write: its return value, the new memory, and the
      new cursor. */
  datatype WriteResult = WriteResult(ret: int, mem: seq<bv8>, pos: nat)

  /** A read of `size` bytes at cursor `p` from memory `mem`, into a user
      buffer of which `room` bytes are writable. */
  function ReadAt(mem: seq<bv8>, p: nat, size: nat, room: nat): (r: ReadResult)
    requires |mem| == MEM_SIZE
    // at or past the end: nothing is transferred and the cursor stays
    ensures p >= MEM_SIZE ==> r == ReadResult(0, [], p)
    // the only error is a fault of the user copy, and it leaves the cursor
    ensures r.ret == -EFAULT || 0 <= r.ret
    ensures r.ret == -EFAULT <==> p < MEM_SIZE && room < Clamp(p, size)
    ensures r.ret == -EFAULT ==> r.pos == p && r.delivered == mem[p..p + room]
    // success: the clamped count, exactly that slice, the cursor moved past it
    ensures 0 <= r.ret && p < MEM_SIZE ==> r.ret == Clamp(p, size)
    ensures 0 <= r.ret ==> r.pos == p + r.ret && |r.delivered| == r.ret
    ensures 0 < r.ret ==> p + r.ret <= MEM_SIZE && r.delivered == mem[p..p + r.ret]
    ensures p <= MEM_SIZE ==> r.pos <= MEM_SIZE
  {
    if p >= MEM_SIZE then ReadResult(0, [], p)
    else
      var count := Clamp(p, size);
      var t := CopyToUser(mem[p..p + count], room);
      if t.uncopied != 0 then ReadResult(-EFAULT, t.delivered, p)
      else ReadResult(count, t.delivered, p + count)
  }

  /** A write of `size` bytes at cursor `p` into memory `mem`, from a user
      buffer whose accessible bytes are `buf`. */
  function WriteAt(mem: seq<bv8>, p: nat, buf: seq<bv8>, size: nat): (r: WriteResult)
    requires |mem| == MEM_SIZE
    ensures |r.mem| == MEM_SIZE
    // at or past the end: nothing is transferred and nothing changes
    ensures p >= MEM_SIZE ==> r == WriteResult(0, mem, p)
    // the only error is a fault of the user copy: the cursor stays, and only
    // the clamped slice may have changed, starting with what was copied
    ensures r.ret == -EFAULT || 0 <= r.ret
    ensures r.ret == -EFAULT <==> p < MEM_SIZE && |buf| < Clamp(p, size)
    ensures r.ret == -EFAULT ==>
              p < MEM_SIZE && r.pos == p && AgreeOutside(mem, r.mem, p, p + Clamp(p, size)) &&
              r.mem[p..p + |buf|] == buf
    // success: the clamped count lands at the cursor, every other byte stays
    ensures 0 <= r.ret && p < MEM_SIZE ==> r.ret == Clamp(p, size)
    ensures 0 <= r.ret ==> r.pos == p + r.ret && AgreeOutside(mem, r.mem, p, p + r.ret)
    ensures 0 < r.ret ==> p + r.ret <= MEM_SIZE && r.mem[p..p + r.ret] == buf[..r.ret]
    ensures p <= MEM_SIZE ==> r.pos <= MEM_SIZE
  {
    if p >= MEM_SIZE then WriteResult(0, mem, p)
    else
      var count := Clamp(p, size);
      var f := CopyFromUser(mem, p, buf, count);
      if f.uncopied != 0 then WriteResult(-EFAULT, f.dst, p)
      else WriteResult(count, f.dst, p + count)
  }

  /** The device, `struct virtualchar_dev`: its memory. */
  class Device {
    const mem: array<bv8>

    ghost predicate Valid() {
      mem.Length == MEM_SIZE
    }

    /** The device as module initialisation leaves it: zero-filled. */
    constructor ()
      ensures Valid() && fresh(mem)
      ensures mem[..] == Zeros(MEM_SIZE)
    {
      mem := new bv8[MEM_SIZE](_ => 0);
    }
  }

  /** An open file of the device: the device it is bound to and its cursor. */
  class File {
    var privateData: Device?
    var pos: nat

    ghost predicate Valid()
      reads this
    {
      privateData != null && privateData.Valid()
    }

    /** A file as the kernel hands it to `open`: unbound, cursor at 0. */
    constructor ()
      ensures privateData == null && pos == 0
    {
      privateData := null;
      pos := 0;
    }

    /** `virtualchar_open`: binds the file to the device and touches nothing
        else, the device memory included. */
    method Open(dev: Device) returns (r: int)
      requires dev.Valid()
      modifies this`privateData
      ensures Valid() && privateData == dev
      ensures pos == old(pos) && r == 0
    {
      privateData := dev;
      r := 0;
    }

    /** `virtualchar_release`: succeeds and changes nothing. */
    method Release() returns (r: int)
      ensures r == 0
    {
      r := 0;
    }

    /** `virtualchar_read` at this file's cursor. */
    method Read(size: nat, room: nat) returns (ret: int, delivered: seq<bv8>)
      requires Valid()
      modifies this`pos
      ensures Valid() && privateData == old(privateData)
      ensures ReadResult(ret, delivered, pos) == ReadAt(privateData.mem[..], old(pos), size, room)
    {
      var p := pos;
      var count := ToUInt(size);
      var dev := privateData;
      if p >= MEM_SIZE {
        return 0, [];
      }
      if count > MEM_SIZE - p {
        count := MEM_SIZE - p;
      }
      var t := CopyToUser(dev.mem[p..p + count], room);
      delivered := t.delivered;
      if t.uncopied != 0 {
        ret := -EFAULT;
      } else {
        pos := pos + count;
        ret := count;
      }
    }

    /** `virtualchar_write` at this file's cursor. */
    method Write(buf: seq<bv8>, size: nat) returns (ret: int)
      requires Valid()
      modifies this`pos, privateData.mem
      ensures Valid() && privateData == old(privateData)
      ensures WriteResult(ret, privateData.mem[..], pos) == WriteAt(old(privateData.mem[..]), old(pos), buf, size)
    {
      var p := pos;
      var count := ToUInt(size);
      var dev := privateData;
      if p >= MEM_SIZE {
        return 0;
      }
      if count > MEM_SIZE - p {
        count := MEM_SIZE - p;
      }
      var uncopied := CopyFromUserInto(dev.mem, p, buf, count);
      if uncopied != 0 {
        ret := -EFAULT;
      } else {
        pos := pos + count;
        ret := count;
      }
    }
  }
}

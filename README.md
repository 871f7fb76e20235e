# virtualchar, modelled in Dafny

virtualchar is a Linux character-device driver. It owns one 4096-byte memory
region, zero-filled when the module loads. Programs read and write the region
through open files. Each open file keeps its own cursor (`*ppos`).

A `read` or a `write` at cursor `p` follows one rule:

- if `p` is at or past the end of the memory, it returns 0 and changes nothing;
- otherwise it cuts the request at the end of the memory;
- it copies that many bytes between the memory and the caller's buffer;
- on success it moves the cursor past them and returns the count;
- if the user copy faults, it returns `-EFAULT` and leaves the cursor where it was.

The project has three modules:

- `UserCopy` (`user_copy.dfy`) models the kernel's `copy_to_user` and
  `copy_from_user`. A user buffer is modelled by how many of its bytes are
  accessible. A copy faults at the first byte that is not.
  `copy_to_user` delivers the bytes before the fault.
  `copy_from_user` copies the bytes before the fault and zero-fills the rest
  of the destination, as the kernel documents.
  Both return the number of bytes they did not copy.
- `VirtualChar` (`virtualchar.dfy`) holds the constants and the read/write
  rule as values (`ReadAt`, `WriteAt`). It also holds the device (`Device`,
  whose `mem` is an `array<bv8>`) and the open file (`File`, with its
  `privateData` and its cursor `pos`). `File.Read` and `File.Write` follow
  the C step by step, in place. Their postconditions equate the new cursor,
  the new memory and the return value with `ReadAt`/`WriteAt` of the old
  state.
- `VirtualCharProperties` (`properties.dfy`) relates several calls. It covers
  round trips, splitting a transfer in two, a short transfer marking the end,
  and whole histories of calls on many open files sharing the one device.

The driver's `unsigned int count = size` keeps the low 32 bits of the
request. `ToUInt` models this explicitly. The multi-call lemmas assume
requests below 2^32, where the conversion changes nothing.

Descriptions of this device also mention a seek operation, a clear command
and a control channel. They also say that reads and writes never fail. The
code differs: its `file_operations` register no `llseek` and no `ioctl`
handler (virtualchar.c:99-105), `MEM_CLEAR` is never used (virtualchar.c:12),
and a faulting user copy makes both calls return `-EFAULT`. The model follows
the code.

## Model

| member | source | states |
|---|---|---|
| `UserCopy.Zeros` | virtualchar.c:146 | `n` bytes, every one of them zero: the memory as `memset` leaves it |
| `UserCopy.CopyToUser` | virtualchar.c:60 | delivers a prefix of the source, all of it exactly when the user buffer has room; otherwise it delivers as many bytes as there is room for, and the count not copied is nonzero |
| `UserCopy.CopyFromUser` | virtualchar.c:87 | the destination keeps its length and every byte outside `[off, off+n)`; the accessible user bytes land first, the rest of the `n` bytes are zero; the count not copied is 0 exactly when all `n` bytes were accessible |
| `UserCopy.CopyFromUserInto` | virtualchar.c:87 | copying into the device array in place leaves exactly the memory and the return value that `CopyFromUser` describes |
| `VirtualChar.ToUInt` | virtualchar.c:47 | the `unsigned int` count is below 2^32, never above the request, and equal to it when the request fits |
| `VirtualChar.Clamp` | virtualchar.c:55-57 | the count never runs past the end of the memory, never exceeds the (converted) request, and is one of the two: it is the minimum of the request and the room left |
| `VirtualChar.ReadAt` | virtualchar.c:44-70 | at or past the end: returns 0, delivers nothing, cursor unchanged; returns `-EFAULT` exactly when the cursor is inside and the user buffer is smaller than the clamped count, and then the cursor is unchanged and only the bytes that fit were delivered; otherwise returns the clamped count, delivers exactly `mem[p..p+count)` and advances the cursor by the count; a cursor at most 4096 stays at most 4096 |
| `VirtualChar.WriteAt` | virtualchar.c:72-96 | at or past the end: returns 0 with memory and cursor unchanged; returns `-EFAULT` exactly when the cursor is inside and fewer user bytes are accessible than the clamped count, and then the cursor is unchanged and only the clamped slice can differ; otherwise returns the clamped count, `mem[p..p+count)` equals the first `count` bytes of the data, every other byte is unchanged and the cursor advances by the count; a cursor at most 4096 stays at most 4096 |
| `VirtualChar.Device.constructor` | virtualchar.c:139-146 | a new device holds 4096 zero bytes |
| `VirtualChar.File.Open` | virtualchar.c:27-36 | binds the file to the device, returns 0, keeps the cursor and changes no device memory |
| `VirtualChar.File.Release` | virtualchar.c:38-41 | returns 0 and changes nothing |
| `VirtualChar.File.Read` | virtualchar.c:44-70 | the return value, the delivered bytes and the new cursor are those of `ReadAt` on the device memory and the old cursor; the memory is not modified |
| `VirtualChar.File.Write` | virtualchar.c:72-96 | the return value, the new device memory and the new cursor are those of `WriteAt` on the old memory and the old cursor |
| `VirtualCharProperties.WriteThenRead` | virtualchar.c:56-92 | writing `data` at `p` and then reading `|data|` bytes from `p` returns the prefix of `data` that fit before the end, with equal counts from both calls |
| `VirtualCharProperties.WriteKeepsOtherBytes` | virtualchar.c:87-92 | a read of a range disjoint from what a write covered sees the memory as it was before the write |
| `VirtualCharProperties.ConsecutiveReads` | virtualchar.c:56-65 | reading `a` then `b` bytes returns the same bytes, the same total and the same final cursor as one read of `a+b` bytes |
| `VirtualCharProperties.ConsecutiveWrites` | virtualchar.c:84-92 | writing `a` then `b` leaves the same memory and cursor, with the same total, as one write of `a+b` |
| `VirtualCharProperties.ShortReadMeansEnd` | virtualchar.c:52-65 | a successful read that returns less than asked leaves the cursor at 4096, where the next read returns 0 and delivers nothing |
| `VirtualCharProperties.ShortWriteMeansEnd` | virtualchar.c:80-92 | a successful write that returns less than asked leaves the cursor at 4096, where the next write returns 0 and changes nothing |
| `VirtualCharProperties.FreshDeviceReadsZeros` | virtualchar.c:146 | any read of a freshly zero-filled device delivers only zero bytes |
| `VirtualCharProperties.Step` | virtualchar.c:99-105 | one read or write call on one open file moves only that file's cursor; a read leaves the memory unchanged |
| `VirtualCharProperties.Run` | virtualchar.c:99-105 | any history of calls keeps the memory 4096 bytes long and the set of open files unchanged |
| `VirtualCharProperties.RunStaysInRegion` | virtualchar.c:52-92 | starting with every cursor within the memory, no history of reads and writes on any open files moves a cursor past 4096 |
| `VirtualCharProperties.ReadsLeaveMemory` | virtualchar.c:44-70 | a history of reads only leaves the device memory unchanged |
| `VirtualCharProperties.TwoFilesShareMemory` | virtualchar.c:27-35 | two files opened on the device share its memory: 3 bytes written through one are read back through the other |
| `VirtualCharProperties.ShortReadAtTheEnd` | virtualchar.c:52-65 | after 4094 bytes are written, a read of 10 returns 2 and the next read returns 0 |

## Left out

- Device registration (`register_chrdev_region`, `alloc_chrdev_region`, `cdev_init`, `cdev_add`, `cdev_del`, `virtualchar_setup_cdev`, `virtualchar_exit`, `module_param`, `module_init`, `module_exit`): kernel integration over interfaces outside this driver.
- The `kmalloc` failure path of `virtualchar_init` and `kfree`: only the successful allocation with its zero fill is modelled.
- `printk` logging: it has no effect on the device.
- The internals of `copy_to_user` and `copy_from_user`: they are modelled by their documented results, with the fault placed at the first inaccessible byte. The kernel may also report a fault a little before that point; this is not modelled.
- The cursor is a `nat`. The `loff_t` to `unsigned long` cast is the identity for those values. A negative `loff_t` would cast to a huge value and take the end-of-memory branch; negative cursors are not modelled.
- The `int` return value is unbounded in the model. Every value the driver returns (at most 4096, or `-EFAULT`) fits in an `int`.
- Seek, the clear command and any control operation: the driver implements none of them.
- Concurrent calls on the shared memory: the driver has no locking, and the model runs calls one after another.
- `File.Open` takes the device directly. In the driver, `container_of` recovers it from the inode's `cdev`.

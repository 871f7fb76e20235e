/**
 The kernel's user-space copy primitives, `copy_to_user` and `copy_from_user`,
 as the driver sees them. Both copy `n` bytes between kernel memory and a
 user buffer and return the number of bytes they could NOT copy (0 on
 success). A user buffer is modelled by how many of its bytes are
 accessible: a copy faults at the first inaccessible byte.
 */
module UserCopy {

  /** `n` zero bytes. */
  function Zeros(n: nat): (z: seq<bv8>)
    ensures |z| == n
    ensures forall i :: 0 <= i < n ==> z[i] == 0
  {
    seq(n, _ => 0)
  }

  /** What `copy_to_user` leaves behind: the bytes that reached the user
      buffer, and the count it returns. */
  datatype ToUser = ToUser(delivered: seq<bv8>, uncopied: nat)

  /** `copy_to_user` of all of `src` into a user buffer of which `room`
      bytes are writable: the bytes before the fault are delivered. */
  function CopyToUser(src: seq<bv8>, room: nat): (t: ToUser)
    ensures t.uncopied <= |src|
    ensures t.delivered == src[..|src| - t.uncopied]
    ensures t.uncopied == 0 <==> |src| <= room
    ensures t.uncopied != 0 ==> |t.delivered| == room
  {
    if |src| <= room then ToUser(src, 0) else ToUser(src[..room], |src| - room)
  }

  /** What `copy_from_user` leaves behind: the new kernel memory, and the
      count it returns. */
  datatype FromUser = FromUser(dst: seq<bv8>, uncopied: nat)

  /** `copy_from_user` of `n` bytes into `dst` at `off`, from a user buffer
      whose accessible bytes are `src`. The bytes before the fault are copied
      and the rest of the `n`-byte destination is zero-filled, as the kernel
      documents; nothing outside `[off, off + n)` is touched. */
  function CopyFromUser(dst: seq<bv8>, off: nat, src: seq<bv8>, n: nat): (f: FromUser)
    requires off + n <= |dst|
    ensures |f.dst| == |dst| && f.uncopied <= n
    ensures f.uncopied == 0 <==> n <= |src|
    ensures f.uncopied != 0 ==> f.uncopied == n - |src|
    ensures forall i :: 0 <= i < |dst| && !(off <= i < off + n) ==> f.dst[i] == dst[i]
    ensures forall j :: 0 <= j < n - f.uncopied ==> f.dst[off + j] == src[j]
    ensures forall i :: off + n - f.uncopied <= i < off + n ==> f.dst[i] == 0
  {
    var k := if n <= |src| then n else |src|;
    FromUser(dst[..off] + src[..k] + Zeros(n - k) + dst[off + n..], n - k)
  }

  /** `copy_from_user` acting on the array it writes into. */
  method CopyFromUserInto(dst: array<bv8>, off: nat, src: seq<bv8>, n: nat) returns (uncopied: nat)
    requires off + n <= dst.Length
    modifies dst
    ensures FromUser(dst[..], uncopied) == CopyFromUser(old(dst[..]), off, src, n)
  {
    ghost var before := dst[..];
    var k := if n <= |src| then n else |src|;
    forall i | off <= i < off + n {
      dst[i] := if i - off < k then src[i - off] else 0;
    }
    uncopied := n - k;
    ghost var f := CopyFromUser(before, off, src, n);
    assert dst[..] == f.dst by {
      forall i | 0 <= i < dst.Length ensures dst[..][i] == f.dst[i] {
        if off <= i < off + n {
          assert f.dst[off + (i - off)] == dst[i];
        }
      }
    }
  }
}

/**
 Properties that relate several `read`/`write` calls on the device: round
 trips, splitting a transfer in two, a short transfer marking the end, and
 the cursors of any history of calls on any number of open files staying
 inside the memory.
 */
module VirtualCharProperties {
  import opened UserCopy
  import opened VirtualChar

  /** Writing `data` at `p` and reading `|data|` bytes back from `p` returns
      the prefix of `data` that fit before the end of the memory. */
  lemma WriteThenRead(mem: seq<bv8>, p: nat, data: seq<bv8>)
    requires |mem| == MEM_SIZE && |data| < UINT_RANGE
    ensures var w := WriteAt(mem, p, data, |data|);
            var r := ReadAt(w.mem, p, |data|, |data|);
            var n := if p >= MEM_SIZE then 0
                     else if |data| <= MEM_SIZE - p then |data| else MEM_SIZE - p;
            w.ret == n && r.ret == n && r.delivered == data[..n] && r.pos == w.pos
  {
  }

  /** A byte outside the slice a write covered reads back as it was. */
  lemma WriteKeepsOtherBytes(mem: seq<bv8>, p: nat, data: seq<bv8>, q: nat, size: nat)
    requires |mem| == MEM_SIZE && |data| < UINT_RANGE && q < MEM_SIZE
    requires var w := WriteAt(mem, p, data, |data|); q + size <= p || w.pos <= q
    ensures ReadAt(WriteAt(mem, p, data, |data|).mem, q, size, size) == ReadAt(mem, q, size, size)
  {
  }

  /** Two reads in a row deliver what one read of both sizes delivers, and
      leave the cursor at the same place. */
  lemma ConsecutiveReads(mem: seq<bv8>, p: nat, a: nat, b: nat)
    requires |mem| == MEM_SIZE && a + b < UINT_RANGE
    ensures var r1 := ReadAt(mem, p, a, a);
            var r2 := ReadAt(mem, r1.pos, b, b);
            var r := ReadAt(mem, p, a + b, a + b);
            r1.ret + r2.ret == r.ret && r1.delivered + r2.delivered == r.delivered && r2.pos == r.pos
  {
  }

  /** Two writes in a row leave the memory and the cursor as one write of
      the concatenated data does. */
  lemma ConsecutiveWrites(mem: seq<bv8>, p: nat, a: seq<bv8>, b: seq<bv8>)
    requires |mem| == MEM_SIZE && |a| + |b| < UINT_RANGE
    ensures var w1 := WriteAt(mem, p, a, |a|);
            var w2 := WriteAt(w1.mem, w1.pos, b, |b|);
            var w := WriteAt(mem, p, a + b, |a + b|);
            w1.ret + w2.ret == w.ret && w2.mem == w.mem && w2.pos == w.pos
  {
    if p < MEM_SIZE {
      var w1 := WriteAt(mem, p, a, |a|);
      var w2 := WriteAt(w1.mem, w1.pos, b, |b|);
      var w := WriteAt(mem, p, a + b, |a + b|);
      forall i | 0 <= i < MEM_SIZE ensures w2.mem[i] == w.mem[i] {
        if p <= i < p + w1.ret {
          assert w2.mem[i] == w1.mem[i] == a[i - p] == (a + b)[i - p];
          assert w.mem[i] == w.mem[p..p + w.ret][i - p];
        } else if p + w1.ret <= i < p + w.ret {
          assert w2.mem[i] == w2.mem[w1.pos..w1.pos + w2.ret][i - w1.pos];
          assert w.mem[i] == w.mem[p..p + w.ret][i - p];
        }
      }
    }
  }

  /** A successful read shorter than asked for leaves the cursor at the end
      of the memory, where the next read returns 0. */
  lemma ShortReadMeansEnd(mem: seq<bv8>, p: nat, size: nat, room: nat, next: nat, nextRoom: nat)
    requires |mem| == MEM_SIZE && p <= MEM_SIZE && size < UINT_RANGE
    requires 0 <= ReadAt(mem, p, size, room).ret < size
    ensures ReadAt(mem, p, size, room).pos == MEM_SIZE
    ensures ReadAt(mem, MEM_SIZE, next, nextRoom) == ReadResult(0, [], MEM_SIZE)
  {
  }

  /** A successful write shorter than asked for leaves the cursor at the end
      of the memory, where the next write returns 0 and changes nothing. */
  lemma ShortWriteMeansEnd(mem: seq<bv8>, p: nat, buf: seq<bv8>, size: nat, next: seq<bv8>, nextSize: nat)
    requires |mem| == MEM_SIZE && p <= MEM_SIZE && size < UINT_RANGE
    requires 0 <= WriteAt(mem, p, buf, size).ret < size
    ensures var w := WriteAt(mem, p, buf, size);
            w.pos == MEM_SIZE && WriteAt(w.mem, w.pos, next, nextSize) == WriteResult(0, w.mem, MEM_SIZE)
  {
  }

  /** Every read of a freshly initialised device delivers zero bytes only. */
  lemma FreshDeviceReadsZeros(p: nat, size: nat, room: nat)
    ensures var r := ReadAt(Zeros(MEM_SIZE), p, size, room);
            forall i :: 0 <= i < |r.delivered| ==> r.delivered[i] == 0
  {
  }

  /** A `read` or `write` system call on open file number `file`. */
  datatype Op = ReadOp(size: nat, room: nat) | WriteOp(buf: seq<bv8>, size: nat)
  datatype Call = Call(file: nat, op: Op)

  /** The device memory and the cursor of every open file. */
  datatype System = System(mem: seq<bv8>, cursors: seq<nat>)

  /** Every call names an open file. */
  predicate CallsOnOpenFiles(calls: seq<Call>, files: nat) {
    forall k :: 0 <= k < |calls| ==> calls[k].file < files
  }

  /** The memory has its size and every cursor is inside it or at its end. */
  predicate InRegion(s: System) {
    |s.mem| == MEM_SIZE && forall f :: 0 <= f < |s.cursors| ==> s.cursors[f] <= MEM_SIZE
  }

  /** One call: it moves only its own file's cursor, and a read leaves the
      memory as it was. */
  function Step(s: System, c: Call): (t: System)
    requires |s.mem| == MEM_SIZE && c.file < |s.cursors|
    ensures |t.mem| == MEM_SIZE && |t.cursors| == |s.cursors|
    ensures forall f :: 0 <= f < |s.cursors| && f != c.file ==> t.cursors[f] == s.cursors[f]
    ensures c.op.ReadOp? ==> t.mem == s.mem
  {
    var p := s.cursors[c.file];
    match c.op
    case ReadOp(size, room) =>
      System(s.mem, s.cursors[c.file := ReadAt(s.mem, p, size, room).pos])
    case WriteOp(buf, size) =>
      var w := WriteAt(s.mem, p, buf, size);
      System(w.mem, s.cursors[c.file := w.pos])
  }

  /** A history of calls, one after the other. */
  function Run(s: System, calls: seq<Call>): (t: System)
    requires |s.mem| == MEM_SIZE && CallsOnOpenFiles(calls, |s.cursors|)
    ensures |t.mem| == MEM_SIZE && |t.cursors| == |s.cursors|
    decreases |calls|
  {
    if calls == [] then s else Run(Step(s, calls[0]), calls[1..])
  }

  /** Files are opened with their cursor at 0; from there, no history of
      calls moves any cursor past the end of the memory. */
  lemma {:induction false} RunStaysInRegion(s: System, calls: seq<Call>)
    requires InRegion(s) && CallsOnOpenFiles(calls, |s.cursors|)
    ensures InRegion(Run(s, calls))
    decreases |calls|
  {
    if calls != [] {
      var t := Step(s, calls[0]);
      var c := calls[0];
      var p := s.cursors[c.file];
      assert t.cursors[c.file] <= MEM_SIZE by {
        match c.op
        case ReadOp(size, room) => assert t.cursors[c.file] == ReadAt(s.mem, p, size, room).pos;
        case WriteOp(buf, size) => assert t.cursors[c.file] == WriteAt(s.mem, p, buf, size).pos;
      }
      assert CallsOnOpenFiles(calls[1..], |t.cursors|) by {
        forall k | 0 <= k < |calls| - 1 ensures calls[1..][k].file < |t.cursors| {
          assert calls[1..][k] == calls[k + 1];
        }
      }
      RunStaysInRegion(t, calls[1..]);
    }
  }

  /** A history of reads only leaves the memory as it was. */
  lemma {:induction false} ReadsLeaveMemory(s: System, calls: seq<Call>)
    requires |s.mem| == MEM_SIZE && CallsOnOpenFiles(calls, |s.cursors|)
    requires forall k :: 0 <= k < |calls| ==> calls[k].op.ReadOp?
    ensures Run(s, calls).mem == s.mem
    decreases |calls|
  {
    if calls != [] {
      var t := Step(s, calls[0]);
      assert CallsOnOpenFiles(calls[1..], |t.cursors|) by {
        forall k | 0 <= k < |calls| - 1 ensures calls[1..][k].file < |t.cursors| {
          assert calls[1..][k] == calls[k + 1];
        }
      }
      forall k | 0 <= k < |calls| - 1 ensures calls[1..][k].op.ReadOp? {
        assert calls[1..][k] == calls[k + 1];
      }
      ReadsLeaveMemory(t, calls[1..]);
    }
  }

  /** Two files open on the one device: what one writes, the other reads. */
  method TwoFilesShareMemory() returns (written: int, read: int, got: seq<bv8>)
    ensures written == 3 && read == 3 && got == [1, 2, 3]
  {
    var dev := new Device();
    var a := new File();
    var b := new File();
    var _ := a.Open(dev);
    var _ := b.Open(dev);
    written := a.Write([1, 2, 3], 3);
    read, got := b.Read(3, 3);
  }

  /** One file filling all but two bytes: the next read of 10 bytes returns
      the last 2, and the read after that returns 0. */
  method ShortReadAtTheEnd() returns (written: int, first: int, second: int)
    ensures written == MEM_SIZE - 2 && first == 2 && second == 0
  {
    var dev := new Device();
    var f := new File();
    var _ := f.Open(dev);
    written := f.Write(Zeros(MEM_SIZE - 2), MEM_SIZE - 2);
    var bytes;
    first, bytes := f.Read(10, 10);
    second, bytes := f.Read(10, 10);
  }
}

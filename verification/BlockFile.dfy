/** Block device files: drivers/block/block_file.c over the command splitting of
    drivers/ata/libata_core.c, and the scatter table of drivers/ata/libahci.c.

    The device is a flat sequence of bytes.  Block sizes are powers of two, so that the masks and
    shifts of the source are written as remainder and quotient. */
module BlockFile {
  import opened Common

  const BLKFILE_MAX_IO_BYTES: nat := 32 * 1024

  /** The bytes of k blocks. */
  function Size(k: nat, blk: nat): nat {
    k * blk
  }

  lemma SizeAdd(j: nat, k: nat, blk: nat)
    ensures Size(j + k, blk) == Size(j, blk) + Size(k, blk)
    ensures Size(0, blk) == 0 && Size(1, blk) == blk
  {
  }

  lemma SizeMonotone(j: nat, k: nat, blk: nat)
    requires j <= k
    ensures Size(j, blk) <= Size(k, blk)
  {
    SizeAdd(j, k - j, blk);
  }

  /** A position splits into whole blocks and a rest below the block size. */
  lemma Split(pos: nat, blk: nat)
    requires 0 < blk
    ensures pos == Size(pos / blk, blk) + pos % blk && pos % blk < blk
  {
    Divide(pos, blk);
  }

  // ---------- What a transfer does ----------

  /** n bytes went between the device at `off` and the buffer at `at`, in the direction that w says;
      nothing else changed. */
  predicate Moved(w: bool, d0: seq<byte>, b0: seq<byte>, d1: seq<byte>, b1: seq<byte>, off: nat, at: nat, n: nat) {
    && off + n <= |d0| && at + n <= |b0|
    && (if w then b1 == b0 && d1 == Splice(d0, off, b0[at..at + n])
        else d1 == d0 && b1 == Splice(b0, at, d0[off..off + n]))
  }

  lemma MovedNothing(w: bool, d: seq<byte>, b: seq<byte>, off: nat, at: nat)
    requires off <= |d| && at <= |b|
    ensures Moved(w, d, b, d, b, off, at, 0)
  {
    assert d[off..off + 0] == [] && b[at..at + 0] == [];
    SpliceNothing(d, off);
    SpliceNothing(b, at);
  }

  /** Transfers of consecutive stretches make one transfer. */
  lemma MovedOn(w: bool, d0: seq<byte>, b0: seq<byte>, d1: seq<byte>, b1: seq<byte>, d2: seq<byte>, b2: seq<byte>,
                off: nat, at: nat, m: nat, n: nat)
    requires Moved(w, d0, b0, d1, b1, off, at, m) && Moved(w, d1, b1, d2, b2, off + m, at + m, n)
    ensures Moved(w, d0, b0, d2, b2, off, at, m + n)
  {
    hide Splice;
    if w {
      Slices(b0, at, at + m, at + (m + n));
      SpliceTwice(d0, off, b0[at..at + m], b0[at + m..at + m + n]);
    } else {
      Slices(d0, off, off + m, off + (m + n));
      SpliceTwice(b0, at, d0[off..off + m], d0[off + m..off + m + n]);
    }
  }

  /** What is written is read back, and bytes outside the range stay. */
  lemma WriteRead(d0: seq<byte>, b0: seq<byte>, d1: seq<byte>, b1: seq<byte>, c0: seq<byte>, d2: seq<byte>, c1: seq<byte>,
                  off: nat, n: nat)
    requires Moved(true, d0, b0, d1, b1, off, 0, n) && Moved(false, d1, c0, d2, c1, off, 0, n)
    ensures c1[..n] == b0[..n] && d2 == d1
    ensures forall i | 0 <= i < |d0| && !(off <= i < off + n) :: d1[i] == d0[i]
  {
  }

  // ---------- The device ----------

  /** One command: its first block and the number of blocks. */
  datatype Run = Run(start: nat, cnt: nat)

  /** The commands cover cnt blocks from `start` on, once and in order, none longer than allowed. */
  predicate Covers(runs: seq<Run>, start: nat, cnt: nat, maxblks: nat)
    decreases |runs|
  {
    if runs == [] then cnt == 0
    else
      && runs[0].start == start && 0 < runs[0].cnt <= maxblks && runs[0].cnt <= cnt
      && Covers(runs[1..], start + runs[0].cnt, cnt - runs[0].cnt, maxblks)
  }

  lemma {:induction false} CoversSnoc(runs: seq<Run>, start: nat, cnt: nat, maxblks: nat, k: nat)
    requires Covers(runs, start, cnt, maxblks) && 0 < k <= maxblks
    ensures Covers(runs + [Run(start + cnt, k)], start, cnt + k, maxblks)
    decreases |runs|
  {
    var all := runs + [Run(start + cnt, k)];
    if runs == [] {
      assert all[1..] == [];
    } else {
      CoversSnoc(runs[1..], start + runs[0].cnt, cnt - runs[0].cnt, maxblks, k);
      assert all[1..] == runs[1..] + [Run(start + cnt, k)];
      CoversMore(runs, start, cnt, maxblks);
    }
  }

  lemma CoversMore(runs: seq<Run>, start: nat, cnt: nat, maxblks: nat)
    requires Covers(runs, start, cnt, maxblks) && runs != []
    ensures runs[0].start == start && 0 < runs[0].cnt <= maxblks && runs[0].cnt <= cnt
  {
  }

  class Disk {
    const blk: nat
    const maxblks: nat
    const bad: set<nat>
    var data: seq<byte>
    ghost var log: seq<Run>

    constructor (blk: nat, maxblks: nat, bad: set<nat>, data: seq<byte>)
      ensures this.blk == blk && this.maxblks == maxblks && this.bad == bad && this.data == data && log == []
    {
      this.blk, this.maxblks, this.bad, this.data, log := blk, maxblks, bad, data, [];
    }

    /** One command of the port: moves all the blocks or, past the end of the device or on a bad
        block, none. */
    method Command(start: nat, cnt: nat, buf: array<byte>, at: nat, w: bool) returns (err: bool)
      requires at + Size(cnt, blk) <= buf.Length
      modifies this`data, this`log, buf
      ensures err <==> Size(start + cnt, blk) > |old(data)| || exists k | k in bad :: start <= k < start + cnt
      ensures log == old(log) + [Run(start, cnt)]
      ensures err ==> data == old(data) && buf[..] == old(buf[..])
      ensures !err ==> Moved(w, old(data), old(buf[..]), data, buf[..], Size(start, blk), at, Size(cnt, blk))
    {
      SizeAdd(start, cnt, blk);
      var off, n := Size(start, blk), Size(cnt, blk);
      log := log + [Run(start, cnt)];
      err := off + n > |data| || exists k | k in bad :: start <= k < start + cnt;
      if !err {
        if w {
          data := Splice(data, off, buf[at..at + n]);
        } else {
          forall i | 0 <= i < n { buf[at + i] := data[off + i]; }
          assert buf[..] == Splice(old(buf[..]), at, data[off..off + n]);
        }
      }
    }

    /** ata_blk_data_rw: as many commands as the limit of blocks per command makes necessary.  On an
        error the commands before the failed one are done. */
    method Rw(startblk: nat, blkcnt: nat, buf: array<byte>, at0: nat, w: bool)
      returns (res: int, ghost done: nat, ghost runs: seq<Run>)
      requires at0 + Size(blkcnt, blk) <= buf.Length && maxblks > 0 && Size(startblk, blk) <= |data|
      modifies this`data, this`log, buf
      ensures res == blkcnt || res == -1
      ensures done <= blkcnt && Size(done, blk) <= Size(blkcnt, blk) && (res == -1 ==> done < blkcnt)
      ensures res != -1 ==> done == blkcnt && log == old(log) + runs && Covers(runs, startblk, blkcnt, maxblks)
      ensures Moved(w, old(data), old(buf[..]), data, buf[..], Size(startblk, blk), at0, Size(done, blk))
      ensures bad == {} && Size(startblk + blkcnt, blk) <= |old(data)| ==> res != -1
    {
      hide Moved, Size, Splice;
      var remain, start, at := blkcnt, startblk, at0;
      ghost var d0, b0 := data, buf[..];
      done, runs, res := 0, [], 0;
      SizeAdd(startblk, 0, blk);
      SizeMonotone(0, blkcnt, blk);
      MovedNothing(w, d0, b0, Size(startblk, blk), at0);
      while remain > 0 && res == 0
        invariant res == 0 || res == -1
        invariant done <= blkcnt && start == startblk + done && at == at0 + Size(done, blk) && remain == blkcnt - done
        invariant Size(done, blk) <= Size(blkcnt, blk) && (res == -1 ==> done < blkcnt)
        invariant res == 0 ==> log == old(log) + runs
        invariant res == 0 ==> Covers(runs, startblk, done, maxblks)
        invariant Moved(w, d0, b0, data, buf[..], Size(startblk, blk), at0, Size(done, blk))
        invariant bad == {} && Size(startblk + blkcnt, blk) <= |d0| ==> res != -1
        decreases res == 0, remain
      {
        var blks := if remain > maxblks then maxblks else remain;
        SizeAdd(done, blks, blk);
        SizeMonotone(done + blks, blkcnt, blk);
        SizeAdd(startblk, done, blk);
        SizeMonotone(start + blks, startblk + blkcnt, blk);
        MovedSize(w, d0, b0, data, buf[..], Size(startblk, blk), at0, Size(done, blk));
        ghost var d1, b1 := data, buf[..];
        var err := Command(start, blks, buf, at, w);
        if err {
          res := -1;
        } else {
          MovedOn(w, d0, b0, d1, b1, data, buf[..], Size(startblk, blk), at0, Size(done, blk), Size(blks, blk));
          CoversSnoc(runs, startblk, done, maxblks, blks);
          runs := runs + [Run(start, blks)];
          remain, start, at := remain - blks, start + blks, at + Size(blks, blk);
          done := done + blks;
        }
      }
      if res == 0 { res := blkcnt - remain; }
    }
  }

  lemma MovedSize(w: bool, d0: seq<byte>, b0: seq<byte>, d1: seq<byte>, b1: seq<byte>, off: nat, at: nat, n: nat)
    requires Moved(w, d0, b0, d1, b1, off, at, n)
    ensures |d1| == |d0| && |b1| == |b0| && off + n <= |d0| && at + n <= |b0|
  {
  }

  // ---------- Block device files ----------

  datatype Mode = ReadOnly | WriteOnly | ReadWrite

  datatype Whence = SeekSet | SeekCur | SeekEnd

  class File {
    const disk: Disk
    const mode: Mode
    const base: nat
    const end: nat
    var offs: nat

    /** blkfile_open: the file is the whole device. */
    constructor (disk: Disk, mode: Mode, lba: nat)
      ensures this.disk == disk && this.mode == mode && base == 0 && offs == 0 && end == Size(lba, disk.blk)
    {
      this.disk, this.mode, base, offs, end := disk, mode, 0, 0, Size(lba, disk.blk);
    }

    /** The device has whole blocks, and the largest transfer is one of whole blocks too. */
    predicate Sound()
      reads this, disk
    {
      && 0 < disk.blk && BLKFILE_MAX_IO_BYTES % disk.blk == 0 && disk.maxblks > 0
      && |disk.data| % disk.blk == 0 && end <= |disk.data|
    }

    /** The start or the end of a transfer that covers part of a block only: the block is read, and
        for a write the other bytes of it are written back as they were. */
    method Part(buf: array<byte>, at: nat, n: nat, llbuf: array<byte>, w: bool) returns (err: bool)
      requires Sound() && llbuf != buf && llbuf.Length == disk.blk && at + n <= buf.Length
      requires offs % disk.blk + n <= disk.blk && offs + n <= |disk.data| && n > 0
      modifies disk`data, disk`log, buf, llbuf
      ensures disk.bad == {} ==> !err
      ensures Moved(w, old(disk.data), old(buf[..]), disk.data, buf[..], offs, at, if err then 0 else n)
    {
      hide Moved, Size, Splice;
      var b, sub := offs / disk.blk, offs % disk.blk;
      ghost var d0, b0, l0, off := disk.data, buf[..], llbuf[..], Size(b, disk.blk);
      Split(offs, disk.blk);
      BlockInside(|d0|, disk.blk, b, sub + n);
      SizeAdd(b, 1, disk.blk);
      MovedNothing(w, d0, b0, offs, at);
      var res;
      ghost var done, runs;
      res, done, runs := disk.Rw(b, 1, llbuf, 0, false);
      BlockRead(d0, l0, disk.data, llbuf[..], off, disk.blk, Size(done, disk.blk));
      err := res < 0;
      if !err {
        if w {
          ghost var l1 := llbuf[..];
          Fill(llbuf, sub, buf, at, n);
          ghost var l2 := llbuf[..];
          res, done, runs := disk.Rw(b, 1, llbuf, 0, true);
          err := res < 0;
          BlockWritten(d0, l1, l2, disk.data, llbuf[..], off, sub, b0[at..at + n], Size(done, disk.blk));
          PartMoved(true, d0, b0, disk.data, buf[..], off + sub, at, n, err);
        } else {
          ghost var l1 := llbuf[..];
          SubSlice(d0, off, off + disk.blk, sub, n);
          Fill(buf, at, llbuf, sub, n);
          PartMoved(false, d0, b0, disk.data, buf[..], off + sub, at, n, false);
        }
      }
    }

    /** One round over whole blocks: as many as fit the request and the largest transfer. */
    method Whole(buf: array<byte>, at: nat, resid: nat, w: bool) returns (err: bool, n: nat, ghost m: nat)
      requires Sound() && offs % disk.blk == 0 && disk.blk <= resid
      requires at + resid <= buf.Length && offs + resid <= |disk.data|
      modifies disk`data, disk`log, buf
      ensures disk.bad == {} ==> !err
      ensures 0 < n <= resid && (if err then m <= n else m == n)
      ensures Moved(w, old(disk.data), old(buf[..]), disk.data, buf[..], offs, at, m)
    {
      hide Moved, Size, Splice;
      WholePart(resid, disk.blk);
      n := resid / disk.blk * disk.blk;
      n := Min(n, BLKFILE_MAX_IO_BYTES);
      var b, cnt := offs / disk.blk, n / disk.blk;
      Split(offs, disk.blk);
      WholeCount(resid, disk.blk, n, cnt);
      SizeAdd(b, cnt, disk.blk);
      var res;
      ghost var done, runs;
      res, done, runs := disk.Rw(b, cnt, buf, at, w);
      m := Size(done, disk.blk);
      err := res < 0;
    }

    /** blkfile_xfer: moves nb bytes between the file position and buf,
        from index at0 on, or fails part of the way, when
        `moved` bytes are done. */
    method Xfer(buf: array<byte>, at0: nat, nb: nat, w: bool, mem: bool) returns (r: int, ghost moved: nat)
      requires Sound() && at0 + nb <= buf.Length && offs + nb <= |disk.data|
      modifies this`offs, disk`data, disk`log, buf
      ensures Sound()
      ensures r == nb || r == -1
      ensures disk.bad == {} && mem ==> r == nb
      ensures r == nb ==> moved == nb && offs == old(offs) + nb
      ensures moved <= nb && old(offs) <= offs <= old(offs) + moved
      ensures Moved(w, old(disk.data), old(buf[..]), disk.data, buf[..], old(offs), at0, moved)
    {
      hide Moved, Splice, Size;
      var resid, at, err := nb, at0, false;
      var llbuf: array?<byte> := null;
      ghost var d0, b0, offs0 := disk.data, buf[..], offs;
      moved := 0;
      MovedNothing(w, d0, b0, offs, at0);
      while resid > 0 && !err
        invariant llbuf != null ==> fresh(llbuf) && llbuf.Length == disk.blk
        invariant at0 <= at && at + resid == at0 + nb && offs == offs0 + (at - at0) && moved <= nb
        invariant at - at0 <= moved && (!err ==> moved == at - at0)
        invariant |disk.data| == |d0|
        invariant Moved(w, d0, b0, disk.data, buf[..], offs0, at0, moved)
        invariant disk.bad == {} && mem ==> !err
        decreases !err, resid
      {
        ghost var d1, b1 := disk.data, buf[..];
        var sub := offs % disk.blk;
        if sub != 0 || resid < disk.blk {
          if llbuf == null && mem { llbuf := new byte[disk.blk]; }
          if llbuf == null {
            err := true;
          } else {
            Split(offs, disk.blk);
            var n := Min(disk.blk - sub, resid);
            err := Part(buf, at, n, llbuf, w);
            ghost var k := if err then 0 else n;
            MovedOn(w, d0, b0, d1, b1, disk.data, buf[..], offs0, at0, moved, k);
            MovedSize(w, d0, b0, disk.data, buf[..], offs0, at0, moved + k);
            moved := moved + k;
            if !err { offs, resid, at := offs + n, resid - n, at + n; }
          }
        } else {
          var n;
          ghost var m;
          err, n, m := Whole(buf, at, resid, w);
          MovedOn(w, d0, b0, d1, b1, disk.data, buf[..], offs0, at0, moved, m);
          MovedSize(w, d0, b0, disk.data, buf[..], offs0, at0, moved + m);
          moved := moved + m;
          if !err { offs, resid, at := offs + n, resid - n, at + n; }
        }
      }
      r := if err then -1 else nb - resid;
    }

    /** blkfile_read */
    method Read(buf: array<byte>, at: nat, len: nat, mem: bool) returns (r: int, ghost moved: nat)
      requires Sound() && at + len <= buf.Length
      modifies this`offs, disk`data, disk`log, buf
      ensures Sound() && disk.data == old(disk.data)
      ensures r == -1 || r == (if old(offs) > end then 0 else Min(len, end - old(offs)))
      ensures mode == WriteOnly ==> r == -1 && buf[..] == old(buf[..]) && offs == old(offs)
      ensures mode != WriteOnly && disk.bad == {} && mem ==> r != -1
      ensures r != -1 ==> offs == old(offs) + r
      ensures r > 0 ==> offs <= |disk.data| && buf[..] == Splice(old(buf[..]), at, disk.data[old(offs)..offs])
      ensures r == 0 ==> buf[..] == old(buf[..])
      ensures old(offs) <= end ==> offs <= end
    {
      hide Moved, Splice;
      moved := 0;
      ghost var d0, b0, off := disk.data, buf[..], offs;
      if mode == WriteOnly {
        r := -1;
      } else if offs > end {
        r := 0;
      } else {
        var nb := if len > end - offs then end - offs else len;
        r, moved := Xfer(buf, at, nb, false, mem);
        ReadIs(d0, b0, disk.data, buf[..], off, at, moved);
      }
    }

    /** blkfile_write */
    method Write(buf: array<byte>, at: nat, len: nat, mem: bool) returns (r: int, ghost moved: nat)
      requires Sound() && at + len <= buf.Length
      modifies this`offs, disk`data, disk`log, buf
      ensures Sound() && buf[..] == old(buf[..])
      ensures r == -1 || r == (if old(offs) > end then 0 else Min(len, end - old(offs)))
      ensures mode == ReadOnly ==> r == -1 && disk.data == old(disk.data) && offs == old(offs)
      ensures mode != ReadOnly && disk.bad == {} && mem ==> r != -1
      ensures r != -1 ==> offs == old(offs) + r && moved == r
      ensures moved <= len && (moved > 0 ==> old(offs) + moved <= end)
      ensures moved > 0 ==> old(offs) + moved <= |old(disk.data)|
      ensures disk.data == if moved > 0 then Splice(old(disk.data), old(offs), buf[at..at + moved]) else old(disk.data)
    {
      hide Moved, Splice;
      moved := 0;
      ghost var d0, b0, off := disk.data, buf[..], offs;
      if mode == ReadOnly {
        r := -1;
      } else if offs > end {
        r := 0;
      } else {
        var nb := if len > end - offs then end - offs else len;
        r, moved := Xfer(buf, at, nb, true, mem);
        WriteIs(d0, b0, disk.data, buf[..], off, at, moved);
      }
    }

    /** blkfile_lseek: the new position, or -1 when it is outside the file. */
    method Lseek(off: int, whence: Whence) returns (r: int)
      modifies this`offs
      ensures var noff := if whence == SeekCur then old(offs) + off else off;
        if whence != SeekEnd && base <= noff <= end then offs == noff && r == noff - base
        else r == -1 && offs == old(offs)
    {
      var noff := if whence == SeekCur then offs + off else off;
      if whence == SeekEnd || noff < base || noff > end {
        r := -1;
      } else {
        offs := noff;
        r := offs - base;
      }
    }

    /** bcopy */
    static method Fill(dst: array<byte>, at: nat, src: array<byte>, from: nat, n: nat)
      requires dst != src && at + n <= dst.Length && from + n <= src.Length
      modifies dst
      ensures dst[..] == Splice(old(dst[..]), at, src[from..from + n])
    {
      forall i | 0 <= i < n { dst[at + i] := src[from + i]; }
    }
  }

  /** The bytes that a round over whole blocks counts as moved. */
  function WholeBytes(resid: nat, blk: nat): nat
    requires 0 < blk
  {
    Min(resid / blk * blk, BLKFILE_MAX_IO_BYTES)
  }

  /** These are the bytes of the blocks it moves if and only if the request is no longer than the
      largest transfer, or that is one of whole blocks.  Otherwise the position goes on by more bytes
      than were moved. */
  lemma WholeCount(resid: nat, blk: nat, n: nat, cnt: nat)
    requires 0 < blk <= resid && n == WholeBytes(resid, blk) && cnt == n / blk
    ensures 0 < n <= resid
    ensures n == Size(cnt, blk) <==> BLKFILE_MAX_IO_BYTES % blk == 0 || resid / blk * blk <= BLKFILE_MAX_IO_BYTES
    ensures n != Size(cnt, blk) ==> n == Size(cnt, blk) + BLKFILE_MAX_IO_BYTES % blk
  {
    WholePart(resid, blk);
    if n == BLKFILE_MAX_IO_BYTES { Divide(BLKFILE_MAX_IO_BYTES, blk); }
  }

  /** A round over whole blocks counts right for all requests if and only if the largest transfer is
      one of whole blocks. */
  lemma WholeAlways(blk: nat)
    requires 0 < blk
    ensures (forall resid: nat | blk <= resid :: CountsRight(resid, blk)) <==> BLKFILE_MAX_IO_BYTES % blk == 0
  {
    if BLKFILE_MAX_IO_BYTES % blk == 0 {
      forall resid: nat | blk <= resid ensures CountsRight(resid, blk) {
        WholeCount(resid, blk, WholeBytes(resid, blk), WholeBytes(resid, blk) / blk);
      }
    } else {
      var resid := TooLong(blk);
      assert !CountsRight(resid, blk);
    }
  }

  predicate CountsRight(resid: nat, blk: nat)
    requires 0 < blk
  {
    WholeBytes(resid, blk) == Size(WholeBytes(resid, blk) / blk, blk)
  }

  /** The shortest request of whole blocks that is longer than the largest transfer. */
  lemma TooLong(blk: nat) returns (resid: nat)
    requires 0 < blk && BLKFILE_MAX_IO_BYTES % blk != 0
    ensures blk <= resid && !CountsRight(resid, blk)
  {
    var q := BLKFILE_MAX_IO_BYTES / blk;
    resid := (q + 1) * blk;
    Divide(BLKFILE_MAX_IO_BYTES, blk);
    NextMultiple(q, blk);
    Grows(q + 1, blk);
    QuotientIs(resid, blk, q + 1, 0);
    hide Size, WholeBytes;
    WholeCount(resid, blk, WholeBytes(resid, blk), WholeBytes(resid, blk) / blk);
  }

  lemma WholePart(resid: nat, blk: nat)
    requires 0 < blk <= resid
    ensures var n := resid / blk * blk; 0 < n <= resid && n / blk == resid / blk
  {
    Divide(resid, blk);
    var q := resid / blk;
    if q == 0 { assert false; }
    Grows(q, blk);
    QuotientIs(q * blk, blk, q, 0);
  }

  lemma ReadIs(d0: seq<byte>, b0: seq<byte>, d1: seq<byte>, b1: seq<byte>, off: nat, at: nat, n: nat)
    requires Moved(false, d0, b0, d1, b1, off, at, n)
    ensures d1 == d0 && off + n <= |d0| && at + n <= |b0|
    ensures b1 == Splice(b0, at, d0[off..off + n]) && (n == 0 ==> b1 == b0)
  {
    if n == 0 {
      assert d0[off..off + n] == [];
      SpliceNothing(b0, at);
    }
  }

  lemma WriteIs(d0: seq<byte>, b0: seq<byte>, d1: seq<byte>, b1: seq<byte>, off: nat, at: nat, n: nat)
    requires Moved(true, d0, b0, d1, b1, off, at, n)
    ensures b1 == b0 && off + n <= |d0| && at + n <= |b0|
    ensures d1 == Splice(d0, off, b0[at..at + n]) && (n == 0 ==> d1 == d0)
  {
    if n == 0 {
      assert b0[at..at + n] == [];
      SpliceNothing(d0, off);
    }
  }

  /** A block in which a byte of the device lies is on the device. */
  lemma BlockInside(len: nat, blk: nat, b: nat, m: nat)
    requires 0 < blk && len % blk == 0 && 0 < m <= blk && Size(b, blk) + m <= len
    ensures Size(b + 1, blk) <= len
  {
    Divide(len, blk);
    if b + 1 > len / blk { Multiples(len / blk, b, blk); } else { Multiples(b + 1, len / blk, blk); }
  }

  lemma BlockRead(d0: seq<byte>, l0: seq<byte>, d1: seq<byte>, l1: seq<byte>, off: nat, blk: nat, n: nat)
    requires Moved(false, d0, l0, d1, l1, off, 0, n) && |l0| == blk
    ensures d1 == d0 && |l1| == blk && (n == blk ==> off + blk <= |d0| && l1 == d0[off..off + blk])
  {
  }

  lemma BlockWritten(d0: seq<byte>, l1: seq<byte>, l2: seq<byte>, d1: seq<byte>, l3: seq<byte>, off: nat, sub: nat,
                     x: seq<byte>, n: nat)
    requires Moved(true, d0, l2, d1, l3, off, 0, n) && sub + |x| <= |l1| && off + |l1| <= |d0|
    requires l1 == d0[off..off + |l1|] && l2 == Splice(l1, sub, x)
    ensures n == |l1| ==> d1 == Splice(d0, off + sub, x)
    ensures n == 0 ==> d1 == d0
  {
    hide Splice;
    WriteIs(d0, l2, d1, l3, off, 0, n);
    if n == |l1| {
      assert l2[0..n] == l2;
      SpliceInside(d0, off, |l1|, sub, x);
    }
  }

  /** Changing a part of a part. */
  lemma SpliceInside(d: seq<byte>, off: nat, n: nat, sub: nat, x: seq<byte>)
    requires off + n <= |d| && sub + |x| <= n
    ensures Splice(d, off, Splice(d[off..off + n], sub, x)) == Splice(d, off + sub, x)
  {
    var l := d[off..off + n];
    assert l[..sub] == d[off..off + sub];
    assert l[sub + |x|..] == d[off + sub + |x|..off + n];
    assert d[..off] + d[off..off + sub] == d[..off + sub];
    assert d[off + sub + |x|..off + n] + d[off + n..] == d[off + sub + |x|..];
  }

  lemma PartMoved(w: bool, d0: seq<byte>, b0: seq<byte>, d1: seq<byte>, b1: seq<byte>, off: nat, at: nat, n: nat, err: bool)
    requires off + n <= |d0| && at + n <= |b0|
    requires err ==> d1 == d0 && b1 == b0
    requires !err && w ==> b1 == b0 && d1 == Splice(d0, off, b0[at..at + n])
    requires !err && !w ==> d1 == d0 && b1 == Splice(b0, at, d0[off..off + n])
    ensures Moved(w, d0, b0, d1, b1, off, at, if err then 0 else n)
  {
    hide Splice;
    if err { MovedNothing(w, d0, b0, off, at); }
  }

  // ---------- The scatter table of one command ----------

  const AHCI_MAX_PRD_COUNT: nat := 56
  const AHCI_MAX_PRD_DATA_SZ: nat := 4 * 1024 * 1024
  const WORD: nat := 0x1_0000_0000  // unsigned long is 32 bits wide
  const PHYS_SIZE: nat := 0x2000_0000  // what the unmapped segments can address

  /** An entry of the table: the address in two halves, one less than the number of bytes, and whether
      the device raises an interrupt. */
  datatype Prd = Prd(dba: nat, dbaHi: nat, dbc: nat, irq: bool)

  /** The memory that an entry stands for. */
  function Address(p: Prd): nat {
    p.dba + WORD * p.dbaHi
  }

  /** The entries stand for len bytes from buf on, once and in order, none longer than 4 MB. */
  predicate Scatters(t: seq<Prd>, buf: nat, len: nat)
    decreases |t|
  {
    if t == [] then len == 0
    else
      && Address(t[0]) == buf && t[0].dbc + 1 <= AHCI_MAX_PRD_DATA_SZ && t[0].dbc + 1 <= len
      && Scatters(t[1..], buf + t[0].dbc + 1, len - (t[0].dbc + 1))
  }

  lemma {:induction false} ScattersSnoc(t: seq<Prd>, buf: nat, len: nat, p: Prd)
    requires Scatters(t, buf, len) && Address(p) == buf + len && p.dbc + 1 <= AHCI_MAX_PRD_DATA_SZ
    ensures Scatters(t + [p], buf, len + p.dbc + 1)
    decreases |t|
  {
    var all := t + [p];
    if t == [] {
      assert all[1..] == [];
    } else {
      ScattersSnoc(t[1..], buf + t[0].dbc + 1, len - (t[0].dbc + 1), p);
      assert all[1..] == t[1..] + [p];
    }
  }

  /** The entry for the next piece of a buffer at a physical address: the upper half is taken with two
      shifts, when the controller has 64-bit addresses. */
  function Entry(buf: nat, len: nat, s64a: bool, irq: bool): Prd
    requires buf < PHYS_SIZE && len > 0
  {
    Prd(buf, if s64a then buf / 0x1_0000 / 0x1_0000 else 0,
        if len < AHCI_MAX_PRD_DATA_SZ then len - 1 else AHCI_MAX_PRD_DATA_SZ - 1, irq)
  }

  /** The entry stands for the buffer whether or not the controller has 64-bit addresses. */
  lemma EntryIs(buf: nat, len: nat, s64a: bool, irq: bool)
    requires buf < PHYS_SIZE && len > 0
    ensures Address(Entry(buf, len, s64a, irq)) == buf
    ensures Entry(buf, len, s64a, irq).dbc + 1 == Min(len, AHCI_MAX_PRD_DATA_SZ)
  {
  }

  /** The number of entries is that of the pieces, rounded up; length 0 makes it too large. */
  lemma PrdCount(len: nat, cnt: int)
    requires len < WORD && cnt == (len - 1) % WORD / AHCI_MAX_PRD_DATA_SZ + 1
    ensures len == 0 ==> cnt > AHCI_MAX_PRD_COUNT
    ensures len > 0 ==> cnt >= 1 && (cnt - 1) * AHCI_MAX_PRD_DATA_SZ < len <= cnt * AHCI_MAX_PRD_DATA_SZ
  {
    if len == 0 {
      assert (0 - 1) % WORD == WORD - 1;
    } else {
      assert (len - 1) % WORD == len - 1;
      Divide(len - 1, AHCI_MAX_PRD_DATA_SZ);
    }
  }

  lemma Wrapped(x: int)
    ensures 0 <= x % WORD < WORD && (0 <= x < WORD ==> x % WORD == x)
  {
  }

  /** ahci_fill_prd: the number of entries, or 0 when the table is too short (or len is 0, whose
      predecessor is the largest number of the word).  buf0 is a physical address. */
  method FillPrd(prd: array<Prd>, s64a: bool, buf0: nat, len0: nat, irq: bool) returns (cnt: nat)
    requires prd.Length >= AHCI_MAX_PRD_COUNT && len0 < WORD && buf0 + len0 <= PHYS_SIZE
    modifies prd
    ensures cnt == 0 <==> len0 == 0 || len0 > AHCI_MAX_PRD_COUNT * AHCI_MAX_PRD_DATA_SZ
    ensures cnt == 0 ==> prd[..] == old(prd[..])
    ensures cnt > 0 ==> cnt <= AHCI_MAX_PRD_COUNT && prd[cnt..] == old(prd[..])[cnt..]
    ensures cnt > 0 ==> Scatters(prd[..cnt], buf0, len0)
    ensures cnt > 0 ==> (cnt - 1) * AHCI_MAX_PRD_DATA_SZ < len0 <= cnt * AHCI_MAX_PRD_DATA_SZ
    ensures cnt > 0 ==> forall i | 0 <= i < cnt :: prd[i].irq == irq
  {
    hide Scatters, Address, Entry;
    var c := (len0 - 1) % WORD / AHCI_MAX_PRD_DATA_SZ + 1;
    PrdCount(len0, c);
    cnt := 0;
    if c <= AHCI_MAX_PRD_COUNT {
      cnt := c;
      FillEntries(prd, s64a, buf0, len0, irq, cnt);
    }
  }

  method FillEntries(prd: array<Prd>, s64a: bool, buf0: nat, len0: nat, irq: bool, cnt: nat)
    requires 1 <= cnt <= prd.Length && len0 < WORD && buf0 + len0 <= PHYS_SIZE
    requires (cnt - 1) * AHCI_MAX_PRD_DATA_SZ < len0 <= cnt * AHCI_MAX_PRD_DATA_SZ
    modifies prd
    ensures prd[cnt..] == old(prd[..])[cnt..]
    ensures Scatters(prd[..cnt], buf0, len0)
    ensures forall i | 0 <= i < cnt :: prd[i].irq == irq
  {
    hide Scatters, Address;
    var i, len, buf := 0, len0, buf0;
    ghost var done := 0;
    NoEntries(buf0);
    while i < cnt
      invariant 0 <= i <= cnt && prd[cnt..] == old(prd[..])[cnt..]
      invariant i < cnt ==> done == i * AHCI_MAX_PRD_DATA_SZ && len == len0 - done && buf == buf0 + done
      invariant i == cnt ==> done == len0
      invariant Scatters(prd[..i], buf0, done)
      invariant forall k | 0 <= k < i :: prd[k].irq == irq
    {
      assert (i + 1 < cnt ==> len > AHCI_MAX_PRD_DATA_SZ) && (i + 1 == cnt ==> 0 < len <= AHCI_MAX_PRD_DATA_SZ);
      var p := Entry(buf, len, s64a, irq);
      ghost var t := prd[..i];
      EntryIs(buf, len, s64a, irq);
      ScattersSnoc(t, buf0, done, p);
      prd[i] := p;
      assert prd[..i + 1] == t + [p];
      done := done + Min(len, AHCI_MAX_PRD_DATA_SZ);
      Wrapped(len - AHCI_MAX_PRD_DATA_SZ);
      Wrapped(buf + AHCI_MAX_PRD_DATA_SZ);
      len := (len - AHCI_MAX_PRD_DATA_SZ) % WORD;
      buf := (buf + AHCI_MAX_PRD_DATA_SZ) % WORD;
      i := i + 1;
    }
  }

  lemma NoEntries(buf: nat)
    ensures Scatters([], buf, 0)
  {
  }
}

/** Reading file data in fs/fsio/ext2.c: direct, indirect and double indirect block tables, with
    physically consecutive blocks merged into one read of the block device file underneath.

    The partition starts at byte `base` of the device.  The masks and shifts of the source, whose block
    size is a power of two, are written as remainder and quotient. */
module Ext2 {
  import opened Common
  import BlockFile

  type u32 = x: int | 0 <= x < 0x1_0000_0000

  const NDIR_BLOCKS: nat := 12
  const IND_BLOCK: nat := 12
  const DIND_BLOCK: nat := 13
  const N_BLOCKS: nat := 15
  const WORD: nat := 0x1_0000_0000  // size_t is 32 bits wide

  /** The mounted partition: the bytes of the device, the first byte of the partition and the block size. */
  datatype Fs = Fs(disk: seq<byte>, base: nat, blk: nat) {
    /** An index block holds at least one 32-bit entry. */
    predicate Valid() {
      4 <= blk
    }

    /** The bytes of k blocks. */
    function Size(k: nat): nat {
      k * blk
    }

    /** Where block b starts on the device. */
    function Off(b: nat): nat {
      base + b * blk
    }

    /** The block lies on the device. */
    predicate Inside(b: u32) {
      Off(b) + blk <= |disk|
    }

    predicate AllInside(t: seq<u32>) {
      forall i | 0 <= i < |t| :: Inside(t[i])
    }

    /** The device from byte off on; zeros stand for what is past its end. */
    function Device(off: nat, n: nat): (r: seq<byte>)
      ensures |r| == n
    {
      seq(n, i requires 0 <= i => if off + i < |disk| then disk[off + i] else 0)
    }

    /** Entries of one index block. */
    function PerBlock(): nat {
      blk / 4
    }

    lemma SizeNext(k: nat)
      ensures Size(0) == 0 && Size(k + 1) == Size(k) + blk && Size(1) == blk
    {
    }

    lemma SizeAdd(j: nat, k: nat)
      ensures Size(j + k) == Size(j) + Size(k)
    {
    }

    lemma SizeMonotone(j: nat, k: nat)
      requires j <= k
      ensures Size(j) <= Size(k)
    {
      SizeAdd(j, k - j);
    }

    lemma OffNext(b: nat, k: nat)
      ensures Off(b + k) == Off(b) + Size(k)
    {
    }

    /** A position splits into whole blocks and a rest below the block size. */
    lemma Split(pos: nat)
      requires Valid()
      ensures pos == Size(pos / blk) + pos % blk && pos % blk < blk
    {
      assert 0 < blk;
      hide Valid;
      Divide(pos, blk);
    }

    /** ... in one way only. */
    lemma SplitUnique(pos: nat, k: nat, r: nat)
      requires Valid() && pos == Size(k) + r && r < blk
      ensures pos / blk == k && pos % blk == r
    {
      assert 0 < blk;
      hide Valid;
      Divide(pos, blk);
      SmallMultiple(pos / blk - k, blk, r - pos % blk);
    }

    lemma WholeBlocks(pos: nat, k: nat)
      requires Valid()
      ensures pos / blk >= k <==> pos >= Size(k)
    {
      hide Size, Off;
      Split(pos);
      var d := pos / blk;
      if d >= k { SizeMonotone(k, d); } else { SizeMonotone(d + 1, k); SizeNext(d); }
    }
  }

  // ---------- Where the bytes of a list of blocks are ----------

  /** The place on the device of byte q of the listed blocks. */
  function Placed(fs: Fs, t: seq<u32>, q: nat): nat
    requires fs.Valid() && q < fs.Size(|t|)
  {
    fs.WholeBlocks(q, |t|);
    fs.Off(t[q / fs.blk]) + q % fs.blk
  }

  /** Block k of the list stands at byte k * blk. */
  lemma PlacedAt(fs: Fs, t: seq<u32>, k: nat, r: nat)
    requires fs.Valid() && k < |t| && r < fs.blk
    ensures fs.Size(k) + r < fs.Size(|t|) && Placed(fs, t, fs.Size(k) + r) == fs.Off(t[k]) + r
  {
    hide Fs.Size, Fs.Off;
    fs.SizeNext(k);
    fs.SizeMonotone(k + 1, |t|);
    fs.SplitUnique(fs.Size(k) + r, k, r);
    fs.WholeBlocks(fs.Size(k) + r, |t|);
  }

  /** Table entries s, s + 1, ..., s + n hold consecutive block numbers. */
  predicate Consecutive(t: seq<u32>, s: nat, n: nat) {
    s + n < |t| && forall k | s <= k <= s + n :: t[k] == t[s] + k - s
  }

  /** The size bytes of the listed blocks from q on lie side by side on the device, from `off` on. */
  predicate Pending(fs: Fs, t: seq<u32>, q: nat, off: nat, size: nat)
    requires fs.Valid()
  {
    q + size <= fs.Size(|t|) && forall x | q <= x < q + size :: Placed(fs, t, x) == off + (x - q)
  }

  lemma PendingLess(fs: Fs, t: seq<u32>, q: nat, off: nat, size: nat, less: nat)
    requires fs.Valid() && Pending(fs, t, q, off, size) && less <= size
    ensures Pending(fs, t, q, off, less)
  {
    hide Placed, Fs.Size;
  }

  lemma PendingJoin(fs: Fs, t: seq<u32>, q: nat, off: nat, m: nat, n: nat)
    requires fs.Valid()
    requires Pending(fs, t, q, off, m) && Pending(fs, t, q + m, off + m, n)
    ensures Pending(fs, t, q, off, m + n)
  {
    hide Placed, Fs.Size;
  }

  /** The rest of a block, from byte r of it. */
  lemma PendingRest(fs: Fs, t: seq<u32>, s: nat, r: nat)
    requires fs.Valid() && s < |t| && r <= fs.blk
    ensures Pending(fs, t, fs.Size(s) + r, fs.Off(t[s]) + r, fs.blk - r)
  {
    hide Placed, Fs.Size, Fs.Off;
    fs.SizeNext(s);
    fs.SizeMonotone(s + 1, |t|);
    var q := fs.Size(s) + r;
    forall x | q <= x < q + (fs.blk - r) ensures Placed(fs, t, x) == fs.Off(t[s]) + r + (x - q) {
      PlacedAt(fs, t, s, r + (x - q));
    }
  }

  /** A run of consecutive blocks reads like one stretch of the device. */
  lemma {:induction false} PendingRun(fs: Fs, t: seq<u32>, s: nat, n: nat)
    requires fs.Valid() && Consecutive(t, s, n)
    ensures Pending(fs, t, fs.Size(s), fs.Off(t[s]), fs.Size(n + 1))
    decreases n
  {
    hide Fs.Size, Fs.Off, Pending;
    fs.SizeNext(n);
    fs.SizeNext(0);
    PendingRest(fs, t, s + n, 0);
    if n > 0 {
      PendingRun(fs, t, s, n - 1);
      fs.SizeAdd(s, n);
      fs.OffNext(t[s], n);
      PendingJoin(fs, t, fs.Size(s), fs.Off(t[s]), fs.Size(n), fs.blk);
    }
  }

  // ---------- What a buffer shows ----------

  /** n bytes of the buffer from `at` on are those of the listed blocks from q on, all of them on the device. */
  predicate Shows(fs: Fs, t: seq<u32>, b: seq<byte>, at: nat, q: nat, n: nat)
    requires fs.Valid()
  {
    && at + n <= |b| && q + n <= fs.Size(|t|)
    && forall x | q <= x < q + n :: Placed(fs, t, x) < |fs.disk| && b[at + (x - q)] == fs.disk[Placed(fs, t, x)]
  }

  /** Outside of n bytes from `at` on, the buffer is as it was. */
  predicate Framed(b0: seq<byte>, b: seq<byte>, at: nat, n: nat) {
    |b| == |b0| && at + n <= |b| && forall i | 0 <= i < |b| && !(at <= i < at + n) :: b[i] == b0[i]
  }

  /** A pending read, done after `done` bytes were delivered, delivers `size` bytes more. */
  lemma Delivered(fs: Fs, t: seq<u32>, b: seq<byte>, b1: seq<byte>, at: nat, q: nat, done: nat, off: nat, size: nat)
    requires fs.Valid() && Pending(fs, t, q + done, off, size) && Shows(fs, t, b, at, q, done)
    requires off + size <= |fs.disk| && at + done + size <= |b|
    requires b1 == Splice(b, at + done, fs.disk[off..off + size])
    ensures Shows(fs, t, b1, at, q, done + size)
  {
    hide Placed, Fs.Size;
  }

  lemma FrameMore(b0: seq<byte>, b: seq<byte>, b1: seq<byte>, at: nat, done: nat, x: seq<byte>)
    requires Framed(b0, b, at, done) && at + done + |x| <= |b| && b1 == Splice(b, at + done, x)
    ensures Framed(b0, b1, at, done + |x|)
  {
  }

  /** Wherever a read of n bytes from q on comes to a block, it comes to a place not past the end of the device. */
  predicate Starts(fs: Fs, t: seq<u32>, q: nat, n: nat)
    requires fs.Valid() && q + n <= fs.Size(|t|)
  {
    forall x | q <= x < q + n && (x == q || x % fs.blk == 0) :: Placed(fs, t, x) <= |fs.disk|
  }

  predicate OnDisk(fs: Fs, t: seq<u32>, q: nat, n: nat)
    requires fs.Valid() && q + n <= fs.Size(|t|)
  {
    forall x | q <= x < q + n :: Placed(fs, t, x) < |fs.disk|
  }

  /** Blocks that lie on the device have all their bytes there. */
  lemma InsideOnDisk(fs: Fs, t: seq<u32>, q: nat, n: nat)
    requires fs.Valid() && q + n <= fs.Size(|t|) && fs.AllInside(t)
    ensures OnDisk(fs, t, q, n)
  {
    hide Fs.Size;
    forall x | q <= x < q + n ensures Placed(fs, t, x) < |fs.disk| {
      fs.WholeBlocks(x, |t|);
      fs.Split(x);
      assert fs.Inside(t[x / fs.blk]);
    }
  }

  // ---------- Runs ----------

  /** The bytes a table can still deliver from byte r of block `start`. */
  function Left(fs: Fs, t: seq<u32>, start: nat, r: nat): nat {
    if start < |t| && r < fs.blk then
      fs.SizeMonotone(start + 1, |t|);
      fs.SizeNext(start);
      fs.Size(|t|) - (fs.Size(start) + r)
    else 0
  }

  lemma LeftOver(fs: Fs, t: seq<u32>, start: nat, r: nat)
    requires fs.Valid() && start < |t| && r < fs.blk
    ensures Left(fs, t, start, r) == fs.Size(|t|) - (fs.Size(start) + r) > 0
  {
    fs.SizeMonotone(start + 1, |t|);
    fs.SizeNext(start);
  }

  /** A run of cnt blocks from table entry `start` on, which is at byte q, is to be read, and another block is behind it. */
  predicate RunLen(fs: Fs, t: seq<u32>, start: nat, cnt: nat, q: nat, size: nat) {
    && start + cnt <= |t| && q == fs.Size(start) && size == fs.Size(cnt) && (cnt == 0 <==> size == 0)
    && (cnt > 0 ==> start + cnt < |t|)
  }

  /** `off` is where the run starts, and it and the block behind it have consecutive numbers. */
  predicate RunIs(fs: Fs, t: seq<u32>, start: nat, cnt: nat, off: nat) {
    && (start < |t| ==> off == fs.Off(t[start]))
    && (cnt > 0 ==> Consecutive(t, start, cnt))
  }

  /** The comparison of the source, on unsigned 32-bit numbers. */
  predicate Follows(a: u32, b: u32) {
    var a: int := a;
    (a + 1) % 0x1_0000_0000 == b
  }

  /** In n bytes of the listed blocks from q on, block 0 does not come right after the last 32-bit number,
      which it follows only because the comparison wraps. */
  predicate Numbers(fs: Fs, t: seq<u32>, q: nat, n: nat) {
    forall k | 0 < k < |t| && q < fs.Size(k) < q + n :: t[k - 1] != 0xffff_ffff || t[k] != 0
  }

  lemma RunFits(fs: Fs, t: seq<u32>, start: nat, cnt: nat, q: nat, size: nat)
    requires fs.Valid() && RunLen(fs, t, start, cnt, q, size)
    ensures q + size <= fs.Size(|t|) && (start + cnt < |t| ==> q + size + fs.blk <= fs.Size(|t|))
    ensures start + cnt == |t| ==> size == 0 && q == fs.Size(|t|)
  {
    hide Fs.Size;
    fs.SizeAdd(start, cnt);
    fs.SizeMonotone(start + cnt, |t|);
    fs.SizeNext(start + cnt);
    if start + cnt < |t| { fs.SizeMonotone(start + cnt + 1, |t|); }
  }

  /** The run can be read together with the block after it. */
  lemma RunReady(fs: Fs, t: seq<u32>, start: nat, cnt: nat, q: nat, off: nat, size: nat)
    requires fs.Valid() && RunLen(fs, t, start, cnt, q, size) && RunIs(fs, t, start, cnt, off) && start + cnt < |t|
    ensures Pending(fs, t, q, off, size + fs.blk)
  {
    hide Fs.Size, Fs.Off, Pending;
    PendingRun(fs, t, start, cnt);
    fs.SizeNext(cnt);
  }

  lemma RunGrows(fs: Fs, t: seq<u32>, start: nat, cnt: nat, q: nat, off: nat, size: nat)
    requires fs.Valid() && RunLen(fs, t, start, cnt, q, size) && start + cnt + 1 < |t|
    ensures RunLen(fs, t, start, cnt + 1, q, size + fs.blk)
    ensures RunIs(fs, t, start, cnt, off) && Follows(t[start + cnt], t[start + cnt + 1]) && t[start + cnt] != 0xffff_ffff
      ==> RunIs(fs, t, start, cnt + 1, off)
  {
    fs.SizeNext(cnt);
    hide Fs.Size, Fs.Off;
  }

  /** Behind a run that was read, or a single block, a new one starts. */
  lemma RunRead(fs: Fs, t: seq<u32>, start: nat, cnt: nat, q: nat, size: nat, next: nat)
    requires fs.Valid() && start + cnt <= |t| && q == fs.Size(start) && size == fs.Size(cnt)
    requires start + cnt < |t| ==> next == fs.Off(t[start + cnt])
    ensures RunLen(fs, t, start + cnt, 0, q + size, 0) && RunIs(fs, t, start + cnt, 0, next)
  {
    fs.SizeAdd(start, cnt);
    fs.SizeNext(0);
    hide Fs.Size, Fs.Off;
  }

  lemma RunAligned(fs: Fs, t: seq<u32>, start: nat, cnt: nat, q: nat, size: nat)
    requires fs.Valid() && RunLen(fs, t, start, cnt, q, size)
    ensures q % fs.blk == 0
  {
    hide Fs.Size;
    assert q == fs.Size(start) + 0;
    fs.SplitUnique(q, start, 0);
  }

  lemma RunSpan(fs: Fs, t: seq<u32>, start: nat, cnt: nat, q: nat, size: nat)
    requires fs.Valid() && RunLen(fs, t, start, cnt, q, size)
    ensures q == fs.Size(start) && size == fs.Size(cnt) && (cnt == 0 <==> size == 0) && fs.Size(1) == fs.blk
  {
    fs.SizeNext(0);
  }

  lemma NotLast(fs: Fs, t: seq<u32>, q: nat, n: nat, i: nat)
    requires Numbers(fs, t, q, n) && i + 1 < |t| && q < fs.Size(i + 1) < q + n && Follows(t[i], t[i + 1])
    ensures t[i] != 0xffff_ffff
  {
    hide Fs.Size;
  }

  /** An access to the size bytes from q on can be made. */
  ghost predicate Ready(fs: Fs, t: seq<u32>, q: nat, size: nat, off: nat, first: bool, good: bool)
    requires fs.Valid()
  {
    size > 0 && q + size <= fs.Size(|t|) && (first || q % fs.blk == 0) && (good ==> Pending(fs, t, q, off, size))
  }

  /** The state of the merging loop: either a run may still grow, or it is as long as what is asked for. */
  ghost predicate Merging(fs: Fs, t: seq<u32>, q: nat, start: nat, cnt: nat, size: nat, len: nat, off: nat,
                          first: bool, good: bool)
    requires fs.Valid()
  {
    && size <= len
    && (size < len ==> RunLen(fs, t, start, cnt, q, size) && (good ==> RunIs(fs, t, start, cnt, off)))
    && (size > 0 ==> Ready(fs, t, q, size, off, first, good))
  }

  /** The next block joins the run. */
  lemma Joins(fs: Fs, t: seq<u32>, q: nat, start: nat, cnt: nat, size: nat, len: nat, off: nat, first: bool, good: bool,
              q0: nat, want: nat)
    requires fs.Valid() && Merging(fs, t, q, start, cnt, size, len, off, first, good) && size < len
    requires start + cnt + 1 < |t| && Follows(t[start + cnt], t[start + cnt + 1])
    requires (good ==> Numbers(fs, t, q0, want)) && q0 <= q && q0 + want == Min(q + len, fs.Size(|t|))
    ensures if size + fs.blk > len then Merging(fs, t, q, start, cnt, len, len, off, first, good)
            else Merging(fs, t, q, start, cnt + 1, size + fs.blk, len, off, first, good)
  {
    hide Fs.Size, Fs.Off, Pending, RunLen, RunIs;
    RunFits(fs, t, start, cnt, q, size);
    RunAligned(fs, t, start, cnt, q, size);
    if good {
      RunReady(fs, t, start, cnt, q, off, size);
      if size + fs.blk > len { PendingLess(fs, t, q, off, size + fs.blk, len); }
      RunSpan(fs, t, start, cnt, q, size);
      fs.SizeAdd(start, cnt);
      fs.SizeNext(start + cnt);
      fs.SizeNext(start + cnt + 1);
      fs.SizeMonotone(start + cnt + 2, |t|);
      if size + fs.blk < len { NotLast(fs, t, q0, want, start + cnt); }
    }
    RunGrows(fs, t, start, cnt, q, off, size);
  }

  /** The run ends here, and is read; when it is empty, a block or what is left of one is read. */
  lemma Ends(fs: Fs, t: seq<u32>, q: nat, start: nat, cnt: nat, size: nat, len: nat, off: nat, first: bool, good: bool,
             cnt': nat, size': nat)
    requires fs.Valid() && Merging(fs, t, q, start, cnt, size, len, off, first, good) && size < len && start + cnt < |t|
    requires if size > 0 then cnt' == cnt && size' == size
             else if fs.blk > len then cnt' == cnt && size' == len else cnt' == 1 && size' == fs.blk
    ensures Ready(fs, t, q, size', off, first, good) && size' <= len
    ensures size' < len ==> q == fs.Size(start) && size' == fs.Size(cnt') && start + cnt' <= |t|
  {
    hide Fs.Size, Fs.Off, Pending, RunIs;
    RunFits(fs, t, start, cnt, q, size);
    RunSpan(fs, t, start, cnt, q, size);
    RunAligned(fs, t, start, cnt, q, size);
    if good {
      RunReady(fs, t, start, cnt, q, off, size);
      PendingLess(fs, t, q, off, size + fs.blk, size');
    }
  }

  /** Behind what was read an empty run starts. */
  lemma Restarts(fs: Fs, t: seq<u32>, q: nat, start: nat, cnt: nat, size: nat, len: nat, next: nat, first: bool, good: bool)
    requires fs.Valid() && size <= len
    requires size < len ==> q == fs.Size(start) && size == fs.Size(cnt) && start + cnt <= |t|
    requires start + cnt < |t| ==> next == fs.Off(t[start + cnt])
    ensures Merging(fs, t, q + size, start + cnt, 0, 0, len - size, next, first, good)
  {
    hide Fs.Size, Fs.Off, Pending, RunIs, RunLen;
    if size < len { RunRead(fs, t, start, cnt, q, size, next); }
  }

  /** When no run may grow any more, the rest is one access or nothing. */
  lemma Over(fs: Fs, t: seq<u32>, q: nat, start: nat, cnt: nat, size: nat, len: nat, off: nat, first: bool, good: bool)
    requires fs.Valid() && Merging(fs, t, q, start, cnt, size, len, off, first, good)
    requires size < len ==> start + cnt >= |t|
    ensures if size > 0 then size == len && Ready(fs, t, q, size, off, first, good) else len == 0 || q == fs.Size(|t|)
  {
    hide Fs.Size, Fs.Off, Pending, RunIs;
    if size < len { RunFits(fs, t, start, cnt, q, size); }
  }

  lemma Fits(fs: Fs, t: seq<u32>, q: nat, size: nat, off: nat, first: bool, good: bool)
    requires fs.Valid() && Ready(fs, t, q, size, off, first, good)
    ensures size > 0 && q + size <= fs.Size(|t|)
  {
    hide Fs.Size, Pending;
  }

  /** One entry of the table, or what stands after it. */
  function Entry(t: seq<u32>, past: u32, i: nat): u32 {
    if i < |t| then t[i] else past
  }

  // ---------- What an inode says about the bytes of a file ----------

  function Word(a: byte, b: byte, c: byte, d: byte): u32 {
    a + 0x100 * b + 0x1_0000 * c + 0x100_0000 * d
  }

  /** An index block as the 32-bit entries it holds, least significant byte first. */
  function Decode(s: seq<byte>): (t: seq<u32>)
    ensures |t| == |s| / 4
  {
    seq(|s| / 4, i requires 0 <= i < |s| / 4 => Word(s[4 * i], s[4 * i + 1], s[4 * i + 2], s[4 * i + 3]))
  }

  /** The j-th digit of x in base 256, the least significant one first. */
  function Digit(x: nat, j: nat): byte {
    if j == 0 then x % 0x100 else Digit(x / 0x100, j - 1)
  }

  /** An index block that holds the entries t, each as the four digits of its number. */
  function Encode(t: seq<u32>): (s: seq<byte>)
    ensures |s| == 4 * |t|
  {
    seq(4 * |t|, i requires 0 <= i < 4 * |t| => Digit(t[i / 4], i % 4))
  }

  lemma Lowest(a: byte, y: nat)
    ensures (a + 0x100 * y) % 0x100 == a && (a + 0x100 * y) / 0x100 == y
  {
  }

  /** A word has its bytes as digits. */
  lemma WordDigits(a: byte, b: byte, c: byte, d: byte)
    ensures var x := Word(a, b, c, d); Digit(x, 0) == a && Digit(x, 1) == b && Digit(x, 2) == c && Digit(x, 3) == d
  {
    var z := c + 0x100 * d;
    var y := b + 0x100 * z;
    assert Word(a, b, c, d) == a + 0x100 * y;
    Lowest(a, y);
    Lowest(b, z);
    Lowest(c, d);
    hide Word;
    var x := Word(a, b, c, d);
    assert Digit(x, 1) == Digit(y, 0) && Digit(x, 2) == Digit(y, 1) == Digit(z, 0);
    assert Digit(x, 3) == Digit(y, 2) == Digit(z, 1) == Digit(d, 0);
  }

  /** ... and is made up of its digits. */
  lemma DigitsWord(x: u32)
    ensures Word(Digit(x, 0), Digit(x, 1), Digit(x, 2), Digit(x, 3)) == x
  {
    var y := x / 0x100;
    var z := y / 0x100;
    var d := z / 0x100;
    Divide(x, 0x100);
    Divide(y, 0x100);
    Divide(z, 0x100);
    assert d < 0x100;
    DigitsAre(x, y, z, d);
  }

  lemma DigitsAre(x: nat, y: nat, z: nat, d: byte)
    requires y == x / 0x100 && z == y / 0x100 && d == z / 0x100
    ensures Digit(x, 0) == x % 0x100 && Digit(x, 1) == y % 0x100 && Digit(x, 2) == z % 0x100 && Digit(x, 3) == d
  {
    assert Digit(x, 1) == Digit(y, 0) && Digit(x, 2) == Digit(y, 1) == Digit(z, 0);
    assert Digit(x, 3) == Digit(y, 2) == Digit(z, 1) == Digit(d, 0);
  }

  /** Decoding the block that holds a table gives the table, so that the bytes of an entry stand in the
      order in which the processor loads them. */
  lemma DecodeEncode(t: seq<u32>)
    ensures Decode(Encode(t)) == t
  {
    hide Decode, Encode;
    forall i | 0 <= i < |t| ensures Decode(Encode(t))[i] == t[i] { EntryBack(t, i); }
  }

  lemma EntryBack(t: seq<u32>, i: nat)
    requires i < |t|
    ensures Decode(Encode(t))[i] == t[i]
  {
    hide Word, Digit, Encode;
    EntryAt(t, i, 0);
    EntryAt(t, i, 1);
    EntryAt(t, i, 2);
    EntryAt(t, i, 3);
    DigitsWord(t[i]);
  }

  lemma EntryAt(t: seq<u32>, i: nat, j: nat)
    requires i < |t| && j < 4
    ensures 4 * i + j < 4 * |t| && Encode(t)[4 * i + j] == Digit(t[i], j)
  {
    hide Digit;
    assert (4 * i + j) / 4 == i && (4 * i + j) % 4 == j;
  }

  /** Every block of whole entries holds the table decoded from it. */
  lemma EncodeDecode(s: seq<byte>)
    requires |s| % 4 == 0
    ensures Encode(Decode(s)) == s
  {
    hide Word, Digit;
    var t := Decode(s);
    forall i | 0 <= i < |s| ensures Digit(t[i / 4], i % 4) == s[i] {
      var k := 4 * (i / 4);
      WordDigits(s[k], s[k + 1], s[k + 2], s[k + 3]);
    }
  }

  function Table(fs: Fs, b: u32): (t: seq<u32>)
    requires fs.Valid()
    ensures |t| == fs.PerBlock()
  {
    Decode(fs.Device(fs.Off(b), fs.blk))
  }

  /** The table that lists blocks 12 + N + i * N, ... of the file. */
  function DoubleTable(fs: Fs, ib: seq<u32>, i: nat): (t: seq<u32>)
    requires fs.Valid() && |ib| == N_BLOCKS && i < fs.PerBlock()
    ensures |t| == fs.PerBlock()
  {
    Table(fs, Table(fs, ib[DIND_BLOCK])[i])
  }

  /** The first block of the file that DoubleTable(i) lists. */
  function DoubleStart(fs: Fs, i: nat): nat {
    NDIR_BLOCKS + fs.PerBlock() + i * fs.PerBlock()
  }

  /** Blocks that direct, indirect and double indirect tables reach. */
  function Reach(fs: Fs): nat {
    DoubleStart(fs, fs.PerBlock())
  }

  lemma DoubleIndex(fs: Fs, k: nat)
    requires fs.Valid() && NDIR_BLOCKS + fs.PerBlock() <= k < Reach(fs)
    ensures (k - NDIR_BLOCKS - fs.PerBlock()) / fs.PerBlock() < fs.PerBlock()
  {
    var n, d := fs.PerBlock(), k - NDIR_BLOCKS - fs.PerBlock();
    Below(d, n, n);
  }

  lemma Below(d: nat, m: nat, n: nat)
    requires 0 < n && d < m * n
    ensures d / n < m
  {
    Divide(d, n);
    if d / n >= m { Multiples(m, d / n, n); }
  }

  /** The device block of block k of the file. */
  function FileBlock(fs: Fs, ib: seq<u32>, k: nat): u32
    requires fs.Valid() && |ib| == N_BLOCKS && k < Reach(fs)
  {
    var n := fs.PerBlock();
    if k < NDIR_BLOCKS then ib[k]
    else if k < NDIR_BLOCKS + n then Table(fs, ib[IND_BLOCK])[k - NDIR_BLOCKS]
    else
      var d := k - NDIR_BLOCKS - n;
      DoubleIndex(fs, k);
      DoubleTable(fs, ib, d / n)[d % n]
  }

  /** The place of position p of the file on the device. */
  function FilePlace(fs: Fs, ib: seq<u32>, p: nat): nat
    requires fs.Valid() && |ib| == N_BLOCKS && p < fs.Size(Reach(fs))
  {
    fs.WholeBlocks(p, Reach(fs));
    fs.Off(FileBlock(fs, ib, p / fs.blk)) + p % fs.blk
  }

  /** The index blocks through which block k of the file is found start before the end of the device. */
  predicate IndexStarts(fs: Fs, ib: seq<u32>, k: nat)
    requires fs.Valid() && |ib| == N_BLOCKS && k < Reach(fs)
  {
    var n := fs.PerBlock();
    if k < NDIR_BLOCKS then true
    else if k < NDIR_BLOCKS + n then fs.Off(ib[IND_BLOCK]) <= |fs.disk|
    else
      DoubleIndex(fs, k);
      fs.Off(ib[DIND_BLOCK]) <= |fs.disk| &&
      fs.Off(Table(fs, ib[DIND_BLOCK])[(k - NDIR_BLOCKS - n) / n]) <= |fs.disk|
  }

  /** They lie on the device. */
  predicate IndexInside(fs: Fs, ib: seq<u32>, k: nat)
    requires fs.Valid() && |ib| == N_BLOCKS && k < Reach(fs)
  {
    var n := fs.PerBlock();
    if k < NDIR_BLOCKS then true
    else if k < NDIR_BLOCKS + n then fs.Inside(ib[IND_BLOCK])
    else
      DoubleIndex(fs, k);
      fs.Inside(ib[DIND_BLOCK]) && fs.Inside(Table(fs, ib[DIND_BLOCK])[(k - NDIR_BLOCKS - n) / n])
  }

  /** A read that comes to position p of the file comes to a place not past the end of the device. */
  predicate StartsAt(fs: Fs, ib: seq<u32>, p: nat)
    requires fs.Valid() && |ib| == N_BLOCKS && p < fs.Size(Reach(fs))
  {
    fs.WholeBlocks(p, Reach(fs));
    IndexStarts(fs, ib, p / fs.blk) && FilePlace(fs, ib, p) <= |fs.disk|
  }

  /** s, which is read from position p on, has the byte of position x, and that is on the device. */
  predicate ByteAt(fs: Fs, ib: seq<u32>, p: nat, s: seq<byte>, x: nat)
    requires fs.Valid() && |ib| == N_BLOCKS && x < fs.Size(Reach(fs)) && p <= x < p + |s|
  {
    fs.WholeBlocks(x, Reach(fs));
    IndexInside(fs, ib, x / fs.blk) && FilePlace(fs, ib, x) < |fs.disk| && s[x - p] == fs.disk[FilePlace(fs, ib, x)]
  }

  /** The condition under which n bytes of the file from p on can be read right: the index blocks, and
      every block of data where the read comes to it, start at or before the end of the device. */
  predicate Reachable(fs: Fs, ib: seq<u32>, p: nat, n: nat)
    requires fs.Valid() && |ib| == N_BLOCKS && (n == 0 || p + n <= fs.Size(Reach(fs)))
  {
    forall x | p <= x < p + n && (x == p || x % fs.blk == 0) :: StartsAt(fs, ib, x)
  }

  /** s holds the bytes of the file from p on, all of which are on the device. */
  predicate Exact(fs: Fs, ib: seq<u32>, p: nat, s: seq<byte>)
    requires fs.Valid() && |ib| == N_BLOCKS && (s == [] || p + |s| <= fs.Size(Reach(fs)))
  {
    forall x | p <= x < p + |s| :: ByteAt(fs, ib, p, s, x)
  }

  /** What is on the device starts on the device. */
  lemma ExactReachable(fs: Fs, ib: seq<u32>, p: nat, s: seq<byte>)
    requires fs.Valid() && |ib| == N_BLOCKS && (s == [] || p + |s| <= fs.Size(Reach(fs))) && Exact(fs, ib, p, s)
    ensures Reachable(fs, ib, p, |s|)
  {
    hide Fs.Size, Table, FileBlock, Reach;
    forall x | p <= x < p + |s| ensures StartsAt(fs, ib, x) {
      fs.WholeBlocks(x, Reach(fs));
      assert ByteAt(fs, ib, p, s, x);
    }
  }

  lemma DoubleReach(fs: Fs, i: nat)
    requires fs.Valid() && i <= fs.PerBlock()
    ensures fs.PerBlock() == fs.blk / 4 > 0 && NDIR_BLOCKS + fs.PerBlock() == DoubleStart(fs, 0) <= DoubleStart(fs, i) <= Reach(fs)
    ensures fs.Size(DoubleStart(fs, 0)) <= fs.Size(DoubleStart(fs, i)) <= fs.Size(Reach(fs))
  {
    hide Fs.Size;
    Multiples(0, i, fs.PerBlock());
    Multiples(i, fs.PerBlock(), fs.PerBlock());
    fs.SizeMonotone(DoubleStart(fs, 0), DoubleStart(fs, i));
    fs.SizeMonotone(DoubleStart(fs, i), Reach(fs));
  }

  lemma DoubleNext(fs: Fs, i: nat)
    requires fs.Valid() && i < fs.PerBlock()
    ensures DoubleStart(fs, i + 1) == DoubleStart(fs, i) + fs.PerBlock()
    ensures DoubleStart(fs, i + 1) <= Reach(fs)
    ensures fs.Size(DoubleStart(fs, i)) <= fs.Size(DoubleStart(fs, i + 1)) <= fs.Size(Reach(fs))
  {
    hide Fs.Size;
    NextMultiple(i, fs.PerBlock());
    Multiples(i + 1, fs.PerBlock(), fs.PerBlock());
    fs.SizeMonotone(DoubleStart(fs, i), DoubleStart(fs, i + 1));
    fs.SizeMonotone(DoubleStart(fs, i + 1), Reach(fs));
  }

  /** The double indirect table in which block k of the file is found, and its place there. */
  lemma DoubleEntry(fs: Fs, k: nat, i: nat)
    requires fs.Valid() && i < fs.PerBlock() && DoubleStart(fs, i) <= k < DoubleStart(fs, i) + fs.PerBlock()
    ensures NDIR_BLOCKS + fs.PerBlock() <= k < Reach(fs)
    ensures (k - NDIR_BLOCKS - fs.PerBlock()) / fs.PerBlock() == i
    ensures (k - NDIR_BLOCKS - fs.PerBlock()) % fs.PerBlock() == k - DoubleStart(fs, i)
  {
    var n := fs.PerBlock();
    Multiples(0, i, n);
    DoubleNext(fs, i);
    QuotientIs(k - NDIR_BLOCKS - n, n, i, k - DoubleStart(fs, i));
  }

  /** The table lists the blocks of the file from block k0 on. */
  predicate Lists(fs: Fs, ib: seq<u32>, t: seq<u32>, k0: nat)
    requires fs.Valid() && |ib| == N_BLOCKS
  {
    k0 + |t| <= Reach(fs) && forall k | k0 <= k < k0 + |t| :: t[k - k0] == FileBlock(fs, ib, k)
  }

  lemma DirectLists(fs: Fs, ib: seq<u32>)
    requires fs.Valid() && |ib| == N_BLOCKS
    ensures Lists(fs, ib, ib[..NDIR_BLOCKS], 0)
    ensures Lists(fs, ib, Table(fs, ib[IND_BLOCK]), NDIR_BLOCKS)
  {
    hide Table;
  }

  lemma DoubleLists(fs: Fs, ib: seq<u32>, i: nat)
    requires fs.Valid() && |ib| == N_BLOCKS && i < fs.PerBlock()
    ensures Lists(fs, ib, DoubleTable(fs, ib, i), DoubleStart(fs, i))
  {
    hide DoubleTable, DoubleStart, Reach, Fs.PerBlock, Fs.Size;
    var n, k0 := fs.PerBlock(), DoubleStart(fs, i);
    DoubleNext(fs, i);
    forall k | k0 <= k < k0 + n ensures DoubleTable(fs, ib, i)[k - k0] == FileBlock(fs, ib, k) {
      DoubleEntry(fs, k, i);
    }
  }

  /** Byte q of the listed blocks is byte q of the file, counted from where the list starts. */
  lemma ListedPlace(fs: Fs, ib: seq<u32>, t: seq<u32>, k0: nat, q: nat)
    requires fs.Valid() && |ib| == N_BLOCKS && Lists(fs, ib, t, k0) && q < fs.Size(|t|)
    ensures fs.Size(k0) + q < fs.Size(Reach(fs))
    ensures k0 <= (fs.Size(k0) + q) / fs.blk < k0 + |t| && (fs.Size(k0) + q) % fs.blk == q % fs.blk
    ensures Placed(fs, t, q) == FilePlace(fs, ib, fs.Size(k0) + q)
  {
    hide Fs.Size, Fs.Off, FileBlock, Reach;
    var k, r := q / fs.blk, q % fs.blk;
    fs.Split(q);
    fs.WholeBlocks(q, |t|);
    fs.SizeAdd(k0, k);
    fs.SplitUnique(fs.Size(k0) + q, k0 + k, r);
    fs.WholeBlocks(fs.Size(k0) + q, Reach(fs));
    assert t[k] == FileBlock(fs, ib, k0 + k);
  }

  /** What is left up to `limit` from position pos. */
  function Room(limit: nat, pos: nat): nat {
    if pos < limit then limit - pos else 0
  }

  /** In n bytes of the file from p on, block 0 of the device, which is what a hole reads as, does not come
      right after the block with the last 32-bit number. */
  ghost predicate Sane(fs: Fs, ib: seq<u32>, p: nat, n: nat)
    requires fs.Valid() && |ib| == N_BLOCKS
  {
    forall k: nat | 0 < k < Reach(fs) && p < fs.Size(k) < p + n ::
      FileBlock(fs, ib, k - 1) != 0xffff_ffff || FileBlock(fs, ib, k) != 0
  }

  /** What a table lists of the part of the file is sane too. */
  lemma SaneTable(fs: Fs, ib: seq<u32>, t: seq<u32>, k0: nat, p: nat, n: nat, pos: nat, len: nat)
    requires fs.Valid() && |ib| == N_BLOCKS && Lists(fs, ib, t, k0) && fs.Size(k0) <= pos
    ensures Sane(fs, ib, p, n) && p <= pos && pos + len <= p + n ==> Numbers(fs, t, pos - fs.Size(k0), len)
  {
    hide FileBlock, Reach, Fs.Size;
    var q := pos - fs.Size(k0);
    if Sane(fs, ib, p, n) && p <= pos && pos + len <= p + n {
      forall k | 0 < k < |t| && q < fs.Size(k) < q + len ensures t[k - 1] != 0xffff_ffff || t[k] != 0 {
        fs.SizeAdd(k0, k);
        assert t[k0 + k - k0] == FileBlock(fs, ib, k0 + k);
        assert t[k0 + (k - 1) - k0] == FileBlock(fs, ib, k0 + (k - 1));
      }
    }
  }

  lemma SaneLess(fs: Fs, ib: seq<u32>, p: nat, n: nat, p': nat, n': nat)
    requires fs.Valid() && |ib| == N_BLOCKS && p <= p' && p' + n' <= p + n
    ensures Sane(fs, ib, p, n) ==> Sane(fs, ib, p', n')
  {
    hide FileBlock, Reach, Fs.Size;
  }

  /** Everything needed to read up to position `upto` is on the device: the blocks of each table
      that is reached, and the index blocks. */
  ghost predicate Mapped(fs: Fs, ib: seq<u32>, upto: nat)
    requires fs.Valid() && |ib| == N_BLOCKS
  {
    var n := fs.PerBlock();
    && fs.AllInside(ib[..NDIR_BLOCKS])
    && (upto > fs.Size(NDIR_BLOCKS) ==>
          fs.Inside(ib[IND_BLOCK]) && fs.AllInside(Table(fs, ib[IND_BLOCK])))
    && (upto > fs.Size(NDIR_BLOCKS + n) ==> fs.Inside(ib[DIND_BLOCK]))
    && forall i: nat | i < n && upto > fs.Size(DoubleStart(fs, i)) ::
         fs.Inside(Table(fs, ib[DIND_BLOCK])[i]) && fs.AllInside(DoubleTable(fs, ib, i))
  }

  // ---------- Reading ----------

  /** The effect of one access to the n bytes at `off`: bfo_lseek moves the position p0 only when the target
      is not past the end of the device, and its result is ignored. */
  ghost predicate Accessed(fs: Fs, p0: nat, b0: seq<byte>, b1: seq<byte>, off: nat, at: nat, n: nat, ok: bool, healthy: bool)
    requires at + n <= |b0|
  {
    var p := if off <= |fs.disk| then off else p0;
    && (ok ==> p + n <= |fs.disk| && b1 == Splice(b0, at, fs.disk[p..p + n]))
    && (healthy ==> (ok <==> p + n <= |fs.disk|))
  }

  class Reader {
    const bf: BlockFile.File
    const base: nat
    const blk: nat
    var grants: seq<bool>

    constructor (bf: BlockFile.File, base: nat, blk: nat, grants: seq<bool>)
      requires bf.Sound() && bf.base == 0 && bf.offs <= bf.end && bf.mode != BlockFile.WriteOnly && 4 <= blk
      ensures this.bf == bf && this.grants == grants && Ok(Fs(bf.disk.data[..bf.end], base, blk))
    {
      this.bf, this.base, this.blk, this.grants := bf, base, blk, grants;
    }

    /** The device file is open for reading, and fs is what it holds. */
    ghost predicate Ok(fs: Fs)
      reads this, bf, bf.disk
    {
      && bf.Sound() && bf.base == 0 && bf.offs <= bf.end && bf.mode != BlockFile.WriteOnly && 4 <= blk
      && fs == Fs(bf.disk.data[..bf.end], base, blk)
    }

    /** No block of the device is bad, and there is memory whenever a part of a sector is read. */
    ghost predicate Healthy()
      reads this, bf, bf.disk
    {
      bf.disk.bad == {} && forall i | 0 <= i < |grants| :: grants[i]
    }

    /** Where block b starts on the device. */
    function Offset(b: u32): nat {
      base + b * blk
    }

    lemma OkFacts(fs: Fs)
      requires Ok(fs)
      ensures fs.Valid() && fs.blk == blk && fs.base == base && blk > 0
    {
    }

    lemma OffsetIs(fs: Fs, b: u32)
      requires Ok(fs)
      ensures Offset(b) == fs.Off(b)
    {
    }

    /** lseek and read. */
    method DevRead(ghost fs: Fs, off: nat, buf: array<byte>, at: nat, n: nat) returns (ok: bool)
      requires Ok(fs) && at + n <= buf.Length && n > 0
      modifies this`grants, bf`offs, bf.disk`data, bf.disk`log, buf
      ensures Ok(fs) && (old(Healthy()) ==> Healthy())
      ensures Accessed(fs, old(bf.offs), old(buf[..]), buf[..], off, at, n, ok, old(Healthy()))
      ensures ok ==> bf.offs == (if off <= |fs.disk| then off else old(bf.offs)) + n
    {
      hide Splice, BlockFile.Moved, Fs.Off, Fs.Inside, Fs.Size;
      var mem := true;
      if grants != [] { mem, grants := grants[0], grants[1..]; }
      var place := bf.Lseek(off, BlockFile.SeekSet);
      var r;
      ghost var moved;
      ghost var p := bf.offs;
      r, moved := bf.Read(buf, at, n, mem);
      ok := r == n;
      if ok { Front(bf.disk.data, bf.end, p, p + n); }
    }

    /** The pending read, put after the bytes delivered so far. */
    method Fetch(ghost fs: Fs, ghost t: seq<u32>, buf: array<byte>, ghost b0: seq<byte>, ghost at0: nat, ghost q0: nat,
                 ghost done: nat, ghost want: nat, ghost good: bool, off: nat, at: nat, size: nat)
      returns (ok: bool, ghost still: bool)
      requires Ok(fs) && at == at0 + done && at + size <= buf.Length && q0 + want <= fs.Size(|t|)
      requires Ready(fs, t, q0 + done, size, off, done == 0, good) && done + size <= want
      requires Framed(b0, buf[..], at0, done) && (good ==> Shows(fs, t, buf[..], at0, q0, done))
      modifies this`grants, bf`offs, bf.disk`data, bf.disk`log, buf
      ensures Ok(fs) && (old(Healthy()) ==> Healthy())
      ensures Accessed(fs, old(bf.offs), old(buf[..]), buf[..], off, at, size, ok, old(Healthy()))
      ensures ok ==> Framed(b0, buf[..], at0, done + size)
      ensures ok && still ==> Shows(fs, t, buf[..], at0, q0, done + size)
      ensures still ==> good
      ensures good && Starts(fs, t, q0, want) ==> still
      ensures old(Healthy()) && good && OnDisk(fs, t, q0, want) ==> ok && still
    {
      hide Fs.Size, Fs.Off, Placed, Splice, Framed, Shows, Starts, OnDisk, Pending;
      ghost var b := buf[..];
      still := good && off <= |fs.disk|;
      if good { FirstByte(fs, t, q0, done, want, off, size); }
      ok := DevRead(fs, off, buf, at, size);
      if ok {
        ghost var p := if off <= |fs.disk| then off else old(bf.offs);
        FrameMore(b0, b, buf[..], at0, done, fs.disk[p..p + size]);
        if still { Delivered(fs, t, b, buf[..], at0, q0, done, off, size); }
      }
    }

    /** The accesses from a block boundary on, or the one that is pending already.  `good0` says that the
        table has no wrapping numbers, and that everything before was read in the right place. */
    method ReadRuns(ghost fs: Fs, start1: nat, end0: nat, t: seq<u32>, past: u32, buf: array<byte>,
                    at1: nat, len1: nat, pos1: nat, cnt1: nat, size1: nat, off1: nat,
                    ghost b0: seq<byte>, ghost at0: nat, ghost q0: nat, ghost done1: nat, ghost want: nat, ghost good0: bool)
      returns (ok: bool, at: nat, len: nat, pos: nat, ghost good: bool)
      requires Ok(fs) && fs.Valid() && |t| == end0 + 1 && at1 == at0 + done1 && at1 + len1 <= buf.Length && size1 <= len1
      requires q0 + want <= fs.Size(|t|) && Framed(b0, buf[..], at0, done1)
      requires want == Min(done1 + len1, fs.Size(|t|) - q0) && done1 <= want
      requires Merging(fs, t, q0 + done1, start1, cnt1, size1, len1, off1, done1 == 0, good0)
      requires good0 ==> Numbers(fs, t, q0, want) && Shows(fs, t, buf[..], at0, q0, done1)
      modifies this`grants, bf`offs, bf.disk`data, bf.disk`log, buf
      ensures Ok(fs) && (old(Healthy()) ==> Healthy())
      ensures ok ==> at == at0 + want && len == len1 - (want - done1) && pos == pos1 + (want - done1)
      ensures ok ==> Framed(b0, buf[..], at0, want) && (good ==> Shows(fs, t, buf[..], at0, q0, want))
      ensures good0 && Starts(fs, t, q0, want) ==> good
      ensures old(Healthy()) && good0 && OnDisk(fs, t, q0, want) ==> ok && good
      ensures want == done1 ==> ok
      ensures len1 == 0 ==> buf[..] == old(buf[..]) && bf.offs == old(bf.offs)
      ensures 0 < len1 <= blk && start1 <= end0 && cnt1 == 0 && (size1 == 0 || size1 == len1) ==>
        Accessed(fs, old(bf.offs), old(buf[..]), buf[..], off1, at1, len1, ok, old(Healthy()))
    {
      hide Fs.Size, Fs.Off, Placed, Pending, Splice, Framed, Shows, Merging, Ready, Accessed, Numbers, Starts, OnDisk, Ok, Healthy,
        Offset, Follows;
      OkFacts(fs);
      ok, at, len, pos, good := true, at1, len1, pos1, good0;
      var start: nat, cnt: nat, size: nat, off: nat := start1, cnt1, size1, off1;
      ghost var done: nat := done1;
      ghost var healthy, single := Healthy(), 0 < len1 <= blk && start1 <= end0 && cnt1 == 0 && (size1 == 0 || size1 == len1);
      while ok && len > 0 && size < len && start + cnt <= end0
        invariant Ok(fs) && (healthy ==> Healthy()) && size <= len
        invariant done + len == done1 + len1 && at == at0 + done && pos == pos1 + done - done1 && done <= want
        invariant ok ==> Framed(b0, buf[..], at0, done) && (good ==> Numbers(fs, t, q0, want) && Shows(fs, t, buf[..], at0, q0, done))
        invariant ok ==> Merging(fs, t, q0 + done, start, cnt, size, len, off, done == 0, good)
        invariant good0 && Starts(fs, t, q0, want) ==> good
        invariant healthy && good0 && OnDisk(fs, t, q0, want) ==> ok && good
        invariant want == done1 ==> ok
        invariant len1 == 0 ==> len == 0 && buf[..] == old(buf[..]) && bf.offs == old(bf.offs)
        invariant single && ok && len == len1 ==> buf[..] == old(buf[..]) && bf.offs == old(bf.offs) && off == off1 && done == done1 && Healthy() == healthy
        invariant single && ok && len == len1 && size < len ==> start == start1 && cnt == 0 && size == 0
        invariant single && ok && len < len1 ==> len == 0 && Accessed(fs, old(bf.offs), old(buf[..]), buf[..], off1, at1, len1, true, healthy)
        invariant single && !ok ==> Accessed(fs, old(bf.offs), old(buf[..]), buf[..], off1, at1, len1, false, healthy)
        decreases ok, len, len - size
      {
        ghost var q, first := q0 + done, done == 0;
        if start + cnt < end0 && Follows(t[start + cnt], t[start + cnt + 1]) {
          Joins(fs, t, q, start, cnt, size, len, off, first, good, q0, want);
          if size + blk > len {
            size := len;
          } else {
            size, cnt := size + blk, cnt + 1;
          }
        } else {
          ghost var cnt0, size0 := cnt, size;
          if size == 0 {
            if blk > len {
              size := len;
            } else {
              size, cnt := blk, 1;
            }
          }
          Ends(fs, t, q, start, cnt0, size0, len, off, first, good, cnt, size);
          Fits(fs, t, q, size, off, first, good);
          ghost var still;
          ok, still := Fetch(fs, t, buf, b0, at0, q0, done, want, good, off, at, size);
          good := still;
          if ok {
            ghost var was, cntWas, run, lenWas := start, cnt, size, len;
            start := start + cnt;
            at, pos, len, done := at + size, pos + size, len - size, done + size;
            cnt, size := 0, 0;
            off := Offset(Entry(t, past, start));
            OffsetIs(fs, Entry(t, past, start));
            Restarts(fs, t, q, was, cntWas, run, lenWas, off, done == 0, good);
          }
        }
      }
      if ok {
        ghost var q := q0 + done;
        Over(fs, t, q, start, cnt, size, len, off, done == 0, good);
        if len > 0 && size > 0 {
          Fits(fs, t, q, size, off, done == 0, good);
          ghost var still;
          ok, still := Fetch(fs, t, buf, b0, at0, q0, done, want, good, off, at, size);
          good := still;
          if ok {
            at, pos, len, done := at + size, pos + size, len - size, done + size;
          }
        }
      }
    }

    /** Reads up to len0 bytes of the blocks t[start0..end0 + 1], from byte pos0 % blk of the first one.
        `past` is what stands after the table, which the source reads and never uses. */
    method ReadByIndex(ghost fs: Fs, start0: nat, end0: nat, t: seq<u32>, past: u32,
                       buf: array<byte>, at0: nat, len0: nat, pos0: nat)
      returns (ok: bool, at: nat, len: nat, pos: nat)
      requires Ok(fs) && fs.Valid() && fs.blk == blk && |t| == end0 + 1 && at0 + len0 <= buf.Length
      modifies this`grants, bf`offs, bf.disk`data, bf.disk`log, buf
      ensures Ok(fs) && (old(Healthy()) ==> Healthy())
      ensures var n := Min(len0, Left(fs, t, start0, pos0 % blk));
        ok ==> at == at0 + n && len == len0 - n && pos == pos0 + n && Framed(old(buf[..]), buf[..], at0, n)
      ensures start0 > end0 ==> ok
      ensures start0 <= end0 ==> Delivers(fs, t, fs.Size(start0) + pos0 % blk, Min(len0, Left(fs, t, start0, pos0 % blk)),
                                          buf[..], at0, ok, old(Healthy()))
      ensures start0 <= end0 && 0 < len0 <= blk - pos0 % blk ==>
        Accessed(fs, old(bf.offs), old(buf[..]), buf[..], fs.Off(t[start0]) + pos0 % blk, at0, len0, ok, old(Healthy()))
    {
      hide Fs.Size, Fs.Off, Placed, Pending, Splice, Framed, Shows, Merging, Ready, Accessed, Numbers, Starts, OnDisk, Ok, Healthy,
        Offset, Follows;
      OkFacts(fs);
      NothingYet(fs, t, buf[..], at0);
      ok, at, len, pos := true, at0, len0, pos0;
      var start := start0;
      if start <= end0 {
        ghost var b0, r, q0, done: nat := buf[..], pos0 % blk, fs.Size(start) + pos0 % blk, 0;
        fs.Split(pos0);
        LeftOver(fs, t, start, r);
        ghost var want := Min(len0, fs.Size(|t|) - q0);
        ghost var good := Numbers(fs, t, q0, want);
        OffsetIs(fs, t[start]);
        FirstReady(fs, t, start, r, len0, good);
        NothingShown(fs, t, b0, at0, q0);
        var size: nat, cnt: nat := blk - pos % blk, 0;
        if size > len {
          cnt, size := 0, len;
        } else if size == blk {
          cnt, size := 0, 0;
        } else {
          cnt := 1;
        }
        var off: nat := Offset(t[start]) + pos % blk;
        ghost var healthy := Healthy();
        if cnt > 0 {
          ok, good := Fetch(fs, t, buf, b0, at0, q0, done, want, good, off, at, size);
          if ok {
            start := start + cnt;
            at, pos, len, done := at + size, pos + size, len - size, done + size;
            cnt, size := 0, 0;
            off := Offset(Entry(t, past, start));
            OffsetIs(fs, Entry(t, past, start));
            FirstDone(fs, t, start0, r, len, off, good);
          }
        }
        if ok {
          ok, at, len, pos, good := ReadRuns(fs, start, end0, t, past, buf, at, len, pos, cnt, size, off,
                                             b0, at0, q0, done, want, good);
        }
      }
    }

    /** Reads and decodes an index block. */
    method ReadTable(ghost fs: Fs, b: u32) returns (ok: bool, t: seq<u32>)
      requires Ok(fs) && fs.Valid()
      modifies this`grants, bf`offs, bf.disk`data, bf.disk`log
      ensures Ok(fs) && (old(Healthy()) ==> Healthy())
      ensures |t| == fs.PerBlock() && (ok ==> TableRead(fs, b, t))
      ensures old(Healthy()) && fs.Inside(b) ==> ok
    {
      hide Splice, Decode, Healthy, Fs.Off, TableRead;
      OkFacts(fs);
      OffsetIs(fs, b);
      var idx := new byte[blk];
      ghost var p0, b0, healthy := bf.offs, idx[..], Healthy();
      ok := DevRead(fs, Offset(b), idx, 0, blk);
      t := Decode(idx[..]);
      if ok { WholeBlock(fs, p0, b, b0, idx[..], healthy); }
    }

    /** One call of ReadByIndex, for the table that lists the file from block k0 on. */
    method ReadLevel(ghost fs: Fs, ghost ib: seq<u32>, k0: nat, t: seq<u32>, past: u32, buf: array<byte>,
                     ghost b0: seq<byte>, ghost pos0: nat, at1: nat, len1: nat, pos1: nat)
      returns (ok: bool, at: nat, len: nat, pos: nat)
      requires Ok(fs) && fs.Valid() && fs.blk == blk && |ib| == N_BLOCKS && Level(fs, ib, t, k0)
      requires at1 + len1 <= buf.Length && pos1 == pos0 + at1 && fs.Size(k0) <= pos1 && (at1 == 0 || pos1 == fs.Size(k0))
      requires Shown(fs, ib, pos0, buf[..], at1) && Framed(b0, buf[..], 0, at1)
      modifies this`grants, bf`offs, bf.disk`data, bf.disk`log, buf
      ensures Ok(fs) && (old(Healthy()) ==> Healthy())
      ensures ok ==> var n := Min(len1, Room(fs.Size(k0 + |t|), pos1));
        at == at1 + n && len == len1 - n && pos == pos1 + n
      ensures ok ==> Shown(fs, ib, pos0, buf[..], at) && Framed(b0, buf[..], 0, at)
      ensures old(Healthy()) && Numbers(fs, t, pos1 - fs.Size(k0), len1) && fs.AllInside(t) ==> ok
      ensures 0 < len1 <= blk - pos1 % blk && pos1 < fs.Size(k0 + |t|) ==> k0 <= pos1 / blk < k0 + |t|
      ensures 0 < len1 <= blk - pos1 % blk && pos1 < fs.Size(k0 + |t|) ==>
        Accessed(fs, old(bf.offs), old(buf[..]), buf[..], fs.Off(t[pos1 / blk - k0]) + pos1 % blk, at1, len1, ok, old(Healthy()))
    {
      hide Fs.Size, Fs.Off, Placed, Splice, Framed, Shows, Accessed, Numbers, Starts, OnDisk, Ok, Healthy, Shown, Level, Delivers;
      fs.WholeBlocks(pos1, k0);
      fs.WholeBlocks(pos1, k0 + |t|);
      LevelSize(fs, ib, t, k0);
      var start := pos1 / blk - k0;
      LevelLeft(fs, t, k0, pos1);
      ghost var b, r := buf[..], pos1 % blk;
      ok, at, len, pos := ReadByIndex(fs, start, |t| - 1, t, past, buf, at1, len1, pos1);
      ghost var n := Min(len1, Left(fs, t, start, r));
      if start < |t| {
        NumbersLess(fs, t, fs.Size(start) + r, len1, n);
        Promised(fs, t, fs.Size(start) + r, n, buf[..], at1, ok, old(Healthy()));
        if ok { LevelShown(fs, ib, t, k0, pos0, at1, fs.Size(start) + r, n, b, buf[..]); }
      }
      if ok { FrameJoin(b0, b, buf[..], at1, n); }
      if ok && n == 0 { StillShown(fs, ib, pos0, b, buf[..], at1); }
    }

    /** The double indirect tables one by one. */
    method ReadDouble(ghost fs: Fs, ghost ib: seq<u32>, dind: u32, past: u32, buf: array<byte>, ghost b0: seq<byte>,
                      ghost pos0: nat, at1: nat, len1: nat, pos1: nat)
      returns (ok: bool, at: nat, len: nat, pos: nat)
      requires Ok(fs) && fs.Valid() && fs.blk == blk && |ib| == N_BLOCKS && dind == ib[DIND_BLOCK]
      requires at1 + len1 <= buf.Length && pos1 == pos0 + at1 && len1 > 0
      requires fs.Size(DoubleStart(fs, 0)) <= pos1 && (at1 == 0 || pos1 == fs.Size(DoubleStart(fs, 0)))
      requires Shown(fs, ib, pos0, buf[..], at1) && Framed(b0, buf[..], 0, at1)
      modifies this`grants, bf`offs, bf.disk`data, bf.disk`log, buf
      ensures Ok(fs) && (old(Healthy()) ==> Healthy())
      ensures ok ==> var n := Min(len1, Room(fs.Size(Reach(fs)), pos1));
        at == at1 + n && len == len1 - n && pos == pos1 + n
      ensures ok ==> Shown(fs, ib, pos0, buf[..], at) && Framed(b0, buf[..], 0, at)
      ensures old(Healthy()) && Sane(fs, ib, pos1, len1) && Mapped(fs, ib, pos1 + len1) ==> ok
    {
      hide Fs.Size, Fs.Off, Fs.Inside, Fs.AllInside, Framed, Accessed, Numbers, Ok, Healthy, Shown, Level, Table,
        DoubleTable, TableRead, Mapped, Sane, Lists, Reach, DoubleStart, Fs.PerBlock;
      ok, at, len, pos := true, at1, len1, pos1;
      ghost var healthy := Healthy();
      OkFacts(fs);
      DoubleReach(fs, 0);
      MappedTop(fs, ib, pos1 + len1);
      var t: seq<u32>;
      ok, t := ReadTable(fs, dind);
      var i := 0;
      while ok && len > 0 && i < blk / 4
        invariant i <= fs.PerBlock() && |t| == fs.PerBlock() && (ok ==> TableRead(fs, dind, t))
        invariant Ok(fs) && (healthy ==> Healthy())
        invariant ok ==> pos == pos0 + at && at1 <= at && at + len == at1 + len1
        invariant ok ==> pos == pos1 + Min(len1, Room(fs.Size(DoubleStart(fs, i)), pos1))
        invariant ok && len > 0 ==> fs.Size(DoubleStart(fs, i)) <= pos && (at == 0 || pos == fs.Size(DoubleStart(fs, i)))
        invariant ok ==> Shown(fs, ib, pos0, buf[..], at) && Framed(b0, buf[..], 0, at)
        invariant healthy && Sane(fs, ib, pos1, len1) && Mapped(fs, ib, pos1 + len1) ==> ok
      {
        DoubleAt(fs, i);
        MappedDouble(fs, ib, t, pos1 + len1, i);
        var t2: seq<u32>;
        ok, t2 := ReadTable(fs, t[i]);
        if ok {
          DoubleLevel(fs, ib, t, t2, i);
          SaneDouble(fs, ib, t, t2, i, pos1, len1, pos, len);
          ok, at, len, pos := ReadLevel(fs, ib, NDIR_BLOCKS + (i + 1) * (blk / 4), t2, past, buf, b0, pos0, at, len, pos);
        }
        i := i + 1;
      }
      DoubleReach(fs, i);
      ReachEnd(fs);
    }

    /** Reads up to len0 bytes of the file from pos0 on into buf; -1 on a device error.  mem1 and mem2
        say whether the allocations of the two table buffers succeed; `past` is the word after them.
        Callers pass 32-bit positions and lengths, so that no block index is truncated. */
    method ReadDataBlk(ghost fs: Fs, ib: seq<u32>, buf: array<byte>, len0: nat, pos0: nat,
                       mem1: bool, mem2: bool, past: u32) returns (r: int)
      requires Ok(fs) && fs.Valid() && |ib| == N_BLOCKS && len0 <= buf.Length && len0 < WORD && pos0 < WORD
      modifies this`grants, bf`offs, bf.disk`data, bf.disk`log, buf
      ensures Ok(fs)
      ensures r == -1 || r == Min(len0, Room(Limit(fs, mem1, mem2), pos0))
      ensures r > 0 ==> pos0 + r <= fs.Size(Reach(fs))
      ensures r >= 0 ==> Framed(old(buf[..]), buf[..], 0, r)
      ensures r >= 0 && Sane(fs, ib, pos0, r) ==> (Exact(fs, ib, pos0, buf[..r]) <==> Reachable(fs, ib, pos0, r))
      ensures old(Healthy()) && Sane(fs, ib, pos0, len0) && Mapped(fs, ib, pos0 + len0) ==> r != -1
      ensures 0 < len0 <= blk - pos0 % blk && pos0 < fs.Size(NDIR_BLOCKS) ==> pos0 / blk < NDIR_BLOCKS
      ensures 0 < len0 <= blk - pos0 % blk && pos0 < fs.Size(NDIR_BLOCKS) ==>
        Accessed(fs, old(bf.offs), old(buf[..]), buf[..], fs.Off(ib[pos0 / blk]) + pos0 % blk, 0, len0, r == len0, old(Healthy()))
    {
      hide Fs.Size, Fs.Off, Fs.Inside, Fs.AllInside, Framed, Accessed, Numbers, Ok, Healthy, Shown, Level, Table,
        TableRead, Mapped, Sane, Lists, Reach, DoubleStart, Reachable, Exact;
      OkFacts(fs);
      DoubleReach(fs, 0);
      fs.SizeNext(0);
      fs.SizeMonotone(0, NDIR_BLOCKS);
      fs.SizeMonotone(NDIR_BLOCKS, DoubleStart(fs, 0));
      MappedTop(fs, ib, pos0 + len0);
      DirectLevel(fs, ib);
      DirectLists(fs, ib);
      SaneTable(fs, ib, ib[..NDIR_BLOCKS], 0, pos0, len0, pos0, len0);
      NothingRead(fs, ib, buf[..], pos0);
      fs.WholeBlocks(pos0, NDIR_BLOCKS);
      SmallRead(fs, pos0, len0);
      ghost var b0 := buf[..];
      var ok, at, len, pos := ReadLevel(fs, ib, 0, ib[..NDIR_BLOCKS], ib[NDIR_BLOCKS], buf, b0, pos0, 0, len0, pos0);
      if ok && len > 0 && mem1 {
        var t: seq<u32>;
        ok, t := ReadTable(fs, ib[IND_BLOCK]);
        if ok {
          IndirectLevel(fs, ib, t);
          TableInside(fs, ib[IND_BLOCK], t);
          SaneTable(fs, ib, Table(fs, ib[IND_BLOCK]), NDIR_BLOCKS, pos0, len0, pos, len);
          ok, at, len, pos := ReadLevel(fs, ib, NDIR_BLOCKS, t, past, buf, b0, pos0, at, len, pos);
        }
        if ok && len > 0 && mem2 {
          SaneLess(fs, ib, pos0, len0, pos, len);
          ok, at, len, pos := ReadDouble(fs, ib, ib[DIND_BLOCK], past, buf, b0, pos0, at, len, pos);
        }
      }
      if ok { ShownExact(fs, ib, pos0, buf[..], at); }
      r := if ok then len0 - len else -1;
    }
  }

  /** What a successful read of an index block gives, unless it starts past the end of the device. */
  predicate TableRead(fs: Fs, b: u32, t: seq<u32>)
    requires fs.Valid()
  {
    fs.Off(b) <= |fs.disk| ==> fs.Inside(b) && t == Table(fs, b)
  }

  lemma WholeBlock(fs: Fs, p0: nat, b: u32, b0: seq<byte>, b1: seq<byte>, healthy: bool)
    requires fs.Valid() && |b0| == fs.blk && |b1| == fs.blk
    requires Accessed(fs, p0, b0, b1, fs.Off(b), 0, fs.blk, true, healthy)
    ensures TableRead(fs, b, Decode(b1))
  {
    hide Fs.Off, Decode;
    var off := fs.Off(b);
    if off <= |fs.disk| {
      assert fs.Device(off, fs.blk) == fs.disk[off..off + fs.blk];
      assert Splice(b0, 0, fs.disk[off..off + fs.blk]) == fs.disk[off..off + fs.blk];
    }
  }

  lemma NumbersLess(fs: Fs, t: seq<u32>, q: nat, n: nat, n': nat)
    requires n' <= n
    ensures Numbers(fs, t, q, n) ==> Numbers(fs, t, q, n')
  {
    hide Fs.Size;
  }

  lemma Promised(fs: Fs, t: seq<u32>, q: nat, n: nat, b: seq<byte>, at: nat, ok: bool, healthy: bool)
    requires fs.Valid() && Delivers(fs, t, q, n, b, at, ok, healthy)
    ensures q + n <= fs.Size(|t|) && (ok && Numbers(fs, t, q, n) && Starts(fs, t, q, n) ==> Shows(fs, t, b, at, q, n))
    ensures healthy && Numbers(fs, t, q, n) && fs.AllInside(t) ==> ok
  {
    if fs.AllInside(t) { InsideOnDisk(fs, t, q, n); }
  }

  /** The table is one of the tables of the file, listing its blocks from k0 on, if the index blocks through
      which it was found start on the device. */
  ghost predicate Level(fs: Fs, ib: seq<u32>, t: seq<u32>, k0: nat)
    requires fs.Valid() && |ib| == N_BLOCKS
  {
    && |t| > 0 && k0 + |t| <= Reach(fs)
    && (forall k | k0 <= k < k0 + |t| ::
          IndexStarts(fs, ib, k) == IndexStarts(fs, ib, k0) && IndexInside(fs, ib, k) == IndexInside(fs, ib, k0))
    && (IndexStarts(fs, ib, k0) ==> IndexInside(fs, ib, k0) && Lists(fs, ib, t, k0))
  }

  /** The n bytes read from p on are those of the file, if they can be read right at all. */
  ghost predicate Shown(fs: Fs, ib: seq<u32>, p: nat, b: seq<byte>, n: nat)
    requires fs.Valid() && |ib| == N_BLOCKS
  {
    && n <= |b| && (n == 0 || p + n <= fs.Size(Reach(fs)))
    && (Sane(fs, ib, p, n) && Reachable(fs, ib, p, n) ==> Exact(fs, ib, p, b[..n]))
  }

  lemma FrameJoin(b0: seq<byte>, b: seq<byte>, b1: seq<byte>, at: nat, n: nat)
    requires Framed(b0, b, 0, at) && Framed(b, b1, at, n)
    ensures Framed(b0, b1, 0, at + n)
  {
  }

  lemma StillShown(fs: Fs, ib: seq<u32>, p: nat, b: seq<byte>, b1: seq<byte>, at: nat)
    requires fs.Valid() && |ib| == N_BLOCKS && Shown(fs, ib, p, b, at) && Framed(b, b1, at, 0)
    ensures Shown(fs, ib, p, b1, at)
  {
    hide Fs.Size, Exact, Reachable, Sane, Reach;
    assert b1 == b;
  }

  /** How much of the table is left from a position of the file on. */
  lemma LevelLeft(fs: Fs, t: seq<u32>, k0: nat, pos: nat)
    requires fs.Valid() && fs.Size(k0) <= pos && k0 <= pos / fs.blk
    ensures Left(fs, t, pos / fs.blk - k0, pos % fs.blk) == Room(fs.Size(k0 + |t|), pos)
    ensures fs.Size(pos / fs.blk - k0) + pos % fs.blk == pos - fs.Size(k0)
  {
    hide Fs.Size;
    var start := pos / fs.blk - k0;
    fs.Split(pos);
    fs.WholeBlocks(pos, k0 + |t|);
    fs.SizeAdd(k0, start);
    fs.SizeAdd(k0, |t|);
    if start < |t| { LeftOver(fs, t, start, pos % fs.blk); }
  }

  lemma LevelSize(fs: Fs, ib: seq<u32>, t: seq<u32>, k0: nat)
    requires fs.Valid() && |ib| == N_BLOCKS && Level(fs, ib, t, k0)
    ensures |t| > 0 && fs.Size(k0 + |t|) <= fs.Size(Reach(fs))
  {
    hide Fs.Size, Reach;
    fs.SizeMonotone(k0 + |t|, Reach(fs));
  }

  /** The bytes that one table delivers continue those read before. */
  lemma LevelShown(fs: Fs, ib: seq<u32>, t: seq<u32>, k0: nat, pos0: nat, at: nat, q: nat, n: nat, b: seq<byte>, b1: seq<byte>)
    requires fs.Valid() && |ib| == N_BLOCKS && Level(fs, ib, t, k0) && Shown(fs, ib, pos0, b, at) && Framed(b, b1, at, n)
    requires q + n <= fs.Size(|t|) && fs.Size(k0) + q == pos0 + at && (at == 0 || q == 0)
    requires Numbers(fs, t, q, n) && Starts(fs, t, q, n) ==> Shows(fs, t, b1, at, q, n)
    ensures Shown(fs, ib, pos0, b1, at + n)
  {
    hide Fs.Size, Fs.Off, Placed, Numbers, Starts, Shows, Reach, FilePlace, IndexStarts, IndexInside, Lists, Sane, Level, StartsAt, ByteAt;
    LevelFits(fs, ib, t, k0, q, n);
    if Sane(fs, ib, pos0, at + n) && Reachable(fs, ib, pos0, at + n) {
      if n > 0 {
        LevelStarts(fs, ib, t, k0, pos0, at, q, n);
        LevelExact(fs, ib, t, k0, pos0, at, q, n, b1, b1[..at + n]);
      }
      KeptExact(fs, ib, pos0, at, n, b, b1, b1[..at + n]);
    }
  }

  lemma LevelFits(fs: Fs, ib: seq<u32>, t: seq<u32>, k0: nat, q: nat, n: nat)
    requires fs.Valid() && |ib| == N_BLOCKS && Level(fs, ib, t, k0) && q + n <= fs.Size(|t|)
    ensures fs.Size(k0) + q + n <= fs.Size(Reach(fs))
  {
    hide Fs.Size, Reach;
    fs.SizeAdd(k0, |t|);
    fs.SizeMonotone(k0 + |t|, Reach(fs));
  }

  /** A part of the file that can be read right is read from the right table, at places on the device. */
  lemma LevelStarts(fs: Fs, ib: seq<u32>, t: seq<u32>, k0: nat, pos0: nat, at: nat, q: nat, n: nat)
    requires fs.Valid() && |ib| == N_BLOCKS && Level(fs, ib, t, k0) && Sane(fs, ib, pos0, at + n) && n > 0
    requires q + n <= fs.Size(|t|) && fs.Size(k0) + q == pos0 + at && (at == 0 || q == 0)
    requires pos0 + at + n <= fs.Size(Reach(fs)) && Reachable(fs, ib, pos0, at + n)
    ensures IndexStarts(fs, ib, k0) && IndexInside(fs, ib, k0) && Lists(fs, ib, t, k0) && Numbers(fs, t, q, n) && Starts(fs, t, q, n)
  {
    hide Fs.Size, Fs.Off, Placed, Numbers, Reach, FilePlace, IndexStarts, IndexInside, Lists, Sane;
    var p := pos0 + at;
    LevelIndex(fs, k0, |t|, q);
    assert StartsAt(fs, ib, p);
    SaneTable(fs, ib, t, k0, pos0, at + n, p, n);
    forall y | q <= y < q + n && (y == q || y % fs.blk == 0) ensures Placed(fs, t, y) <= |fs.disk| {
      ListedPlace(fs, ib, t, k0, y);
      assert StartsAt(fs, ib, fs.Size(k0) + y);
    }
  }

  lemma LevelIndex(fs: Fs, k0: nat, m: nat, q: nat)
    requires fs.Valid() && q < fs.Size(m)
    ensures k0 <= (fs.Size(k0) + q) / fs.blk < k0 + m && (fs.Size(k0) + q) % fs.blk == q % fs.blk
    ensures q == 0 ==> q % fs.blk == 0
  {
    hide Fs.Size;
    fs.Split(q);
    fs.WholeBlocks(q, m);
    fs.SizeAdd(k0, q / fs.blk);
    fs.SplitUnique(fs.Size(k0) + q, k0 + q / fs.blk, q % fs.blk);
  }

  lemma LevelExact(fs: Fs, ib: seq<u32>, t: seq<u32>, k0: nat, pos0: nat, at: nat, q: nat, n: nat, b: seq<byte>, s: seq<byte>)
    requires fs.Valid() && |ib| == N_BLOCKS && Level(fs, ib, t, k0) && IndexStarts(fs, ib, k0)
    requires at + n <= |b| && s == b[..at + n]
    requires q + n <= fs.Size(|t|) && fs.Size(k0) + q == pos0 + at && pos0 + at + n <= fs.Size(Reach(fs))
    requires Shows(fs, t, b, at, q, n)
    ensures forall x | pos0 + at <= x < pos0 + at + n :: ByteAt(fs, ib, pos0, s, x)
  {
    hide Fs.Size, Fs.Off, Placed, Reach, FilePlace, IndexStarts, IndexInside, Lists;
    forall x | pos0 + at <= x < pos0 + at + n ensures ByteAt(fs, ib, pos0, s, x) {
      var y := x - fs.Size(k0);
      ListedPlace(fs, ib, t, k0, y);
      fs.WholeBlocks(x, Reach(fs));
      assert Placed(fs, t, y) < |fs.disk|;
    }
  }

  lemma KeptExact(fs: Fs, ib: seq<u32>, p: nat, at: nat, n: nat, b: seq<byte>, b1: seq<byte>, s: seq<byte>)
    requires fs.Valid() && |ib| == N_BLOCKS && Sane(fs, ib, p, at + n) && Shown(fs, ib, p, b, at) && Framed(b, b1, at, n)
    requires (at + n == 0 || p + at + n <= fs.Size(Reach(fs))) && Reachable(fs, ib, p, at + n)
    requires s == b1[..at + n] && (n > 0 ==> forall x | p + at <= x < p + at + n :: ByteAt(fs, ib, p, s, x))
    ensures Exact(fs, ib, p, s)
  {
    hide Fs.Size, Reach, FilePlace, IndexInside, Sane, StartsAt;
    assert Reachable(fs, ib, p, at);
    SaneLess(fs, ib, p, at + n, p, at);
    forall x | p <= x < p + |s| ensures ByteAt(fs, ib, p, s, x) {
      if x < p + at { assert ByteAt(fs, ib, p, b[..at], x); }
    }
  }

  /** Where the tables that memory was found for end. */
  function Limit(fs: Fs, mem1: bool, mem2: bool): nat {
    fs.Size(if !mem1 then NDIR_BLOCKS else if !mem2 then NDIR_BLOCKS + fs.PerBlock() else Reach(fs))
  }

  lemma NothingRead(fs: Fs, ib: seq<u32>, b: seq<byte>, pos: nat)
    requires fs.Valid() && |ib| == N_BLOCKS
    ensures Shown(fs, ib, pos, b, 0) && Framed(b, b, 0, 0)
  {
    hide Fs.Size, Reach, Sane;
  }

  /** Exact bytes are read if and only if the condition holds under which they can be. */
  lemma ShownExact(fs: Fs, ib: seq<u32>, p: nat, b: seq<byte>, n: nat)
    requires fs.Valid() && |ib| == N_BLOCKS && Shown(fs, ib, p, b, n)
    ensures n <= |b| && (n > 0 ==> p + n <= fs.Size(Reach(fs)))
    ensures Sane(fs, ib, p, n) ==> (Exact(fs, ib, p, b[..n]) <==> Reachable(fs, ib, p, n))
  {
    hide Fs.Size, Reach, Sane, Exact, Reachable;
    if Exact(fs, ib, p, b[..n]) { ExactReachable(fs, ib, p, b[..n]); }
  }

  /** A read within one direct block does not go beyond the direct blocks. */
  lemma SmallRead(fs: Fs, pos: nat, len: nat)
    requires fs.Valid()
    ensures len <= fs.blk - pos % fs.blk && pos < fs.Size(NDIR_BLOCKS) ==> pos + len <= fs.Size(NDIR_BLOCKS)
  {
    hide Fs.Size;
    fs.Split(pos);
    fs.WholeBlocks(pos, NDIR_BLOCKS);
    if pos < fs.Size(NDIR_BLOCKS) {
      fs.SizeNext(pos / fs.blk);
      fs.SizeMonotone(pos / fs.blk + 1, NDIR_BLOCKS);
    }
  }

  lemma TableInside(fs: Fs, b: u32, t: seq<u32>)
    requires fs.Valid() && TableRead(fs, b, t)
    ensures fs.Inside(b) ==> t == Table(fs, b)
  {
  }

  lemma DoubleAt(fs: Fs, i: nat)
    requires fs.Valid() && i < fs.PerBlock()
    ensures fs.PerBlock() == fs.blk / 4 && NDIR_BLOCKS + (i + 1) * (fs.blk / 4) == DoubleStart(fs, i)
    ensures DoubleStart(fs, i + 1) == DoubleStart(fs, i) + fs.PerBlock()
    ensures fs.Size(DoubleStart(fs, i)) <= fs.Size(DoubleStart(fs, i + 1)) <= fs.Size(Reach(fs))
  {
    hide Fs.Size, DoubleStart, Reach;
    DoubleReach(fs, i);
    DoubleNext(fs, i);
    DoubleIs(fs, i);
  }

  /** The first block of the file that table i lists, as the source computes it. */
  lemma DoubleIs(fs: Fs, i: nat)
    ensures NDIR_BLOCKS + (i + 1) * (fs.blk / 4) == DoubleStart(fs, i)
  {
  }

  /** Tables on the device, found in a sane file, have no wrapping numbers. */
  lemma SaneDouble(fs: Fs, ib: seq<u32>, t: seq<u32>, t2: seq<u32>, i: nat, p: nat, n: nat, pos: nat, len: nat)
    requires fs.Valid() && |ib| == N_BLOCKS && |t| == |t2| == fs.PerBlock() && i < |t|
    requires TableRead(fs, t[i], t2) && p <= pos && pos + len <= p + n && fs.Size(DoubleStart(fs, i)) <= pos
    ensures Sane(fs, ib, p, n) && t == Table(fs, ib[DIND_BLOCK]) && fs.Inside(t[i]) && fs.AllInside(Table(fs, t[i])) ==>
      Numbers(fs, t2, pos - fs.Size(DoubleStart(fs, i)), len) && fs.AllInside(t2)
  {
    hide Table, FileBlock, Numbers, Lists, Sane, Fs.AllInside, Fs.Size;
    DoubleLists(fs, ib, i);
    if t == Table(fs, ib[DIND_BLOCK]) && fs.Inside(t[i]) {
      SaneTable(fs, ib, t2, DoubleStart(fs, i), p, n, pos, len);
    }
  }

  lemma ReachEnd(fs: Fs)
    ensures Reach(fs) == DoubleStart(fs, fs.PerBlock())
  {
    hide DoubleStart;
  }

  lemma DirectLevel(fs: Fs, ib: seq<u32>)
    requires fs.Valid() && |ib| == N_BLOCKS
    ensures Level(fs, ib, ib[..NDIR_BLOCKS], 0)
  {
    hide Table;
    DoubleReach(fs, 0);
    DirectLists(fs, ib);
  }

  lemma IndirectLevel(fs: Fs, ib: seq<u32>, t: seq<u32>)
    requires fs.Valid() && |ib| == N_BLOCKS && |t| == fs.PerBlock() && TableRead(fs, ib[IND_BLOCK], t)
    ensures Level(fs, ib, t, NDIR_BLOCKS)
  {
    hide Table, FileBlock;
    DoubleReach(fs, 0);
    DirectLists(fs, ib);
  }

  lemma DoubleLevel(fs: Fs, ib: seq<u32>, t: seq<u32>, t2: seq<u32>, i: nat)
    requires fs.Valid() && |ib| == N_BLOCKS && |t| == |t2| == fs.PerBlock() && i < |t|
    requires TableRead(fs, ib[DIND_BLOCK], t) && TableRead(fs, t[i], t2)
    ensures Level(fs, ib, t2, DoubleStart(fs, i))
  {
    hide Table, FileBlock, Fs.Off, Fs.Inside, Fs.PerBlock, Fs.Size, Lists, DoubleStart, Reach;
    var n, k0 := fs.PerBlock(), DoubleStart(fs, i);
    DoubleNext(fs, i);
    DoubleLists(fs, ib, i);
    DoubleEntry(fs, k0, i);
    forall k | k0 <= k < k0 + n
      ensures IndexStarts(fs, ib, k) == IndexStarts(fs, ib, k0) && IndexInside(fs, ib, k) == IndexInside(fs, ib, k0)
    {
      DoubleEntry(fs, k, i);
    }
  }

  lemma MappedTop(fs: Fs, ib: seq<u32>, upto: nat)
    requires fs.Valid() && |ib| == N_BLOCKS
    ensures Mapped(fs, ib, upto) ==> fs.AllInside(ib[..NDIR_BLOCKS])
    ensures Mapped(fs, ib, upto) && upto > fs.Size(NDIR_BLOCKS) ==>
      fs.Inside(ib[IND_BLOCK]) && fs.AllInside(Table(fs, ib[IND_BLOCK]))
    ensures Mapped(fs, ib, upto) && upto > fs.Size(DoubleStart(fs, 0)) ==> fs.Inside(ib[DIND_BLOCK])
  {
    hide Fs.Size, Fs.AllInside, Fs.Inside, Table, DoubleTable;
    assert DoubleStart(fs, 0) == NDIR_BLOCKS + fs.PerBlock();
  }

  lemma MappedDouble(fs: Fs, ib: seq<u32>, t: seq<u32>, upto: nat, i: nat)
    requires fs.Valid() && |ib| == N_BLOCKS && |t| == fs.PerBlock() && i < |t|
    ensures Mapped(fs, ib, upto) && upto > fs.Size(DoubleStart(fs, i)) && TableRead(fs, ib[DIND_BLOCK], t) ==>
      fs.Inside(t[i]) && fs.AllInside(Table(fs, t[i])) && t == Table(fs, ib[DIND_BLOCK])
  {
    hide Fs.AllInside, Table;
    DoubleReach(fs, i);
    fs.SizeMonotone(NDIR_BLOCKS + fs.PerBlock(), DoubleStart(fs, i));
  }

  /** What reading n bytes of the listed blocks from q on promises: exactly those bytes, if each block that
      the read comes to starts on the device, and success when all of them are on a device in order. */
  ghost predicate Delivers(fs: Fs, t: seq<u32>, q: nat, n: nat, b: seq<byte>, at: nat, ok: bool, healthy: bool)
    requires fs.Valid()
  {
    && q + n <= fs.Size(|t|)
    && (ok && Numbers(fs, t, q, n) && Starts(fs, t, q, n) ==> Shows(fs, t, b, at, q, n))
    && (healthy && Numbers(fs, t, q, n) && OnDisk(fs, t, q, n) ==> ok)
    && (n == 0 ==> ok)
  }

  lemma NothingYet(fs: Fs, t: seq<u32>, b: seq<byte>, at: nat)
    requires at <= |b|
    ensures Framed(b, b, at, 0)
  {
  }

  lemma NothingShown(fs: Fs, t: seq<u32>, b: seq<byte>, at: nat, q: nat)
    requires fs.Valid() && at <= |b| && q <= fs.Size(|t|)
    ensures Shows(fs, t, b, at, q, 0)
  {
  }

  /** The state at the first block: in the middle of it, at its start, or with less than the rest of it to read. */
  lemma FirstReady(fs: Fs, t: seq<u32>, start: nat, r: nat, len: nat, good: bool)
    requires fs.Valid() && start < |t| && r < fs.blk
    ensures var q, off := fs.Size(start) + r, fs.Off(t[start]) + r;
      && q <= fs.Size(|t|)
      && (fs.blk - r > len ==> Merging(fs, t, q, start, 0, len, len, off, true, good))
      && (fs.blk - r <= len && r == 0 ==> Merging(fs, t, q, start, 0, 0, len, off, true, good))
      && (fs.blk - r <= len ==> Ready(fs, t, q, fs.blk - r, off, true, good) && fs.blk - r <= Min(len, fs.Size(|t|) - q))
  {
    hide Fs.Size, Fs.Off, Pending;
    PendingRest(fs, t, start, r);
    PendingSpan(fs, t, fs.Size(start) + r, fs.Off(t[start]) + r, fs.blk - r);
    if fs.blk - r > len { PendingLess(fs, t, fs.Size(start) + r, fs.Off(t[start]) + r, fs.blk - r, len); }
    fs.SizeNext(0);
    RunRead(fs, t, start, 0, fs.Size(start), 0, fs.Off(t[start]));
  }

  lemma PendingSpan(fs: Fs, t: seq<u32>, q: nat, off: nat, size: nat)
    requires fs.Valid() && Pending(fs, t, q, off, size)
    ensures q + size <= fs.Size(|t|)
  {
  }

  lemma FirstDone(fs: Fs, t: seq<u32>, start: nat, r: nat, len: nat, next: nat, good: bool)
    requires fs.Valid() && start < |t| && r < fs.blk
    requires start + 1 < |t| ==> next == fs.Off(t[start + 1])
    ensures Merging(fs, t, fs.Size(start) + r + (fs.blk - r), start + 1, 0, 0, len, next, false, good)
  {
    hide Fs.Off, Pending;
    fs.SizeNext(start);
    fs.SizeNext(0);
    hide Fs.Size;
    RunRead(fs, t, start + 1, 0, fs.Size(start + 1), 0, next);
  }

  lemma Front(d: seq<byte>, end: nat, a: nat, b: nat)
    requires a <= b <= end <= |d|
    ensures d[..end][a..b] == d[a..b]
  {
  }

  /** Where the next pending byte is decides where the access starts; the last one, where it ends. */
  lemma FirstByte(fs: Fs, t: seq<u32>, q0: nat, done: nat, want: nat, off: nat, size: nat)
    requires fs.Valid() && q0 + want <= fs.Size(|t|) && 0 < size && done + size <= want
    requires Pending(fs, t, q0 + done, off, size) && (done == 0 || (q0 + done) % fs.blk == 0)
    ensures Starts(fs, t, q0, want) ==> off <= |fs.disk|
    ensures OnDisk(fs, t, q0, want) ==> off + size <= |fs.disk|
  {
    hide Fs.Size, Placed;
    assert Placed(fs, t, q0 + done) == off;
    assert Placed(fs, t, q0 + done + size - 1) == off + size - 1;
  }

  // ---------- A block number past the end of the device ----------

  /** The result of bfo_lseek is ignored: the first block of this file lies past the end of the device, and
      still the read succeeds, with the bytes at which the device file happened to stand. */
  method StrayBlock(e: Reader, ghost fs: Fs, ib: seq<u32>, buf: array<byte>) returns (r: int)
    requires e.Ok(fs) && fs.Valid() && e.Healthy() && |ib| == N_BLOCKS && e.blk <= buf.Length && e.blk < WORD
    requires fs.Off(ib[0]) > |fs.disk| && e.bf.offs + e.blk <= |fs.disk|
    modifies e`grants, e.bf`offs, e.bf.disk`data, e.bf.disk`log, buf
    ensures r == e.blk && buf[..e.blk] == fs.disk[old(e.bf.offs)..old(e.bf.offs) + e.blk]
    ensures e.blk <= fs.Size(Reach(fs)) && !Reachable(fs, ib, 0, e.blk)
  {
    assert |ib| == 15;
    hide *;
    ghost var p0, b0 := e.bf.offs, buf[..];
    e.OkFacts(fs);
    FirstPosition(fs);
    NotReachable(fs, ib);
    r := e.ReadDataBlk(fs, ib, buf, e.blk, 0, true, true, 0);
    Strayed(fs, p0, b0, buf[..], fs.Off(ib[0]), e.blk, r == e.blk);
  }

  lemma FirstPosition(fs: Fs)
    requires fs.Valid()
    ensures 0 / fs.blk == 0 && 0 % fs.blk == 0 && 0 < fs.Size(NDIR_BLOCKS)
  {
    fs.SizeNext(0);
    fs.SizeMonotone(1, NDIR_BLOCKS);
  }

  lemma Strayed(fs: Fs, p0: nat, b0: seq<byte>, b1: seq<byte>, off: nat, n: nat, ok: bool)
    requires n <= |b0| && Accessed(fs, p0, b0, b1, off, 0, n, ok, true) && |fs.disk| < off && p0 + n <= |fs.disk|
    ensures ok && n <= |b1| && b1[..n] == fs.disk[p0..p0 + n]
  {
    assert Splice(b0, 0, fs.disk[p0..p0 + n])[..n] == fs.disk[p0..p0 + n];
  }

  lemma NotReachable(fs: Fs, ib: seq<u32>)
    requires fs.Valid() && |ib| == N_BLOCKS && fs.Off(ib[0]) > |fs.disk|
    ensures fs.blk <= fs.Size(Reach(fs)) && !Reachable(fs, ib, 0, fs.blk)
  {
    DoubleReach(fs, 0);
    fs.SizeNext(0);
    fs.SizeMonotone(1, Reach(fs));
    hide Fs.Size, Table, Reach;
    fs.WholeBlocks(0, Reach(fs));
    assert !StartsAt(fs, ib, 0);
  }
}

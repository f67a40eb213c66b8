/** The file system image as a mathematical object: a boot block with directory entries, inode
    blocks and data blocks, and the byte sequence each inode stands for. */
module FileImage {
  import opened CTypes

  const BLOCK := 4096
  const NAME_LENGTH := 32
  const DENTRY_SIZE := 64
  const MAX_DENTRIES := 63

  const RTC_TYPE := 0
  const DIR_TYPE := 1
  const FILE_TYPE := 2

  /** Little-endian 32-bit word at `off`. */
  function Word(image: seq<byte>, off: int): (w: int)
    requires 0 <= off && off + 4 <= |image|
    ensures 0 <= w < 0x1_0000_0000
  {
    var b0: int, b1: int, b2: int, b3: int := image[off], image[off + 1], image[off + 2], image[off + 3];
    b0 + 0x100 * b1 + 0x1_0000 * b2 + 0x100_0000 * b3
  }

  datatype Geometry = Geometry(dentries: int, inodes: int, blocks: int)
  {
    function InodeAt(i: int): int { BLOCK + i * BLOCK }
    function DataAt(): int { BLOCK + inodes * BLOCK }
    function Size(): int { BLOCK * (1 + inodes + blocks) }
  }

  /** The image is as large as its boot block says. */
  predicate Fits(image: seq<byte>, g: Geometry) {
    0 <= g.dentries <= MAX_DENTRIES && 0 <= g.inodes && 0 <= g.blocks && g.Size() <= |image| < 0x1_0000_0000
  }

  function InodeLength(image: seq<byte>, g: Geometry, inode: int): int
    requires Fits(image, g) && 0 <= inode < g.inodes
  {
    Word(image, g.InodeAt(inode))
  }

  /** The k-th block number listed in an inode; the list shares the inode's block. */
  function BlockNumber(image: seq<byte>, g: Geometry, inode: int, k: int): int
    requires Fits(image, g) && 0 <= inode < g.inodes && 0 <= k < BLOCK / 4 - 1
  {
    Word(image, g.InodeAt(inode) + 4 + 4 * k)
  }

  /** All the block numbers a reader may follow are listed and lead to data blocks. */
  ghost predicate WellFormed(image: seq<byte>, g: Geometry, inode: int) {
    && Fits(image, g) && 0 <= inode < g.inodes
    && InodeLength(image, g, inode) / BLOCK < BLOCK / 4 - 1
    && forall k :: 0 <= k <= InodeLength(image, g, inode) / BLOCK ==> BlockNumber(image, g, inode, k) < g.blocks
  }

  /** Where byte `j` of a file is in the image. */
  function ByteAt(image: seq<byte>, g: Geometry, inode: int, j: int): int
    requires Fits(image, g) && 0 <= inode < g.inodes && 0 <= j && j / BLOCK < BLOCK / 4 - 1
  {
    g.DataAt() + BLOCK * BlockNumber(image, g, inode, j / BLOCK) + j % BLOCK
  }

  /** The end of a file as the reader sees it: one byte past the recorded length, since the
      source's end-of-file tests are `>`. */
  function End(image: seq<byte>, g: Geometry, inode: int): int
    requires Fits(image, g) && 0 <= inode < g.inodes
  {
    InodeLength(image, g, inode) + 1
  }

  lemma ByteInImage(image: seq<byte>, g: Geometry, inode: int, j: int)
    requires WellFormed(image, g, inode) && 0 <= j < End(image, g, inode)
    ensures j / BLOCK < BLOCK / 4 - 1 && 0 <= ByteAt(image, g, inode, j) < |image|
  {
    assert j / BLOCK <= InodeLength(image, g, inode) / BLOCK;
  }

  /** The bytes of a file. */
  ghost function Content(image: seq<byte>, g: Geometry, inode: int): (c: seq<byte>)
    requires WellFormed(image, g, inode)
    ensures |c| == End(image, g, inode)
  {
    seq(End(image, g, inode), j requires 0 <= j < End(image, g, inode) =>
      ByteInImage(image, g, inode, j); image[ByteAt(image, g, inode, j)])
  }

  /** The first `k` data blocks of a file, joined. */
  ghost function Joined(image: seq<byte>, g: Geometry, inode: int, k: nat): (r: seq<byte>)
    requires WellFormed(image, g, inode) && k <= InodeLength(image, g, inode) / BLOCK + 1
    ensures |r| == BLOCK * k
  {
    if k == 0 then [] else
    var at := g.DataAt() + BLOCK * BlockNumber(image, g, inode, k - 1);
    Joined(image, g, inode, k - 1) + image[at..at + BLOCK]
  }

  lemma BlockInImage(image: seq<byte>, g: Geometry, inode: int, k: int)
    requires WellFormed(image, g, inode) && 0 <= k <= InodeLength(image, g, inode) / BLOCK
    ensures k < BLOCK / 4 - 1
    ensures 0 <= g.DataAt() + BLOCK * BlockNumber(image, g, inode, k)
    ensures g.DataAt() + BLOCK * BlockNumber(image, g, inode, k) + BLOCK <= |image|
  {
    hide Word;
  }

  lemma {:induction false} JoinedAt(image: seq<byte>, g: Geometry, inode: int, k: nat, j: nat)
    requires WellFormed(image, g, inode) && k <= InodeLength(image, g, inode) / BLOCK + 1 && j < BLOCK * k
    ensures j / BLOCK < BLOCK / 4 - 1 && 0 <= ByteAt(image, g, inode, j) < |image|
    ensures Joined(image, g, inode, k)[j] == image[ByteAt(image, g, inode, j)]
    decreases k
  {
    hide Word, BlockNumber, InodeLength;
    BlockInImage(image, g, inode, k - 1);
    if j < BLOCK * (k - 1) {
      JoinedAt(image, g, inode, k - 1, j);
    } else {
      assert j / BLOCK == k - 1 && j % BLOCK == j - BLOCK * (k - 1);
    }
  }

  /** A file is its blocks in the order its inode lists them, cut at its end. */
  lemma ContentIsJoined(image: seq<byte>, g: Geometry, inode: int)
    requires WellFormed(image, g, inode)
    ensures var k := InodeLength(image, g, inode) / BLOCK + 1;
            End(image, g, inode) <= BLOCK * k &&
            Content(image, g, inode) == Joined(image, g, inode, k)[..End(image, g, inode)]
  {
    var k, e := InodeLength(image, g, inode) / BLOCK + 1, End(image, g, inode);
    assert e <= BLOCK * k;
    forall j | 0 <= j < e
      ensures Content(image, g, inode)[j] == Joined(image, g, inode, k)[j]
    {
      ByteInImage(image, g, inode, j);
      JoinedAt(image, g, inode, k, j);
    }
  }

  /** What a read of `n` bytes at `offset` is to deliver. */
  ghost function Slice(c: seq<byte>, offset: int, n: int): seq<byte>
    requires 0 <= offset && 0 <= n
  {
    if offset >= |c| then [] else c[offset..if n < |c| - offset then offset + n else |c|]
  }
}

module FileReader {
  import opened CTypes
  import opened FileImage

  /** The running block address of `read_data`: it belongs to the file's block number `k`. */
  ghost predicate AtBlock(image: seq<byte>, g: Geometry, inode: int, k: int, addr: int)
    requires WellFormed(image, g, inode)
  {
    && 0 <= k <= InodeLength(image, g, inode) / BLOCK
    && addr == g.DataAt() + BLOCK * BlockNumber(image, g, inode, k)
  }

  /** Byte `at` of a file is in its block number `k`. */
  ghost predicate Holds(k: int, at: int) { k == at / BLOCK }

  /** Move to the block of byte `at`, one further on if it is not the current one, and fetch it. */
  method FetchByte(image: seq<byte>, g: Geometry, inode: int, at: int, start: int, next0: int, k0: int, addr0: int)
    returns (next: int, k: int, addr: int, b: byte)
    requires WellFormed(image, g, inode) && 0 <= at < End(image, g, inode)
    requires AtBlock(image, g, inode, k0, addr0) && k0 == start + next0 - 1
    requires Holds(k0, at) || (at > 0 && Holds(k0, at - 1))
    ensures AtBlock(image, g, inode, k, addr) && k == start + next - 1 && Holds(k, at)
    ensures b == Content(image, g, inode)[at]
  {
    hide Word;
    assert Content(image, g, inode)[at] == image[ByteAt(image, g, inode, at)] by {
      ByteInImage(image, g, inode, at);
    }
    next, k, addr := next0, k0, addr0;
    ByteInImage(image, g, inode, at);
    if at / BLOCK != k {
      assert at / BLOCK == start + next;
      addr := g.DataAt() + BLOCK * Word(image, g.InodeAt(inode) + 4 + (start + next) * 4);
      next := next + 1;
      k := at / BLOCK;
    }
    assert addr + at % BLOCK == ByteAt(image, g, inode, at);
    b := image[addr + at % BLOCK];
  }

  /** The block the offset is in. */
  method FirstBlock(image: seq<byte>, g: Geometry, inode: int, offset: int) returns (k: int, addr: int)
    requires WellFormed(image, g, inode) && 0 <= offset < End(image, g, inode)
    ensures AtBlock(image, g, inode, k, addr) && Holds(k, offset)
  {
    ByteInImage(image, g, inode, offset);
    k := offset / BLOCK;
    addr := g.DataAt() + BLOCK * Word(image, g.InodeAt(inode) + (k + 1) * 4);
  }

  /** `read_data`: a byte loop with a running block address. */
  method ReadData(image: seq<byte>, g: Geometry, inode: int, offset: int, buf: array<byte>, length: int)
    returns (r: int)
    requires Fits(image, g) && 0 <= inode && 0 <= offset && 0 <= length
    requires inode < g.inodes ==> WellFormed(image, g, inode)
    requires inode < g.inodes ==> |Slice(Content(image, g, inode), offset, length)| <= buf.Length
    modifies buf
    ensures inode >= g.inodes ==> r == 0
    ensures inode < g.inodes ==> var s := Slice(Content(image, g, inode), offset, length); r == |s| && buf[..r] == s
    ensures inode < g.inodes ==>
              var c := Content(image, g, inode);
              && r == (if offset > InodeLength(image, g, inode) then 0
                       else if length < |c| - offset then length else |c| - offset)
              && r <= buf.Length && forall i :: 0 <= i < r ==> buf[i] == c[offset + i]
    ensures 0 <= r <= buf.Length && buf[r..] == old(buf[r..])
  {
    hide Content, Word;
    if inode >= g.inodes {
      return 0;
    }
    var fileLength := InodeLength(image, g, inode);
    if offset > fileLength {
      return 0;
    }
    r := CopyBytes(image, g, inode, offset, buf, length, fileLength);
  }

  /** The byte loop of `read_data`. */
  method CopyBytes(
    image: seq<byte>, g: Geometry, inode: int, offset: int, buf: array<byte>, length: int, fileLength: int)
    returns (r: int)
    requires WellFormed(image, g, inode) && 0 <= length
    requires 0 <= offset <= fileLength == InodeLength(image, g, inode)
    requires length <= buf.Length || fileLength + 1 - offset <= buf.Length
    modifies buf
    ensures r == if length < fileLength + 1 - offset then length else fileLength + 1 - offset
    ensures 0 <= r <= buf.Length && buf[..r] == Content(image, g, inode)[offset..offset + r]
    ensures buf[r..] == old(buf[r..])
  {
    ghost var c, was := Content(image, g, inode), buf[..];
    var start, addr := FirstBlock(image, g, inode, offset);
    var next, k := 1, start;
    r := 0;
    while r < length
      invariant 0 <= r <= length && offset + r <= fileLength + 1 && r <= buf.Length
      invariant AtBlock(image, g, inode, k, addr) && k == start + next - 1
      invariant Holds(k, if r == 0 then offset else offset + r - 1)
      invariant Copied(buf[..], was, c, offset, r)
    {
      hide AtBlock, Content, WellFormed, InodeLength, Holds, Copied;
      if r + offset > fileLength {
        break;
      }
      var b;
      next, k, addr, b := FetchByte(image, g, inode, offset + r, start, next, k, addr);
      CopiedOne(buf[..], was, c, offset, r, b);
      buf[r] := b;
      r := r + 1;
    }
    hide Content, WellFormed;
  }

  /** The first `r` bytes of the buffer are the file's from `offset` on, the others as they were. */
  ghost predicate Copied(v: seq<byte>, was: seq<byte>, c: seq<byte>, offset: int, r: int) {
    && |v| == |was| && 0 <= r <= |v| && 0 <= offset && offset + r <= |c|
    && v[..r] == c[offset..offset + r] && v[r..] == was[r..]
  }

  lemma CopiedOne(v: seq<byte>, was: seq<byte>, c: seq<byte>, offset: int, r: int, b: byte)
    requires Copied(v, was, c, offset, r) && r < |v| && offset + r < |c| && c[offset + r] == b
    ensures Copied(v[r := b], was, c, offset, r + 1)
  {
    assert v[r := b][..r + 1] == v[..r] + [b];
    assert v[r + 1..] == v[r..][1..] && was[r + 1..] == was[r..][1..];
  }
}

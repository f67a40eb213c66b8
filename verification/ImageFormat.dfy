/** The file system image as its format describes it, from numbers and names to bytes, and what the
    reading functions make of such an image. */
module ImageFormat {
  import opened CTypes
  import opened FileImage
  import opened CStrings
  import opened Directory

  /** The four bytes of a 32-bit number, lowest first. */
  function Bytes(v: uint32): (r: seq<byte>)
    ensures |r| == 4
  {
    [v % 256, v / 256 % 256, v / 65536 % 256, v / 16777216]
  }

  /** A number stored lowest byte first reads back as itself. */
  lemma WordReadsBack(image: seq<byte>, off: int, v: uint32)
    requires 0 <= off && off + 4 <= |image|
    requires image[off] == v % 256 && image[off + 1] == v / 256 % 256
    requires image[off + 2] == v / 65536 % 256 && image[off + 3] == v / 16777216
    ensures Word(image, off) == v
  {
    FourDigits(v);
  }

  lemma FourDigits(v: int)
    requires 0 <= v
    ensures v == v % 256 + 256 * (v / 256 % 256) + 65536 * (v / 65536 % 256) + 16777216 * (v / 16777216)
  {
    TwoDigits(v);
    TwoDigits(v / 256);
    assert v / 256 / 65536 == v / 16777216;
  }

  lemma TwoDigits(v: int)
    requires 0 <= v
    ensures v / 65536 == v / 256 / 256 && v / 256 == v / 256 % 256 + 256 * (v / 65536)
  {
  }

  ghost predicate Holds(image: seq<byte>, off: int, v: uint32) {
    0 <= off && off + 4 <= |image| && image[off..off + 4] == Bytes(v)
  }

  lemma HeldWord(image: seq<byte>, off: int, v: uint32)
    requires Holds(image, off, v)
    ensures Word(image, off) == v
  {
    var b := image[off..off + 4];
    assert b[0] == image[off] && b[1] == image[off + 1] && b[2] == image[off + 2] && b[3] == image[off + 3];
    WordReadsBack(image, off, v);
  }

  /** An inode block with this length and these block numbers. */
  ghost predicate InodeHolds(image: seq<byte>, at: int, length: uint32, numbers: seq<uint32>) {
    && Holds(image, at, length)
    && forall k :: 0 <= k < |numbers| ==> Holds(image, at + 4 + 4 * k, numbers[k])
  }

  /** An image is large enough iff it has room for its boot block, its inodes and its data blocks. */
  lemma ImageFits(image: seq<byte>, g: Geometry)
    ensures Fits(image, g) <==>
            && 0 <= g.dentries <= 63 && 0 <= g.inodes && 0 <= g.blocks
            && 4096 + 4096 * g.inodes + 4096 * g.blocks <= |image| < 0x1_0000_0000
  {
  }

  lemma InodeReads(image: seq<byte>, g: Geometry, inode: int, length: uint32, numbers: seq<uint32>, k: int)
    requires Fits(image, g) && 0 <= inode < g.inodes && InodeHolds(image, 4096 + 4096 * inode, length, numbers)
    requires 0 <= k < |numbers| <= 1023
    ensures InodeLength(image, g, inode) == length && BlockNumber(image, g, inode, k) == numbers[k]
  {
    HeldWord(image, 4096 + 4096 * inode, length);
    HeldWord(image, 4096 + 4096 * inode + 4 + 4 * k, numbers[k]);
    hide Word, Holds;
  }

  /** A file read from a formatted image: byte j is byte j % 4096 of the data block listed in place
      j / 4096, the data blocks following the boot block and the inodes; one byte past the length
      is included. */
  lemma FormattedContent(image: seq<byte>, g: Geometry, inode: int, length: uint32, numbers: seq<uint32>)
    requires Fits(image, g) && 0 <= inode < g.inodes && InodeHolds(image, 4096 + 4096 * inode, length, numbers)
    requires |numbers| == length / 4096 + 1 <= 1023 && forall k :: 0 <= k < |numbers| ==> numbers[k] < g.blocks
    ensures WellFormed(image, g, inode) && |Content(image, g, inode)| == length + 1
    ensures forall j :: 0 <= j <= length ==>
              var at := 4096 + 4096 * g.inodes + 4096 * numbers[j / 4096] + j % 4096;
              0 <= at < |image| && Content(image, g, inode)[j] == image[at]
  {
    hide Word, InodeHolds;
    assert forall k :: 0 <= k < |numbers| ==> BlockNumber(image, g, inode, k) == numbers[k] by {
      forall k | 0 <= k < |numbers|
        ensures BlockNumber(image, g, inode, k) == numbers[k]
      {
        InodeReads(image, g, inode, length, numbers, k);
      }
    }
    InodeReads(image, g, inode, length, numbers, 0);
    hide BlockNumber, InodeLength;
    forall j | 0 <= j <= length
      ensures var at := 4096 + 4096 * g.inodes + 4096 * numbers[j / 4096] + j % 4096;
              0 <= at < |image| && Content(image, g, inode)[j] == image[at]
    {
      ByteInImage(image, g, inode, j);
    }
  }

  /** A directory entry: a name of at most 32 bytes padded with NULs, a type and an inode number. */
  lemma EntryReads(d: seq<byte>, name: seq<byte>, fileType: uint32, inode: uint32)
    requires IsDentry(d) && |name| <= 32 && NUL !in name && d[..|name|] == name
    requires forall i :: |name| <= i < 32 ==> d[i] == NUL
    requires Holds(d, 32, fileType) && Holds(d, 36, inode)
    ensures NameOf(d) == name && TypeOf(d) == fileType && InodeOf(d) == inode
  {
    HeldWord(d, 32, fileType);
    HeldWord(d, 36, inode);
    hide Word, Holds, CString;
    assert d[..32][..|name|] == name;
    CStringUnique(d[..32], |name|);
  }
}

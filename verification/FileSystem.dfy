/**
 The read-only file system image as 32-bit little-endian words: a boot block, index nodes, data blocks.
 A file is the flat byte sequence its index node spells out; reads are compared with it.
 */
module FileSystem {
  import opened Arith
  import opened Bytes

  const WORDS := 1024           // words in a 4 KB block
  const BLOCK_SIZE := 4096
  const NUM_DATA_BLOCKS := 1023
  const FAILED: word := 0xFFFF_FFFF

  // ----- The flat file -----

  function InodeCount(img: seq<word>): word
    requires |img| >= WORDS
  {
    img[1]
  }

  function Inode(inode: nat): nat {
    (inode + 1) * WORDS
  }

  /** Number of data blocks the length of a file asks for. */
  function BlocksOf(length: nat): nat {
    (length + BLOCK_SIZE - 1) / BLOCK_SIZE
  }

  ghost predicate InodeOk(img: seq<word>, inode: nat)
    requires |img| >= WORDS
  {
    && Inode(inode) + WORDS < |img|
    && img[Inode(inode)] <= NUM_DATA_BLOCKS * BLOCK_SIZE
    && forall j :: 0 <= j < BlocksOf(img[Inode(inode)]) ==> BlockOk(img, inode, j)
  }

  ghost predicate BlockOk(img: seq<word>, inode: nat, j: nat)
    requires |img| >= WORDS && Inode(inode) + WORDS < |img|
  {
    j < NUM_DATA_BLOCKS && (InodeCount(img) + 1 + img[Inode(inode) + 1 + j]) * WORDS + WORDS <= |img|
  }

  /** An image: whole blocks, at most 4 GB, at least one data block, sound index nodes. */
  ghost predicate ValidImage(img: seq<word>) {
    && WORDS <= |img| <= 0x4000_0000
    && (InodeCount(img) + 2) * WORDS <= |img|
    && forall i :: 0 <= i < InodeCount(img) ==> InodeOk(img, i)
  }

  function FileLength(img: seq<word>, inode: nat): word
    requires |img| >= WORDS && Inode(inode) < |img|
  {
    img[Inode(inode)]
  }

  /** Byte i of a word, least significant first. */
  function ByteOf(w: word, i: nat): (b: byte)
    requires i < 4
  {
    if i == 0 then w % 0x100
    else if i == 1 then w / 0x100 % 0x100
    else if i == 2 then w / 0x1_0000 % 0x100
    else w / 0x100_0000
  }

  /** Word w of a file lies within the blocks of its index node. */
  ghost predicate InBlocks(img: seq<word>, inode: nat, w: nat)
    requires |img| >= WORDS && Inode(inode) < |img|
  {
    w / WORDS < BlocksOf(FileLength(img, inode))
  }

  function WordAddress(img: seq<word>, inode: nat, w: nat): int
    requires |img| >= WORDS && Inode(inode) + 1 + w / WORDS < |img|
  {
    (InodeCount(img) + 1 + img[Inode(inode) + 1 + w / WORDS]) * WORDS + w % WORDS
  }

  /** Byte k of the file. */
  ghost function FileByte(img: seq<word>, inode: nat, k: nat): byte
    requires ValidImage(img) && inode < InodeCount(img) && InBlocks(img, inode, k / 4)
  {
    assert InodeOk(img, inode) && BlockOk(img, inode, k / 4 / WORDS);
    ByteOf(img[WordAddress(img, inode, k / 4)], k % 4)
  }

  // ----- Which byte read_data delivers -----

  /** The word advances after every fourth byte read, whatever the alignment of the start. */
  function ReadIndex(offset: nat, k: nat): nat {
    4 * (offset / 4 + k / 4) + (offset + k) % 4
  }

  /** The k-th byte read is the right one exactly when no word boundary of the file was crossed since the
      last multiple of four bytes. */
  lemma ReadIndexIff(offset: nat, k: nat)
    ensures ReadIndex(offset, k) == offset + k <==> offset % 4 + k % 4 < 4
    ensures ReadIndex(offset, k) / 4 == offset / 4 + k / 4
    ensures ReadIndex(offset, k) % 4 == (offset + k) % 4
  {
    var a, b := offset % 4, k % 4;
    var q := offset / 4 + k / 4;
    assert offset + k == 4 * q + (a + b);
    DivModUnique(ReadIndex(offset, k), 4, q, (offset + k) % 4);
    if a + b < 4 {
      DivModUnique(offset + k, 4, q, a + b);
    } else {
      DivModUnique(offset + k, 4, q + 1, a + b - 4);
    }
  }

  /** A whole read is right exactly when it starts on a word boundary or stays inside one word. */
  lemma ReadRightIff(offset: nat, length: nat)
    ensures (forall k: nat :: k < length ==> ReadIndex(offset, k) == offset + k) <==> offset % 4 == 0 || offset % 4 + length <= 4
  {
    if offset % 4 == 0 || offset % 4 + length <= 4 {
      forall k: nat | k < length ensures ReadIndex(offset, k) == offset + k {
        ReadIndexIff(offset, k);
        if offset % 4 != 0 {
          ModSmall(k, 4);
        }
      }
    } else {
      var k := 4 - offset % 4;
      ReadIndexIff(offset, k);
      ModSmall(k, 4);
      assert k < length && ReadIndex(offset, k) != offset + k;
    }
  }

  // ----- read_data -----

  /** The words a read touches lie within the blocks of the file. */
  ghost predicate Readable(img: seq<word>, inode: nat, offset: nat, length: nat)
    requires |img| >= WORDS && Inode(inode) < |img|
  {
    length > 0 ==> InBlocks(img, inode, offset / 4 + (length - 1) / 4)
  }

  /** What read_data returns for a sound request: 0 when it reaches the largest possible file size. */
  function Returned(offset: nat, length: nat): nat {
    if length > 0 && offset / 4 + length / 4 >= NUM_DATA_BLOCKS * WORDS then 0 else length
  }

  lemma TouchedInBlocks(img: seq<word>, inode: nat, offset: nat, length: nat, k: nat)
    requires |img| >= WORDS && Inode(inode) < |img| && Readable(img, inode, offset, length) && k < length
    ensures InBlocks(img, inode, offset / 4 + k / 4)
    ensures ReadIndex(offset, k) / 4 == offset / 4 + k / 4
  {
    ReadIndexIff(offset, k);
    assert k / 4 <= (length - 1) / 4;
  }

  /** Position in words of the data block with a given index: a 32-bit product in bytes. */
  function BlockAddress(img: seq<word>, index: word): int
    requires |img| >= WORDS
  {
    (InodeCount(img) + 1) * WORDS + index * BLOCK_SIZE % 0x1_0000_0000 / 4
  }

  lemma BlockAddressIs(img: seq<word>, inode: nat, w: nat)
    requires ValidImage(img) && inode < InodeCount(img) && InBlocks(img, inode, w)
    ensures var j := w / WORDS;
            && j < NUM_DATA_BLOCKS && Inode(inode) + 1 + j < |img|
            && BlockAddress(img, img[Inode(inode) + 1 + j]) + w % WORDS == WordAddress(img, inode, w) < |img|
  {
    var j := w / WORDS;
    assert InodeOk(img, inode) && BlockOk(img, inode, j);
    var index := img[Inode(inode) + 1 + j];
    ModSmall(index * BLOCK_SIZE, 0x1_0000_0000);
    DivModUnique(index * BLOCK_SIZE, 4, index * WORDS, 0);
  }

  /** The byte taken out of word w of the file, which is word `pos` of its block `num`, is the one at ReadIndex. */
  lemma RightByte(img: seq<word>, inode: nat, offset: nat, length: nat, k: nat, w: nat, num: nat, pos: nat)
    requires ValidImage(img) && inode < InodeCount(img) && Readable(img, inode, offset, length) && k < length
    requires w == offset / 4 + k / 4 == num * WORDS + pos && pos < WORDS
    ensures num < NUM_DATA_BLOCKS && Inode(inode) + 1 + num < |img|
    ensures 0 <= BlockAddress(img, img[Inode(inode) + 1 + num]) + pos < |img|
    ensures InBlocks(img, inode, ReadIndex(offset, k) / 4)
    ensures ByteOf(img[BlockAddress(img, img[Inode(inode) + 1 + num]) + pos], (offset + k) % 4)
         == FileByte(img, inode, ReadIndex(offset, k))
  {
    TouchedInBlocks(img, inode, offset, length, k);
    DivModUnique(w, WORDS, num, pos);
    BlockAddressIs(img, inode, w);
    ReadIndexIff(offset, k);
  }

  /** The first k bytes of a buffer are those of the file at the places ReadIndex says. */
  ghost predicate Delivered(img: seq<word>, inode: nat, offset: nat, bs: seq<byte>, k: nat)
    requires ValidImage(img) && inode < InodeCount(img)
  {
    k <= |bs| && forall j :: 0 <= j < k ==>
      InBlocks(img, inode, ReadIndex(offset, j) / 4) && bs[j] == FileByte(img, inode, ReadIndex(offset, j))
  }

  lemma DeliveredNext(img: seq<word>, inode: nat, offset: nat, bs: seq<byte>, k: nat, b: byte)
    requires ValidImage(img) && inode < InodeCount(img) && Delivered(img, inode, offset, bs, k) && k < |bs|
    requires InBlocks(img, inode, ReadIndex(offset, k) / 4) && b == FileByte(img, inode, ReadIndex(offset, k))
    ensures Delivered(img, inode, offset, bs[k := b], k + 1)
  {
  }

  /** Shift and mask for one of the four bytes of a word. */
  method TakeByte(data: word, offset_in_address: int) returns (b: byte)
    requires 0 <= offset_in_address < 4
    ensures b == ByteOf(data, offset_in_address)
  {
    if offset_in_address == 0 {
      b := data % 0x100;
    } else if offset_in_address == 1 {
      b := data / 0x100 % 0x100;
    } else if offset_in_address == 2 {
      b := data / 0x1_0000 % 0x100;
    } else {
      b := data / 0x100_0000;
    }
  }

  lemma ReturnedIs(offset: nat, length: nat, num: nat, pos: nat)
    requires offset / 4 + length / 4 == num * WORDS + pos && pos < WORDS
    ensures Returned(offset, length) == if length > 0 && num >= NUM_DATA_BLOCKS then 0 else length
  {
  }

  /** read_data. A missing image, a null buffer and an inode number that is too large fail; an offset beyond the
      file reads nothing; otherwise every byte is delivered from where ReadIndex says. */
  method ReadData(img: seq<word>, mounted: bool, inode: word, offset: word, buf: array?<byte>, length: word) returns (r: word)
    requires mounted ==> ValidImage(img) && InodeCount(img) > 0
    requires mounted && buf != null && inode < InodeCount(img) && offset <= FileLength(img, inode) ==>
      buf.Length >= length && Readable(img, inode, offset, length)
    modifies buf
    ensures var failed := !mounted || buf == null || inode >= InodeCount(img);
            if failed then r == FAILED && (buf != null ==> unchanged(buf))
            else if offset > FileLength(img, inode) then r == 0 && unchanged(buf)
            else
              && r == Returned(offset, length)
              && Delivered(img, inode, offset, buf[..], length)
              && buf[length..] == old(buf[length..])
  {
    if !mounted || buf == null || inode > InodeCount(img) - 1 {
      return FAILED;
    }
    var i := Inode(inode);
    assert InodeOk(img, inode);
    if offset > img[i] {
      return 0;
    }
    var num_data_block: nat := offset / BLOCK_SIZE;
    var cur_datablock_index := img[i + 1 + offset / BLOCK_SIZE];
    var cur_datablock := BlockAddress(img, cur_datablock_index);
    var position_in_file: nat := offset % BLOCK_SIZE / 4;
    ghost var w: nat := offset / 4;
    StartPosition(offset);
    var bytes_read: nat := 0;
    assert Delivered(img, inode, offset, buf[..], 0);
    hide ValidImage, InodeOk, FileByte, ReadIndex, InBlocks, BlockAddress, Returned, Readable, Delivered;
    while bytes_read < length
      invariant 0 <= bytes_read <= length
      invariant w == offset / 4 + bytes_read / 4 == num_data_block * WORDS + position_in_file && position_in_file < WORDS
      invariant num_data_block <= NUM_DATA_BLOCKS && (bytes_read > 0 ==> num_data_block < NUM_DATA_BLOCKS)
      invariant cur_datablock == BlockAddress(img, img[i + 1 + num_data_block])
      invariant i + WORDS < |img| && Delivered(img, inode, offset, buf[..], bytes_read)
      invariant buf[length..] == old(buf[length..])
    {
      RightByte(img, inode, offset, length, bytes_read, w, num_data_block, position_in_file);
      var b := TakeByte(img[cur_datablock + position_in_file], (offset + bytes_read) % 4);
      DeliveredNext(img, inode, offset, buf[..], bytes_read, b);
      buf[bytes_read] := b;
      NextQuarter(bytes_read);
      if bytes_read % 4 == 3 {
        position_in_file := position_in_file + 1;
        w := w + 1;
      }
      if position_in_file >= BLOCK_SIZE / 4 {
        position_in_file := 0;
        num_data_block := num_data_block + 1;
        cur_datablock_index := img[i + 1 + num_data_block];
        cur_datablock := BlockAddress(img, cur_datablock_index);
      }
      bytes_read := bytes_read + 1;
      if num_data_block > NUM_DATA_BLOCKS - 1 {
        LastRead(img, inode, offset, length, bytes_read, w);
        ReturnedIs(offset, length, num_data_block, position_in_file);
        return 0;
      }
    }
    ReturnedIs(offset, length, num_data_block, position_in_file);
    return bytes_read;
  }

  /** The largest file size can only be reached by the last byte of a read that stays within the blocks. */
  lemma LastRead(img: seq<word>, inode: nat, offset: nat, length: nat, k: nat, w: nat)
    requires ValidImage(img) && inode < InodeCount(img) && Readable(img, inode, offset, length) && 0 < k <= length
    requires w == offset / 4 + k / 4 && w >= NUM_DATA_BLOCKS * WORDS
    ensures k == length
  {
    BlocksBound(img, inode);
    if k < length {
      TouchedInBlocks(img, inode, offset, length, k);
    }
  }

  lemma BlocksBound(img: seq<word>, inode: nat)
    requires ValidImage(img) && inode < InodeCount(img)
    ensures forall w: nat :: InBlocks(img, inode, w) ==> w < NUM_DATA_BLOCKS * WORDS
  {
    forall w: nat | InBlocks(img, inode, w) ensures w < NUM_DATA_BLOCKS * WORDS {
      assert InodeOk(img, inode) && BlockOk(img, inode, w / WORDS);
    }
  }

  lemma NextQuarter(k: nat)
    ensures (k + 1) / 4 == if k % 4 == 3 then k / 4 + 1 else k / 4
  {
  }

  lemma StartPosition(offset: nat)
    ensures offset / 4 == offset / BLOCK_SIZE * WORDS + offset % BLOCK_SIZE / 4 && offset % BLOCK_SIZE / 4 < WORDS
  {
    var b, r := offset / BLOCK_SIZE, offset % BLOCK_SIZE;
    assert offset == b * BLOCK_SIZE + r && r == 4 * (r / 4) + r % 4;
    DivModUnique(offset, 4, b * WORDS + r / 4, r % 4);
  }

  // ----- Reading a whole file in pieces -----

  lemma WithinBlocks(img: seq<word>, inode: nat, k: nat)
    requires ValidImage(img) && inode < InodeCount(img) && k < FileLength(img, inode)
    ensures InBlocks(img, inode, k / 4)
  {
    StartPosition(k);
    DivModUnique(k / 4, WORDS, k / BLOCK_SIZE, k % BLOCK_SIZE / 4);
    assert k / BLOCK_SIZE < BlocksOf(FileLength(img, inode));
  }

  /** The file as one byte sequence, from one position up to another. */
  ghost function FlatFile(img: seq<word>, inode: nat, from: nat, end: nat): (r: seq<byte>)
    requires ValidImage(img) && inode < InodeCount(img) && from <= end <= FileLength(img, inode)
    ensures |r| == end - from
    decreases end
  {
    if from == end then []
    else
      WithinBlocks(img, inode, end - 1);
      FlatFile(img, inode, from, end - 1) + [FileByte(img, inode, end - 1)]
  }

  lemma {:induction false} BytesAt(img: seq<word>, inode: nat, from: nat, end: nat, k: nat)
    requires ValidImage(img) && inode < InodeCount(img) && from <= end <= FileLength(img, inode) && k < end - from
    ensures InBlocks(img, inode, (from + k) / 4) && FlatFile(img, inode, from, end)[k] == FileByte(img, inode, from + k)
    decreases end
  {
    WithinBlocks(img, inode, from + k);
    if k < end - from - 1 {
      BytesAt(img, inode, from, end - 1, k);
    }
  }

  lemma {:induction false} BytesJoin(img: seq<word>, inode: nat, from: nat, mid: nat, end: nat)
    requires ValidImage(img) && inode < InodeCount(img) && from <= mid <= end <= FileLength(img, inode)
    ensures FlatFile(img, inode, from, mid) + FlatFile(img, inode, mid, end) == FlatFile(img, inode, from, end)
    decreases end
  {
    if mid == end {
      assert FlatFile(img, inode, from, mid) + [] == FlatFile(img, inode, from, mid);
    } else {
      BytesJoin(img, inode, from, mid, end - 1);
      WithinBlocks(img, inode, end - 1);
      var last := [FileByte(img, inode, end - 1)];
      assert FlatFile(img, inode, from, mid) + (FlatFile(img, inode, mid, end - 1) + last)
          == (FlatFile(img, inode, from, mid) + FlatFile(img, inode, mid, end - 1)) + last;
    }
  }

  /** A read that read_data gets right: on a word boundary or inside one word, and inside the file. */
  ghost predicate Sound(img: seq<word>, inode: nat, offset: nat, length: nat)
    requires ValidImage(img) && inode < InodeCount(img)
  {
    (offset % 4 == 0 || offset % 4 + length <= 4) && offset + length <= FileLength(img, inode)
  }

  /** For every valid image a sound read delivers exactly the file's bytes, across any number of blocks. */
  lemma SoundRead(img: seq<word>, inode: nat, offset: nat, bs: seq<byte>, length: nat)
    requires ValidImage(img) && inode < InodeCount(img) && Sound(img, inode, offset, length)
    requires Delivered(img, inode, offset, bs, length)
    ensures bs[..length] == FlatFile(img, inode, offset, offset + length)
  {
    forall k | 0 <= k < length ensures bs[k] == FlatFile(img, inode, offset, offset + length)[k] {
      ReadRightIff(offset, length);
      assert ReadIndex(offset, k) == offset + k;
      BytesAt(img, inode, offset, offset + length, k);
    }
  }

  /** A sound read is readable, and is answered with its length exactly when it is empty, or starts inside a word, or
      ends before the largest file size. */
  lemma SoundReadable(img: seq<word>, inode: nat, offset: nat, length: nat)
    requires ValidImage(img) && inode < InodeCount(img) && Sound(img, inode, offset, length)
    ensures Readable(img, inode, offset, length)
    ensures Returned(offset, length) == if BelowLargest(offset, length) then length else 0
    ensures Returned(offset, length) == length <==> BelowLargest(offset, length)
  {
    assert InodeOk(img, inode);
    ReadRightIff(offset, length);
    if length > 0 {
      ReadIndexIff(offset, length - 1);
      assert ReadIndex(offset, length - 1) == offset + (length - 1);
      WithinBlocks(img, inode, offset + length - 1);
      WordsRead(offset, length);
    }
  }

  lemma WordsRead(offset: nat, length: nat)
    requires length > 0 && (offset % 4 == 0 || offset % 4 + length <= 4)
    requires offset + length <= NUM_DATA_BLOCKS * BLOCK_SIZE
    ensures offset / 4 + length / 4 >= NUM_DATA_BLOCKS * WORDS <==> offset + length == NUM_DATA_BLOCKS * BLOCK_SIZE && offset % 4 == 0
  {
  }

  // ----- What a stored file reads back as -----

  /** The word whose bytes in memory order are a, b, c, d, as x86 stores words. */
  function Little(a: byte, b: byte, c: byte, d: byte): word {
    a + 0x100 * b + 0x1_0000 * c + 0x100_0000 * d
  }

  /** The four bytes taken out of a word make up the word. */
  lemma BytesMakeWord(w: word)
    ensures w == Little(ByteOf(w, 0), ByteOf(w, 1), ByteOf(w, 2), ByteOf(w, 3))
  {
    var q := w / 0x100;
    assert w == 0x100 * q + w % 0x100;
    assert q == 0x100 * (q / 0x100) + q % 0x100 && q / 0x100 == w / 0x1_0000;
  }

  lemma WordMakesBytes(a: byte, b: byte, c: byte, d: byte)
    ensures ByteOf(Little(a, b, c, d), 0) == a && ByteOf(Little(a, b, c, d), 1) == b
    ensures ByteOf(Little(a, b, c, d), 2) == c && ByteOf(Little(a, b, c, d), 3) == d
  {
    var w, low, high := Little(a, b, c, d), a + 0x100 * b, c + 0x100 * d;
    DivModUnique(w, 0x100, b + 0x100 * c + 0x1_0000 * d, a);
    DivModUnique(b + 0x100 * c + 0x1_0000 * d, 0x100, high, b);
    DivModUnique(w, 0x1_0000, high, low);
    DivModUnique(high, 0x100, d, c);
    DivModUnique(w, 0x100_0000, d, low + 0x1_0000 * c);
  }

  /** Four aligned bytes of a file denote the word of the image that its index node places there: boot block, index nodes,
      and data blocks, each of 1024 words, with the count of index nodes in word 1. */
  lemma FileWord(img: seq<word>, inode: nat, w: nat)
    requires ValidImage(img) && inode < InodeCount(img) && 4 * w + 4 <= FileLength(img, inode)
    ensures (inode + 1) * 1024 + 1 + w / 1024 < |img|
    ensures var at := (img[1] + 1 + img[(inode + 1) * 1024 + 1 + w / 1024]) * 1024 + w % 1024;
            var bs := FlatFile(img, inode, 4 * w, 4 * w + 4);
            at < |img| && img[at] == Little(bs[0], bs[1], bs[2], bs[3])
  {
    hide FlatFile, ByteOf, Little, InBlocks, FileByte, BlockAddress;
    WithinBlocks(img, inode, 4 * w);
    DivModUnique(4 * w, 4, w, 0);
    BlockAddressIs(img, inode, w);
    var word := img[WordAddress(img, inode, w)];
    FileWordByte(img, inode, w, 0);
    FileWordByte(img, inode, w, 1);
    FileWordByte(img, inode, w, 2);
    FileWordByte(img, inode, w, 3);
    BytesMakeWord(word);
  }

  lemma FileWordByte(img: seq<word>, inode: nat, w: nat, i: nat)
    requires ValidImage(img) && inode < InodeCount(img) && 4 * w + 4 <= FileLength(img, inode) && i < 4
    ensures InBlocks(img, inode, w) && Inode(inode) + 1 + w / WORDS < |img| && 0 <= WordAddress(img, inode, w) < |img|
    ensures FlatFile(img, inode, 4 * w, 4 * w + 4)[i] == ByteOf(img[WordAddress(img, inode, w)], i)
  {
    hide FlatFile, ByteOf, BlockAddress;
    BytesAt(img, inode, 4 * w, 4 * w + 4, i);
    DivModUnique(4 * w + i, 4, w, i);
    BlockAddressIs(img, inode, w);
    hide ValidImage, WordAddress, InBlocks;
  }

  /** The image holds the contents `full`, of which `length` bytes count, word by word where index node 0 says. */
  ghost predicate Stores(img: seq<word>, full: seq<byte>, length: nat) {
    && ValidImage(img) && InodeCount(img) > 0
    && FileLength(img, 0) == length <= |full| && |full| % 4 == 0
    && forall k :: 0 <= k < length ==> StoredAt(img, full, k / 4)
  }

  ghost predicate StoredAt(img: seq<word>, full: seq<byte>, w: nat)
    requires ValidImage(img)
  {
    && 4 * w + 4 <= |full| && 1024 + 1 + w / 1024 < |img|
    && var at := (img[1] + 1 + img[1024 + 1 + w / 1024]) * 1024 + w % 1024;
       at < |img| && img[at] == Little(full[4 * w], full[4 * w + 1], full[4 * w + 2], full[4 * w + 3])
  }

  /** What is stored is what the file is. */
  lemma StoredFileIsRead(img: seq<word>, full: seq<byte>, length: nat)
    requires Stores(img, full, length)
    ensures FlatFile(img, 0, 0, length) == full[..length]
  {
    forall k | 0 <= k < length ensures FlatFile(img, 0, 0, length)[k] == full[k] {
      StoredByte(img, full, length, k);
    }
  }

  lemma StoredByte(img: seq<word>, full: seq<byte>, length: nat, k: nat)
    requires Stores(img, full, length) && k < length
    ensures FlatFile(img, 0, 0, length)[k] == full[k]
  {
    BytesAt(img, 0, 0, length, k);
    var w := k / 4;
    assert StoredAt(img, full, w);
    WordMakesBytes(full[4 * w], full[4 * w + 1], full[4 * w + 2], full[4 * w + 3]);
    assert k == 4 * w + k % 4;
    hide FlatFile, ByteOf, Little;
  }

  /** An image for one file: its blocks are written from the last data block down. */
  function Mkfs(full: seq<byte>, length: nat): (img: seq<word>)
    requires length <= |full| && |full| % BLOCK_SIZE == 0 && |full| <= NUM_DATA_BLOCKS * BLOCK_SIZE
    ensures |img| == 2 * WORDS + |full| / 4 + WORDS
  {
    seq(2 * WORDS + |full| / 4 + WORDS, x requires 0 <= x < 2 * WORDS + |full| / 4 + WORDS => MkfsWord(full, length, x))
  }

  function MkfsWord(full: seq<byte>, length: nat, x: nat): word
    requires length <= |full| && |full| % BLOCK_SIZE == 0 && |full| <= NUM_DATA_BLOCKS * BLOCK_SIZE
  {
    var blocks := |full| / BLOCK_SIZE;
    if x == 1 then 1
    else if x == WORDS then length
    else if WORDS < x <= WORDS + blocks then blocks - (x - WORDS)
    else if 2 * WORDS <= x < 2 * WORDS + blocks * WORDS then
      var w := (blocks - 1 - (x / WORDS - 2)) * WORDS + x % WORDS;
      if 4 * w + 4 <= |full| then Little(full[4 * w], full[4 * w + 1], full[4 * w + 2], full[4 * w + 3]) else 0
    else 0
  }

  /** Every contents of up to the largest file size can be stored, and is read back. */
  lemma MkfsStores(full: seq<byte>, length: nat)
    requires length <= |full| && |full| % BLOCK_SIZE == 0 && |full| <= NUM_DATA_BLOCKS * BLOCK_SIZE
    ensures Stores(Mkfs(full, length), full, length)
    ensures FlatFile(Mkfs(full, length), 0, 0, length) == full[..length]
  {
    var img, blocks := Mkfs(full, length), |full| / BLOCK_SIZE;
    MkfsValid(full, length);
    forall k | 0 <= k < length ensures StoredAt(img, full, k / 4) {
      MkfsAt(full, length, k / 4);
    }
    assert Stores(img, full, length);
    StoredFileIsRead(img, full, length);
  }

  lemma MkfsValid(full: seq<byte>, length: nat)
    requires length <= |full| && |full| % BLOCK_SIZE == 0 && |full| <= NUM_DATA_BLOCKS * BLOCK_SIZE
    ensures var img := Mkfs(full, length); ValidImage(img) && InodeCount(img) == 1 && FileLength(img, 0) == length
  {
    var img, blocks := Mkfs(full, length), |full| / BLOCK_SIZE;
    assert |full| == blocks * BLOCK_SIZE && |img| == (3 + blocks) * WORDS;
    assert img[1] == 1 && img[WORDS] == length && BlocksOf(length) <= blocks;
    forall j | 0 <= j < BlocksOf(length) ensures BlockOk(img, 0, j) {
      assert img[WORDS + 1 + j] == blocks - 1 - j;
    }
    assert InodeOk(img, 0);
  }

  lemma MkfsAt(full: seq<byte>, length: nat, w: nat)
    requires length <= |full| && |full| % BLOCK_SIZE == 0 && |full| <= NUM_DATA_BLOCKS * BLOCK_SIZE
    requires 4 * w < |full|
    ensures ValidImage(Mkfs(full, length)) && StoredAt(Mkfs(full, length), full, w)
  {
    MkfsValid(full, length);
    var img, blocks := Mkfs(full, length), |full| / BLOCK_SIZE;
    var j := w / WORDS;
    assert j < blocks && 4 * w + 4 <= |full|;
    assert img[WORDS + 1 + j] == blocks - 1 - j;
    var at := (2 + (blocks - 1 - j)) * WORDS + w % WORDS;
    DivModUnique(at, WORDS, 2 + (blocks - 1 - j), w % WORDS);
    assert img[at] == MkfsWord(full, length, at);
    hide Mkfs, ValidImage, Little;
  }

  // ----- file_read -----

  /** The part of a file descriptor that file_read uses. */
  class OpenFile {
    const inode: word
    var filePosition: word

    constructor (inode: word)
      ensures this.inode == inode && filePosition == 0
    {
      this.inode := inode;
      filePosition := 0;
    }

    /** file_read. It does not stop at the end of the file: it answers with the number asked for. */
    method Read(img: seq<word>, buf: array<byte>, nbytes: word) returns (r: word)
      requires ValidImage(img) && inode < InodeCount(img) && buf.Length >= nbytes
      requires filePosition <= FileLength(img, inode) ==> Readable(img, inode, filePosition, nbytes)
      modifies `filePosition, buf
      ensures var len := FileLength(img, inode);
              if old(filePosition) >= len && len != 0 then
                r == 0 && filePosition == old(filePosition) && unchanged(buf)
              else if old(filePosition) > len then
                r == 0 && filePosition == old(filePosition) && unchanged(buf)
              else
                && r == Returned(old(filePosition), nbytes)
                && filePosition == (old(filePosition) + r) % 0x1_0000_0000
                && Delivered(img, inode, old(filePosition), buf[..], nbytes)
                && buf[nbytes..] == old(buf[nbytes..])
      ensures var len, position := FileLength(img, inode), old(filePosition);
              position < len ==> (r == Promised(len, position, nbytes) <==>
                nbytes <= len - position && (nbytes == 0 || position / 4 + nbytes / 4 < NUM_DATA_BLOCKS * WORDS))
    {
      var offset := filePosition;
      assert InodeOk(img, inode);
      var file_length := img[Inode(inode)];
      if offset >= file_length && file_length != 0 {
        return 0;
      }
      r := ReadData(img, true, inode, offset, buf, nbytes);
      filePosition := (filePosition + r) % 0x1_0000_0000;
      if r == 0 {
        ModSmall(offset, 0x1_0000_0000);
      }
      if offset < file_length {
        ReadClipsIff(img, inode, offset, nbytes);
      }
    }
  }

  /** The number of bytes promised: no more than the file still holds. */
  function Promised(length: nat, position: nat, nbytes: nat): nat {
    if position >= length then 0 else if nbytes < length - position then nbytes else length - position
  }

  /** From inside a file the answer is the promised number exactly when no more is asked for than the file still
      holds, and the loop does not run into the largest file size. */
  lemma ReadClipsIff(img: seq<word>, inode: nat, position: nat, nbytes: nat)
    requires ValidImage(img) && inode < InodeCount(img) && position < FileLength(img, inode)
    ensures Returned(position, nbytes) == Promised(FileLength(img, inode), position, nbytes) <==>
            && nbytes <= FileLength(img, inode) - position
            && (nbytes == 0 || position / 4 + nbytes / 4 < NUM_DATA_BLOCKS * WORDS)
  {
    assert InodeOk(img, inode);
  }

  /** An image whose only file holds the bytes 0 0 0 0 1 0 0 0. */
  function EightBytes(): (img: seq<word>)
    ensures |img| == 3 * WORDS && InodeCount(img) == 1 && FileLength(img, 0) == 8
  {
    seq(3 * WORDS, i => if i == 1 then 1 else if i == WORDS then 8 else if i == 2 * WORDS + 1 then 1 else 0)
  }

  lemma EightBytesValid()
    ensures ValidImage(EightBytes())
    ensures FileByte(EightBytes(), 0, 0) == 0 && FileByte(EightBytes(), 0, 4) == 1
  {
    var img := EightBytes();
    assert BlockOk(img, 0, 0) && BlocksOf(8) == 1;
    assert InodeOk(img, 0) by { hide BlockOk; }
    assert ValidImage(img) by { hide InodeOk, BlockOk; }
    assert InBlocks(img, 0, 0) && InBlocks(img, 0, 1);
    assert WordAddress(img, 0, 0) == 2 * WORDS && WordAddress(img, 0, 1) == 2 * WORDS + 1;
    hide ValidImage, InodeOk, BlockOk, WordAddress, InBlocks;
    assert FileByte(img, 0, 0) == ByteOf(0, 0) && FileByte(img, 0, 4) == ByteOf(1, 0);
  }

  /** Asked for 16 bytes of the 8-byte file, file_read answers 16, and puts the position behind the end. */
  method ReadPastEnd(buf: array<byte>) returns (r: word, position: word)
    requires buf.Length >= 16
    modifies buf
    ensures r == 16 == position && Promised(FileLength(EightBytes(), 0), 0, 16) == 8
  {
    hide ValidImage, FileByte;
    EightBytesValid();
    var f := new OpenFile(0);
    assert Readable(EightBytes(), 0, 0, 16);
    r := f.Read(EightBytes(), buf, 16);
    position := f.filePosition;
  }

  /** Reading 4 bytes of that file from offset 1 delivers its byte 0 where byte 4 belongs. */
  lemma MisalignedReadIsWrong(bs: seq<byte>)
    requires ValidImage(EightBytes()) && |bs| >= 4 && Delivered(EightBytes(), 0, 1, bs, 4)
    ensures bs[3] == FileByte(EightBytes(), 0, 0) == 0 && FileByte(EightBytes(), 0, 4) == 1
  {
    EightBytesValid();
    assert ReadIndex(1, 3) == 0;
  }

  /** The read is empty, starts inside a word, or ends before the largest file size. */
  predicate BelowLargest(offset: nat, length: nat) {
    length == 0 || offset % 4 != 0 || offset + length < NUM_DATA_BLOCKS * BLOCK_SIZE
  }

  /** Chunk sizes under which every read, from the position the reads before it lead to, is sound and ends before
      the largest file size. */
  ghost predicate Chunks(img: seq<word>, inode: nat, position: nat, sizes: seq<nat>)
    requires ValidImage(img) && inode < InodeCount(img)
    decreases |sizes|
  {
    sizes == [] ||
    (&& Sound(img, inode, position, sizes[0]) && BelowLargest(position, sizes[0])
     && Chunks(img, inode, position + sizes[0], sizes[1..]))
  }

  function Sum(sizes: seq<nat>): nat {
    if sizes == [] then 0 else sizes[0] + Sum(sizes[1..])
  }

  /** One sound file_read. */
  method ReadChunk(f: OpenFile, img: seq<word>, buf: array<byte>, n: word) returns (bs: seq<byte>)
    requires ValidImage(img) && f.inode < InodeCount(img) && n <= buf.Length
    requires Sound(img, f.inode, f.filePosition, n) && BelowLargest(f.filePosition, n)
    modifies f`filePosition, buf
    ensures bs == FlatFile(img, f.inode, old(f.filePosition), old(f.filePosition) + n)
    ensures f.filePosition == old(f.filePosition) + n
  {
    hide FlatFile, Readable, InBlocks, ReadIndex;
    ghost var from := f.filePosition;
    SoundReadable(img, f.inode, from, n);
    var r := f.Read(img, buf, n);
    ModSmall(from + n, 0x1_0000_0000);
    if from >= FileLength(img, f.inode) && FileLength(img, f.inode) != 0 {
      assert n == 0;
    } else {
      SoundRead(img, f.inode, from, buf[..], n);
    }
    return buf[..n];
  }

  /** What successive calls of file_read put together: the same bytes for every way to cut a stretch of the
      file into such chunks. */
  method ReadChunks(f: OpenFile, img: seq<word>, buf: array<byte>, sizes: seq<nat>) returns (all: seq<byte>)
    requires ValidImage(img) && f.inode < InodeCount(img)
    requires Chunks(img, f.inode, f.filePosition, sizes) && f.filePosition <= FileLength(img, f.inode)
    requires forall n <- sizes :: n <= buf.Length && n < 0x1_0000_0000
    modifies f`filePosition, buf
    ensures old(f.filePosition) + Sum(sizes) <= FileLength(img, f.inode)
    ensures all == FlatFile(img, f.inode, old(f.filePosition), old(f.filePosition) + Sum(sizes))
    ensures f.filePosition == old(f.filePosition) + Sum(sizes)
    decreases |sizes|
  {
    hide ValidImage, FlatFile, FileLength;
    ghost var from := f.filePosition;
    if sizes == [] {
      EmptyStretch(img, f.inode, from);
      return [];
    }
    var n := sizes[0];
    assert n in sizes;
    var first := ReadChunk(f, img, buf, n);
    assert forall m <- sizes[1..] :: m in sizes;
    var rest := ReadChunks(f, img, buf, sizes[1..]);
    BytesJoin(img, f.inode, from, from + n, from + Sum(sizes));
    return first + rest;
  }

  lemma EmptyStretch(img: seq<word>, inode: nat, from: nat)
    requires ValidImage(img) && inode < InodeCount(img) && from <= FileLength(img, inode)
    ensures FlatFile(img, inode, from, from) == []
  {
  }
}

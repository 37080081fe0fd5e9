/** Files as the bytes of an ext2 volume say: twelve block numbers in the inode, the others in
    an indirect block. */
module Ext2Stored {
  import opened Words
  import opened LittleEndian
  import opened Ext2Ranges
  import opened Ext2File
  import opened Ext2Create
  import opened Ext2Volume
  import opened Ext2Driver

  /** The inode says that the file has the bytes of `data`, in the blocks `ps`; block numbers
      past the twelfth are in the block `table`. */
  ghost predicate Stores(d: Disk, bs: nat, ino: Bytes, ps: seq<u32>, table: u32, data: Bytes) {
    && Blocks(d, bs) && |ino| == INODE && |data| < TWO32 && ino[4..8] == Enc32(|data|)
    && |ps| == |Chunks(data, bs)| <= DIRECT + bs / 4
    && (forall i :: 0 <= i < |ps| ==> 0 < ps[i] < |d| && d[ps[i]] == Chunks(data, bs)[i])
    && (forall i :: 0 <= i < |ps| && i < DIRECT ==> ino[40 + 4 * i..44 + 4 * i] == Enc32(ps[i]))
    && (|ps| > DIRECT ==>
          && 0 < table < |d| && ino[88..92] == Enc32(table)
          && forall i :: DIRECT <= i < |ps| ==> d[table][4 * (i - DIRECT)..4 * (i - DIRECT) + 4] == Enc32(ps[i]))
  }

  /** So its blocks are those of the data, in order. */
  lemma StoredBlock(d: Disk, bs: nat, ino: Bytes, ps: seq<u32>, table: u32, data: Bytes, i: nat)
    requires Stores(d, bs, ino, ps, table, data) && i < |ps|
    ensures BlockAt(d, bs, ino, i) == Some(Chunks(data, bs)[i])
  {
    if i < DIRECT {
      Enc32Get(ino, 40 + 4 * i, ps[i]);
    } else {
      Enc32Get(ino, 88, table);
      Enc32Get(d[table], 4 * (i - DIRECT), ps[i]);
    }
  }

  lemma StoredNoGap(bl: BlockList, bs: nat, data: Bytes)
    requires bs > 0 && |Chunks(data, bs)| <= |bl|
    requires forall i :: 0 <= i < |Chunks(data, bs)| ==> bl[i].Some?
    ensures NoGap(bl, bs, |data|)
  {
    ChunkCount(data, bs);
    var n := |Chunks(data, bs)|;
    forall j: nat | j * bs < |data| ensures j < n {
      if n <= j {
        Monotone(n, j, bs);
      }
    }
  }

  /** Every read gives the matching bytes of the data, the indirect blocks included. */
  lemma StoredReads(d: Disk, bs: nat, ino: Bytes, ps: seq<u32>, table: u32, data: Bytes, off: nat, len: nat)
    requires Stores(d, bs, ino, ps, table, data)
    ensures ReadAt(Mapped(d, bs, ino), bs, FileSize(ino), off, len) == Slice(data, off, len)
    ensures Whole(Mapped(d, bs, ino), bs, FileSize(ino)) == data
  {
    var bl, cs := Mapped(d, bs, ino), Chunks(data, bs);
    Enc32Get(ino, 4, |data|);
    forall i | 0 <= i < |cs| ensures bl[i] == Some(cs[i]) && bl[0 + i] == bl[i] {
      StoredBlock(d, bs, ino, ps, table, data, i);
    }
    ChunksRead(bl, bs, 0, data);
    StoredNoGap(bl, bs, data);
    RangeOfWhole(bl, bs, |data|, off, len);
  }

  method ReadStored(d: Disk, bs: nat, ino: Bytes, off: nat, len: nat, ghost ps: seq<u32>, ghost table: u32, ghost data: Bytes)
    returns (out: Bytes)
    requires Stores(d, bs, ino, ps, table, data)
    ensures out == Slice(data, off, len)
  {
    out := ReadInodeDataAt(d, bs, ino, off, len);
    StoredReads(d, bs, ino, ps, table, data, off, len);
  }

  /** On a volume: the content of such an inode is the data, and what `ReadFileRange` gives of
      it the matching slice. */
  lemma StoredContent(g: Geo, d: Disk, n: nat, ps: seq<u32>, table: u32, data: Bytes, off: nat, len: nat, out: Bytes)
    requires OnDisk(g, d) && 0 < n <= g.ipg && Stores(d, g.bs, Inode(g, d, n), ps, table, data)
    ensures Content(g, d, n) == data
    ensures ReadsAt(g, d, n, off, len, out) ==> out == Slice(data, off, len)
  {
    StoredReads(d, g.bs, Inode(g, d, n), ps, table, data, off, len);
  }
}

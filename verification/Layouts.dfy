/** The bytes of a sorted file, place by place (internal/storage/sstable/constants.go, writer.go). */
module Layouts {
  import opened ByteStrings
  import opened Tables
  import opened SSTableFormat
  import opened SSTableReader

  /** An entry: two bytes for the length of the key, four for that of the value, one to tell a tombstone. */
  lemma EntryLayout(r: Record)
    requires |r.key| < 0x1_0000 && |ValueBytes(r.entry)| < 0x1_0000_0000
    ensures var b, n := EncodeEntry(r), |r.key|;
            && FromLittleEndian(b[..2]) == n && b[7..7 + n] == r.key
            && (r.entry.Put? ==> FromLittleEndian(b[2..6]) == |r.entry.value| && b[6] == 0 && b[7 + n..] == r.entry.value)
            && (r.entry.Tombstone? ==> FromLittleEndian(b[2..6]) == 0 && b[6] == 1 && |b| == 7 + n)
  {
    hide EncodeEntry, FromLittleEndian;
    ParseEntry(r);
    var b := EncodeEntry(r);
    assert b[..7][..2] == b[..2] && b[..7][2..6] == b[2..6];
  }

  lemma FooterLayout(indexOffset: nat, bloomOffset: nat, numHashes: byte, entryCount: nat)
    requires indexOffset < 0x1_0000_0000_0000_0000 && bloomOffset < 0x1_0000_0000_0000_0000 && entryCount < 0x1_0000_0000
    ensures var b := Footer(indexOffset, bloomOffset, numHashes, entryCount);
            && FromLittleEndian(b[..8]) == indexOffset && FromLittleEndian(b[8..16]) == bloomOffset
            && b[16] == numHashes && FromLittleEndian(b[17..21]) == entryCount && b[21..] == [0x47, 0x4E, 0x45, 0x50]
  {
    ParseFooterBytes(indexOffset, bloomOffset, numHashes, entryCount);
    hide FromLittleEndian;
    MagicBytes();
    hide LittleEndian;
  }

  lemma MagicBytes()
    ensures LittleEndian(MAGIC_NUMBER, 4) == [0x47, 0x4E, 0x45, 0x50]
  {
    assert LittleEndian(0x50, 1) == [0x50] + LittleEndian(0, 0);
    assert LittleEndian(0x5045, 2) == [0x45] + LittleEndian(0x50, 1);
    assert LittleEndian(0x50_454E, 3) == [0x4E] + LittleEndian(0x5045, 2);
    assert LittleEndian(0x5045_4E47, 4) == [0x47] + LittleEndian(0x50_454E, 3);
  }

  /** A file: the entries, the index, the filter, and 25 bytes at the end that tell where they are. */
  lemma FileLayout(run: seq<Record>, blockSize: nat, bloomBytes: Bytes, numHashes: byte)
    requires FitsFormat(run, blockSize, bloomBytes)
    ensures var f, data, index := FileOf(run, blockSize, bloomBytes, numHashes), DataBlock(run), IndexBlock(SparseIndex(run, blockSize));
            var n, d, i := |f|, |data|, |data| + |index|;
            && n == i + |bloomBytes| + 25
            && f[..d] == data && f[d..i] == index && f[i..n - 25] == bloomBytes
            && FromLittleEndian(f[n - 25..n - 17]) == d && FromLittleEndian(f[n - 17..n - 9]) == i && f[n - 9] == numHashes
            && FromLittleEndian(f[n - 8..n - 4]) == |run| && f[n - 4..] == [0x47, 0x4E, 0x45, 0x50]
  {
    hide FileOf, DataBlock, IndexBlock, SparseIndex, Footer, FromLittleEndian, WithinLimits;
    FileParts(run, blockSize, bloomBytes, numHashes);
    var f, d := FileOf(run, blockSize, bloomBytes, numHashes), |DataBlock(run)|;
    var i := d + |IndexBlock(SparseIndex(run, blockSize))|;
    FooterLayout(d, i, numHashes, |run|);
    var n, b := |f|, f[|f| - 25..];
    assert f[n - 25..n - 17] == b[..8] && f[n - 17..n - 9] == b[8..16] && f[n - 9] == b[16];
    assert f[n - 8..n - 4] == b[17..21] && f[n - 4..] == b[21..];
  }
}

/** Directory records: their layout in a block, parsing, and the encoding it inverts. */
module Directory {
  import opened Bytes

  const FT_REG_FILE := 1
  const FT_DIR := 2

  datatype DirEntry = DirEntry(inode: nat, recLen: nat, fileType: nat, name: seq<Byte>)

  const NO_ENTRY := DirEntry(0, 0, 0, [])

  function RecLen(b: seq<Byte>, off: nat): nat
    requires off + 8 <= |b|
  {
    Le16(b, off + 4)
  }

  function NameLen(b: seq<Byte>, off: nat): nat
    requires off + 8 <= |b|
  {
    b[off + 6] as nat
  }

  /** The record at `off` lies in the block and holds its whole name. */
  predicate RecordFits(b: seq<Byte>, off: nat) {
    off + 8 <= |b| && 8 + NameLen(b, off) <= RecLen(b, off) && off + RecLen(b, off) <= |b|
  }

  /** The record at `off`, as copied into a directory entry. */
  function EntryAt(b: seq<Byte>, off: nat): DirEntry
    requires RecordFits(b, off)
  {
    DirEntry(Le32(b, off), RecLen(b, off), b[off + 7] as nat, b[off + 8..off + 8 + NameLen(b, off)])
  }

  /** Records tile the block from `off` to its end. */
  predicate Tiles(b: seq<Byte>, off: nat)
    decreases |b| - off
  {
    off == |b| || (RecordFits(b, off) && Tiles(b, off + RecLen(b, off)))
  }

  /** All records from `off` on, in order. */
  function Records(b: seq<Byte>, off: nat): seq<DirEntry>
    requires Tiles(b, off)
    decreases |b| - off
  {
    if off == |b| then [] else [EntryAt(b, off)] + Records(b, off + RecLen(b, off))
  }

  /** The first record, and the rest. */
  lemma RecordsStep(b: seq<Byte>, off: nat)
    requires off < |b| && Tiles(b, off)
    ensures RecordFits(b, off) && EntryAt(b, off).recLen >= 8
    ensures off + EntryAt(b, off).recLen <= |b| && Tiles(b, off + EntryAt(b, off).recLen)
    ensures Records(b, off) == [EntryAt(b, off)] + Records(b, off + EntryAt(b, off).recLen)
  {
  }

  lemma NoRecordsLeft(b: seq<Byte>)
    ensures Tiles(b, |b|) && Records(b, |b|) == []
  {
  }

  // ----- encoding -----

  predicate ValidEntry(e: DirEntry) {
    e.inode < TWO_32 && |e.name| <= 255 && 8 + |e.name| <= e.recLen < 0x1_0000 && e.fileType < 256
  }

  /** Any bytes may fill a record up to its length. */
  function Encode(e: DirEntry, padding: seq<Byte>): (b: seq<Byte>)
    requires ValidEntry(e) && |padding| == e.recLen - 8 - |e.name|
    ensures |b| == e.recLen
  {
    ToLe32(e.inode) + ToLe16(e.recLen) + [|e.name| as Byte, e.fileType as Byte] + e.name + padding
  }

  predicate ValidEntries(es: seq<DirEntry>, paddings: seq<seq<Byte>>) {
    |paddings| == |es| && forall i :: 0 <= i < |es| ==>
            ValidEntry(es[i]) && |paddings[i]| == es[i].recLen - 8 - |es[i].name|
  }

  function EncodeAll(es: seq<DirEntry>, paddings: seq<seq<Byte>>): seq<Byte>
    requires ValidEntries(es, paddings)
  {
    if es == [] then [] else Encode(es[0], paddings[0]) + EncodeAll(es[1..], paddings[1..])
  }

  lemma EncodedFields(e: DirEntry, padding: seq<Byte>, before: seq<Byte>, after: seq<Byte>)
    requires ValidEntry(e) && |padding| == e.recLen - 8 - |e.name|
    ensures var b, off := before + Encode(e, padding) + after, |before|;
            RecordFits(b, off) && RecLen(b, off) == e.recLen && EntryAt(b, off) == e
  {
  }

  /** Parsing inverts encoding: the records come back in order, wherever the encoding starts. */
  lemma {:induction false} RecordsInvertEncoding(es: seq<DirEntry>, paddings: seq<seq<Byte>>, before: seq<Byte>)
    requires ValidEntries(es, paddings)
    ensures var b := before + EncodeAll(es, paddings);
            Tiles(b, |before|) && Records(b, |before|) == es
    decreases |es|
  {
    hide Encode, ToLe16, ToLe32, EntryAt, RecordFits, RecLen;
    if es != [] {
      var first, rest := Encode(es[0], paddings[0]), EncodeAll(es[1..], paddings[1..]);
      EncodedFields(es[0], paddings[0], before, rest);
      assert before + (first + rest) == (before + first) + rest;
      RecordsInvertEncoding(es[1..], paddings[1..], before + first);
    }
  }
}

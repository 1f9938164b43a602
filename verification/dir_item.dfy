/** The 32-byte directory entry (struct fat_directory_item in fs/fat/fat16.c). */
module DirItem {
  import opened Streamer
  import opened FatLayout

  const ITEM: nat := 32

  datatype Item = Item(filename: seq<Byte>, ext: seq<Byte>, attribute: Byte, times: seq<Byte>,
                       high: nat, modified: seq<Byte>, low: nat, filesize: nat)
  {
    predicate Valid() {
      && |filename| == 8 && |ext| == 3 && |times| == 8 && |modified| == 4
      && high <= 0xFFFF && low <= 0xFFFF && filesize <= 0xFFFF_FFFF
    }

    /** fat16_get_first_cluster. */
    function First(): nat { high * 0x1_0000 + low }
  }

  /** The bytes of an entry on the disk. */
  function Encode(item: Item): (r: seq<Byte>)
    requires item.Valid()
    ensures |r| == ITEM
  {
    item.filename + item.ext + [item.attribute] + item.times + WordBytes(item.high) + item.modified
    + WordBytes(item.low) + WordBytes(item.filesize % 0x1_0000) + WordBytes(item.filesize / 0x1_0000)
  }

  function Decode(b: seq<Byte>): (r: Item)
    requires |b| == ITEM
    ensures r.Valid()
  {
    Item(b[..8], b[8..11], b[11], b[12..20], Word(b, 20), b[22..26], Word(b, 26), Word(b, 28) + 0x1_0000 * Word(b, 30))
  }

  lemma EncodeDecode(item: Item)
    requires item.Valid()
    ensures Decode(Encode(item)) == item
  {
  }

  lemma DecodeEncode(b: seq<Byte>)
    requires |b| == ITEM
    ensures Encode(Decode(b)) == b
  {
    WordThere(b, 20);
    WordThere(b, 26);
    WordThere(b, 28);
    WordThere(b, 30);
    TwoWords(Word(b, 28), Word(b, 30));
    hide Word, WordBytes;
    Joined(b, 8, 11);
    Joined(b, 11, 12);
    assert b[11..12] == [b[11]];
    Joined(b, 12, 20);
    Joined(b, 20, 22);
    Joined(b, 22, 26);
    Joined(b, 26, 28);
    Joined(b, 28, 30);
    Joined(b, 30, 32);
    assert b[..32] == b;
  }

  lemma Joined(b: seq<Byte>, i: nat, j: nat)
    requires i <= j <= |b|
    ensures b[..i] + b[i..j] == b[..j]
  {
  }

  lemma TwoWords(low: nat, high: nat)
    requires low <= 0xFFFF
    ensures (low + 0x1_0000 * high) % 0x1_0000 == low && (low + 0x1_0000 * high) / 0x1_0000 == high
  {
  }

  lemma WordThere(b: seq<Byte>, p: nat)
    requires p + 2 <= |b|
    ensures WordBytes(Word(b, p)) == b[p..p + 2]
  {
    WordAt(b, p);
    WordUnique(b[p..p + 2]);
  }

  lemma WordAt(b: seq<Byte>, p: nat)
    requires p + 2 <= |b|
    ensures Word(b, p) == Word(b[p..p + 2], 0)
  {
  }

  lemma WordUnique(b: seq<Byte>)
    requires |b| == 2
    ensures WordBytes(Word(b, 0)) == b
  {
  }

  /** An entry put into its slot is the entry read from the slot. */
  lemma EntryStored(root: seq<Byte>, slot: nat, item: Item)
    requires item.Valid() && (slot + 1) * ITEM <= |root|
    ensures Decode(Splice(root, slot * ITEM, Encode(item))[slot * ITEM..slot * ITEM + ITEM]) == item
  {
    EncodeDecode(item);
    assert Splice(root, slot * ITEM, Encode(item))[slot * ITEM..slot * ITEM + ITEM] == Encode(item);
  }
}

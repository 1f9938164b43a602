/** 8.3 names and the root directory (fat16_create_file_in_root and
    fat16_find_item_in_directory in fs/fat/fat16.c). A name is a C string without its
    final 0. */
module Directory {
  import opened Common
  import opened Streamer
  import opened FatTable
  import opened FatLayout
  import opened FatVolume
  import opened DirItem

  const SPACE: Byte := 0x20
  const DOT: Byte := 0x2E
  const DELETED: Byte := 0xE5
  const ARCHIVED: Byte := 0x20
  const MAX_PATH: nat := 108

  predicate CString(s: seq<Byte>) { forall i :: 0 <= i < |s| ==> s[i] != 0 }

  function Upper(c: Byte): Byte { if 97 <= c <= 122 then c - 32 else c }

  function Lower(c: Byte): Byte { if 65 <= c <= 90 then c + 32 else c }

  function UpperAll(s: seq<Byte>): (r: seq<Byte>)
    ensures |r| == |s| && forall i :: 0 <= i < |s| ==> r[i] == Upper(s[i])
  {
    seq(|s|, i requires 0 <= i < |s| => Upper(s[i]))
  }

  /** The same string but for letter case. */
  predicate EqualFold(s: seq<Byte>, t: seq<Byte>) {
    |s| == |t| && forall i :: 0 <= i < |s| ==> Lower(s[i]) == Lower(t[i])
  }

  function At(s: seq<Byte>, i: nat): Byte { if i < |s| then s[i] else 0 }

  /** istrncmp on two strings, the first shorter than the bound. */
  method Istrncmp(s: seq<Byte>, t: seq<Byte>, n: nat) returns (res: int)
    requires CString(s) && CString(t) && |s| < n
    ensures res == 0 <==> EqualFold(s, t)
  {
    var i := 0;
    while i < n
      invariant 0 <= i <= n && i <= |s| && i <= |t|
      invariant forall k :: 0 <= k < i ==> Lower(s[k]) == Lower(t[k])
    {
      var u1, u2 := At(s, i), At(t, i);
      i := i + 1;
      if u1 != u2 && Lower(u1) != Lower(u2) {
        return (u1 as int) - (u2 as int);
      }
      if u1 == 0 {
        return 0;
      }
    }
    return 0;
  }

  // ------------------------------------------------------- decoding a name

  predicate Stops(c: Byte) { c == 0 || c == SPACE }

  function TrimAt(s: seq<Byte>): (r: nat)
    ensures r <= |s| && (r < |s| ==> Stops(s[r]))
    ensures forall i :: 0 <= i < r ==> !Stops(s[i])
  {
    if s == [] || Stops(s[0]) then 0 else 1 + TrimAt(s[1..])
  }

  /** fat16_to_proper_string: up to the first 0 or space. */
  function Trimmed(s: seq<Byte>): seq<Byte> { s[..TrimAt(s)] }

  method ToProperString(input: seq<Byte>) returns (out: seq<Byte>)
    requires input != []
    ensures out == Trimmed(input)
  {
    out := [];
    var i := 0;
    while input[i] != 0 && input[i] != SPACE
      invariant 0 <= i < |input| && out == input[..i] && forall k :: 0 <= k < i ==> !Stops(input[k])
      decreases |input| - i
    {
      out := out + [input[i]];
      i := i + 1;
      if i >= |input| {
        break;
      }
    }
    assert i == TrimAt(input);
  }

  function Display(item: Item): (r: seq<Byte>)
    requires item.Valid()
    ensures |r| <= 12 && CString(r)
  {
    assert CString(Trimmed(item.filename)) && CString(Trimmed(item.ext));
    Trimmed(item.filename) + if item.ext[0] != 0 && item.ext[0] != SPACE then [DOT] + Trimmed(item.ext) else []
  }

  /** fat16_get_full_relative_filename. */
  method FullName(item: Item) returns (out: seq<Byte>)
    requires item.Valid()
    ensures out == Display(item)
  {
    out := ToProperString(item.filename);
    if item.ext[0] != 0 && item.ext[0] != SPACE {
      var ext := ToProperString(item.ext);
      out := out + [DOT] + ext;
    }
  }

  // ------------------------------------------------------- encoding a name

  /** strchr for the first dot; the length if there is none. */
  function DotAt(name: seq<Byte>): (r: nat)
    ensures r <= |name| && (r < |name| ==> name[r] == DOT)
    ensures forall i :: 0 <= i < r ==> name[i] != DOT
  {
    if name == [] || name[0] == DOT then 0 else 1 + DotAt(name[1..])
  }

  function Prefix(s: seq<Byte>, n: nat): (r: seq<Byte>) { if |s| <= n then s else s[..n] }

  /** What the parser takes for base and extension (fat16.c:695-706). */
  function BaseOf(name: seq<Byte>): seq<Byte> { Prefix(name[..DotAt(name)], 8) }
  function ExtOf(name: seq<Byte>): seq<Byte> { if DotAt(name) < |name| then Prefix(name[DotAt(name) + 1..], 3) else [] }

  function Padded(part: seq<Byte>, width: nat): (r: seq<Byte>)
    requires |part| <= width
    ensures |r| == width
    ensures forall i :: 0 <= i < width ==> r[i] == if i < |part| then Upper(part[i]) else SPACE
  {
    seq(width, i requires 0 <= i < width => if i < |part| then Upper(part[i]) else SPACE)
  }

  /** Spaces, then the characters in upper case (fat16.c:710-717). */
  method Pad(part: seq<Byte>, width: nat) returns (r: seq<Byte>)
    requires CString(part) && |part| <= width
    ensures r == Padded(part, width)
  {
    var field := new Byte[width](_ => SPACE);
    var i := 0;
    while i < width && At(part, i) != 0
      invariant 0 <= i <= |part|
      invariant forall k :: 0 <= k < width ==> field[k] == if k < i then Upper(part[k]) else SPACE
    {
      field[i] := Upper(part[i]);
      i := i + 1;
    }
    return field[..];
  }

  /** The entry of a new file. */
  function NewItem(name: seq<Byte>): (item: Item)
    ensures item.Valid() && item.First() == 0
  {
    Item(Padded(BaseOf(name), 8), Padded(ExtOf(name), 3), ARCHIVED, seq(8, _ => 0), 0, seq(4, _ => 0), 0, 0)
  }

  // ----------------------------------------------- which names come back

  /** The first byte of the name: 0 behind the last entry, 0xE5 for a deleted one. */
  function Mark(item: Item): Byte
    requires item.Valid()
  {
    item.filename[0]
  }

  predicate NoSpace(s: seq<Byte>) { forall i :: 0 <= i < |s| ==> s[i] != SPACE }

  /** Base of at most eight characters, an extension of one to three where there is a dot,
      no space in either, and not the mark of a deleted entry in front. */
  predicate Representable(name: seq<Byte>) {
    var d := DotAt(name);
    && d <= 8 && NoSpace(name[..d]) && (d > 0 ==> name[0] != DELETED)
    && (d < |name| ==> 1 <= |name| - d - 1 <= 3 && NoSpace(name[d + 1..]))
  }

  lemma TrimPadded(part: seq<Byte>, width: nat)
    requires CString(part) && |part| <= width
    ensures Trimmed(Padded(part, width)) == UpperAll(Trimmed(part))
  {
    var field, n := Padded(part, width), TrimAt(part);
    assert forall i :: 0 <= i < n ==> !Stops(field[i]);
    assert n < width ==> Stops(field[n]);
    assert TrimAt(field) == n;
  }

  lemma DisplayOfNew(name: seq<Byte>)
    requires CString(name)
    ensures Display(NewItem(name)) == UpperAll(Trimmed(BaseOf(name))) +
      if ExtOf(name) != [] && ExtOf(name)[0] != SPACE then [DOT] + UpperAll(Trimmed(ExtOf(name))) else []
  {
    TrimPadded(BaseOf(name), 8);
    TrimPadded(ExtOf(name), 3);
  }

  lemma Parts(name: seq<Byte>)
    requires CString(name)
    ensures var d := DotAt(name);
      && |BaseOf(name)| <= d && BaseOf(name) == name[..|BaseOf(name)|] && (|BaseOf(name)| < d ==> |BaseOf(name)| == 8)
      && (d < |name| ==>
            && |ExtOf(name)| <= |name| - d - 1 && ExtOf(name) == name[d + 1..][..|ExtOf(name)|]
            && (|ExtOf(name)| < |name| - d - 1 ==> |ExtOf(name)| == 3))
      && (d == |name| ==> ExtOf(name) == []) && |BaseOf(name)| <= 8 && |ExtOf(name)| <= 3
  {
  }

  /** A representable name comes back. */
  lemma ComesBack(name: seq<Byte>)
    requires CString(name) && Representable(name)
    ensures Display(NewItem(name)) == UpperAll(name)
  {
    var d, base, ext := DotAt(name), BaseOf(name), ExtOf(name);
    DisplayOfNew(name);
    Parts(name);
    AllTrimmed(base);
    AllTrimmed(ext);
    assert base == name[..d] && NoSpace(base);
    hide Display, NewItem, Trimmed, BaseOf, ExtOf, UpperAll;
    if d < |name| {
      assert ext == name[d + 1..] && NoSpace(ext) && ext[0] != SPACE;
      Spelled(name, d, base, ext);
    } else {
      assert name == base && UpperAll(base) + [] == UpperAll(base);
    }
  }

  lemma Spelled(name: seq<Byte>, d: nat, base: seq<Byte>, ext: seq<Byte>)
    requires d < |name| && base == name[..d] && ext == name[d + 1..] && name[d] == DOT
    ensures UpperAll(base) + ([DOT] + UpperAll(ext)) == UpperAll(name)
  {
    assert Upper(DOT) == DOT;
  }

  lemma AllTrimmed(s: seq<Byte>)
    requires CString(s)
    ensures Trimmed(s) == s <==> NoSpace(s)
  {
    if Trimmed(s) == s {
      assert TrimAt(s) == |s|;
    }
  }

  /** No other name comes back. */
  lemma OnlyRepresentable(name: seq<Byte>)
    requires CString(name) && |Display(NewItem(name))| == |name|
    ensures var d := DotAt(name);
            d <= 8 && NoSpace(name[..d]) && (d < |name| ==> 1 <= |name| - d - 1 <= 3 && NoSpace(name[d + 1..]))
  {
    var d, base, ext := DotAt(name), BaseOf(name), ExtOf(name);
    DisplayOfNew(name);
    Parts(name);
    AllTrimmed(base);
    AllTrimmed(ext);
    hide Display, NewItem, UpperAll, BaseOf, ExtOf, NoSpace;
    assert |Trimmed(base)| == d;
    assert base == name[..d];
    if d < |name| {
      assert |Trimmed(ext)| == |name| - d - 1;
      assert ext == name[d + 1..];
    }
  }

  /** The padded upper-case encoding and the decoder undo each other, up to letter case,
      exactly for the representable names. */
  lemma NameComesBackIff(name: seq<Byte>)
    requires CString(name)
    ensures EqualFold(Display(NewItem(name)), name) && Mark(NewItem(name)) != DELETED <==> Representable(name)
  {
    Parts(name);
    var d, first := DotAt(name), Mark(NewItem(name));
    assert first == if BaseOf(name) == [] then SPACE else Upper(name[0]);
    hide Display, NewItem, BaseOf, ExtOf, NoSpace;
    if Representable(name) {
      ComesBack(name);
    }
    if |Display(NewItem(name))| == |name| {
      OnlyRepresentable(name);
    }
  }

  // -------------------------------------------------- creating and finding

  /** The search gets as far as entry `i` and looks at it. */
  predicate Looked(items: seq<Item>, i: nat)
    requires i < |items| && forall k :: 0 <= k < |items| ==> items[k].Valid()
  {
    (forall k :: 0 <= k <= i ==> Mark(items[k]) != 0) && Mark(items[i]) != DELETED
  }

  predicate Matches(items: seq<Item>, name: seq<Byte>, i: nat)
    requires i < |items| && forall k :: 0 <= k < |items| ==> items[k].Valid()
  {
    Looked(items, i) && EqualFold(Display(items[i]), name)
  }

  /** `slot` is the first entry with that name, -1 for none. */
  predicate Finds(items: seq<Item>, name: seq<Byte>, slot: int)
    requires forall k :: 0 <= k < |items| ==> items[k].Valid()
  {
    && -1 <= slot < |items| && (slot >= 0 ==> Matches(items, name, slot))
    && forall i :: 0 <= i < (if slot < 0 then |items| else slot) ==> !Matches(items, name, i)
  }

  predicate FreeSlot(item: Item)
    requires item.Valid()
  {
    Mark(item) == 0 || Mark(item) == DELETED
  }

  /** The root directory: the entries in memory and the ones on the disk. */
  class RootDirectory {
    const fs: FatDisk
    const items: array<Item>

    ghost predicate Valid()
      reads items, fs.disk.data
    {
      && fs.Valid() && items.Length == fs.g.rootEntries
      && forall k :: 0 <= k < items.Length ==> items[k].Valid()
    }

    constructor (fs: FatDisk, items: array<Item>)
      requires fs.Valid() && items.Length == fs.g.rootEntries && forall k :: 0 <= k < items.Length ==> items[k].Valid()
      ensures Valid() && this.fs == fs && this.items == items
    {
      this.fs, this.items := fs, items;
    }

    /** The entry as it stands on the disk. */
    ghost function Stored(slot: nat): Item
      requires fs.g.Fits(fs.disk.data.Length) && slot < fs.g.rootEntries
      reads fs.disk.data
    {
      Decode(fs.Now().root[slot * ITEM..slot * ITEM + ITEM])
    }

    /** fat16.c:602-608: the entry is read from the disk again. */
    method Reread(slot: nat) returns (found: Item)
      requires Valid() && slot < items.Length
      modifies fs.directory
      ensures found == Stored(slot)
    {
      var bytes := fs.ReadRoot(slot * ITEM, ITEM);
      found := Decode(bytes[..]);
    }

    /** fat16_find_item_in_directory in the root directory: the first entry with the name,
        whatever its letter case, read again from the disk. */
    method Find(name: seq<Byte>) returns (slot: int, found: Item)
      requires Valid() && CString(name)
      modifies fs.directory
      ensures Valid() && Finds(items[..], name, slot)
      ensures slot >= 0 ==> found == Stored(slot)
    {
      found := NewItem([]);
      slot := Search(name);
      if slot >= 0 {
        found := Reread(slot);
      }
    }

    /** fat16.c:571-617. */
    method Search(name: seq<Byte>) returns (slot: int)
      requires Valid() && CString(name)
      ensures Finds(items[..], name, slot)
    {
      ghost var all := items[..];
      assert forall k :: 0 <= k < |all| ==> all[k].Valid();
      hide Display, EqualFold, Item.Valid, FatDisk.Valid;
      var i := 0;
      while i < items.Length
        invariant 0 <= i <= items.Length
        invariant forall k :: 0 <= k < i ==> Mark(all[k]) != 0 && !Matches(all, name, k)
      {
        if Mark(items[i]) == 0 {
          EndOfDirectory(all, name, i);
          break;
        }
        if Mark(items[i]) != DELETED {
          var same := SameName(items[i], name);
          if same {
            return i;
          }
        }
        i := i + 1;
      }
      return -1;
    }

    /** The first free slot (fat16.c:673-681). */
    method FindFree() returns (slot: int)
      requires Valid()
      ensures -1 <= slot < items.Length && (slot >= 0 ==> FreeSlot(items[slot]))
      ensures forall k :: 0 <= k < (if slot < 0 then items.Length else slot) ==> !FreeSlot(items[k])
    {
      var i := 0;
      while i < items.Length
        invariant 0 <= i <= items.Length
        invariant forall k :: 0 <= k < i ==> !FreeSlot(items[k])
      {
        if Mark(items[i]) == 0 || Mark(items[i]) == DELETED {
          return i;
        }
        i := i + 1;
      }
      return -1;
    }

    /** The entry goes to its slot, in memory and on the disk. */
    method Put(slot: nat, item: Item)
      requires Valid() && slot < items.Length && item.Valid()
      modifies items, fs.directory, fs.disk.data
      ensures Valid() && items[..] == old(items[..])[slot := item] && Stored(slot) == item
      ensures fs.Now() == old(fs.Now()).(root := Splice(old(fs.Now().root), slot * ITEM, Encode(item)))
    {
      assert fs.g.Fits(fs.disk.data.Length);
      hide FatDisk.Valid, FatDisk.Now, Decode, Encode, Splice, Geometry.Fits;
      EntryStored(fs.Now().root, slot, item);
      items[slot] := item;
      var _ := fs.WriteRoot(slot * ITEM, Encode(item));
    }

    /** fat16_create_file_in_root: the first free slot gets an entry for the name. */
    method Create(name: seq<Byte>) returns (slot: int)
      requires Valid() && CString(name)
      modifies items, fs.directory, fs.disk.data
      ensures Valid() && -ENOMEM <= slot < items.Length && (slot < 0 ==> slot == -ENOMEM)
      ensures FirstFree(old(items[..]), if slot < 0 then items.Length else slot)
      ensures slot < 0 ==> items[..] == old(items[..]) && fs.Now() == old(fs.Now())
      ensures slot >= 0 ==> items[..] == old(items[..])[slot := NewItem(name)] && Stored(slot) == NewItem(name)
      ensures slot >= 0 ==>
        fs.Now() == old(fs.Now()).(root := Splice(old(fs.Now().root), slot * ITEM, Encode(NewItem(name))))
    {
      slot := FindFree();
      if slot < 0 {
        return -ENOMEM;
      }
      var item := EncodeName(name);
      Put(slot, item);
    }
  }

  /** The entries before `slot` are in use, the one there is free unless it is the end. */
  predicate FirstFree(items: seq<Item>, slot: int) {
    && 0 <= slot <= |items| && (forall k :: 0 <= k < |items| ==> items[k].Valid())
    && (slot < |items| ==> FreeSlot(items[slot])) && forall k :: 0 <= k < slot ==> !FreeSlot(items[k])
  }

  /** Behind the end mark nothing is looked at. */
  lemma EndOfDirectory(items: seq<Item>, name: seq<Byte>, i: nat)
    requires i < |items| && (forall k :: 0 <= k < |items| ==> items[k].Valid()) && Mark(items[i]) == 0
    ensures forall k :: i <= k < |items| ==> !Matches(items, name, k)
  {
  }

  /** fat16.c:581-593. */
  method SameName(item: Item, name: seq<Byte>) returns (same: bool)
    requires item.Valid() && CString(name)
    ensures same <==> EqualFold(Display(item), name)
  {
    var full := FullName(item);
    var differ := Istrncmp(full, name, MAX_PATH);
    return differ == 0;
  }

  /** fat16.c:691-723. */
  method EncodeName(name: seq<Byte>) returns (item: Item)
    requires CString(name)
    ensures item == NewItem(name)
  {
    Parts(name);
    var filename := Pad(BaseOf(name), 8);
    var ext := Pad(ExtOf(name), 3);
    item := Item(filename, ext, ARCHIVED, seq(8, _ => 0), 0, seq(4, _ => 0), 0, 0);
  }

  /** A file created under a name that was absent is found again in its slot, in any letter
      case, exactly when the name is representable. */
  lemma CreateFindIff(items: seq<Item>, name: seq<Byte>, variant: seq<Byte>, slot: nat)
    requires forall k :: 0 <= k < |items| ==> items[k].Valid()
    requires CString(name) && EqualFold(name, variant) && Finds(items, name, -1)
    requires slot < |items| && FirstFree(items, slot)
    ensures Finds(items[slot := NewItem(name)], variant, slot) <==> Representable(name)
  {
    var now := items[slot := NewItem(name)];
    NameComesBackIff(name);
    FirstByte(name);
    assert forall k :: 0 <= k < |now| ==> now[k].Valid();
    hide Display, NewItem, Representable;
    forall i | 0 <= i < slot ensures !Matches(now, variant, i) {
      assert Looked(items, i) && !Matches(items, name, i);
    }
    assert Looked(now, slot) <==> Mark(NewItem(name)) != DELETED;
  }

  lemma FirstByte(name: seq<Byte>)
    requires CString(name)
    ensures Mark(NewItem(name)) != 0
  {
    Parts(name);
  }
}

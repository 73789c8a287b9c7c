/** The PAK archive directory reader: an id string at offset 0, a marker,
    the file count and the directory offset at 0x100, then one fixed
    316-byte record per archived file at the directory offset. Entries are
    ordered by the offset of their data; extraction reads an entry's
    compressed span and inflates it. */
module Pak {
  import opened Bytes
  import opened Records
  import opened Files

  /** zlib.decompress; None where it raises. */
  type Inflate = seq<Byte> -> Option<seq<Byte>>

  /** One component of an entry's path, as raw bytes. */
  type Segment = seq<Byte>

  /** "EyedentityGames Packing File 0.1", 32 bytes. */
  const IdString: seq<Byte> :=
    [0x45, 0x79, 0x65, 0x64, 0x65, 0x6E, 0x74, 0x69, 0x74, 0x79, 0x47, 0x61, 0x6D, 0x65, 0x73, 0x20,
     0x50, 0x61, 0x63, 0x6B, 0x69, 0x6E, 0x67, 0x20, 0x46, 0x69, 0x6C, 0x65, 0x20, 0x30, 0x2E, 0x31]

  const MarkerOffset: nat := 0x100
  const Marker: seq<Byte> := [0x0B, 0, 0, 0]

  /** Layout of a directory record: the path field, five u32 fields, and
      the reserved bytes that must be zero. */
  const PathSize: nat := 0x100
  const ReservedStart: nat := 0x100 + 5 * 4
  const ReservedSize: nat := 0x28
  const EntrySize: nat := 316 // PathSize + 5 * 4 + ReservedSize

  const Backslash: Byte := 0x5C

  /** One directory record: its name (the path field up to the first NUL)
      and its five u32 fields. */
  datatype Entry = Entry(name: seq<Byte>, zsize: U32, size: U32, zsize1: U32, offset: U32, unk3: U32)

  /** The u32 stored little-endian at `off`. */
  function U32At(data: seq<Byte>, off: nat): U32
    requires off + 4 <= |data|
  {
    LeValue(data[off], data[off + 1], data[off + 2], data[off + 3])
  }

  // ---------------------------------------------------------------------
  // Paths
  // ---------------------------------------------------------------------

  /** `partition(b'\x00')[0]`: the bytes before the first NUL, or all of
      them when there is none. */
  function BeforeNul(field: seq<Byte>): (r: seq<Byte>)
    ensures r <= field
  {
    field[..NulIndex(field)]
  }

  /** The index of the first NUL, or the length when there is none. */
  function NulIndex(field: seq<Byte>): (n: nat)
    ensures n <= |field|
  {
    if field == [] || field[0] == 0 then 0 else 1 + NulIndex(field[1..])
  }

  /** BeforeNul keeps a NUL-free prefix and stops at the first NUL. */
  lemma {:induction false} BeforeNulPrefix(field: seq<Byte>)
    ensures forall i :: 0 <= i < |BeforeNul(field)| ==> BeforeNul(field)[i] != 0
    ensures |BeforeNul(field)| < |field| ==> field[|BeforeNul(field)|] == 0
    decreases |field|
  {
    if field != [] && field[0] != 0 {
      BeforeNulPrefix(field[1..]);
      var n := NulIndex(field[1..]);
      assert NulIndex(field) == n + 1;
      forall i | 0 <= i < n + 1
        ensures field[i] != 0
      {
        if i > 0 {
          assert field[1..][..n][i - 1] == field[i];
        }
      }
      if n + 1 < |field| {
        assert field[1..][n] == field[n + 1];
      }
    }
  }

  /** The segments joined back together, `sep` between each two. */
  function Join(segments: seq<Segment>, sep: Byte): seq<Byte>
    requires |segments| >= 1
  {
    if |segments| == 1 then segments[0] else segments[0] + [sep] + Join(segments[1..], sep)
  }

  /** `split(sep)`: the pieces between the separators, at least one. */
  function Split(s: seq<Byte>, sep: Byte): (r: seq<Segment>)
    ensures |r| >= 1
    decreases |s|
  {
    if s == [] then [[]]
    else
      var rest := Split(s[1..], sep);
      if s[0] == sep then [[]] + rest else [[s[0]] + rest[0]] + rest[1..]
  }

  /** Split cuts at every separator and nowhere else: no piece holds the
      separator, and joining the pieces gives back the input. */
  lemma {:induction false} JoinSplit(s: seq<Byte>, sep: Byte)
    ensures forall i :: 0 <= i < |Split(s, sep)| ==> sep !in Split(s, sep)[i]
    ensures Join(Split(s, sep), sep) == s
    decreases |s|
  {
    if s != [] {
      JoinSplit(s[1..], sep);
      var rest := Split(s[1..], sep);
      assert s == [s[0]] + s[1..];
      if s[0] == sep {
        assert ([[]] + rest)[1..] == rest;
      } else {
        var r := [[s[0]] + rest[0]] + rest[1..];
        assert r[1..] == rest[1..];
        forall i | 0 <= i < |r|
          ensures sep !in r[i]
        {
          if i > 0 {
            assert r[i] == rest[i];
          }
        }
      }
    }
  }

  /** The inverse of Split: segments free of the separator come back from
      splitting their join. */
  lemma {:induction false} SplitJoin(segments: seq<Segment>, sep: Byte)
    requires |segments| >= 1
    requires forall i :: 0 <= i < |segments| ==> sep !in segments[i]
    ensures Split(Join(segments, sep), sep) == segments
    decreases |segments|
  {
    if |segments| == 1 {
      SplitPlain(segments[0], sep);
    } else {
      SplitJoin(segments[1..], sep);
      SplitAfter(segments[0], Join(segments[1..], sep), sep);
      assert [segments[0]] + segments[1..] == segments;
    }
  }

  /** A piece without the separator splits to itself. */
  lemma {:induction false} SplitPlain(a: seq<Byte>, sep: Byte)
    requires sep !in a
    ensures Split(a, sep) == [a]
    decreases |a|
  {
    if a != [] {
      SplitPlain(a[1..], sep);
      assert [a[0]] + a[1..] == a;
    }
  }

  /** A separator-free piece followed by the separator is split off first. */
  lemma {:induction false} SplitAfter(a: seq<Byte>, t: seq<Byte>, sep: Byte)
    requires sep !in a
    ensures Split(a + [sep] + t, sep) == [a] + Split(t, sep)
    decreases |a|
  {
    if a == [] {
      assert a + [sep] + t == [sep] + t;
      assert ([sep] + t)[1..] == t;
    } else {
      SplitAfter(a[1..], t, sep);
      assert (a + [sep] + t)[1..] == a[1..] + [sep] + t;
      assert [a[0]] + a[1..] == a;
    }
  }

  // ---------------------------------------------------------------------
  // One directory record (PAKFile.__init__)
  // ---------------------------------------------------------------------

  /** The name bytes of the record at `pos`: its 256-byte path field up to
      the first NUL. */
  function NameAt(data: seq<Byte>, pos: nat): seq<Byte>
  {
    BeforeNul(ReadAt(data, pos, PathSize).value)
  }

  /** A directory record at `pos`: the 256-byte path field up to its first
      NUL, decoded (only to check that it decodes) and split on
      backslashes; five little-endian u32 fields (zsize, size, zsize1,
      offset, unk3) at record offsets 256 to 272; 40 reserved zero bytes.
      An undecodable name fails first, then a record cut short before its
      reserved bytes, then reserved bytes that are short or nonzero.
      ReadEntry reads the same record field by field. */
  function DecodeEntry(data: seq<Byte>, pos: nat, decode: Codec): (r: Result<Parsed<Entry>>)
    ensures r.Ok? ==> r.value.next == pos + EntrySize <= |data|
  {
    var name := NameAt(data, pos);
    if decode(name).None? then Err(Undecodable)
    else if pos + ReservedStart > |data| then Err(Truncated)
    else if ReadAt(data, pos + ReservedStart, ReservedSize).value != Zeros(ReservedSize) then Err(CorruptListing)
    else
      var entry := Entry(name, U32At(data, pos + 256), U32At(data, pos + 260), U32At(data, pos + 264),
                         U32At(data, pos + 268), U32At(data, pos + 272));
      Ok(Parsed(entry, pos + EntrySize))
  }

  /** A decoded record holds its full 256-byte path field cut at the first
      NUL, and the u32 values stored at record offsets 256, 260, 264, 268
      and 272. */
  lemma EntryLayout(data: seq<Byte>, pos: nat, decode: Codec)
    requires DecodeEntry(data, pos, decode).Ok?
    ensures
      var e := DecodeEntry(data, pos, decode).value.value;
      && e.name == BeforeNul(data[pos..pos + PathSize])
      && e.zsize == U32At(data, pos + 256) && e.size == U32At(data, pos + 260)
      && e.zsize1 == U32At(data, pos + 264) && e.offset == U32At(data, pos + 268)
      && e.unk3 == U32At(data, pos + 272)
  {
    assert ReadAt(data, pos, PathSize).value == data[pos..pos + PathSize];
  }

  /** `Path(*name.decode('euckr').split('\\'))`: the entry's path, one
      segment per backslash-separated piece of its name. */
  function Path(e: Entry): (p: seq<Segment>)
    ensures |p| >= 1
  {
    Split(e.name, Backslash)
  }

  /** `buff.read(0x28) == b'\x00' * 0x28` holds exactly when 40 bytes
      remain and all of them are zero. */
  lemma ReservedRead(data: seq<Byte>, at: nat)
    ensures ReadAt(data, at, ReservedSize).value == Zeros(ReservedSize)
            <==> at + ReservedSize <= |data| && AllZero(data[at..at + ReservedSize])
  {
    var reserved := ReadAt(data, at, ReservedSize);
    if at + ReservedSize <= |data| {
      assert reserved.value == data[at..at + ReservedSize];
      if AllZero(reserved.value) {
        assert reserved.value == Zeros(ReservedSize);
      }
    }
  }

  /** A record decodes exactly when its name decodes and all 316 bytes are
      there with the last 40 zero; otherwise the first failing check names
      the error. */
  lemma EntryDecodes(data: seq<Byte>, pos: nat, decode: Codec)
    ensures DecodeEntry(data, pos, decode).Ok?
            <==> decode(NameAt(data, pos)).Some? && pos + EntrySize <= |data|
                 && AllZero(data[pos + ReservedStart..pos + EntrySize])
    ensures decode(NameAt(data, pos)).None? ==> DecodeEntry(data, pos, decode) == Err(Undecodable)
    ensures decode(NameAt(data, pos)).Some? && pos + ReservedStart > |data|
            ==> DecodeEntry(data, pos, decode) == Err(Truncated)
    ensures decode(NameAt(data, pos)).Some? && pos + ReservedStart <= |data|
            && !(pos + EntrySize <= |data| && AllZero(data[pos + ReservedStart..pos + EntrySize]))
            ==> DecodeEntry(data, pos, decode) == Err(CorruptListing)
  {
    ReservedRead(data, pos + ReservedStart);
  }

  /** With a codec that decodes the empty string, as EUC-KR does, a record
      that starts at or past the end of the archive is a truncation: its
      path field reads empty and decodes, and the first u32 is missing. */
  lemma PastEndTruncated(data: seq<Byte>, pos: nat, decode: Codec)
    requires decode([]) == Some("")
    requires |data| <= pos
    ensures DecodeEntry(data, pos, decode) == Err(Truncated)
  {
    assert NameAt(data, pos) == [];
  }

  /** One directory record as a record decoder. */
  function EntryRecord(decode: Codec): Decoder<Entry>
  {
    (d: seq<Byte>, p: nat) => DecodeEntry(d, p, decode)
  }

  /** `k` records back to back from `pos`, in directory order. */
  function EntriesAt(data: seq<Byte>, pos: nat, k: nat, decode: Codec): (r: Result<Parsed<seq<Entry>>>)
    ensures r.Ok? ==> |r.value.value| == k
  {
    Many(data, pos, k, EntryRecord(decode))
  }

  // ---------------------------------------------------------------------
  // Ordering (sorted(..., key=lambda x: x.offset))
  // ---------------------------------------------------------------------

  predicate SortedByOffset(s: seq<Entry>)
  {
    forall i, j :: 0 <= i < j < |s| ==> s[i].offset <= s[j].offset
  }

  /** The entries whose data starts at `offset`, in their order in `s`. */
  function WithOffset(s: seq<Entry>, offset: U32): seq<Entry>
  {
    if s == [] then []
    else (if s[0].offset == offset then [s[0]] else []) + WithOffset(s[1..], offset)
  }

  /** `e` placed before the first entry whose offset is not smaller. */
  function Insert(e: Entry, s: seq<Entry>): (r: seq<Entry>)
    ensures |r| == |s| + 1
    ensures multiset(r) == multiset(s) + multiset{e}
  {
    if s == [] || e.offset <= s[0].offset then [e] + s
    else
      assert s == [s[0]] + s[1..];
      [s[0]] + Insert(e, s[1..])
  }

  /** Inserting keeps a lower bound that `e` and all of `s` respect. */
  lemma {:induction false} InsertAbove(e: Entry, s: seq<Entry>, bound: int)
    requires bound <= e.offset
    requires forall j :: 0 <= j < |s| ==> bound <= s[j].offset
    ensures forall j :: 0 <= j < |Insert(e, s)| ==> bound <= Insert(e, s)[j].offset
  {
    if s != [] && e.offset > s[0].offset {
      InsertAbove(e, s[1..], bound);
      var rest := Insert(e, s[1..]);
      assert Insert(e, s) == [s[0]] + rest;
    }
  }

  lemma {:induction false} InsertSorted(e: Entry, s: seq<Entry>)
    requires SortedByOffset(s)
    ensures SortedByOffset(Insert(e, s))
  {
    if s == [] || e.offset <= s[0].offset {
      var r := [e] + s;
      assert Insert(e, s) == r;
      forall i, j | 0 <= i < j < |r|
        ensures r[i].offset <= r[j].offset
      {
        if i > 0 {
          assert r[i] == s[i - 1];
        }
        assert r[j] == s[j - 1];
      }
    } else {
      var rest := Insert(e, s[1..]);
      InsertSorted(e, s[1..]);
      InsertAbove(e, s[1..], s[0].offset);
      var r := [s[0]] + rest;
      assert Insert(e, s) == r;
      forall i, j | 0 <= i < j < |r|
        ensures r[i].offset <= r[j].offset
      {
        if i > 0 {
          assert r[i] == rest[i - 1];
        }
        assert r[j] == rest[j - 1];
      }
    }
  }

  /** A stable sort by offset: Python's `sorted` with the offset as key. */
  function SortByOffset(s: seq<Entry>): (r: seq<Entry>)
    ensures |r| == |s|
    ensures multiset(r) == multiset(s)
    ensures SortedByOffset(r)
  {
    if s == [] then []
    else
      assert s == [s[0]] + s[1..];
      var rest := SortByOffset(s[1..]);
      InsertSorted(s[0], rest);
      Insert(s[0], rest)
  }

  lemma {:induction false} InsertKeepsOrder(e: Entry, s: seq<Entry>, offset: U32)
    ensures WithOffset(Insert(e, s), offset)
            == (if e.offset == offset then [e] else []) + WithOffset(s, offset)
  {
    if s == [] || e.offset <= s[0].offset {
      assert ([e] + s)[1..] == s;
    } else {
      InsertKeepsOrder(e, s[1..], offset);
      assert ([s[0]] + Insert(e, s[1..]))[1..] == Insert(e, s[1..]);
      assert s[0].offset != offset || e.offset != offset;
    }
  }

  /** The sort is stable: entries with equal offsets keep their directory
      order. */
  lemma {:induction false} SortIsStable(s: seq<Entry>, offset: U32)
    ensures WithOffset(SortByOffset(s), offset) == WithOffset(s, offset)
  {
    if s != [] {
      SortIsStable(s[1..], offset);
      InsertKeepsOrder(s[0], SortByOffset(s[1..]), offset);
    }
  }

  // ---------------------------------------------------------------------
  // The directory (PAKArchive.read_filelist)
  // ---------------------------------------------------------------------

  /** The `<I` file count at 0x104. */
  function FileCount(data: seq<Byte>): (n: U32)
    requires |data| >= 0x10C
    ensures n == (data[0x104] as int) + 0x100 * (data[0x105] as int)
                 + 0x1_0000 * (data[0x106] as int) + 0x100_0000 * (data[0x107] as int)
  {
    U32At(data, 0x104)
  }

  /** The `<I` directory offset at 0x108. */
  function DirectoryOffset(data: seq<Byte>): (n: U32)
    requires |data| >= 0x10C
    ensures n == (data[0x108] as int) + 0x100 * (data[0x109] as int)
                 + 0x1_0000 * (data[0x10A] as int) + 0x100_0000 * (data[0x10B] as int)
  {
    U32At(data, 0x108)
  }

  /** The archive's entries, all or nothing: the id string at 0, the
      marker at 0x100, the `<I` file count and directory offset at 0x104
      and 0x108 (truncated unless the file reaches 0x10C), then the records
      at the directory offset, sorted by offset. ReadFilelist reads the
      same header from the shared cursor. */
  function DecodeDirectory(data: seq<Byte>, decode: Codec): (r: Result<seq<Entry>>)
    ensures !(|data| >= |IdString| && data[..|IdString|] == IdString) ==> r == Err(NotAnArchive)
    ensures !(|data| >= MarkerOffset + 4 && data[MarkerOffset..MarkerOffset + 4] == Marker) ==> r == Err(NotAnArchive)
    ensures r.Ok? ==> |data| >= 0x10C && |r.value| == FileCount(data) && SortedByOffset(r.value)
  {
    if ReadAt(data, 0, |IdString|).value != IdString then Err(NotAnArchive)
    else if ReadAt(data, MarkerOffset, 4).value != Marker then Err(NotAnArchive)
    else
      if |data| < 0x10C then Err(Truncated)
      else
        var entries := EntriesAt(data, DirectoryOffset(data), FileCount(data), decode);
        if entries.Err? then Err(entries.error)
        else Ok(SortByOffset(entries.value.value))
  }

  /** The entries of an archive in directory order, when they decode. */
  function DirectoryOrder(data: seq<Byte>, decode: Codec): Result<Parsed<seq<Entry>>>
    requires |data| >= 0x10C
  {
    EntriesAt(data, DirectoryOffset(data), FileCount(data), decode)
  }

  /** `k` records take exactly `k` times 316 bytes. */
  lemma EntriesSpan(data: seq<Byte>, pos: nat, k: nat, decode: Codec)
    requires EntriesAt(data, pos, k, decode).Ok?
    ensures EntriesAt(data, pos, k, decode).value.next == pos + EntrySize * k
  {
    ManySpan(data, pos, k, EntrySize, EntryRecord(decode));
  }

  /** A decoded directory holds the `num_files` records at the directory
      offset, read with no gaps, sorted by offset, a permutation of the
      directory order that keeps equal offsets in directory order. */
  lemma DirectoryIsSortedRecords(data: seq<Byte>, decode: Codec, offset: U32)
    requires DecodeDirectory(data, decode).Ok?
    ensures |data| >= 0x10C && DirectoryOrder(data, decode).Ok?
    ensures
      var files := DecodeDirectory(data, decode).value;
      var records := DirectoryOrder(data, decode).value.value;
      && files == SortByOffset(records)
      && |files| == FileCount(data)
      && multiset(files) == multiset(records)
      && SortedByOffset(files)
      && WithOffset(files, offset) == WithOffset(records, offset)
  {
    var records := DirectoryOrder(data, decode).value.value;
    SortIsStable(records, offset);
  }

  /** Decoded entry `i` in directory order is the record at
      `info_offset + 316·i`. */
  lemma DirectoryRecord(data: seq<Byte>, decode: Codec, i: nat)
    requires |data| >= 0x10C && DirectoryOrder(data, decode).Ok? && i < FileCount(data)
    ensures DecodeEntry(data, DirectoryOffset(data) + EntrySize * i, decode)
            == Ok(Parsed(DirectoryOrder(data, decode).value.value[i], DirectoryOffset(data) + EntrySize * (i + 1)))
  {
    var pos := DirectoryOffset(data);
    ManyAt(data, pos, FileCount(data), i, EntryRecord(decode));
    EntriesSpan(data, pos, i, decode);
    EntriesSpan(data, pos, i + 1, decode);
  }

  /** A record that fails to decode fails the whole directory with its
      error; with nonzero or missing reserved bytes that is a corrupt
      listing. */
  lemma BadRecordFailsDirectory(data: seq<Byte>, decode: Codec, i: nat)
    requires |data| >= 0x10C && data[..|IdString|] == IdString && data[MarkerOffset..MarkerOffset + 4] == Marker
    requires i < FileCount(data)
    requires EntriesAt(data, DirectoryOffset(data), i, decode).Ok?
    requires DecodeEntry(data, DirectoryOffset(data) + EntrySize * i, decode).Err?
    ensures DecodeDirectory(data, decode) == Err(DecodeEntry(data, DirectoryOffset(data) + EntrySize * i, decode).error)
  {
    EntryFails(data, DirectoryOffset(data), i, FileCount(data), decode);
    DirectoryFails(data, decode);
  }

  /** The first record that fails to decode decides the error of any
      longer run of records. */
  lemma EntryFails(data: seq<Byte>, pos: nat, i: nat, n: nat, decode: Codec)
    requires i < n && EntriesAt(data, pos, i, decode).Ok?
    requires DecodeEntry(data, pos + EntrySize * i, decode).Err?
    ensures EntriesAt(data, pos, n, decode) == Err(DecodeEntry(data, pos + EntrySize * i, decode).error)
  {
    EntriesSpan(data, pos, i, decode);
    ManyFailsAt(data, pos, i, n, EntryRecord(decode));
  }

  /** Records that do not decode fail the whole directory with their
      error. */
  lemma DirectoryFails(data: seq<Byte>, decode: Codec)
    requires |data| >= 0x10C && data[..|IdString|] == IdString && data[MarkerOffset..MarkerOffset + 4] == Marker
    requires DirectoryOrder(data, decode).Err?
    ensures DecodeDirectory(data, decode) == Err(DirectoryOrder(data, decode).error)
  {
    assert ReadAt(data, 0, |IdString|).value == data[..|IdString|];
    assert ReadAt(data, MarkerOffset, 4).value == data[MarkerOffset..MarkerOffset + 4];
  }

  /** A record read from the directory depends only on the archive's length
      and its bytes from the record on. */
  lemma EntriesFrom(d1: seq<Byte>, d2: seq<Byte>, lo: nat, pos: nat, k: nat, decode: Codec)
    requires |d1| == |d2| && lo <= pos
    requires forall i :: lo <= i < |d1| ==> d1[i] == d2[i]
    ensures EntriesAt(d1, pos, k, decode) == EntriesAt(d2, pos, k, decode)
  {
    forall p: nat | pos <= p
      ensures DecodeEntry(d1, p, decode) == DecodeEntry(d2, p, decode)
    {
      EntryFrom(d1, d2, lo, p, decode);
    }
    ManyFrom(d1, d2, pos, k, EntryRecord(decode));
  }

  /** One record depends only on the archive's length and its bytes from
      the record on. */
  lemma EntryFrom(d1: seq<Byte>, d2: seq<Byte>, lo: nat, pos: nat, decode: Codec)
    requires |d1| == |d2| && lo <= pos
    requires forall i :: lo <= i < |d1| ==> d1[i] == d2[i]
    ensures DecodeEntry(d1, pos, decode) == DecodeEntry(d2, pos, decode)
  {
    ReadAtSuffix(d1, d2, lo, pos, PathSize);
    ReadAtSuffix(d1, d2, lo, pos + ReservedStart, ReservedSize);
    if pos + ReservedStart <= |d1| {
      assert d1[pos + 256..pos + ReservedStart] == d2[pos + 256..pos + ReservedStart];
    }
  }

  /** Bytes 32 to 0xFF are never examined: two archives that differ only
      there decode alike, as long as the directory lies after them. */
  lemma PaddingNotExamined(d1: seq<Byte>, d2: seq<Byte>, decode: Codec)
    requires |d1| == |d2|
    requires forall i :: 0 <= i < |d1| && !(|IdString| <= i < MarkerOffset) ==> d1[i] == d2[i]
    requires |d1| >= 0x10C ==> DirectoryOffset(d1) >= MarkerOffset
    ensures DecodeDirectory(d1, decode) == DecodeDirectory(d2, decode)
  {
    ReadAtWindow(d1, d2, 0, |IdString|);
    ReadAtSuffix(d1, d2, MarkerOffset, MarkerOffset, 4);
    if |d1| >= 0x10C {
      assert FileCount(d1) == FileCount(d2) && DirectoryOffset(d1) == DirectoryOffset(d2);
      EntriesFrom(d1, d2, MarkerOffset, DirectoryOffset(d1), FileCount(d1), decode);
      assert DirectoryOrder(d1, decode) == DirectoryOrder(d2, decode);
    }
  }

  // ---------------------------------------------------------------------
  // Extraction (PAKFile.extract)
  // ---------------------------------------------------------------------

  /** What extraction writes: the target path under the destination root,
      and the inflated bytes. */
  datatype Extracted = Extracted(target: seq<Segment>, content: seq<Byte>)

  /** The bytes handed to decompression: `zsize` bytes from `offset`, fewer
      at the end of the archive. */
  function CompressedSpan(data: seq<Byte>, e: Entry): (span: seq<Byte>)
    ensures e.offset >= |data| ==> span == []
    ensures e.offset < |data| ==> span == data[e.offset..Min(e.offset + e.zsize, |data|)]
    ensures |span| == e.zsize <==> e.offset + e.zsize <= |data| || e.zsize == 0
  {
    ReadAt(data, e.offset, e.zsize).value
  }

  /** The outcome of extracting `e` under `root`: the inflated compressed
      span written to root / the entry's path, or the inflate error. */
  function Extraction(data: seq<Byte>, e: Entry, root: seq<Segment>, inflate: Inflate): (r: Result<Extracted>)
    ensures r.Ok? <==> inflate(CompressedSpan(data, e)).Some?
    ensures r.Err? ==> r.error == InflateFailed
    ensures r.Ok? ==> r.value.content == inflate(CompressedSpan(data, e)).value
    ensures r.Ok? ==> |r.value.target| == |root| + |Path(e)| && r.value.target[..|root|] == root
                      && r.value.target[|root|..] == Split(e.name, Backslash)
  {
    match inflate(CompressedSpan(data, e))
    case None => Err(InflateFailed)
    case Some(content) => Ok(Extracted(root + Path(e), content))
  }

  /** `a\b\c.txt`, and a record holding it as its path field, followed by
      NULs, zero u32 fields and zero reserved bytes. */
  const ExampleName: seq<Byte> := [0x61, 0x5C, 0x62, 0x5C, 0x63, 0x2E, 0x74, 0x78, 0x74]
  const ExampleRecord: seq<Byte> := ExampleName + Zeros(EntrySize - 9)

  /** The example record decodes whenever its name does, to that name. */
  lemma ExampleDecodes(decode: Codec)
    requires decode(ExampleName).Some?
    ensures DecodeEntry(ExampleRecord, 0, decode).Ok?
    ensures DecodeEntry(ExampleRecord, 0, decode).value.next == EntrySize
    ensures DecodeEntry(ExampleRecord, 0, decode).value.value.name == ExampleName
  {
    var field := ReadAt(ExampleRecord, 0, PathSize).value;
    assert field == ExampleRecord[..PathSize];
    assert field[..9] == ExampleName && field[9] == 0;
    BeforeNulStops(field, 9);
    assert ReadAt(ExampleRecord, ReservedStart, ReservedSize).value == Zeros(ReservedSize);
  }

  /** The example record's path is a / b / c.txt, and it extracts to
      root / a / b / c.txt. */
  lemma PathExample(decode: Codec, root: seq<Segment>, inflate: Inflate)
    requires decode(ExampleName).Some?
    ensures
      var r := DecodeEntry(ExampleRecord, 0, decode);
      && r.Ok? && r.value.next == |ExampleRecord|
      && Path(r.value.value) == [[0x61], [0x62], [0x63, 0x2E, 0x74, 0x78, 0x74]]
      && (Extraction(ExampleRecord, r.value.value, root, inflate).Ok? ==>
            Extraction(ExampleRecord, r.value.value, root, inflate).value.target
            == root + [[0x61], [0x62], [0x63, 0x2E, 0x74, 0x78, 0x74]])
  {
    ExampleDecodes(decode);
    var segments: seq<Segment> := [[0x61], [0x62], [0x63, 0x2E, 0x74, 0x78, 0x74]];
    assert Join(segments, Backslash) == ExampleName;
    SplitJoin(segments, Backslash);
  }

  /** The name ends at the first NUL. */
  lemma BeforeNulStops(field: seq<Byte>, n: nat)
    requires n < |field| && field[n] == 0
    requires forall i :: 0 <= i < n ==> field[i] != 0
    ensures BeforeNul(field) == field[..n]
  {
    BeforeNulPrefix(field);
  }

  // ---------------------------------------------------------------------
  // The archive as the source runs it: one shared file cursor
  // ---------------------------------------------------------------------

  /** `struct.unpack('<I', buff.read(4))[0]` on the shared cursor. */
  method ReadU32(f: BinaryFile) returns (r: Result<U32>)
    modifies f
    ensures f.pos == ReadAt(f.data, old(f.pos), 4).next
    ensures UnpackU32(f.data, old(f.pos)).Ok? <==> r.Ok?
    ensures r.Ok? ==> UnpackU32(f.data, old(f.pos)).value == Parsed(r.value, f.pos)
    ensures r.Err? ==> r.error == Truncated
  {
    var chunk := f.Read(4);
    if |chunk| != 4 {
      return Err(Truncated);
    }
    r := Ok(LeU32(chunk));
  }

  /** PAKFile.__init__: one directory record, field by field from the
      shared cursor. */
  method ReadEntry(f: BinaryFile, decode: Codec) returns (r: Result<Entry>)
    modifies f
    ensures DecodeEntry(f.data, old(f.pos), decode).Ok? <==> r.Ok?
    ensures r.Ok? ==> DecodeEntry(f.data, old(f.pos), decode).value == Parsed(r.value, f.pos)
    ensures r.Err? ==> r.error == DecodeEntry(f.data, old(f.pos), decode).error
  {
    var field := f.Read(PathSize);
    var name := BeforeNul(field);
    if decode(name).None? {
      return Err(Undecodable);
    }
    var zsize :- ReadU32(f);
    var size :- ReadU32(f);
    var zsize1 :- ReadU32(f);
    var offset :- ReadU32(f);
    var unk3 :- ReadU32(f);
    var reserved := f.Read(ReservedSize);
    if reserved != Zeros(ReservedSize) {
      return Err(CorruptListing);
    }
    r := Ok(Entry(name, zsize, size, zsize1, offset, unk3));
  }

  /** The records of the directory, `[PAKFile(buff) for _ in
      range(num_files)]`: `n` records read one after another from the
      shared cursor. */
  method ReadEntries(f: BinaryFile, n: nat, decode: Codec) returns (r: Result<seq<Entry>>)
    modifies f
    ensures EntriesAt(f.data, old(f.pos), n, decode).Ok? <==> r.Ok?
    ensures r.Ok? ==> EntriesAt(f.data, old(f.pos), n, decode).value == Parsed(r.value, f.pos)
    ensures r.Err? ==> r.error == EntriesAt(f.data, old(f.pos), n, decode).error
  {
    ghost var start := f.pos;
    var entries: seq<Entry> := [];
    var i: nat := 0;
    while i < n
      invariant 0 <= i <= n
      invariant EntriesAt(f.data, start, i, decode) == Ok(Parsed(entries, f.pos))
    {
      var entry := ReadEntry(f, decode);
      if entry.Err? {
        assert EntriesAt(f.data, start, i + 1, decode) == Err(entry.error);
        ManyFailFrom(f.data, start, i + 1, n, EntryRecord(decode));
        return Err(entry.error);
      }
      assert EntriesAt(f.data, start, i + 1, decode) == Ok(Parsed(entries + [entry.value], f.pos));
      entries := entries + [entry.value];
      i := i + 1;
    }
    r := Ok(entries);
  }

  class Archive {
    /** The open archive file, shared by the directory reader and every
        entry's extraction. */
    const buff: BinaryFile
    var files: seq<Entry>

    /** PAKArchive.__init__ and the open done by __enter__. */
    constructor (contents: seq<Byte>)
      ensures fresh(buff) && buff.data == contents && buff.pos == 0 && files == []
    {
      buff := new BinaryFile(contents);
      files := [];
    }

    /** read_filelist: check the id string and the marker, read the count
        and the directory offset, decode the records back to back, and keep
        them sorted by offset. On failure `files` is left as it was. */
    method ReadFilelist(decode: Codec) returns (r: Result<()>)
      requires buff.pos == 0
      modifies this, buff
      ensures DecodeDirectory(buff.data, decode).Ok? <==> r.Ok?
      ensures r.Ok? ==> files == DecodeDirectory(buff.data, decode).value
      ensures r.Err? ==> r.error == DecodeDirectory(buff.data, decode).error && files == old(files)
    {
      ghost var data := buff.data;
      var id := buff.Read(|IdString|);
      if id != IdString {
        return Err(NotAnArchive);
      }
      buff.Seek(MarkerOffset);
      var marker := buff.Read(4);
      if marker != Marker {
        return Err(NotAnArchive);
      }
      assert |data| >= MarkerOffset + 4;
      var numFiles :- ReadU32(buff);
      var infoOffset :- ReadU32(buff);
      assert |data| >= 0x10C;
      assert numFiles == FileCount(data) && infoOffset == DirectoryOffset(data);
      buff.Seek(infoOffset);
      var entries :- ReadEntries(buff, numFiles, decode);
      files := SortByOffset(entries);
      r := Ok(());
    }

    /** extract: seek to the entry's offset, read `zsize` bytes, inflate
        them; the target is the entry's path under `root`. What is read does
        not depend on where the cursor was before. */
    method Extract(e: Entry, root: seq<Segment>, inflate: Inflate) returns (r: Result<Extracted>)
      modifies buff
      ensures buff.pos == ReadAt(buff.data, e.offset, e.zsize).next
      ensures r == Extraction(buff.data, e, root, inflate)
    {
      var target := root + Path(e);
      buff.Seek(e.offset);
      var span := buff.Read(e.zsize);
      var content := inflate(span);
      if content.None? {
        return Err(InflateFailed);
      }
      r := Ok(Extracted(target, content.value));
    }
  }
}

/**
 The MFS image builder and its manifest: where payloads lie, what the entry
 table says about them, and that the manifest says the same.
 */
module MfsImage {
  import opened Machine

  const BLOCK_SIZE: nat := 512
  const HEADER_SIZE: nat := 512
  const ENTRY_SIZE: nat := 128
  const NAME_SIZE: nat := 96
  const SLOTS: nat := 16
  const DATA_OFFSET: nat := 2560
  const MAGIC: seq<Byte> := [77, 70, 83, 56, 86, 49, 0, 0]
  const U32: nat := 0x1_0000_0000

  datatype SourceFile = SourceFile(name: seq<Byte>, data: seq<Byte>)
  datatype FileEntry = FileEntry(name: seq<Byte>, data: seq<Byte>, offset: nat) {
    function End(): nat {
      offset + |data|
    }
  }
  datatype Built = Built(image: seq<Byte>, entries: seq<FileEntry>) | NameTooLong | TooManyEntries | TooBig

  function Align(n: nat): (r: nat)
    ensures n <= r < n + BLOCK_SIZE && r % BLOCK_SIZE == 0
  {
    (n + BLOCK_SIZE - 1) / BLOCK_SIZE * BLOCK_SIZE
  }

  function Zeros(n: nat): (r: seq<Byte>)
    ensures |r| == n && forall i :: 0 <= i < n ==> r[i] == 0
  {
    seq(n, i => 0)
  }

  function LE32(x: nat): (r: seq<Byte>)
    requires x < U32
    ensures |r| == 4
  {
    [x % 256, x / 256 % 256, x / 65536 % 256, x / 16777216]
  }

  function ReadLE32(s: seq<Byte>, at: nat): nat
    requires at + 4 <= |s|
  {
    s[at] as nat + 256 * s[at + 1] as nat + 65536 * s[at + 2] as nat + 16777216 * s[at + 3] as nat
  }

  lemma LE32RoundTrip(s: seq<Byte>, at: nat, x: nat)
    requires x < U32 && at + 4 <= |s| && s[at..at + 4] == LE32(x)
    ensures ReadLE32(s, at) == x
  {
    var t := s[at..at + 4];
    assert t[0] == s[at] && t[1] == s[at + 1] && t[2] == s[at + 2] && t[3] == s[at + 3];
    assert x / 256 == x / 65536 * 256 + x / 256 % 256;
    assert x / 65536 == x / 16777216 * 256 + x / 65536 % 256;
  }

  /** A 128-byte table slot. */
  function Slot(e: FileEntry): (r: seq<Byte>)
    requires |e.name| < NAME_SIZE && e.offset < U32 && |e.data| < U32
    ensures |r| == ENTRY_SIZE
  {
    e.name + Zeros(NAME_SIZE - |e.name|) + LE32(e.offset) + LE32(|e.data|) + LE32(0) + Zeros(20)
  }

  /** The bytes at `at` replaced, the length kept. */
  function Patch(s: seq<Byte>, at: nat, bytes: seq<Byte>): (r: seq<Byte>)
    requires at + |bytes| <= |s|
    ensures |r| == |s| && r[at..at + |bytes|] == bytes
    ensures forall i :: 0 <= i < |s| && !(at <= i < at + |bytes|) ==> r[i] == s[i]
  {
    s[..at] + bytes + s[at + |bytes|..]
  }

  function Header(count: nat, imageSize: nat): (r: seq<Byte>)
    requires count < U32 && imageSize < U32
    ensures |r| == HEADER_SIZE
  {
    MAGIC + LE32(BLOCK_SIZE) + LE32(count) + LE32(HEADER_SIZE) + LE32(DATA_OFFSET) + LE32(imageSize) + LE32(ENTRY_SIZE)
    + Zeros(480)
  }

  // ----- placement -----

  predicate SameFiles(files: seq<SourceFile>, entries: seq<FileEntry>) {
    |entries| == |files|
    && forall k :: 0 <= k < |files| ==> entries[k].name == files[k].name && entries[k].data == files[k].data
  }

  /** Each payload starts at the first block boundary behind the previous one. */
  predicate Packed(entries: seq<FileEntry>) {
    forall k :: 0 <= k < |entries| ==> NextBlock(entries, k)
  }

  predicate NextBlock(entries: seq<FileEntry>, k: nat)
    requires k < |entries|
  {
    entries[k].offset == Align(if k == 0 then DATA_OFFSET else entries[k - 1].End())
  }

  predicate Covered(entries: seq<FileEntry>, x: nat) {
    exists k :: 0 <= k < |entries| && entries[k].offset <= x < entries[k].End()
  }

  /** Every payload is in the body where its entry says; bytes of no payload are zero; nothing follows the last. */
  ghost predicate PayloadsIn(body: seq<Byte>, base: nat, entries: seq<FileEntry>) {
    (forall k :: 0 <= k < |entries| ==>
       base <= entries[k].offset && entries[k].End() <= base + |body|
       && body[entries[k].offset - base..entries[k].End() - base] == entries[k].data)
    && (forall i :: 0 <= i < |body| && !Covered(entries, base + i) ==> body[i] == 0)
  }

  function BodyEnd(entries: seq<FileEntry>): nat {
    if entries == [] then DATA_OFFSET else entries[|entries| - 1].End()
  }

  /** Aligned, in order, no two sharing a byte. */
  lemma {:induction false} PackedDisjoint(entries: seq<FileEntry>, i: nat, j: nat)
    requires Packed(entries) && i < j < |entries|
    ensures entries[i].offset % BLOCK_SIZE == 0 && entries[j].offset % BLOCK_SIZE == 0
    ensures DATA_OFFSET <= entries[i].offset && entries[i].End() <= entries[j].offset
    decreases j
  {
    PackedAbove(entries, i);
    assert NextBlock(entries, j);
    if i < j - 1 {
      PackedDisjoint(entries, i, j - 1);
    }
  }

  lemma {:induction false} PackedAbove(entries: seq<FileEntry>, i: nat)
    requires Packed(entries) && i < |entries|
    ensures DATA_OFFSET <= entries[i].offset && entries[i].offset % BLOCK_SIZE == 0
  {
    assert NextBlock(entries, i);
    if i > 0 {
      PackedAbove(entries, i - 1);
    }
  }

  // ----- the image -----

  /** The image says about its files what the entries say. */
  ghost predicate Describes(image: seq<Byte>, entries: seq<FileEntry>) {
    |entries| <= SLOTS && |image| == BodyEnd(entries) < U32 && Packed(entries)
    && (forall k :: 0 <= k < |entries| ==> |entries[k].name| < NAME_SIZE && entries[k].End() < U32)
    && DATA_OFFSET <= |image|
    && image[..HEADER_SIZE] == Header(|entries|, |image|)
    && (forall k :: 0 <= k < |entries| ==> SlotBytes(image, HEADER_SIZE, k) == Slot(entries[k]))
    && (forall k :: |entries| <= k < SLOTS ==> SlotBytes(image, HEADER_SIZE, k) == Zeros(ENTRY_SIZE))
    && PayloadsIn(image[DATA_OFFSET..], DATA_OFFSET, entries)
  }

  function SlotBytes(s: seq<Byte>, base: nat, k: nat): seq<Byte>
    requires k < SLOTS && base + SLOTS * ENTRY_SIZE <= |s|
  {
    s[base + k * ENTRY_SIZE..base + k * ENTRY_SIZE + ENTRY_SIZE]
  }

  method PlacePayloads(files: seq<SourceFile>) returns (entries: seq<FileEntry>, payload: seq<Byte>)
    ensures SameFiles(files, entries) && Packed(entries)
    ensures DATA_OFFSET + |payload| == BodyEnd(entries) && PayloadsIn(payload, DATA_OFFSET, entries)
  {
    var cursor := DATA_OFFSET;
    entries, payload := [], [];
    for k := 0 to |files|
      invariant SameFiles(files[..k], entries) && Packed(entries)
      invariant cursor == DATA_OFFSET + |payload| == BodyEnd(entries)
      invariant PayloadsIn(payload, DATA_OFFSET, entries)
    {
      cursor := Align(cursor);
      ghost var was := payload;
      if |payload| < cursor - DATA_OFFSET {
        payload := payload + Zeros(cursor - DATA_OFFSET - |payload|);
      }
      var e := FileEntry(files[k].name, files[k].data, cursor);
      Extend(was, payload, entries, e);
      PackedExtends(entries, e);
      entries := entries + [e];
      payload := payload + e.data;
      cursor := cursor + |e.data|;
    }
    assert files[..|files|] == files;
  }

  lemma PackedExtends(entries: seq<FileEntry>, e: FileEntry)
    requires Packed(entries) && e.offset == Align(BodyEnd(entries))
    ensures Packed(entries + [e])
  {
    var all := entries + [e];
    forall k | 0 <= k < |all|
      ensures NextBlock(all, k)
    {
      if k < |entries| {
        assert NextBlock(entries, k) && all[k] == entries[k] && (k > 0 ==> all[k - 1] == entries[k - 1]);
      }
    }
  }

  lemma Extend(was: seq<Byte>, padded: seq<Byte>, entries: seq<FileEntry>, e: FileEntry)
    requires PayloadsIn(was, DATA_OFFSET, entries)
    requires was <= padded && (forall x :: |was| <= x < |padded| ==> padded[x] == 0)
    requires e.offset == DATA_OFFSET + |padded|
    ensures PayloadsIn(padded + e.data, DATA_OFFSET, entries + [e])
  {
    hide Covered;
    var body, all := padded + e.data, entries + [e];
    forall k | 0 <= k < |all|
      ensures DATA_OFFSET <= all[k].offset && all[k].End() <= DATA_OFFSET + |body|
              && body[all[k].offset - DATA_OFFSET..all[k].End() - DATA_OFFSET] == all[k].data
    {
      if k < |entries| {
        assert all[k] == entries[k];
        StillThere(was, body, entries[k]);
      } else {
        assert all[k] == e && body[|padded|..|body|] == e.data;
      }
    }
    forall i | 0 <= i < |body| && !Covered(all, DATA_OFFSET + i)
      ensures body[i] == 0
    {
      CoveredExtends(entries, e, DATA_OFFSET + i);
    }
  }

  lemma StillThere(was: seq<Byte>, body: seq<Byte>, e: FileEntry)
    requires |was| <= |body| && body[..|was|] == was
    requires DATA_OFFSET <= e.offset && e.End() <= DATA_OFFSET + |was|
    ensures body[e.offset - DATA_OFFSET..e.End() - DATA_OFFSET] == was[e.offset - DATA_OFFSET..e.End() - DATA_OFFSET]
  {
    var lo, hi := e.offset - DATA_OFFSET, e.End() - DATA_OFFSET;
    forall i | 0 <= i < hi - lo
      ensures body[lo..hi][i] == was[lo..hi][i]
    {
      assert body[..|was|][lo + i] == body[lo + i];
    }
  }

  lemma CoveredExtends(entries: seq<FileEntry>, e: FileEntry, x: nat)
    ensures Covered(entries + [e], x) <==> Covered(entries, x) || e.offset <= x < e.End()
  {
    var all := entries + [e];
    assert all[|entries|] == e;
    if Covered(entries, x) {
      var k :| 0 <= k < |entries| && entries[k].offset <= x < entries[k].End();
      assert all[k] == entries[k];
    }
  }

  method BuildTable(entries: seq<FileEntry>) returns (table: seq<Byte>)
    requires |entries| <= SLOTS
    requires forall k :: 0 <= k < |entries| ==>
             |entries[k].name| < NAME_SIZE && entries[k].offset < U32 && |entries[k].data| < U32
    ensures |table| == SLOTS * ENTRY_SIZE
    ensures forall k :: 0 <= k < |entries| ==> SlotBytes(table, 0, k) == Slot(entries[k])
    ensures forall k :: |entries| <= k < SLOTS ==> SlotBytes(table, 0, k) == Zeros(ENTRY_SIZE)
  {
    table := Zeros(SLOTS * ENTRY_SIZE);
    for i := 0 to |entries|
      invariant |table| == SLOTS * ENTRY_SIZE
      invariant forall k :: 0 <= k < i ==> SlotBytes(table, 0, k) == Slot(entries[k])
      invariant forall k :: i <= k < SLOTS ==> SlotBytes(table, 0, k) == Zeros(ENTRY_SIZE)
    {
      var off := i * ENTRY_SIZE;
      ghost var was := table;
      var named := Patch(table, off, entries[i].name);
      table := Patch(named, off + NAME_SIZE, LE32(entries[i].offset) + LE32(|entries[i].data|) + LE32(0));
      SlotPatched(was, table, i, entries[i]);
      forall k | 0 <= k < SLOTS && k != i
        ensures SlotBytes(table, 0, k) == SlotBytes(was, 0, k)
      {
        OtherSlot(was, table, i, k);
      }
    }
  }

  lemma OtherSlot(was: seq<Byte>, table: seq<Byte>, i: nat, k: nat)
    requires |table| == |was| == SLOTS * ENTRY_SIZE && i < SLOTS && k < SLOTS && k != i
    requires forall x :: 0 <= x < |was| && !(i * ENTRY_SIZE <= x < i * ENTRY_SIZE + ENTRY_SIZE) ==> table[x] == was[x]
    ensures SlotBytes(table, 0, k) == SlotBytes(was, 0, k)
  {
  }

  lemma SlotPatched(was: seq<Byte>, table: seq<Byte>, i: nat, e: FileEntry)
    requires |was| == SLOTS * ENTRY_SIZE && i < SLOTS && SlotBytes(was, 0, i) == Zeros(ENTRY_SIZE)
    requires |e.name| < NAME_SIZE && e.offset < U32 && |e.data| < U32
    requires table == Patch(Patch(was, i * ENTRY_SIZE, e.name), i * ENTRY_SIZE + NAME_SIZE,
                            LE32(e.offset) + LE32(|e.data|) + LE32(0))
    ensures SlotBytes(table, 0, i) == Slot(e)
  {
    hide LE32;
    var off := i * ENTRY_SIZE;
    var named := Patch(was, off, e.name);
    var words := LE32(e.offset) + LE32(|e.data|) + LE32(0);
    var got, want := SlotBytes(table, 0, i), Slot(e);
    assert want == e.name + Zeros(NAME_SIZE - |e.name|) + words + Zeros(20);
    forall x | 0 <= x < ENTRY_SIZE
      ensures got[x] == want[x]
    {
      assert SlotBytes(was, 0, i)[x] == was[off + x] == 0;
      if x < |e.name| {
        assert named[off..off + |e.name|][x] == named[off + x] == table[off + x];
      } else if NAME_SIZE <= x < NAME_SIZE + 12 {
        assert table[off + NAME_SIZE..off + NAME_SIZE + 12][x - NAME_SIZE] == words[x - NAME_SIZE];
      }
    }
  }

  /** Builds the image; the errors are exactly the three the builder reports. */
  method Build(files: seq<SourceFile>) returns (r: Built)
    ensures r.NameTooLong? <==> exists k :: 0 <= k < |files| && |files[k].name| >= 96
    ensures r.TooManyEntries? <==> |files| > 16 && !r.NameTooLong?
    ensures r.Built? ==> SameFiles(files, r.entries) && Describes(r.image, r.entries) && HeaderOf(r.image, |files|)
    ensures r.TooBig? ==> exists entries ::
            SameFiles(files, entries) && Packed(entries) && BodyEnd(entries) >= 0x1_0000_0000
  {
    for k := 0 to |files|
      invariant forall i :: 0 <= i < k ==> |files[i].name| < NAME_SIZE
    {
      if |files[k].name| >= NAME_SIZE {
        return NameTooLong;
      }
    }
    if |files| > SLOTS {
      return TooManyEntries;
    }
    var entries, payload := PlacePayloads(files);
    var imageSize := DATA_OFFSET + |payload|;
    if imageSize >= U32 {
      return TooBig;
    }
    forall k | 0 <= k < |entries|
      ensures entries[k].End() < U32
    {
      if k < |entries| - 1 {
        PackedDisjoint(entries, k, |entries| - 1);
      }
    }
    var table := BuildTable(entries);
    var image := Header(|entries|, imageSize) + table + payload;
    ImageParts(image, Header(|entries|, imageSize), table, payload);
    HeaderReads(image, entries);
    r := Built(image, entries);
  }

  lemma ImageParts(image: seq<Byte>, header: seq<Byte>, table: seq<Byte>, payload: seq<Byte>)
    requires |header| == HEADER_SIZE && |table| == SLOTS * ENTRY_SIZE && image == header + table + payload
    ensures image[..HEADER_SIZE] == header && image[DATA_OFFSET..] == payload
    ensures forall k :: 0 <= k < SLOTS ==> SlotBytes(image, HEADER_SIZE, k) == SlotBytes(table, 0, k)
  {
    forall k | 0 <= k < SLOTS
      ensures SlotBytes(image, HEADER_SIZE, k) == SlotBytes(table, 0, k)
    {
      assert image[HEADER_SIZE..DATA_OFFSET] == table;
    }
  }

  // ----- the manifest -----

  /** The four words of a slot, relative to the buffer the image is loaded into. */
  datatype ManifestSlot = ManifestSlot(src: nat, end: nat, size: nat, offset: nat)

  method Manifest(entries: seq<FileEntry>, buf: nat) returns (slots: seq<ManifestSlot>)
    requires |entries| <= SLOTS
    ensures |slots| == SLOTS
    ensures forall k :: 0 <= k < SLOTS ==> slots[k] == SlotWords(entries, buf, k)
  {
    slots := [];
    for k := 0 to SLOTS
      invariant |slots| == k && forall i :: 0 <= i < k ==> slots[i] == SlotWords(entries, buf, i)
    {
      if k < |entries| {
        var size := |entries[k].data|;
        slots := slots + [ManifestSlot(buf + entries[k].offset, buf + entries[k].offset + size, size,
                                       entries[k].offset)];
      } else {
        slots := slots + [ManifestSlot(buf, buf, 0, 0)];
      }
    }
  }

  function SlotWords(entries: seq<FileEntry>, buf: nat, k: nat): ManifestSlot {
    if k < |entries| then ManifestSlot(buf + entries[k].offset, buf + entries[k].End(), |entries[k].data|,
                                       entries[k].offset)
    else ManifestSlot(buf, buf, 0, 0)
  }

  /** Size and offset as read back from the image's own table. */
  function TableOffset(image: seq<Byte>, k: nat): nat
    requires k < SLOTS && DATA_OFFSET <= |image|
  {
    ReadLE32(image, HEADER_SIZE + k * ENTRY_SIZE + NAME_SIZE)
  }

  function TableSize(image: seq<Byte>, k: nat): nat
    requires k < SLOTS && DATA_OFFSET <= |image|
  {
    ReadLE32(image, HEADER_SIZE + k * ENTRY_SIZE + NAME_SIZE + 4)
  }

  lemma SlotPart(image: seq<Byte>, k: nat, lo: nat, hi: nat)
    requires k < SLOTS && DATA_OFFSET <= |image| && lo <= hi <= ENTRY_SIZE
    ensures var at := HEADER_SIZE + k * ENTRY_SIZE;
            at + hi <= |image| && image[at + lo..at + hi] == SlotBytes(image, HEADER_SIZE, k)[lo..hi]
  {
    var at, slot := HEADER_SIZE + k * ENTRY_SIZE, SlotBytes(image, HEADER_SIZE, k);
    assert at + ENTRY_SIZE <= DATA_OFFSET;
    assert slot == image[at..at + ENTRY_SIZE];
    forall i | 0 <= i < hi - lo
      ensures image[at + lo..at + hi][i] == slot[lo..hi][i]
    {
      assert slot[lo + i] == image[at + (lo + i)];
    }
  }

  lemma SlotFields(e: FileEntry)
    requires |e.name| < NAME_SIZE && e.offset < U32 && |e.data| < U32
    ensures Slot(e)[..|e.name|] == e.name && (forall x :: |e.name| <= x < NAME_SIZE ==> Slot(e)[x] == 0)
    ensures Slot(e)[NAME_SIZE..NAME_SIZE + 4] == LE32(e.offset)
            && Slot(e)[NAME_SIZE + 4..NAME_SIZE + 8] == LE32(|e.data|)
  {
    hide LE32;
    var named, rest := e.name + Zeros(NAME_SIZE - |e.name|), LE32(|e.data|) + LE32(0) + Zeros(20);
    assert Slot(e) == named + (LE32(e.offset) + rest);
    assert Slot(e) == (named + LE32(e.offset)) + (LE32(|e.data|) + (LE32(0) + Zeros(20)));
    assert Slot(e)[..NAME_SIZE] == named;
  }

  lemma ZeroFields()
    ensures LE32(0) == Zeros(4)
  {
  }

  /** Table and manifest describe the same byte ranges, used slots and unused ones alike. */
  lemma ManifestAgrees(image: seq<Byte>, entries: seq<FileEntry>, buf: nat, k: nat)
    requires Describes(image, entries) && k < SLOTS
    ensures var m := SlotWords(entries, buf, k);
            m.offset == TableOffset(image, k) && m.size == TableSize(image, k)
            && m.src == buf + m.offset && m.end == m.src + m.size
    ensures k < |entries| ==>
              var m := SlotWords(entries, buf, k);
              m.end - buf <= |image| && image[m.src - buf..m.end - buf] == entries[k].data
  {
    hide LE32, PayloadsIn, Packed, Header, BodyEnd;
    var at := HEADER_SIZE + k * ENTRY_SIZE;
    SlotPart(image, k, NAME_SIZE, NAME_SIZE + 4);
    SlotPart(image, k, NAME_SIZE + 4, NAME_SIZE + 8);
    if k < |entries| {
      SlotFields(entries[k]);
      LE32RoundTrip(image, at + NAME_SIZE, entries[k].offset);
      LE32RoundTrip(image, at + NAME_SIZE + 4, |entries[k].data|);
      PayloadInImage(image, entries, k);
    } else {
      ZeroFields();
      LE32RoundTrip(image, at + NAME_SIZE, 0);
      LE32RoundTrip(image, at + NAME_SIZE + 4, 0);
    }
  }

  lemma PayloadInImage(image: seq<Byte>, entries: seq<FileEntry>, k: nat)
    requires DATA_OFFSET <= |image| && PayloadsIn(image[DATA_OFFSET..], DATA_OFFSET, entries) && k < |entries|
    ensures DATA_OFFSET <= entries[k].offset && entries[k].End() <= |image|
    ensures image[entries[k].offset..entries[k].End()] == entries[k].data
  {
    var body := image[DATA_OFFSET..];
    assert body[entries[k].offset - DATA_OFFSET..entries[k].End() - DATA_OFFSET]
           == image[entries[k].offset..entries[k].End()];
  }

  // ----- the image in plain numbers -----

  /** Four bytes, the lowest first. */
  predicate Number(image: seq<Byte>, at: nat, x: nat) {
    at + 4 <= |image|
    && x == image[at] as nat + image[at + 1] as nat * 256 + image[at + 2] as nat * 65536
       + image[at + 3] as nat * 16777216
  }

  predicate ZeroFrom(image: seq<Byte>, lo: nat, hi: nat) {
    hi <= |image| && forall x :: lo <= x < hi ==> image[x] == 0
  }

  /** The first 512 bytes: magic, six numbers, zeros. */
  predicate HeaderOf(image: seq<Byte>, files: nat) {
    |image| >= 2560
    && image[..8] == [77, 70, 83, 56, 86, 49, 0, 0]
    && Number(image, 8, 512) && Number(image, 12, files) && Number(image, 16, 512) && Number(image, 20, 2560)
    && Number(image, 24, |image|) && Number(image, 28, 128) && ZeroFrom(image, 32, 512)
  }

  /** A used slot: the name and zeros up to byte 96, offset, size, zeros up to byte 128. */
  predicate EntryOf(image: seq<Byte>, at: nat, name: seq<Byte>, offset: nat, size: nat) {
    at + 128 <= |image| && |name| < 96
    && image[at..at + |name|] == name && ZeroFrom(image, at + |name|, at + 96)
    && Number(image, at + 96, offset) && Number(image, at + 100, size) && ZeroFrom(image, at + 104, at + 128)
  }

  lemma NumberAt(image: seq<Byte>, at: nat, x: nat)
    requires x < 0x1_0000_0000 && at + 4 <= |image| && image[at..at + 4] == LE32(x)
    ensures Number(image, at, x)
  {
    LE32RoundTrip(image, at, x);
  }

  /** The image's first bytes: what its users read as superblock. */
  lemma HeaderReads(image: seq<Byte>, entries: seq<FileEntry>)
    requires Describes(image, entries)
    ensures HeaderOf(image, |entries|)
  {
    hide LE32, PayloadsIn, Packed, BodyEnd, SlotBytes, Slot, Number;
    var h := image[..512];
    var n0, n1, n2, n3, n4, n5 := LE32(512), LE32(|entries|), LE32(512), LE32(2560), LE32(|image|), LE32(128);
    assert h == MAGIC + n0 + n1 + n2 + n3 + n4 + n5 + Zeros(480);
    assert h[..8] == MAGIC && h[8..12] == n0 && h[12..16] == n1 && h[16..20] == n2 && h[20..24] == n3 && h[24..28] == n4
           && h[28..32] == n5 && h[32..512] == Zeros(480);
    assert image[..8] == h[..8] && image[8..12] == h[8..12] && image[12..16] == h[12..16] && image[16..20] == h[16..20]
           && image[20..24] == h[20..24] && image[24..28] == h[24..28] && image[28..32] == h[28..32];
    NumberAt(image, 8, 512);
    NumberAt(image, 12, |entries|);
    NumberAt(image, 16, 512);
    NumberAt(image, 20, 2560);
    NumberAt(image, 24, |image|);
    NumberAt(image, 28, 128);
    forall x | 32 <= x < 512
      ensures image[x] == 0
    {
      assert h[32..512][x - 32] == image[x];
    }
  }

  /** Slot k of the table, at byte 512 + 128k. */
  lemma EntryReads(image: seq<Byte>, entries: seq<FileEntry>, k: nat)
    requires Describes(image, entries) && k < 16
    ensures |image| >= 2560
    ensures k < |entries| ==>
              EntryOf(image, 512 + 128 * k, entries[k].name, entries[k].offset, |entries[k].data|)
    ensures k >= |entries| ==> ZeroFrom(image, 512 + 128 * k, 512 + 128 * k + 128)
  {
    hide LE32, PayloadsIn, Packed, Header, BodyEnd, Number;
    var at := 512 + 128 * k;
    var slot := SlotBytes(image, 512, k);
    assert slot == image[at..at + 128];
    if k < |entries| {
      var e := entries[k];
      assert slot == Slot(e);
      var n := |e.name|;
      SlotFields(e);
      SlotTail(e);
      SlotPart(image, k, 0, n);
      SlotPart(image, k, 96, 100);
      SlotPart(image, k, 100, 104);
      NumberAt(image, at + 96, e.offset);
      NumberAt(image, at + 100, |e.data|);
      forall x | at + n <= x < at + 96 || at + 104 <= x < at + 128
        ensures image[x] == 0
      {
        assert slot[x - at] == image[x];
      }
    } else {
      forall x | at <= x < at + 128
        ensures image[x] == 0
      {
        assert slot[x - at] == image[x];
      }
    }
  }

  lemma SlotTail(e: FileEntry)
    requires |e.name| < NAME_SIZE && e.offset < U32 && |e.data| < U32
    ensures forall x :: 104 <= x < 128 ==> Slot(e)[x] == 0
  {
    ZeroFields();
    hide LE32;
    var front := e.name + Zeros(NAME_SIZE - |e.name|) + LE32(e.offset) + LE32(|e.data|);
    assert Slot(e) == front + (LE32(0) + Zeros(20)) && |front| == 104;
  }

  /**
   The image of a directory, in numbers.  Payloads start at multiples of 512,
   the first at 2560, each less than 512 bytes behind the end of the one
   before; they are the files' bytes, every other byte from 2560 on is zero,
   and the image ends with the last of them.
   */
  lemma ImageReads(image: seq<Byte>, entries: seq<FileEntry>, k: nat)
    requires Describes(image, entries)
    ensures k < |entries| ==>
              entries[k].offset % 512 == 0
              && (if k == 0 then entries[0].offset == 2560
                  else entries[k - 1].End() <= entries[k].offset < entries[k - 1].End() + 512)
              && entries[k].offset + |entries[k].data| <= |image|
              && image[entries[k].offset..entries[k].offset + |entries[k].data|] == entries[k].data
    ensures 2560 <= k < |image| && !Covered(entries, k) ==> image[k] == 0
    ensures |image| == if entries == [] then 2560
                       else entries[|entries| - 1].offset + |entries[|entries| - 1].data|
  {
    hide LE32, Header, Slot, SlotBytes, Number, PayloadsIn, Packed;
    if k < |entries| {
      BlockNumbers(entries, k);
      PayloadInImage(image, entries, k);
    }
    if 2560 <= k < |image| && !Covered(entries, k) {
      Uncovered(image, entries, k);
    }
  }

  lemma BlockNumbers(entries: seq<FileEntry>, k: nat)
    requires Packed(entries) && k < |entries|
    ensures entries[k].offset % 512 == 0
            && (if k == 0 then entries[0].offset == 2560
                else entries[k - 1].End() <= entries[k].offset < entries[k - 1].End() + 512)
  {
    assert NextBlock(entries, k);
  }

  lemma Uncovered(image: seq<Byte>, entries: seq<FileEntry>, k: nat)
    requires 2560 <= k < |image| && PayloadsIn(image[2560..], 2560, entries) && !Covered(entries, k)
    ensures image[k] == 0
  {
    hide Covered;
    assert Covered(entries, 2560 + (k - 2560)) == Covered(entries, k);
    assert image[2560..][k - 2560] == image[k];
  }
}

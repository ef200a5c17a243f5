/**
 The mfs.cat program: copy the argument, load the image, compare names slot by
 slot, print the payload the manifest points at.
 */
module MfsCat {
  import opened Words
  import opened Frames
  import opened Machine
  import opened Arguments
  import opened MfsImage

  const PATH_CELLS: nat := 512
  const BUF_CELLS: nat := 8192

  /** argv[1] as the loader installs it: absent, or a string behind the program. */
  ghost predicate ArgumentIs(mem: seq<Word>, arg: Option<seq<Byte>>) {
    |mem| == MEM_SIZE
    && match arg
       case None => mem[ABI_ARGVEC + 1] == 0
       case Some(s) => ABI_ARGC <= mem[ABI_ARGVEC + 1] && HoldsString(mem, mem[ABI_ARGVEC + 1], s)
  }

  /** The loader's argument block is what the program expects: argv[1] if it fits, otherwise none. */
  lemma ArgumentInstalled(memory: seq<Word>, argv: Arguments)
    requires |memory| == MEM_SIZE
    ensures ArgumentIs(Installed(memory, argv), if Fits(Clipped(argv), 1) then Some(Clipped(argv)[1]) else None)
  {
    hide Installed, CursorAt;
    ArgumentFound(memory, argv, 1);
  }

  function Cut(s: seq<Byte>): seq<Byte> {
    if |s| <= PATH_CELLS - 1 then s else s[..PATH_CELLS - 1]
  }

  ghost predicate Names(entries: seq<FileEntry>) {
    (forall k :: 0 <= k < |entries| ==> entries[k].name != [] && 0 !in entries[k].name && |entries[k].name| < NAME_SIZE)
    && forall i, j :: 0 <= i < j < |entries| ==> entries[i].name != entries[j].name
  }

  /** What the host does with the image file: cannot open, cannot read, or delivers bytes. */
  datatype ImageFile = NoOpen | NoRead | Bytes(image: seq<Byte>)

  /** The lookup the program is for: exit code and everything printed. */
  ghost predicate Answers(entries: seq<FileEntry>, file: ImageFile, arg: Option<seq<Byte>>, code: nat, out: seq<Byte>) {
    if arg.None? || arg.value == [] then code == 2 && out == []
    else if !file.Bytes? then code == 1 && out == []
    else
      (forall k :: 0 <= k < |entries| && entries[k].name == arg.value ==> code == 0 && out == entries[k].data)
      && ((forall k :: 0 <= k < |entries| ==> entries[k].name != arg.value) ==> code == 1 && out == [])
  }

  function SlotName(entries: seq<FileEntry>, k: nat): seq<Byte> {
    if k < |entries| then entries[k].name else []
  }

  lemma NameCell(mem: seq<Word>, buf: nat, image: seq<Byte>, entries: seq<FileEntry>, k: nat, i: nat)
    requires |mem| == MEM_SIZE && buf + |image| <= MEM_SIZE && mem[buf..buf + |image|] == image
    requires Describes(image, entries) && Names(entries) && k < SLOTS && i <= |SlotName(entries, k)|
    ensures var at := buf + HEADER_SIZE + k * ENTRY_SIZE + i;
            at < MEM_SIZE && mem[at] == if i < |SlotName(entries, k)| then SlotName(entries, k)[i] else 0
  {
    hide LE32, PayloadsIn, Packed, Header, BodyEnd, Slot;
    var name, at := SlotName(entries, k), HEADER_SIZE + k * ENTRY_SIZE;
    var bytes := SlotBytes(image, HEADER_SIZE, k);
    assert bytes[i] == image[at + i] == mem[buf..buf + |image|][at + i];
    if k < |entries| {
      SlotFields(entries[k]);
      assert i < |name| ==> Slot(entries[k])[..|name|][i] == name[i];
    }
  }

  /** The loaded image offers each slot's name as a NUL-terminated string. */
  lemma SlotString(mem: seq<Word>, buf: nat, image: seq<Byte>, entries: seq<FileEntry>, k: nat)
    requires |mem| == MEM_SIZE && buf + |image| <= MEM_SIZE && mem[buf..buf + |image|] == image
    requires Describes(image, entries) && Names(entries) && k < SLOTS
    ensures HoldsString(mem, buf + HEADER_SIZE + k * ENTRY_SIZE, SlotName(entries, k))
  {
    hide Describes;
    var name, start := SlotName(entries, k), buf + HEADER_SIZE + k * ENTRY_SIZE;
    NameCell(mem, buf, image, entries, k, |name|);
    forall i | 0 <= i < |name|
      ensures mem[start + i] == name[i] && name[i] != 0
    {
      NameCell(mem, buf, image, entries, k, i);
      assert name[i] in name;
    }
  }

  /** The payload the manifest points at is in memory. */
  lemma PayloadLoaded(mem: seq<Word>, buf: nat, image: seq<Byte>, entries: seq<FileEntry>, k: nat)
    requires |mem| == MEM_SIZE && buf + |image| <= MEM_SIZE && mem[buf..buf + |image|] == image
    requires Describes(image, entries) && k < |entries|
    ensures var m := SlotWords(entries, buf, k);
            m.src + |entries[k].data| == m.end <= buf + |image|
            && forall i :: 0 <= i < |entries[k].data| ==> mem[m.src + i] == entries[k].data[i]
  {
    hide LE32, PayloadsIn, Packed, Header, BodyEnd, Slot;
    PayloadInImage(image, entries, k);
    var e := entries[k];
    forall i | 0 <= i < |e.data|
      ensures mem[buf + e.offset + i] == e.data[i]
    {
      assert e.data[i] == image[e.offset..e.End()][i] == image[e.offset + i] == mem[buf..buf + |image|][e.offset + i];
    }
  }

  class Cat {
    const mem: array<Word>
    const pathBuf: nat
    ghost const manifestOf: seq<FileEntry>
    const slots: seq<ManifestSlot>
    var srcPtr: Word
    var patPtr: Word
    var dstPtr: Word
    var status: Word
    var stdout: seq<Byte>

    function MfsBuf(): nat {
      pathBuf + PATH_CELLS
    }

    /** The program's own buffers lie below the argument block; the manifest words are in place. */
    ghost predicate Valid() {
      mem.Length == MEM_SIZE && pathBuf + 512 + 8192 <= 58000
      && |slots| == SLOTS && |manifestOf| <= SLOTS
      && forall k :: 0 <= k < SLOTS ==> slots[k] == SlotWords(manifestOf, MfsBuf(), k)
    }

    constructor (mem: array<Word>, pathBuf: nat, entries: seq<FileEntry>)
      requires mem.Length == MEM_SIZE && pathBuf + 512 + 8192 <= 58000 && |entries| <= SLOTS
      ensures Valid() && this.mem == mem && this.pathBuf == pathBuf && manifestOf == entries && stdout == []
    {
      var words := Manifest(entries, pathBuf + PATH_CELLS);
      this.mem, this.pathBuf, this.slots, this.manifestOf := mem, pathBuf, words, entries;
      srcPtr, patPtr, dstPtr, status, stdout := 0, 0, 0, 0, [];
    }

    /** A is zero when there is no argument; otherwise the path buffer holds it, cut to its first 511 bytes. */
    method CopyArgument(ghost arg: Option<seq<Byte>>) returns (a: Word)
      requires Valid() && ArgumentIs(mem[..], arg)
      modifies this`srcPtr, this`dstPtr, mem
      ensures a == 0 <==> arg.None? || arg.value == []
      ensures a != 0 ==> HoldsString(mem[..], pathBuf, if |arg.value| <= 511 then arg.value else arg.value[..511])
      ensures forall x :: 0 <= x < MEM_SIZE && !(pathBuf <= x < pathBuf + PATH_CELLS) ==> mem[x] == old(mem[x])
    {
      a := mem[ABI_ARGVEC + 1];
      if a == 0 {
        return;
      }
      srcPtr := a;
      dstPtr := pathBuf;
      a := mem[srcPtr];
      ghost var s := arg.value;
      ghost var base: nat := srcPtr;
      StringAt(mem[..], base, s, 0);
      if a == 0 {
        return;
      }
      var i: nat := 0;
      while dstPtr != pathBuf + PATH_CELLS - 1 && mem[srcPtr] != 0
        invariant i <= |s| && i < PATH_CELLS && srcPtr == base + i && dstPtr == pathBuf + i
        invariant forall k :: 0 <= k < i ==> mem[pathBuf + k] == s[k]
        invariant forall x :: 0 <= x < MEM_SIZE && !(pathBuf <= x < pathBuf + PATH_CELLS) ==> mem[x] == old(mem[x])
        decreases PATH_CELLS - i
      {
        assert HoldsString(mem[..], base, s);
        StringAt(mem[..], base, s, i);
        mem[dstPtr] := mem[srcPtr];
        srcPtr := srcPtr + 1;
        dstPtr := dstPtr + 1;
        i := i + 1;
      }
      assert HoldsString(mem[..], base, s);
      StringAt(mem[..], base, s, i);
      mem[dstPtr] := 0;
      assert Cut(s) == s[..i];
      a := 1;
    }

    /** The image's first 8192 bytes go to the buffer; status says whether it worked. */
    method Load(file: ImageFile)
      requires Valid()
      modifies this`status, mem
      ensures status == 0 <==> file.Bytes?
      ensures file.Bytes? ==> forall i :: 0 <= i < |file.image| && i < BUF_CELLS ==> mem[MfsBuf() + i] == file.image[i]
      ensures forall x :: 0 <= x < MEM_SIZE && !(MfsBuf() <= x < MfsBuf() + BUF_CELLS) ==> mem[x] == old(mem[x])
    {
      status := if file.Bytes? then 0 else 1;
      if !file.Bytes? {
        return;
      }
      var n := if |file.image| < BUF_CELLS then |file.image| else BUF_CELLS;
      for i := 0 to n
        invariant status == 0
        invariant forall k :: 0 <= k < i ==> mem[MfsBuf() + k] == file.image[k]
        invariant forall x :: 0 <= x < MEM_SIZE && !(MfsBuf() <= x < MfsBuf() + BUF_CELLS) ==> mem[x] == old(mem[x])
      {
        mem[MfsBuf() + i] := file.image[i];
      }
    }

    /** Compare the name at an entry with the path, character by character up to the first NUL. */
    method NameMatches(entry: Word, ghost name: seq<Byte>, ghost path: seq<Byte>) returns (matches: bool)
      requires Valid() && HoldsString(mem[..], entry, name) && HoldsString(mem[..], pathBuf, path)
      modifies this`srcPtr, this`patPtr
      ensures matches <==> name == path
    {
      srcPtr, patPtr := entry, pathBuf;
      ghost var i: nat := 0;
      while true
        invariant i <= |name| && i <= |path| && name[..i] == path[..i]
        invariant srcPtr == entry + i && patPtr == pathBuf + i
        decreases |name| - i
      {
        var ch := mem[srcPtr];
        StringAt(mem[..], entry, name, i);
        StringAt(mem[..], pathBuf, path, i);
        if mem[patPtr] != ch {
          assert name != path;
          return false;
        }
        if ch == 0 {
          assert i == |name| && i == |path|;
          return true;
        }
        assert name[..i + 1] == path[..i + 1];
        srcPtr := srcPtr + 1;
        patPtr := patPtr + 1;
        i := i + 1;
      }
    }

    /** Copy one payload to the output, byte by byte. */
    method PrintPayload(src: nat, end: nat, ghost data: seq<Byte>)
      requires Valid() && src + |data| == end < MEM_SIZE
      requires forall i :: 0 <= i < |data| ==> mem[src + i] == data[i]
      modifies this`srcPtr, this`stdout
      ensures stdout == old(stdout) + data
    {
      srcPtr := src;
      ghost var i: nat := 0;
      while srcPtr != end
        invariant i <= |data| && srcPtr == src + i
        invariant stdout == old(stdout) + data[..i]
        decreases |data| - i
      {
        assert data[..i + 1] == data[..i] + [data[i]];
        stdout := stdout + [mem[srcPtr] % 256];
        srcPtr := srcPtr + 1;
        i := i + 1;
      }
    }

    /** Walk the sixteen slots; the first matching one's payload is printed. */
    method Search(ghost image: seq<Byte>, ghost path: seq<Byte>) returns (code: nat)
      requires Valid() && Names(manifestOf) && Describes(image, manifestOf) && |image| <= 8192 && path != []
      requires mem[MfsBuf()..MfsBuf() + |image|] == image && HoldsString(mem[..], pathBuf, path)
      modifies this`srcPtr, this`patPtr, this`stdout
      ensures old(stdout) <= stdout && Answers(manifestOf, Bytes(image), Some(path), code, stdout[|old(stdout)|..])
    {
      hide Describes, HoldsString;
      for k := 0 to SLOTS
        invariant stdout == old(stdout)
        invariant forall i :: 0 <= i < k && i < |manifestOf| ==> manifestOf[i].name != path
      {
        assert mem[..][MfsBuf()..MfsBuf() + |image|] == image;
        SlotString(mem[..], MfsBuf(), image, manifestOf, k);
        var matches := NameMatches(MfsBuf() + HEADER_SIZE + k * ENTRY_SIZE, SlotName(manifestOf, k), path);
        if matches {
          PayloadLoaded(mem[..], MfsBuf(), image, manifestOf, k);
          PrintPayload(slots[k].src, slots[k].end, manifestOf[k].data);
          return 0;
        }
      }
      return 1;
    }

    /** The program: for every argument and every image file, exit code and output are the lookup's. */
    method Run(file: ImageFile, ghost arg: Option<seq<Byte>>) returns (code: nat)
      requires Valid() && ArgumentIs(mem[..], arg) && Names(manifestOf)
      requires file.Bytes? ==> Describes(file.image, manifestOf) && |file.image| <= 8192
      modifies this`srcPtr, this`patPtr, this`dstPtr, this`status, this`stdout, mem
      ensures old(stdout) <= stdout && Answers(manifestOf, file, arg, code, stdout[|old(stdout)|..])
    {
      hide Describes;
      var a := CopyArgument(arg);
      if a == 0 {
        return 2;
      }
      ghost var path := Cut(arg.value);
      assert HoldsString(mem[..], pathBuf, path);
      ghost var before := mem[..];
      Load(file);
      if status != 0 {
        return 1;
      }
      StringKept(before, mem[..], pathBuf, path);
      assert mem[MfsBuf()..MfsBuf() + |file.image|] == file.image;
      code := Search(file.image, path);
      CutNever(manifestOf, arg.value);
    }
  }

  /** Cutting the argument cannot make it equal to a file name, nor stop it from being one. */
  lemma CutNever(entries: seq<FileEntry>, arg: seq<Byte>)
    requires Names(entries)
    ensures forall k :: 0 <= k < |entries| ==> (entries[k].name == Cut(arg) <==> entries[k].name == arg)
  {
  }

  // ----- builder, manifest and program together -----

  /** What a collected directory looks like: distinct, non-empty names without NULs. */
  ghost predicate Collected(files: seq<SourceFile>) {
    (forall k :: 0 <= k < |files| ==> files[k].name != [] && 0 !in files[k].name)
    && forall i, j :: 0 <= i < j < |files| ==> files[i].name != files[j].name
  }

  /** The lookup in terms of the files themselves. */
  ghost predicate Prints(files: seq<SourceFile>, arg: Option<seq<Byte>>, code: nat, out: seq<Byte>) {
    if arg.None? || arg.value == [] then code == 2 && out == []
    else
      (forall k :: 0 <= k < |files| && files[k].name == arg.value ==> code == 0 && out == files[k].data)
      && ((forall k :: 0 <= k < |files| ==> files[k].name != arg.value) ==> code == 1 && out == [])
  }

  /** Build the image and its manifest, start the program with both: it prints the named file, byte for byte. */
  method BuildAndLookUp(files: seq<SourceFile>, mem: array<Word>, pathBuf: nat, ghost arg: Option<seq<Byte>>)
    returns (built: Built, code: nat, out: seq<Byte>)
    requires mem.Length == MEM_SIZE && pathBuf + 512 + 8192 <= 58000
    requires Collected(files) && ArgumentIs(mem[..], arg)
    modifies mem
    ensures built.Built? && |built.image| <= 8192 ==> Prints(files, arg, code, out)
  {
    hide Describes, Packed;
    built := Build(files);
    code, out := 1, [];
    if built.Built? && |built.image| <= 8192 {
      EntriesFit(built.image, built.entries);
      var cat := new Cat(mem, pathBuf, built.entries);
      code := cat.Run(Bytes(built.image), arg);
      out := cat.stdout;
      assert out == cat.stdout[0..];
      FilesNamed(files, built.entries, arg, code, out);
    }
  }

  lemma EntriesFit(image: seq<Byte>, entries: seq<FileEntry>)
    requires Describes(image, entries)
    ensures |entries| <= SLOTS && forall k :: 0 <= k < |entries| ==> |entries[k].name| < NAME_SIZE
  {
  }

  lemma FilesNamed(files: seq<SourceFile>, entries: seq<FileEntry>, arg: Option<seq<Byte>>, code: nat, out: seq<Byte>)
    requires SameFiles(files, entries)
    ensures (exists image :: Answers(entries, Bytes(image), arg, code, out)) ==> Prints(files, arg, code, out)
  {
  }
}

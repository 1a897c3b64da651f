/**
 SimpleFS: the read-only file system that the builder tool lays out in one image, and that the
 firmware reads back by pointer arithmetic.

 An image is a header, a table of fixed-size entries, a block of NUL-terminated names (first the
 content types, then the paths) and a block of file contents; all numbers are little-endian.
 */
module SimpleFs {
  import opened Bytes
  import opened Words
  import opened CStrings

  const MAGIC := 0x31534653       // '1SFS'
  const HEADER_SIZE := 16
  const ENTRY_SIZE := 16
  const INT_LIMIT := 0x8000_0000

  // Fields of a table entry
  const FILE_SIZE := 0
  const NAME_OFFSET := 4
  const CONTENT_TYPE_OFFSET := 8
  const DATA_OFFSET := 12

  datatype File = File(path: seq<byte>, extension: seq<byte>, data: seq<byte>)

  datatype ContentType = ContentType(extension: string, value: string)

  /** The builder's map of content types, in the order in which it is iterated. */
  const CONTENT_TYPES := [
    ContentType(".css", "text/css"), ContentType(".htm", "text/html"), ContentType(".html", "text/html"),
    ContentType(".jpg", "image/jpeg"), ContentType(".png", "image/png"), ContentType(".svg", "image/svg+xml"),
    ContentType(".txt", "text/plain")
  ]
  const TYPES := 7
  const HTML := 2

  function LowerAll(s: seq<byte>): seq<byte> {
    seq(|s|, i requires 0 <= i < |s| => Lower(s[i]))
  }

  predicate HasExtension(k: nat, extension: seq<byte>)
    requires k < TYPES
  {
    Ascii(CONTENT_TYPES[k].extension) == LowerAll(extension)
  }

  function TypeIndexFrom(extension: seq<byte>, i: nat): (k: nat)
    requires i <= TYPES
    ensures k < TYPES
    ensures (i <= k && HasExtension(k, extension))
         || (k == HTML && forall j :: i <= j < TYPES ==> !HasExtension(j, extension))
    decreases TYPES - i
  {
    if i == TYPES then HTML
    else if HasExtension(i, extension) then i
    else TypeIndexFrom(extension, i + 1)
  }

  /** The content type of a file: by its extension in lower case, HTML if that is unknown. */
  function TypeOf(f: File): seq<byte> {
    Ascii(CONTENT_TYPES[TypeIndexFrom(f.extension, 0)].value)
  }

  /** The content types by name, in whatever case the extension is; HTML for anything unknown. */
  lemma ContentTypesByName(f: File)
    ensures var e := LowerAll(f.extension);
            TypeOf(f) ==
              if e == Ascii(".css") then Ascii("text/css")
              else if e == Ascii(".png") then Ascii("image/png")
              else if e == Ascii(".jpg") then Ascii("image/jpeg")
              else if e == Ascii(".svg") then Ascii("image/svg+xml")
              else if e == Ascii(".txt") then Ascii("text/plain")
              else Ascii("text/html")
  {
    var e := LowerAll(f.extension);
    DistinctExtensions();
    var k := TypeIndexFrom(f.extension, 0);
    assert HasExtension(k, f.extension) ==> e == Ascii(CONTENT_TYPES[k].extension);
  }

  /** No two of the extensions are the same. */
  lemma DistinctExtensions()
    ensures forall i, k :: 0 <= i < k < TYPES ==> Ascii(CONTENT_TYPES[i].extension) != Ascii(CONTENT_TYPES[k].extension)
  {
    forall i, k | 0 <= i < k < TYPES
      ensures Ascii(CONTENT_TYPES[i].extension) != Ascii(CONTENT_TYPES[k].extension)
    {
      var a, b := Ascii(CONTENT_TYPES[i].extension), Ascii(CONTENT_TYPES[k].extension);
      if |a| == |b| {
        assert a[1] != b[1] || a[2] != b[2];
      }
    }
  }

  // ------------------------------------------------------------------------------ the image format

  /** The low `k` bytes of `n`, least significant first. */
  function LittleEndian(n: nat, k: nat): (s: seq<byte>)
    ensures |s| == k
    decreases n, k
  {
    if k == 0 then [] else [n % 256] + LittleEndian(n / 256, k - 1)
  }

  function Number(s: seq<byte>): nat {
    if s == [] then 0 else s[0] + 256 * Number(s[1..])
  }

  function Power256(k: nat): nat {
    if k == 0 then 1 else 256 * Power256(k - 1)
  }

  lemma {:induction false} NumberOfLittleEndian(n: nat, k: nat)
    requires n < Power256(k)
    ensures Number(LittleEndian(n, k)) == n
    decreases k
  {
    if k > 0 {
      NumberOfLittleEndian(n / 256, k - 1);
      assert LittleEndian(n, k)[1..] == LittleEndian(n / 256, k - 1);
    }
  }

  function U32(n: nat): (s: seq<byte>)
    ensures |s| == 4
  {
    LittleEndian(n, 4)
  }

  /** A word of the image has its low byte first. */
  lemma WordInImage(a: byte, b: byte, c: byte, d: byte)
    ensures U32(a + 0x100 * b + 0x1_0000 * c + 0x100_0000 * d) == [a, b, c, d]
  {
    LowByte(b + 0x100 * c + 0x1_0000 * d, a);
    LowByte(c + 0x100 * d, b);
    LowByte(d, c);
    LowByte(0, d);
    assert LittleEndian(d, 1) == [d] + LittleEndian(0, 0);
    assert LittleEndian(c + 0x100 * d, 2) == [c] + LittleEndian(d, 1);
    assert LittleEndian(b + 0x100 * c + 0x1_0000 * d, 3) == [b] + LittleEndian(c + 0x100 * d, 2);
  }

  function ReadU32(mem: seq<byte>, at: nat): nat
    requires at + 4 <= |mem|
  {
    Number(mem[at..at + 4])
  }

  lemma ReadsWhatWasWritten(mem: seq<byte>, at: nat, n: nat)
    requires at + 4 <= |mem| && mem[at..at + 4] == U32(n) && n < 0x1_0000_0000
    ensures ReadU32(mem, at) == n
  {
    assert Power256(2) == 0x1_0000 && Power256(4) == 0x1_0000_0000;
    NumberOfLittleEndian(n, 4);
  }

  function Terminated(s: seq<byte>): seq<byte> {
    s + [0]
  }

  /** The first strings of the name block. */
  function TypeNames(): (names: seq<seq<byte>>)
    ensures |names| == TYPES
    ensures forall k :: 0 <= k < TYPES ==> |names[k]| == |CONTENT_TYPES[k].value| + 1
  {
    seq(TYPES, k requires 0 <= k < TYPES => Terminated(Ascii(CONTENT_TYPES[k].value)))
  }

  function PathNames(files: seq<File>): seq<seq<byte>> {
    seq(|files|, i requires 0 <= i < |files| => Terminated(files[i].path))
  }

  /** The strings of the name block. */
  function Names(files: seq<File>): (names: seq<seq<byte>>)
    ensures |names| == TYPES + |files|
    ensures forall k :: 0 <= k < TYPES ==> names[k] == TypeNames()[k]
    ensures forall i :: 0 <= i < |files| ==> names[TYPES + i] == Terminated(files[i].path)
  {
    TypeNames() + PathNames(files)
  }

  function Contents(files: seq<File>): seq<seq<byte>> {
    seq(|files|, i requires 0 <= i < |files| => files[i].data)
  }

  /** Where piece `k` lies in the concatenation. */
  function Offset(pieces: seq<seq<byte>>, k: nat): nat
    requires k <= |pieces|
  {
    |Concat(pieces[..k])|
  }

  function Entry(files: seq<File>, i: nat): seq<byte>
    requires i < |files|
  {
    U32(|files[i].data|) + U32(Offset(Names(files), TYPES + i))
    + U32(Offset(Names(files), TypeIndexFrom(files[i].extension, 0))) + U32(Offset(Contents(files), i))
  }

  function Table(files: seq<File>, n: nat): seq<byte>
    requires n <= |files|
    ensures |Table(files, n)| == ENTRY_SIZE * n
  {
    if n == 0 then [] else Table(files, n - 1) + Entry(files, n - 1)
  }

  function Header(files: seq<File>): seq<byte> {
    U32(MAGIC) + U32(|files|) + U32(|Concat(Names(files))|) + U32(|Concat(Contents(files))|)
  }

  function Image(files: seq<File>): seq<byte> {
    Header(files) + Table(files, |files|) + Concat(Names(files)) + Concat(Contents(files))
  }

  /** Every image begins with the magic number, 'SFS1' in its bytes. */
  lemma ImageBegins(files: seq<File>)
    ensures |Image(files)| >= 16 && Image(files)[0..4] == [83, 70, 83, 49]
  {
    WordInImage(83, 70, 83, 49);
    var a, b, c := U32(|files|), U32(|Concat(Names(files))|), U32(|Concat(Contents(files))|);
    FirstOfSeven(U32(MAGIC), a, b, c, Table(files, |files|), Concat(Names(files)), Concat(Contents(files)));
  }

  lemma FirstOfSeven(m: seq<byte>, a: seq<byte>, b: seq<byte>, c: seq<byte>, t: seq<byte>, n: seq<byte>, d: seq<byte>)
    ensures (m + a + b + c + t + n + d)[0..|m|] == m
  {
    SliceOfFront(m + a + b + c + t + n, d, 0, |m|);
    SliceOfFront(m + a + b + c + t, n, 0, |m|);
    SliceOfFront(m + a + b + c, t, 0, |m|);
    SliceOfFront(m + a + b, c, 0, |m|);
    SliceOfFront(m + a, b, 0, |m|);
    SliceOfFront(m, a, 0, |m|);
  }

  /** What the builder and the reader need: C string paths, and offsets within an int. */
  predicate Storable(files: seq<File>) {
    (forall f :: f in files ==> NulFree(f.path)) && |Image(files)| < INT_LIMIT
  }

  // ----------------------------------------------------------------------------------- the builder

  /** `bytes` lies at offset `at`. */
  predicate Written(image: seq<byte>, at: nat, bytes: seq<byte>) {
    at + |bytes| <= |image| && image[at..at + |bytes|] == bytes
  }

  function Patched(image: seq<byte>, at: nat, bytes: seq<byte>): (r: seq<byte>)
    requires at + |bytes| <= |image|
    ensures |r| == |image|
  {
    image[..at] + bytes + image[at + |bytes|..]
  }

  lemma PatchWrites(image: seq<byte>, at: nat, bytes: seq<byte>)
    requires at + |bytes| <= |image|
    ensures Written(Patched(image, at, bytes), at, bytes)
  {
  }

  lemma PatchKeeps(image: seq<byte>, at: nat, bytes: seq<byte>, at': nat, bytes': seq<byte>)
    requires at + |bytes| <= |image| && Written(image, at', bytes')
    requires at' + |bytes'| <= at || at + |bytes| <= at'
    ensures Written(Patched(image, at, bytes), at', bytes')
  {
    var r := Patched(image, at, bytes);
    assert forall k :: at' <= k < at' + |bytes'| ==> r[k] == image[k];
  }

  lemma Extended(image: seq<byte>, at: nat, bytes: seq<byte>, more: seq<byte>)
    requires Written(image, at, bytes) && Written(image, at + |bytes|, more)
    ensures Written(image, at, bytes + more)
  {
  }

  /** memcpy(image + at, bytes, |bytes|) */
  method Put(image: array<byte>, at: nat, bytes: seq<byte>)
    requires at + |bytes| <= image.Length
    modifies image
    ensures image[..] == Patched(old(image[..]), at, bytes)
  {
    forall k | 0 <= k < |bytes| {
      image[at + k] := bytes[k];
    }
  }

  /** The first pass: the sizes of the blocks. */
  method Measure(files: seq<File>) returns (entryCount: nat, nameBlockSize: nat, dataBlockSize: nat)
    ensures entryCount == |files|
    ensures nameBlockSize == |Concat(Names(files))|
    ensures dataBlockSize == |Concat(Contents(files))|
  {
    entryCount, nameBlockSize, dataBlockSize := 0, 0, 0;
    ghost var paths, types := PathNames(files), TypeNames();
    for i := 0 to |files|
      invariant entryCount == i
      invariant nameBlockSize == |Concat(paths[..i])|
      invariant dataBlockSize == |Concat(Contents(files)[..i])|
    {
      entryCount := entryCount + 1;
      nameBlockSize := nameBlockSize + |files[i].path| + 1;
      dataBlockSize := dataBlockSize + |files[i].data|;
      ConcatOneMore(paths, i);
      ConcatOneMore(Contents(files), i);
    }
    assert paths[..|files|] == paths && Contents(files)[..|files|] == Contents(files);
    for k := 0 to TYPES
      invariant nameBlockSize == |Concat(paths)| + |Concat(types[..k])|
    {
      nameBlockSize := nameBlockSize + |CONTENT_TYPES[k].value| + 1;
      ConcatOneMore(types, k);
    }
    assert types[..TYPES] == types;
    ConcatAppend(types, paths);
  }

  /** The next piece fits after the pieces before it. */
  lemma NextPieceFits(pieces: seq<seq<byte>>, k: nat)
    requires k < |pieces|
    ensures Offset(pieces, k) + |pieces[k]| == Offset(pieces, k + 1) <= |Concat(pieces)|
  {
    ConcatHolds(pieces, k);
    ConcatOneMore(pieces, k);
  }

  /** What is written so far of the four parts of an image, and where the last two of them begin. */
  datatype Blocks = Blocks(header: seq<byte>, table: seq<byte>, namesAt: nat, names: seq<byte>, dataAt: nat, data: seq<byte>) {
    ghost predicate In(image: seq<byte>) {
      && |header| == HEADER_SIZE
      && HEADER_SIZE + |table| <= namesAt && namesAt + |names| <= dataAt
      && Written(image, 0, header)
      && Written(image, HEADER_SIZE, table)
      && Written(image, namesAt, names)
      && Written(image, dataAt, data)
    }
  }

  /** Everything is in place for the first `n` files. */
  ghost function BlocksOf(files: seq<File>, n: nat, names: nat, data: nat): Blocks
    requires n <= |files|
  {
    Blocks(Header(files), Table(files, n), names, Concat(Names(files)[..TYPES + n]), data, Concat(Contents(files)[..n]))
  }

  ghost predicate Fits(files: seq<File>, names: nat, data: nat, size: nat) {
    && names == HEADER_SIZE + ENTRY_SIZE * |files|
    && data == names + |Concat(Names(files))|
    && size == data + |Concat(Contents(files))|
  }

  lemma PatchKeepsAll(image: seq<byte>, r: Blocks, at: nat, more: seq<byte>)
    requires r.In(image) && at + |more| <= |image| && HEADER_SIZE + |r.table| <= at
    requires at + |more| <= r.namesAt || (r.namesAt + |r.names| <= at && (at + |more| <= r.dataAt || r.dataAt + |r.data| <= at))
    ensures r.In(Patched(image, at, more))
  {
    PatchKeeps(image, at, more, 0, r.header);
    PatchKeeps(image, at, more, HEADER_SIZE, r.table);
    PatchKeeps(image, at, more, r.namesAt, r.names);
    PatchKeeps(image, at, more, r.dataAt, r.data);
  }

  lemma MoreTable(image: seq<byte>, r: Blocks, more: seq<byte>)
    requires r.In(image) && HEADER_SIZE + |r.table| + |more| <= r.namesAt
    ensures r.(table := r.table + more).In(Patched(image, HEADER_SIZE + |r.table|, more))
  {
    var at := HEADER_SIZE + |r.table|;
    PatchWrites(image, at, more);
    PatchKeepsAll(image, r, at, more);
    Extended(Patched(image, at, more), HEADER_SIZE, r.table, more);
  }

  lemma MoreNames(image: seq<byte>, r: Blocks, more: seq<byte>)
    requires r.In(image) && r.namesAt + |r.names| + |more| <= r.dataAt <= |image|
    ensures r.(names := r.names + more).In(Patched(image, r.namesAt + |r.names|, more))
  {
    var at := r.namesAt + |r.names|;
    PatchWrites(image, at, more);
    PatchKeepsAll(image, r, at, more);
    Extended(Patched(image, at, more), r.namesAt, r.names, more);
  }

  lemma MoreData(image: seq<byte>, r: Blocks, more: seq<byte>)
    requires r.In(image) && r.dataAt + |r.data| + |more| <= |image|
    ensures r.(data := r.data + more).In(Patched(image, r.dataAt + |r.data|, more))
  {
    var at := r.dataAt + |r.data|;
    PatchWrites(image, at, more);
    PatchKeepsAll(image, r, at, more);
    Extended(Patched(image, at, more), r.dataAt, r.data, more);
  }

  lemma PatchTwice(image: seq<byte>, at: nat, a: seq<byte>, b: seq<byte>)
    requires at + |a| + |b| <= |image|
    ensures Patched(Patched(image, at, a), at + |a|, b) == Patched(image, at, a + b)
    ensures Patched(Patched(image, at + |a|, b), at, a) == Patched(image, at, a + b)
  {
  }

  /** storedEntries[i] = ... */
  method PutEntry(image: array<byte>, at: nat, fileSize: nat, nameOffset: nat, contentTypeOffset: nat, dataOffset: nat)
    requires at + ENTRY_SIZE <= image.Length
    modifies image
    ensures image[..] == Patched(old(image[..]), at, U32(fileSize) + U32(nameOffset) + U32(contentTypeOffset) + U32(dataOffset))
  {
    ghost var was := image[..];
    var a, b, c, d := U32(fileSize), U32(nameOffset), U32(contentTypeOffset), U32(dataOffset);
    Put(image, at + FILE_SIZE, a);
    Put(image, at + NAME_OFFSET, b);
    PatchTwice(was, at, a, b);
    Put(image, at + DATA_OFFSET, d);
    Put(image, at + CONTENT_TYPE_OFFSET, c);
    PatchTwice(Patched(was, at, a + b), at + 8, c, d);
    PatchTwice(was, at, a + b, c + d);
    assert a + b + (c + d) == a + b + c + d;
  }

  method PutNextEntry(image: array<byte>, ghost r: Blocks, at: nat,
                      fileSize: nat, nameOffset: nat, contentTypeOffset: nat, dataOffset: nat)
    requires r.In(image[..]) && at == HEADER_SIZE + |r.table| && at + ENTRY_SIZE <= r.namesAt
    modifies image
    ensures r.(table := r.table + (U32(fileSize) + U32(nameOffset) + U32(contentTypeOffset) + U32(dataOffset))).In(image[..])
  {
    ghost var before := image[..];
    PutEntry(image, at, fileSize, nameOffset, contentTypeOffset, dataOffset);
    MoreTable(before, r, U32(fileSize) + U32(nameOffset) + U32(contentTypeOffset) + U32(dataOffset));
  }

  method PutNextName(image: array<byte>, ghost r: Blocks, at: nat, name: seq<byte>)
    requires r.In(image[..]) && at == r.namesAt + |r.names| && at + |name| <= r.dataAt <= image.Length
    modifies image
    ensures r.(names := r.names + name).In(image[..])
  {
    ghost var before := image[..];
    Put(image, at, name);
    MoreNames(before, r, name);
  }

  method PutNextData(image: array<byte>, ghost r: Blocks, at: nat, data: seq<byte>)
    requires r.In(image[..]) && at == r.dataAt + |r.data| && at + |data| <= image.Length
    modifies image
    ensures r.(data := r.data + data).In(image[..])
  {
    ghost var before := image[..];
    Put(image, at, data);
    MoreData(before, r, data);
  }

  /** One turn of the loop over the files puts one more file in place. */
  method AddFile(image: array<byte>, files: seq<File>, i: nat, names: nat, data: nat, nameOff: nat, typeOff: nat, dataOff: nat)
    requires i < |files| && Fits(files, names, data, image.Length) && BlocksOf(files, i, names, data).In(image[..])
    requires nameOff == Offset(Names(files), TYPES + i) && dataOff == Offset(Contents(files), i)
    requires typeOff == Offset(Names(files), TypeIndexFrom(files[i].extension, 0))
    modifies image
    ensures BlocksOf(files, i + 1, names, data).In(image[..])
  {
    ghost var r := BlocksOf(files, i, names, data);
    NextPieceFits(Names(files), TYPES + i);
    NextPieceFits(Contents(files), i);
    ConcatOneMore(Names(files), TYPES + i);
    ConcatOneMore(Contents(files), i);
    PutNextEntry(image, r, HEADER_SIZE + ENTRY_SIZE * i, |files[i].data|, nameOff, typeOff, dataOff);
    r := r.(table := r.table + Entry(files, i));
    PutNextData(image, r, data + dataOff, files[i].data);
    r := r.(data := r.data + files[i].data);
    PutNextName(image, r, names + nameOff, Terminated(files[i].path));
    r := r.(names := r.names + Terminated(files[i].path));
    assert r == BlocksOf(files, i + 1, names, data);
  }

  lemma NextOffsets(files: seq<File>, i: nat)
    requires i < |files|
    ensures Offset(Names(files), TYPES + i + 1) == Offset(Names(files), TYPES + i) + |files[i].path| + 1
    ensures Offset(Contents(files), i + 1) == Offset(Contents(files), i) + |files[i].data|
  {
    NextPieceFits(Names(files), TYPES + i);
    NextPieceFits(Contents(files), i);
  }

  lemma LastOffsets(files: seq<File>)
    ensures Offset(Names(files), TYPES + |files|) == |Concat(Names(files))|
    ensures Offset(Contents(files), |files|) == |Concat(Contents(files))|
  {
    assert Names(files)[..TYPES + |files|] == Names(files);
    assert Contents(files)[..|files|] == Contents(files);
  }

  /** Everything is in place for the first `k` content types. */
  ghost function TypeBlocksOf(files: seq<File>, k: nat, names: nat, data: nat): Blocks
    requires k <= TYPES
  {
    Blocks(Header(files), [], names, Concat(Names(files)[..k]), data, [])
  }

  method PutContentType(image: array<byte>, files: seq<File>, k: nat, names: nat, data: nat, nameOff: nat, typeOffsets0: seq<nat>)
    returns (next: nat, typeOffsets: seq<nat>)
    requires k < TYPES && typeOffsets0 == TypeOffsets(files)[..k]
    requires Fits(files, names, data, image.Length) && TypeBlocksOf(files, k, names, data).In(image[..])
    requires nameOff == Offset(Names(files), k)
    modifies image
    ensures TypeBlocksOf(files, k + 1, names, data).In(image[..])
    ensures next == Offset(Names(files), k + 1) && typeOffsets == TypeOffsets(files)[..k + 1]
  {
    typeOffsets := typeOffsets0 + [nameOff];
    assert TypeOffsets(files)[..k + 1] == TypeOffsets(files)[..k] + [TypeOffsets(files)[k]];
    var value := Terminated(Ascii(CONTENT_TYPES[k].value));
    assert Names(files)[k] == value;
    NextPieceFits(Names(files), k);
    ConcatOneMore(Names(files), k);
    PutNextName(image, TypeBlocksOf(files, k, names, data), names + nameOff, value);
    next := nameOff + |value|;
  }

  function TypeOffsets(files: seq<File>): (offsets: seq<nat>)
    ensures |offsets| == TYPES
  {
    seq(TYPES, k requires 0 <= k < TYPES => Offset(Names(files), k))
  }

  /** The name block begins with the content types, whose offsets are noted for the entries. */
  method PutContentTypes(image: array<byte>, files: seq<File>, names: nat, data: nat)
    returns (nameOff: nat, typeOffsets: seq<nat>)
    requires Fits(files, names, data, image.Length) && TypeBlocksOf(files, 0, names, data).In(image[..])
    modifies image
    ensures nameOff == Offset(Names(files), TYPES)
    ensures typeOffsets == TypeOffsets(files)
    ensures BlocksOf(files, 0, names, data).In(image[..])
  {
    nameOff, typeOffsets := 0, [];
    for k := 0 to TYPES
      invariant nameOff == Offset(Names(files), k)
      invariant typeOffsets == TypeOffsets(files)[..k]
      invariant TypeBlocksOf(files, k, names, data).In(image[..])
    {
      nameOff, typeOffsets := PutContentType(image, files, k, names, data, nameOff, typeOffsets);
    }
    assert TypeBlocksOf(files, TYPES, names, data) == BlocksOf(files, 0, names, data);
  }

  /** The first `i` files are in place, and the sums are those of their names and contents. */
  ghost predicate Placed(image: seq<byte>, files: seq<File>, i: nat, names: nat, data: nat, nameOff: nat, dataOff: nat) {
    && i <= |files|
    && nameOff == Offset(Names(files), TYPES + i) && dataOff == Offset(Contents(files), i)
    && BlocksOf(files, i, names, data).In(image)
  }

  /** One turn of the loop over the files. */
  method StoreFile(image: array<byte>, files: seq<File>, i: nat, names: nat, data: nat, nameOff0: nat, typeOffsets: seq<nat>, dataOff0: nat)
    returns (nameOff: nat, dataOff: nat)
    requires i < |files| && Fits(files, names, data, image.Length) && Placed(image[..], files, i, names, data, nameOff0, dataOff0)
    requires typeOffsets == TypeOffsets(files)
    modifies image
    ensures Placed(image[..], files, i + 1, names, data, nameOff, dataOff)
  {
    AddFile(image, files, i, names, data, nameOff0, typeOffsets[TypeIndexFrom(files[i].extension, 0)], dataOff0);
    NextOffsets(files, i);
    nameOff := nameOff0 + |files[i].path| + 1;
    dataOff := dataOff0 + |files[i].data|;
  }

  /** The loop over the files; the sums it ends with are those of the first pass. */
  method PutFiles(image: array<byte>, files: seq<File>, names: nat, data: nat, nameOff0: nat, typeOffsets: seq<nat>)
    returns (i: nat, nameOff: nat, dataOff: nat)
    requires Fits(files, names, data, image.Length) && BlocksOf(files, 0, names, data).In(image[..])
    requires nameOff0 == Offset(Names(files), TYPES)
    requires typeOffsets == TypeOffsets(files)
    modifies image
    ensures i == |files| && nameOff == |Concat(Names(files))| && dataOff == |Concat(Contents(files))|
    ensures BlocksOf(files, |files|, names, data).In(image[..])
  {
    i, nameOff, dataOff := 0, nameOff0, 0;
    assert Placed(image[..], files, 0, names, data, nameOff0, 0);
    while i < |files|
      invariant Placed(image[..], files, i, names, data, nameOff, dataOff)
    {
      nameOff, dataOff := StoreFile(image, files, i, names, data, nameOff, typeOffsets, dataOff);
      i := i + 1;
    }
    LastOffsets(files);
  }

  /** Four parts that fill the image are the image. */
  lemma Assembled(image: seq<byte>, r: Blocks)
    requires r.In(image)
    requires HEADER_SIZE + |r.table| == r.namesAt && r.namesAt + |r.names| == r.dataAt && r.dataAt + |r.data| == |image|
    ensures image == r.header + r.table + r.names + r.data
  {
    FourParts(image, HEADER_SIZE, r.namesAt, r.dataAt);
    assert image[HEADER_SIZE..r.namesAt] == r.table && image[r.namesAt..r.dataAt] == r.names;
    assert image[..HEADER_SIZE] == image[0..HEADER_SIZE] == r.header && image[r.dataAt..] == image[r.dataAt..|image|] == r.data;
  }

  lemma FourParts(image: seq<byte>, i: nat, j: nat, k: nat)
    requires i <= j <= k <= |image|
    ensures image == image[..i] + image[i..j] + image[j..k] + image[k..]
  {
  }

  lemma AllInPlace(image: seq<byte>, files: seq<File>, names: nat, data: nat)
    requires Fits(files, names, data, |image|) && BlocksOf(files, |files|, names, data).In(image)
    ensures image == Image(files)
  {
    assert Names(files)[..TYPES + |files|] == Names(files);
    assert Contents(files)[..|files|] == Contents(files);
    Assembled(image, BlocksOf(files, |files|, names, data));
  }

  method PutHeader(image: array<byte>, files: seq<File>, entryCount: nat, nameBlockSize: nat, dataBlockSize: nat,
                   ghost names: nat, ghost data: nat)
    requires Fits(files, names, data, image.Length)
    requires entryCount == |files| && nameBlockSize == |Concat(Names(files))| && dataBlockSize == |Concat(Contents(files))|
    modifies image
    ensures TypeBlocksOf(files, 0, names, data).In(image[..])
  {
    ghost var blank := image[..];
    Put(image, 0, U32(MAGIC) + U32(entryCount) + U32(nameBlockSize) + U32(dataBlockSize));
    PatchWrites(blank, 0, Header(files));
  }

  /** main: lays out the image of the files; the builder's own final checks never fail. */
  method Build(files: seq<File>) returns (image: Option<array<byte>>)
    requires Storable(files)
    ensures image.Some? && fresh(image.value) && image.value[..] == Image(files)
  {
    var entryCount, nameBlockSize, dataBlockSize := Measure(files);
    var names := HEADER_SIZE + ENTRY_SIZE * entryCount;
    var data := names + nameBlockSize;
    var buffer := new byte[data + dataBlockSize](_ => 0);
    PutHeader(buffer, files, entryCount, nameBlockSize, dataBlockSize, names, data);
    var nameOff, typeOffsets := PutContentTypes(buffer, files, names, data);
    var i, dataOff;
    i, nameOff, dataOff := PutFiles(buffer, files, names, data, nameOff, typeOffsets);
    if nameOff != nameBlockSize || dataOff != dataBlockSize || i != entryCount {
      return None;
    }
    AllInPlace(buffer[..], files, names, data);
    image := Some(buffer);
  }

  // ------------------------------------------------------------------------------------ the reader

  datatype Reply = Reply(contentType: seq<byte>, body: seq<byte>)

  function EntryCount(mem: seq<byte>): nat
    requires HEADER_SIZE <= |mem|
  {
    ReadU32(mem, 4)
  }

  function NamesAt(mem: seq<byte>): nat
    requires HEADER_SIZE <= |mem|
  {
    HEADER_SIZE + ENTRY_SIZE * EntryCount(mem)
  }

  function DataAt(mem: seq<byte>): nat
    requires HEADER_SIZE <= |mem|
  {
    NamesAt(mem) + ReadU32(mem, 8)
  }

  function Field(mem: seq<byte>, i: nat, field: nat): nat
    requires field + 4 <= ENTRY_SIZE && HEADER_SIZE + ENTRY_SIZE * (i + 1) <= |mem|
  {
    ReadU32(mem, HEADER_SIZE + ENTRY_SIZE * i + field)
  }

  predicate IsString(mem: seq<byte>, at: nat) {
    StrChr(mem, at, 0).Some?
  }

  function StringAt(mem: seq<byte>, at: nat): seq<byte>
    requires IsString(mem, at)
  {
    mem[at..StrChr(mem, at, 0).value]
  }

  /** What entry `i` points to is within the image. */
  predicate EntryReadable(mem: seq<byte>, i: nat) {
    && HEADER_SIZE + ENTRY_SIZE * (i + 1) <= |mem|
    && IsString(mem, NamesAt(mem) + Field(mem, i, NAME_OFFSET))
    && IsString(mem, NamesAt(mem) + Field(mem, i, CONTENT_TYPE_OFFSET))
    && DataAt(mem) + Field(mem, i, DATA_OFFSET) + Field(mem, i, FILE_SIZE) <= |mem|
  }

  ghost predicate Readable(mem: seq<byte>) {
    && HEADER_SIZE <= |mem|
    && forall i :: 0 <= i < EntryCount(mem) ==> EntryReadable(mem, i)
  }

  function ReplyOf(mem: seq<byte>, i: nat): Reply
    requires EntryReadable(mem, i)
  {
    var at := DataAt(mem) + Field(mem, i, DATA_OFFSET);
    Reply(StringAt(mem, NamesAt(mem) + Field(mem, i, CONTENT_TYPE_OFFSET)), mem[at..at + Field(mem, i, FILE_SIZE)])
  }

  function NameAt(mem: seq<byte>, i: nat): seq<byte>
    requires EntryReadable(mem, i)
  {
    StringAt(mem, NamesAt(mem) + Field(mem, i, NAME_OFFSET))
  }

  /** The first of the paths, from `i` on, that is `path`. */
  function FirstIndex(paths: seq<seq<byte>>, path: seq<byte>, i: nat): (k: nat)
    requires i <= |paths|
    ensures i <= k <= |paths|
    ensures k < |paths| ==> paths[k] == path
    ensures forall j :: i <= j < k ==> paths[j] != path
    decreases |paths| - i
  {
    if i == |paths| || paths[i] == path then i else FirstIndex(paths, path, i + 1)
  }

  /** The names of all entries. */
  ghost function AllNames(mem: seq<byte>): (names: seq<seq<byte>>)
    requires Readable(mem)
    ensures |names| == EntryCount(mem)
    ensures forall i :: 0 <= i < |names| ==> EntryReadable(mem, i) && names[i] == NameAt(mem, i)
  {
    seq(EntryCount(mem), i requires 0 <= i < EntryCount(mem) && EntryReadable(mem, i) => NameAt(mem, i))
  }

  /** The reply for the first entry whose name is `path`. */
  ghost function Lookup(mem: seq<byte>, path: seq<byte>): Option<Reply>
    requires Readable(mem)
  {
    var k := FirstIndex(AllNames(mem), path, 0);
    if k < EntryCount(mem) then Some(ReplyOf(mem, k)) else None
  }

  class SimpleFsContext {
    const memory: array<byte>
    var entries: nat
    var names: nat
    var data: nat

    ghost predicate Valid()
      reads this, memory
    {
      && Readable(memory[..])
      && entries == HEADER_SIZE && names == NamesAt(memory[..]) && data == DataAt(memory[..])
    }

    constructor (memory: array<byte>)
      ensures this.memory == memory
    {
      this.memory := memory;
    }

    /** simplefs_init */
    method Init() returns (ok: bool)
      requires HEADER_SIZE <= memory.Length
      modifies this
      ensures ok <==> ReadU32(memory[..], 0) == MAGIC
      ensures ok && Readable(memory[..]) ==> Valid()
    {
      var mem := memory[..];
      if ReadU32(mem, 0) != MAGIC {
        return false;
      }
      entries := HEADER_SIZE;
      names := entries + ENTRY_SIZE * ReadU32(mem, 4);
      data := names + ReadU32(mem, 8);
      ok := true;
    }

    /** do_retrieve_file; None is its false. */
    method Retrieve(path: seq<byte>) returns (reply: Option<Reply>)
      requires Valid()
      ensures reply == Lookup(memory[..], path)
    {
      ghost var mem := memory[..];
      var i := 0;
      while i < ReadU32(memory[..], 4)
        invariant i <= EntryCount(mem)
        invariant FirstIndex(AllNames(mem), path, 0) == FirstIndex(AllNames(mem), path, i)
      {
        assert AllNames(mem)[i] == NameAt(mem, i);
        var name := NameOf(i);
        if name == path {
          var r := ReplyAt(i);
          reply := Some(r);
          return;
        }
        i := i + 1;
      }
      reply := None;
    }

    method NameOf(i: nat) returns (name: seq<byte>)
      requires Valid() && EntryReadable(memory[..], i)
      ensures name == NameAt(memory[..], i)
    {
      var offset := ReadU32(memory[..], entries + ENTRY_SIZE * i + NAME_OFFSET);
      name := StringAt(memory[..], names + offset);
    }

    method ReplyAt(i: nat) returns (r: Reply)
      requires Valid() && EntryReadable(memory[..], i)
      ensures r == ReplyOf(memory[..], i)
    {
      var entry := entries + ENTRY_SIZE * i;
      var size, typeOffset, dataOffset :=
        ReadU32(memory[..], entry + FILE_SIZE), ReadU32(memory[..], entry + CONTENT_TYPE_OFFSET), ReadU32(memory[..], entry + DATA_OFFSET);
      assert memory[data + dataOffset..data + dataOffset + size] == memory[..][data + dataOffset..data + dataOffset + size];
      r := Reply(StringAt(memory[..], names + typeOffset), memory[data + dataOffset..data + dataOffset + size]);
    }
  }

  // --------------------------------------------------------------------------------- the round trip

  function PathsOf(files: seq<File>): (paths: seq<seq<byte>>)
    ensures |paths| == |files| && forall i :: 0 <= i < |files| ==> paths[i] == files[i].path
  {
    seq(|files|, i requires 0 <= i < |files| => files[i].path)
  }

  function Answer(f: File): Reply {
    Reply(TypeOf(f), f.data)
  }

  /** What the reader is to give for a path: the contents and content type of the first file that has it. */
  function Expected(files: seq<File>, path: seq<byte>): Option<Reply> {
    var k := FirstIndex(PathsOf(files), path, 0);
    if k < |files| then Some(Answer(files[k])) else None
  }

  lemma {:induction false} TableHolds(files: seq<File>, n: nat, i: nat)
    requires i < n <= |files|
    ensures Written(Table(files, n), ENTRY_SIZE * i, Entry(files, i))
    decreases n
  {
    if i < n - 1 {
      TableHolds(files, n - 1, i);
      WrittenInFront(Table(files, n - 1), Entry(files, n - 1), ENTRY_SIZE * i, Entry(files, i));
    } else {
      WrittenAtEnd(Table(files, n - 1), Entry(files, n - 1), ENTRY_SIZE * i);
    }
  }

  lemma WrittenInFront(a: seq<byte>, b: seq<byte>, at: nat, piece: seq<byte>)
    requires Written(a, at, piece)
    ensures Written(a + b, at, piece)
  {
    assert (a + b)[at..at + |piece|] == a[at..at + |piece|];
  }

  lemma WrittenAtEnd(a: seq<byte>, b: seq<byte>, at: nat)
    requires at == |a|
    ensures Written(a + b, at, b)
  {
  }

  /** A slice of a part is a slice of the whole. */
  lemma SliceOfPart(whole: seq<byte>, before: seq<byte>, part: seq<byte>, after: seq<byte>, at: nat, piece: seq<byte>, pos: nat)
    requires whole == before + part + after && pos == |before| + at
    requires Written(part, at, piece)
    ensures Written(whole, pos, piece)
  {
    assert whole[pos..pos + |piece|] == part[at..at + |piece|];
  }

  lemma FourSlices(mem: seq<byte>, at: nat, a: seq<byte>, b: seq<byte>, c: seq<byte>, d: seq<byte>)
    requires |a| == |b| == |c| == |d| == 4 && Written(mem, at, a + b + c + d)
    ensures mem[at..at + 4] == a && mem[at + 4..at + 8] == b && mem[at + 8..at + 12] == c && mem[at + 12..at + 16] == d
  {
    var w := mem[at..at + 16];
    assert w == a + b + c + d;
    assert mem[at..at + 4] == w[..4] && mem[at + 4..at + 8] == w[4..8];
    assert mem[at + 8..at + 12] == w[8..12] && mem[at + 12..at + 16] == w[12..];
  }

  lemma FieldsOfEntry(mem: seq<byte>, at: nat, a: nat, b: nat, c: nat, d: nat)
    requires Written(mem, at, U32(a) + U32(b) + U32(c) + U32(d))
    requires a < 0x1_0000_0000 && b < 0x1_0000_0000 && c < 0x1_0000_0000 && d < 0x1_0000_0000
    ensures ReadU32(mem, at) == a && ReadU32(mem, at + 4) == b && ReadU32(mem, at + 8) == c && ReadU32(mem, at + 12) == d
  {
    FourSlices(mem, at, U32(a), U32(b), U32(c), U32(d));
    ReadsWhatWasWritten(mem, at, a);
    ReadsWhatWasWritten(mem, at + 4, b);
    ReadsWhatWasWritten(mem, at + 8, c);
    ReadsWhatWasWritten(mem, at + 12, d);
  }

  /** The C string at `at` is `s`. */
  predicate ReadsAs(mem: seq<byte>, at: nat, s: seq<byte>) {
    IsString(mem, at) && StringAt(mem, at) == s
  }

  /** A NUL-free string that was written with its NUL is read back. */
  lemma StringReadsBack(mem: seq<byte>, at: nat, s: seq<byte>)
    requires Written(mem, at, Terminated(s)) && NulFree(s)
    ensures ReadsAs(mem, at, s)
  {
    var w := mem[at..at + |s| + 1];
    assert forall j :: 0 <= j < |s| ==> mem[at + j] == w[j] == s[j];
    assert mem[at + |s|] == w[|s|] == 0;
    assert forall j :: at <= j < at + |s| ==> mem[j] == s[j - at];
    StrChrFinds(mem, at, 0, at + |s|);
    assert mem[at..at + |s|] == w[..|s|];
  }

  lemma InTable(h: seq<byte>, t: seq<byte>, n: seq<byte>, d: seq<byte>, at: nat, piece: seq<byte>, pos: nat)
    requires Written(t, at, piece) && pos == |h| + at
    ensures Written(h + t + n + d, pos, piece)
  {
    assert h + t + n + d == h + t + (n + d);
    SliceOfPart(h + t + n + d, h, t, n + d, at, piece, pos);
  }

  lemma InNames(h: seq<byte>, t: seq<byte>, n: seq<byte>, d: seq<byte>, at: nat, piece: seq<byte>, pos: nat)
    requires Written(n, at, piece) && pos == |h| + |t| + at
    ensures Written(h + t + n + d, pos, piece)
  {
    SliceOfPart(h + t + n + d, h + t, n, d, at, piece, pos);
  }

  lemma InData(h: seq<byte>, t: seq<byte>, n: seq<byte>, d: seq<byte>, at: nat, piece: seq<byte>, pos: nat)
    requires Written(d, at, piece) && pos == |h| + |t| + |n| + at
    ensures Written(h + t + n + d, pos, piece)
  {
    assert h + t + n + d == h + t + n + d + [];
    SliceOfPart(h + t + n + d, h + t + n, d, [], at, piece, pos);
  }

  lemma PieceWritten(pieces: seq<seq<byte>>, k: nat, piece: seq<byte>)
    requires k < |pieces| && piece == pieces[k]
    ensures Written(Concat(pieces), Offset(pieces, k), piece)
  {
    ConcatHolds(pieces, k);
  }

  lemma NameInImage(files: seq<File>, k: nat, name: seq<byte>, at: nat)
    requires k < TYPES + |files| && name == Names(files)[k]
    requires at == HEADER_SIZE + ENTRY_SIZE * |files| + Offset(Names(files), k)
    ensures Written(Image(files), at, name)
  {
    PieceWritten(Names(files), k, name);
    InNames(Header(files), Table(files, |files|), Concat(Names(files)), Concat(Contents(files)), Offset(Names(files), k), name, at);
  }

  lemma DataInImage(files: seq<File>, i: nat, at: nat)
    requires i < |files|
    requires at == HEADER_SIZE + ENTRY_SIZE * |files| + |Concat(Names(files))| + Offset(Contents(files), i)
    ensures Written(Image(files), at, files[i].data)
  {
    PieceWritten(Contents(files), i, files[i].data);
    InData(Header(files), Table(files, |files|), Concat(Names(files)), Concat(Contents(files)), Offset(Contents(files), i),
           files[i].data, at);
  }

  lemma EntryInImage(files: seq<File>, i: nat, at: nat)
    requires i < |files| && at == HEADER_SIZE + ENTRY_SIZE * i
    ensures Written(Image(files), at, Entry(files, i))
  {
    TableHolds(files, |files|, i);
    InTable(Header(files), Table(files, |files|), Concat(Names(files)), Concat(Contents(files)), ENTRY_SIZE * i, Entry(files, i), at);
  }

  /** Where a record's parts lie in an image, in the terms of its header and its entry. */
  datatype Record = Record(count: nat, nameBlockSize: nat, dataBlockSize: nat,
                           fileSize: nat, nameOffset: nat, typeOffset: nat, dataOffset: nat) {
    function Header(): seq<byte> {
      U32(MAGIC) + U32(count) + U32(nameBlockSize) + U32(dataBlockSize)
    }

    function Entry(): seq<byte> {
      U32(fileSize) + U32(nameOffset) + U32(typeOffset) + U32(dataOffset)
    }

    function NameAt(): nat {
      HEADER_SIZE + ENTRY_SIZE * count + nameOffset
    }

    function TypeAt(): nat {
      HEADER_SIZE + ENTRY_SIZE * count + typeOffset
    }

    function DataAt(): nat {
      HEADER_SIZE + ENTRY_SIZE * count + nameBlockSize + dataOffset
    }

    predicate Small() {
      && count < INT_LIMIT && nameBlockSize < INT_LIMIT && dataBlockSize < INT_LIMIT
      && fileSize < INT_LIMIT && nameOffset < INT_LIMIT && typeOffset < INT_LIMIT && dataOffset < INT_LIMIT
    }
  }

  lemma HeaderReadsBack(mem: seq<byte>, r: Record)
    requires Written(mem, 0, r.Header()) && r.Small()
    ensures HEADER_SIZE <= |mem| && ReadU32(mem, 0) == MAGIC && EntryCount(mem) == r.count
    ensures NamesAt(mem) == HEADER_SIZE + ENTRY_SIZE * r.count && DataAt(mem) == NamesAt(mem) + r.nameBlockSize
  {
    FieldsOfEntry(mem, 0, MAGIC, r.count, r.nameBlockSize, r.dataBlockSize);
  }

  lemma FieldsReadBack(mem: seq<byte>, r: Record, i: nat)
    requires Written(mem, 0, r.Header()) && Written(mem, HEADER_SIZE + ENTRY_SIZE * i, r.Entry()) && r.Small()
    ensures HEADER_SIZE + ENTRY_SIZE * (i + 1) <= |mem|
    ensures NamesAt(mem) + Field(mem, i, NAME_OFFSET) == r.NameAt()
    ensures NamesAt(mem) + Field(mem, i, CONTENT_TYPE_OFFSET) == r.TypeAt()
    ensures DataAt(mem) + Field(mem, i, DATA_OFFSET) == r.DataAt()
    ensures Field(mem, i, FILE_SIZE) == r.fileSize
  {
    HeaderReadsBack(mem, r);
    FieldsOfEntry(mem, HEADER_SIZE + ENTRY_SIZE * i, r.fileSize, r.nameOffset, r.typeOffset, r.dataOffset);
  }

  /** A header, an entry and the three things it points to make for a readable entry. */
  lemma RecordReadsBack(mem: seq<byte>, r: Record, i: nat, path: seq<byte>, contentType: seq<byte>, data: seq<byte>)
    requires Written(mem, 0, r.Header()) && Written(mem, HEADER_SIZE + ENTRY_SIZE * i, r.Entry()) && r.Small()
    requires Written(mem, r.NameAt(), Terminated(path)) && NulFree(path)
    requires Written(mem, r.TypeAt(), Terminated(contentType)) && NulFree(contentType)
    requires Written(mem, r.DataAt(), data) && r.fileSize == |data|
    ensures EntryReadable(mem, i) && NameAt(mem, i) == path && ReplyOf(mem, i) == Reply(contentType, data)
  {
    FieldsReadBack(mem, r, i);
    StringReadsBack(mem, r.NameAt(), path);
    StringReadsBack(mem, r.TypeAt(), contentType);
    EntryMeans(mem, i, path, contentType, data, r.NameAt(), r.TypeAt(), r.DataAt());
  }

  lemma EntryMeans(mem: seq<byte>, i: nat, path: seq<byte>, contentType: seq<byte>, data: seq<byte>, nameAt: nat, typeAt: nat, dataAt: nat)
    requires HEADER_SIZE + ENTRY_SIZE * (i + 1) <= |mem|
    requires nameAt == NamesAt(mem) + Field(mem, i, NAME_OFFSET) && ReadsAs(mem, nameAt, path)
    requires typeAt == NamesAt(mem) + Field(mem, i, CONTENT_TYPE_OFFSET) && ReadsAs(mem, typeAt, contentType)
    requires dataAt == DataAt(mem) + Field(mem, i, DATA_OFFSET) && Written(mem, dataAt, data)
    requires Field(mem, i, FILE_SIZE) == |data|
    ensures EntryReadable(mem, i) && NameAt(mem, i) == path && ReplyOf(mem, i) == Reply(contentType, data)
  {
  }

  lemma ContentTypesNulFree(k: nat)
    requires k < TYPES
    ensures NulFree(Ascii(CONTENT_TYPES[k].value))
  {
    LiteralNulFree(["text/css", "text/html", "text/html", "image/jpeg", "image/png", "image/svg+xml", "text/plain"][k]);
  }

  lemma LiteralNulFree(s: string)
    requires forall j :: 0 <= j < |s| ==> 0 < s[j] as int < 128
    ensures NulFree(Ascii(s))
  {
  }

  function RecordOf(files: seq<File>, i: nat): (r: Record)
    requires i < |files|
    ensures r.Header() == Header(files) && r.Entry() == Entry(files, i)
  {
    Record(|files|, |Concat(Names(files))|, |Concat(Contents(files))|, |files[i].data|, Offset(Names(files), TYPES + i),
           Offset(Names(files), TypeIndexFrom(files[i].extension, 0)), Offset(Contents(files), i))
  }

  lemma RecordIsSmall(files: seq<File>, i: nat)
    requires |Image(files)| < INT_LIMIT && i < |files|
    ensures RecordOf(files, i).Small()
  {
    NextPieceFits(Names(files), TYPES + i);
    NextPieceFits(Names(files), TypeIndexFrom(files[i].extension, 0));
    NextPieceFits(Contents(files), i);
  }

  lemma HeaderInImage(files: seq<File>)
    ensures Written(Image(files), 0, Header(files))
  {
    var rest := Table(files, |files|) + Concat(Names(files)) + Concat(Contents(files));
    assert Image(files) == Header(files) + rest;
    WrittenInFront(Header(files), rest, 0, Header(files));
  }

  /** Entry `i` of an image is read back as file `i`. */
  lemma FileReadsBack(files: seq<File>, i: nat)
    requires Storable(files) && i < |files|
    ensures var mem := Image(files);
            EntryReadable(mem, i) && NameAt(mem, i) == files[i].path && ReplyOf(mem, i) == Answer(files[i])
  {
    var r, k := RecordOf(files, i), TypeIndexFrom(files[i].extension, 0);
    RecordIsSmall(files, i);
    HeaderInImage(files);
    EntryInImage(files, i, HEADER_SIZE + ENTRY_SIZE * i);
    NameInImage(files, TYPES + i, Terminated(files[i].path), r.NameAt());
    NameInImage(files, k, Terminated(TypeOf(files[i])), r.TypeAt());
    DataInImage(files, i, r.DataAt());
    ContentTypesNulFree(k);
    RecordReadsBack(Image(files), r, i, files[i].path, TypeOf(files[i]), files[i].data);
  }

  lemma ImageIsReadable(files: seq<File>)
    requires Storable(files)
    ensures Readable(Image(files)) && EntryCount(Image(files)) == |files| && ReadU32(Image(files), 0) == MAGIC
  {
    HeaderInImage(files);
    HeaderReadsBack(Image(files), Record(|files|, |Concat(Names(files))|, |Concat(Contents(files))|, 0, 0, 0, 0));
    forall i | 0 <= i < |files|
      ensures EntryReadable(Image(files), i)
    {
      FileReadsBack(files, i);
    }
  }

  /**
   The SimpleFS round trip: the image that the builder makes of any files is accepted by the reader,
   which finds under every path exactly the contents and the content type of the first file that
   has it, and nothing if there is none.
   */
  lemma RetrievesWhatWasBuilt(files: seq<File>, path: seq<byte>)
    requires Storable(files)
    ensures Readable(Image(files)) && ReadU32(Image(files), 0) == MAGIC
    ensures Lookup(Image(files), path) == Expected(files, path)
  {
    ImageIsReadable(files);
    var names := AllNames(Image(files));
    forall j | 0 <= j < |files|
      ensures names[j] == PathsOf(files)[j]
    {
      FileReadsBack(files, j);
    }
    assert names == PathsOf(files);
    var k := FirstIndex(names, path, 0);
    if k < |files| {
      FileReadsBack(files, k);
    }
  }

  /** The two programs together: build, load, retrieve. */
  method BuildThenRetrieve(files: seq<File>, path: seq<byte>) returns (reply: Option<Reply>)
    requires Storable(files)
    ensures reply == Expected(files, path)
  {
    var image := Build(files);
    var fs := new SimpleFsContext(image.value);
    RetrievesWhatWasBuilt(files, path);
    var ok := fs.Init();
    reply := fs.Retrieve(path);
  }
}

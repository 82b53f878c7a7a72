/** The flat image that user/disk_image_writer.c writes: a file count, one record per file, then the data of all files. */
module DiskImage {
  import opened Machine

  const NAME_SIZE := 64
  const META_SIZE := 72
  const MAX_FILES := 256

  datatype File = File(name: seq<byte>, data: seq<byte>) {
    /** A name leaves room for its terminator and has none inside. */
    predicate NameOk() {
      1 <= |name| < NAME_SIZE && forall i :: 0 <= i < |name| ==> name[i] != 0
    }
  }

  /** `n` times the terminator. */
  function Zeros(n: nat): (r: seq<byte>)
    ensures |r| == n && forall i :: 0 <= i < n ==> r[i] == 0
  {
    if n == 0 then [] else Zeros(n - 1) + [0]
  }

  /** The data of the first `k` files, one after the other. */
  function DataBytes(files: seq<File>, k: nat): seq<byte>
    requires k <= |files|
  {
    if k == 0 then [] else DataBytes(files, k - 1) + files[k - 1].data
  }

  /** Where the data of file `k` starts, counted from the start of the image. */
  function DataOffset(files: seq<File>, k: nat): nat
    requires k <= |files|
  {
    4 + META_SIZE * |files| + |DataBytes(files, k)|
  }

  /** What the writer can record in its `int` fields and its arrays. */
  predicate Writable(files: seq<File>) {
    && |files| <= MAX_FILES && DataOffset(files, |files|) < 0x8000_0000
    && forall i :: 0 <= i < |files| ==> files[i].NameOk()
  }

  lemma {:induction false} DataGrows(files: seq<File>, i: nat, k: nat)
    requires i <= k <= |files|
    ensures DataBytes(files, i) <= DataBytes(files, k)
    decreases k
  {
    if i < k {
      DataGrows(files, i, k - 1);
    }
  }

  ghost predicate RecordAt(image: seq<byte>, a: nat, file: File, offset: nat) {
    && a + META_SIZE <= |image| && |file.name| <= NAME_SIZE
    && image[a..a + NAME_SIZE] == file.name + Zeros(NAME_SIZE - |file.name|)
    && Word(image, a + NAME_SIZE) == |file.data| && Word(image, a + NAME_SIZE + 4) == offset
  }

  ghost predicate DataAt(image: seq<byte>, a: nat, data: seq<byte>) {
    a + |data| <= |image| && image[a..a + |data|] == data
  }

  /** The record of file `k` is in its place. */
  ghost predicate RecordOf(image: seq<byte>, files: seq<File>, k: nat)
    requires k < |files|
  {
    RecordAt(image, 4 + META_SIZE * k, files[k], DataOffset(files, k))
  }

  /** The data of file `k` is where its record says. */
  ghost predicate DataOf(image: seq<byte>, files: seq<File>, k: nat)
    requires k < |files|
  {
    DataAt(image, DataOffset(files, k), files[k].data)
  }

  /** The records of the first `n` files: each a name padded to 64 bytes, the size and the offset of the data. */
  ghost predicate Records(image: seq<byte>, files: seq<File>, n: nat)
    requires n <= |files|
  {
    && |image| >= 4 && Word(image, 0) == |files|
    && forall k :: 0 <= k < n ==> RecordOf(image, files, k)
  }

  ghost predicate Datas(image: seq<byte>, files: seq<File>, n: nat)
    requires n <= |files|
  {
    forall k :: 0 <= k < n ==> DataOf(image, files, k)
  }

  /** The layout the reader relies on: the count, the record of every file, and the data where its record says. */
  ghost predicate LaidOut(image: seq<byte>, files: seq<File>) {
    |image| == DataOffset(files, |files|) && Records(image, files, |files|) && Datas(image, files, |files|)
  }

  /** A record byte by byte: the name, a terminator, and from byte 64 on the size and the offset of the data. */
  lemma RecordMeans(image: seq<byte>, a: nat, file: File, offset: nat)
    requires RecordAt(image, a, file, offset) && file.NameOk()
    ensures a + 72 <= |image| && image[a..a + |file.name|] == file.name && image[a + |file.name|] == 0
    ensures |file.name| < 64 && Word(image, a + 64) == |file.data| && Word(image, a + 68) == offset
  {
    hide Word;
    var padded := file.name + Zeros(64 - |file.name|);
    assert image[a..a + 64] == padded;
    assert image[a..a + |file.name|] == padded[..|file.name|];
    assert image[a + |file.name|] == image[a..a + 64][|file.name|] == padded[|file.name|];
  }

  /**
   * The image: the number of files, a record for each in 72 bytes, and behind these the data, one after the other, each
   * where its record says.
   */
  lemma ImageMeans(image: seq<byte>, files: seq<File>, k: nat)
    requires LaidOut(image, files) && k < |files|
    ensures |image| >= 4 + 72 * |files| && Word(image, 0) == |files|
    ensures
      var off := DataOffset(files, k);
      && RecordAt(image, 4 + 72 * k, files[k], off)
      && off + |files[k].data| <= |image| && image[off..off + |files[k].data|] == files[k].data
      && (k == 0 ==> off == 4 + 72 * |files|)
      && (k + 1 < |files| ==> DataOffset(files, k + 1) == off + |files[k].data|)
      && (k + 1 == |files| ==> |image| == off + |files[k].data|)
  {
    assert RecordOf(image, files, k) && DataOf(image, files, k);
    OffsetGrows(files, k);
    hide Word, RecordAt;
  }

  /** What lies in a prefix stays where it is when bytes are appended. */
  lemma RecordStays(image: seq<byte>, more: seq<byte>, a: nat, file: File, offset: nat)
    requires RecordAt(image, a, file, offset)
    ensures RecordAt(image + more, a, file, offset)
  {
    assert (image + more)[a..a + NAME_SIZE] == image[a..a + NAME_SIZE];
  }

  lemma RecordsStay(image: seq<byte>, more: seq<byte>, files: seq<File>, n: nat)
    requires n <= |files| && Records(image, files, n)
    ensures Records(image + more, files, n)
  {
    assert Word(image + more, 0) == Word(image, 0);
    hide RecordAt, Word, DataOffset;
    forall k | 0 <= k < n
      ensures RecordOf(image + more, files, k)
    {
      assert RecordOf(image, files, k);
      RecordStays(image, more, 4 + META_SIZE * k, files[k], DataOffset(files, k));
    }
  }

  lemma DataStays(image: seq<byte>, more: seq<byte>, a: nat, data: seq<byte>)
    requires DataAt(image, a, data)
    ensures DataAt(image + more, a, data)
  {
    assert (image + more)[a..a + |data|] == image[a..a + |data|];
  }

  lemma DatasStay(image: seq<byte>, more: seq<byte>, files: seq<File>, n: nat)
    requires n <= |files| && Datas(image, files, n)
    ensures Datas(image + more, files, n)
  {
    hide DataAt, DataOffset;
    forall k | 0 <= k < n
      ensures DataOf(image + more, files, k)
    {
      assert DataOf(image, files, k);
      DataStays(image, more, DataOffset(files, k), files[k].data);
    }
  }

  /** A name, its padding, a size and an offset appended make a record. */
  lemma RecordAppended(image: seq<byte>, file: File, offset: nat, padded: seq<byte>)
    requires |file.name| <= NAME_SIZE && |file.data| < U32_LIMIT && offset < U32_LIMIT
    requires padded == image + file.name + Zeros(NAME_SIZE - |file.name|)
    ensures
      var image' := padded + WordBytes(|file.data|) + WordBytes(offset);
      |image'| == |image| + META_SIZE && image <= image' && RecordAt(image', |image|, file, offset)
  {
    var named := file.name + Zeros(NAME_SIZE - |file.name|);
    var size, at := WordBytes(|file.data|), WordBytes(offset);
    var all := padded + size + at;
    assert padded == image + named;
    assert all[|image|..|image| + NAME_SIZE] == named;
    assert forall k :: 0 <= k < 4 ==> all[|image| + NAME_SIZE + k] == size[k];
    assert forall k :: 0 <= k < 4 ==> all[|image| + NAME_SIZE + 4 + k] == at[k];
  }

  /** One turn of the first pass keeps the records before it and adds its own. */
  lemma RecordWritten(before: seq<byte>, files: seq<File>, i: nat, image: seq<byte>)
    requires i < |files| && |before| == 4 + META_SIZE * i && before <= image
    requires Records(before, files, i)
    requires RecordAt(image, |before|, files[i], DataOffset(files, i))
    ensures Records(image, files, i + 1)
  {
    hide RecordAt, Word, DataOffset;
    assert image == before + image[|before|..];
    RecordsStay(before, image[|before|..], files, i);
    assert RecordOf(image, files, i);
  }

  /** One turn of the second pass keeps the records and the data before it and adds its own. */
  lemma DataWritten(before: seq<byte>, files: seq<File>, i: nat)
    requires i < |files| && |before| == DataOffset(files, i)
    requires Records(before, files, |files|) && Datas(before, files, i)
    ensures
      var image := before + files[i].data;
      |image| == DataOffset(files, i + 1) && Records(image, files, |files|) && Datas(image, files, i + 1)
  {
    RecordsStay(before, files[i].data, files, |files|);
    DatasStay(before, files[i].data, files, i);
    assert DataOf(before + files[i].data, files, i);
    hide Records, DataOf;
  }

  /** The first pass for one file: name, terminators, size, offset. */
  method WriteRecord(image: seq<byte>, file: File, offset: nat) returns (image': seq<byte>)
    requires file.NameOk() && |file.data| < U32_LIMIT && offset < U32_LIMIT
    ensures |image'| == |image| + META_SIZE && image <= image' && RecordAt(image', |image|, file, offset)
  {
    image' := image + file.name;
    for j := 0 to NAME_SIZE - |file.name|
      invariant image' == image + file.name + Zeros(j)
    {
      image' := image' + [0];
    }
    RecordAppended(image, file, offset, image');
    image' := image' + WordBytes(|file.data|);
    image' := image' + WordBytes(offset);
  }

  /** The program's two passes over the files. */
  method WriteImage(files: seq<File>) returns (image: seq<byte>)
    requires Writable(files)
    ensures LaidOut(image, files)
  {
    image := WordBytes(|files|);
    var dataOffset := 4 + |files| * META_SIZE;
    hide Records, Datas, RecordAt, DataBytes, Word, WordBytes;
    Started(files, image);
    for i := 0 to |files|
      invariant |image| == 4 + META_SIZE * i && dataOffset == DataOffset(files, i)
      invariant Records(image, files, i)
    {
      OffsetGrows(files, i);
      var written := WriteRecord(image, files[i], dataOffset);
      RecordWritten(image, files, i, written);
      image := written;
      dataOffset := dataOffset + |files[i].data|;
    }
    Started(files, image);
    for i := 0 to |files|
      invariant |image| == DataOffset(files, i) && Records(image, files, |files|) && Datas(image, files, i)
    {
      DataWritten(image, files, i);
      image := image + files[i].data;
    }
  }

  lemma Started(files: seq<File>, image: seq<byte>)
    ensures DataOffset(files, 0) == 4 + META_SIZE * |files| && Datas(image, files, 0)
    ensures |image| == 4 && Word(image, 0) == |files| ==> Records(image, files, 0)
  {
  }

  lemma OffsetGrows(files: seq<File>, i: nat)
    requires i < |files|
    ensures DataOffset(files, i + 1) == DataOffset(files, i) + |files[i].data| <= DataOffset(files, |files|)
  {
    DataGrows(files, i + 1, |files|);
  }
}

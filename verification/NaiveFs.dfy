/** Byte ranges assembled from sectors (src/driver/hard_disk.c). */
module HardDisk {
  import opened Machine

  const SECTOR_SIZE := 512

  /** A disk is a whole number of sectors, and every byte of it has a `uint32` address. */
  predicate DiskOk(disk: seq<byte>) {
    |disk| % SECTOR_SIZE == 0 && |disk| < U32_LIMIT
  }

  method Memcpy(buffer: array<byte>, at: nat, src: seq<byte>)
    requires at + |src| <= buffer.Length
    modifies buffer
    ensures buffer[..] == old(buffer[..])[..at] + src + old(buffer[..])[at + |src|..]
  {
    for k := 0 to |src|
      invariant buffer[..at] == old(buffer[..at]) && buffer[at + k..] == old(buffer[at + k..])
      invariant buffer[at..at + k] == src[..k]
    {
      buffer[at + k] := src[k];
      assert buffer[at + k + 1..] == old(buffer[at + k..])[1..];
    }
    assert buffer[..] == buffer[..at] + buffer[at..at + |src|] + buffer[at + |src|..];
  }

  function Max(a: nat, b: nat): nat {
    if a > b then a else b
  }

  function Min(a: nat, b: nat): nat {
    if a < b then a else b
  }

  /** How far the copy has come when sector `i` is next. */
  function Progress(i: nat, start: nat, end: nat): nat
    requires start <= end
  {
    Min(Max(i * SECTOR_SIZE, start), end)
  }

  lemma Subrange<T>(s: seq<T>, a: nat, b: nat, c: nat, d: nat)
    requires a <= b <= |s| && c <= d <= b - a
    ensures s[a..b][c..d] == s[a + c..a + d]
  {
    forall k | 0 <= k < d - c
      ensures s[a..b][c..d][k] == s[a + c..a + d][k]
    {
      assert s[a..b][c + k] == s[a + (c + k)];
    }
  }

  /** The buffer holds the first `n` bytes from `start` on, and beyond them what it held before. */
  ghost predicate Received(now: seq<byte>, disk: seq<byte>, start: nat, n: nat, was: seq<byte>) {
    && start + n <= |disk| && n <= |was| == |now|
    && now[..n] == disk[start..start + n] && now[n..] == was[n..]
  }

  lemma ReceiveMore(now: seq<byte>, disk: seq<byte>, start: nat, n: nat, was: seq<byte>, more: seq<byte>)
    requires Received(now, disk, start, n, was) && start + n + |more| <= |disk| && n + |more| <= |was|
    requires more == disk[start + n..start + n + |more|]
    ensures |now| == |was|
    ensures Received(now[..n] + more + now[n + |more|..], disk, start, n + |more|, was)
  {
    var now' := now[..n] + more + now[n + |more|..];
    assert now'[..n + |more|] == disk[start..start + n] + disk[start + n..start + n + |more|];
    assert now'[n + |more|..] == was[n..][|more|..];
  }

  /** Where the copy from sector `i` starts and ends, and what it takes. */
  lemma SectorStep(disk: seq<byte>, start: nat, end: nat, i: nat)
    requires DiskOk(disk) && start <= end <= |disk| && 0 < end
    requires start / SECTOR_SIZE <= i < (end - 1) / SECTOR_SIZE + 1
    ensures i * SECTOR_SIZE + SECTOR_SIZE <= |disk| && U32((i + 1) * SECTOR_SIZE) == (i + 1) * SECTOR_SIZE
    ensures
      var base, lo, hi := i * SECTOR_SIZE, Max(i * SECTOR_SIZE, start), Min((i + 1) * SECTOR_SIZE, end);
      && lo == Progress(i, start, end) && hi == Progress(i + 1, start, end)
      && base <= lo <= hi <= base + SECTOR_SIZE && start <= lo && hi <= end
      && disk[base..base + SECTOR_SIZE][lo - base..hi - base] == disk[lo..hi]
  {
    var base, lo, hi := i * SECTOR_SIZE, Max(i * SECTOR_SIZE, start), Min((i + 1) * SECTOR_SIZE, end);
    assert base + SECTOR_SIZE <= |disk|;
    Subrange(disk, base, base + SECTOR_SIZE, lo - base, hi - base);
  }

  /** One turn of the sector loop. */
  method CopySector(disk: seq<byte>, buffer: array<byte>, start: nat, end: nat, i: nat, at: nat, ghost was: seq<byte>)
    returns (at': nat)
    requires DiskOk(disk) && start <= end <= |disk| && 0 < end && end - start <= buffer.Length
    requires start / SECTOR_SIZE <= i < (end - 1) / SECTOR_SIZE + 1
    requires at == Progress(i, start, end) - start && Received(buffer[..], disk, start, at, was)
    modifies buffer
    ensures at' == Progress(i + 1, start, end) - start && Received(buffer[..], disk, start, at', was)
  {
    hide Received, Progress, Max, Min, U32, DiskOk;
    SectorStep(disk, start, end, i);
    Sizes(buffer[..], disk, start, at, was);
    var sector := disk[i * SECTOR_SIZE..i * SECTOR_SIZE + SECTOR_SIZE];
    var copyStartAddr := Max(i * SECTOR_SIZE, start);
    var copyEndAddr := Min(U32((i + 1) * SECTOR_SIZE), end);
    var copySize := copyEndAddr - copyStartAddr;
    var from := copyStartAddr - i * SECTOR_SIZE;
    var part := sector[from..from + copySize];
    ReceiveMore(buffer[..], disk, start, at, was, part);
    Memcpy(buffer, at, part);
    at' := at + copySize;
  }

  lemma Sizes(now: seq<byte>, disk: seq<byte>, start: nat, n: nat, was: seq<byte>)
    requires Received(now, disk, start, n, was)
    ensures start + n <= |disk| && n <= |now| == |was|
  {
  }

  /** The sector loop delivers exactly the bytes of the range and touches nothing else of the buffer. */
  method ReadHardDisk(disk: seq<byte>, buffer: array<byte>, start: nat, length: nat)
    requires DiskOk(disk) && 0 < start + length <= |disk| && length <= buffer.Length
    modifies buffer
    ensures buffer[..][..length] == disk[start..start + length]
    ensures buffer[..][length..] == old(buffer[..])[length..]
  {
    hide Progress, Received;
    var end := U32(start + length);
    var startSector := start / SECTOR_SIZE;
    var endSector := (end - 1) / SECTOR_SIZE + 1;
    var at := 0;
    ghost var was := buffer[..];
    Ends(start, end);
    Nothing(disk, start, was);
    for i := startSector to endSector
      invariant at == Progress(i, start, end) - start && Received(buffer[..], disk, start, at, was)
    {
      at := CopySector(disk, buffer, start, end, i, at, was);
    }
    Everything(buffer[..], disk, start, length, was);
  }

  lemma Nothing(disk: seq<byte>, start: nat, was: seq<byte>)
    requires start <= |disk|
    ensures Received(was, disk, start, 0, was)
  {
  }

  lemma Everything(now: seq<byte>, disk: seq<byte>, start: nat, n: nat, was: seq<byte>)
    requires Received(now, disk, start, n, was)
    ensures start + n <= |disk| && n <= |now| == |was|
    ensures now[..n] == disk[start..start + n] && now[n..] == was[n..]
  {
  }

  /** The loop starts at the start of the range and stops at its end. */
  lemma Ends(start: nat, end: nat)
    requires start <= end && 0 < end
    ensures start / SECTOR_SIZE <= (end - 1) / SECTOR_SIZE + 1
    ensures Progress(start / SECTOR_SIZE, start, end) == start
    ensures Progress((end - 1) / SECTOR_SIZE + 1, start, end) == end
  {
  }
}

/** The reader of the flat image (src/fs/naive_fs.c). */
module NaiveFs {
  import opened Machine
  import opened DiskImage
  import opened HardDisk

  const PARTITION_OFFSET := 2057 * SECTOR_SIZE

  // ---- C strings ----

  /** A terminator is within the bytes. */
  predicate Terminated(s: seq<byte>) {
    exists i :: 0 <= i < |s| && s[i] == 0
  }

  /** The bytes before the first terminator. */
  function CStr(s: seq<byte>): seq<byte> {
    if s == [] || s[0] == 0 then [] else [s[0]] + CStr(s[1..])
  }

  lemma {:induction false} CStrIs(s: seq<byte>, n: nat)
    requires n < |s| && s[n] == 0 && forall i :: 0 <= i < n ==> s[i] != 0
    ensures CStr(s) == s[..n]
    decreases n
  {
    if n > 0 {
      CStrIs(s[1..], n - 1);
      assert s[1..][..n - 1] == s[1..n];
    }
  }

  lemma {:induction false} CStrPrefix(s: seq<byte>, n: nat)
    requires n <= |s| && forall i :: 0 <= i < n ==> s[i] != 0
    ensures s[..n] <= CStr(s)
    decreases n
  {
    if n > 0 {
      CStrPrefix(s[1..], n - 1);
      assert s[1..][..n - 1] == s[1..n];
    }
  }

  function SignedChar(c: byte): int {
    if c >= 128 then c - 256 else c
  }

  /** Two strings that agree up to `i`, where one of them goes on differently. */
  lemma Differ(s1: seq<byte>, s2: seq<byte>, i: nat)
    requires i < |s1| && i < |s2| && s1[..i] == s2[..i] && s1[i] != s2[i]
    requires forall k :: 0 <= k < i ==> s1[k] != 0
    ensures CStr(s1) != CStr(s2)
  {
    assert forall k :: 0 <= k < i ==> s2[k] == s2[..i][k] == s1[..i][k] == s1[k];
    if s1[i] != 0 {
      CStrPrefix(s1, i + 1);
      assert CStr(s1)[i] == s1[..i + 1][i];
    } else {
      CStrIs(s1, i);
    }
    if s2[i] != 0 {
      CStrPrefix(s2, i + 1);
      assert CStr(s2)[i] == s2[..i + 1][i];
    } else {
      CStrIs(s2, i);
    }
  }

  /** Where `a` and `b` differ first, at `i`, both go on, and `a` with the lesser character. */
  ghost predicate LessAt(a: seq<byte>, b: seq<byte>, i: nat) {
    i < |a| && i < |b| && a[..i] == b[..i] && SignedChar(a[i]) < SignedChar(b[i])
  }

  /** `a` and `b` agree up to `n`, where one of them ends or `a` goes on with the greater character. */
  lemma NowhereLess(a: seq<byte>, b: seq<byte>, n: nat)
    requires n <= |a| && n <= |b| && a[..n] == b[..n]
    requires n == |a| || n == |b| || SignedChar(a[n]) > SignedChar(b[n])
    ensures forall i: nat :: !LessAt(a, b, i)
  {
    forall i: nat
      ensures !LessAt(a, b, i)
    {
      if i < n {
        assert a[i] == a[..n][i] && b[i] == b[..n][i];
      } else if n < i < |a| && i < |b| {
        DifferFrom(a, b, n, i);
      }
    }
  }

  lemma DifferFrom(a: seq<byte>, b: seq<byte>, n: nat, i: nat)
    requires n < i <= |a| && i <= |b| && a[n] != b[n]
    ensures a[..i] != b[..i]
  {
    assert a[n] == a[..i][n] && b[n] == b[..i][n];
  }

  /**
   * `strcmp` of src/common/stdlib.c: 0 exactly for equal strings, and -1 exactly if the first difference is between two
   * characters, the first the lesser. So a string that is the beginning of the other gives 1 on either side.
   */
  method Strcmp(str1: seq<byte>, str2: seq<byte>) returns (r: int)
    requires Terminated(str1) && Terminated(str2)
    ensures r == 0 || r == -1 || r == 1
    ensures r == 0 <==> CStr(str1) == CStr(str2)
    ensures r == -1 <==> exists i: nat :: LessAt(CStr(str1), CStr(str2), i)
  {
    hide CStr, SignedChar, LessAt;
    ghost var end :| 0 <= end < |str1| && str1[end] == 0;
    ghost var end2 :| 0 <= end2 < |str2| && str2[end2] == 0;
    var i := 0;
    while str1[i] != 0
      invariant 0 <= i <= end && i <= end2 && str1[..i] == str2[..i]
      invariant forall k :: 0 <= k < i ==> str1[k] != 0 && str2[k] != 0
      decreases end - i
    {
      var c, c2 := str1[i], str2[i];
      if c2 == 0 {
        Differ(str1, str2, i);
        Ends(str1, str2, i);
        return 1;
      }
      if c != c2 {
        Differ(str1, str2, i);
        Decides(str1, str2, i);
        return if SignedChar(c) < SignedChar(c2) then -1 else 1;
      }
      i := i + 1;
    }
    Ends(str1, str2, i);
    if str2[i] == 0 {
      CStrIs(str1, i);
      CStrIs(str2, i);
      return 0;
    }
    Differ(str1, str2, i);
    return 1;
  }

  lemma Ends(s1: seq<byte>, s2: seq<byte>, n: nat)
    requires n < |s1| && n < |s2| && s1[..n] == s2[..n] && (s1[n] == 0 || s2[n] == 0)
    requires forall k :: 0 <= k < n ==> s1[k] != 0 && s2[k] != 0
    ensures forall i: nat :: !LessAt(CStr(s1), CStr(s2), i)
  {
    hide CStr;
    CStrPrefix(s1, n);
    CStrPrefix(s2, n);
    if s1[n] == 0 {
      CStrIs(s1, n);
    } else {
      CStrIs(s2, n);
    }
    assert CStr(s1)[..n] == s1[..n] && CStr(s2)[..n] == s2[..n];
    NowhereLess(CStr(s1), CStr(s2), n);
  }

  lemma Decides(s1: seq<byte>, s2: seq<byte>, n: nat)
    requires n < |s1| && n < |s2| && s1[..n] == s2[..n] && s1[n] != s2[n] && s1[n] != 0 && s2[n] != 0
    requires forall k :: 0 <= k < n ==> s1[k] != 0 && s2[k] != 0
    ensures SignedChar(s1[n]) < SignedChar(s2[n]) <==> exists i: nat :: LessAt(CStr(s1), CStr(s2), i)
  {
    hide CStr;
    CStrPrefix(s1, n + 1);
    CStrPrefix(s2, n + 1);
    var a, b := CStr(s1), CStr(s2);
    assert a[..n + 1] == s1[..n + 1] && b[..n + 1] == s2[..n + 1];
    assert a[..n] == a[..n + 1][..n] && b[..n] == b[..n + 1][..n];
    assert a[n] == a[..n + 1][n] && b[n] == b[..n + 1][n];
    if SignedChar(s1[n]) < SignedChar(s2[n]) {
      assert LessAt(a, b, n);
    } else {
      NowhereLess(a, b, n);
    }
  }

  // ---- The mounted image ----

  /** Enough of the disk is there for the count and the records it announces. */
  predicate Readable(disk: seq<byte>) {
    && DiskOk(disk) && PARTITION_OFFSET + 4 <= |disk|
    && PARTITION_OFFSET + 4 + META_SIZE * Word(disk, PARTITION_OFFSET) <= |disk|
  }

  /** The partition starts with an image of these files. */
  ghost predicate Holding(disk: seq<byte>, files: seq<File>) {
    && Readable(disk) && (forall i :: 0 <= i < |files| ==> files[i].NameOk())
    && PARTITION_OFFSET + DataOffset(files, |files|) <= |disk|
    && LaidOut(disk[PARTITION_OFFSET..PARTITION_OFFSET + DataOffset(files, |files|)], files)
  }

  /** The partition is that image, at sector 2057. */
  lemma MountedMeans(disk: seq<byte>, files: seq<File>)
    requires Holding(disk, files)
    ensures
      var p, n := 1053184, DataOffset(files, |files|);
      p == 2057 * 512 && p + n <= |disk| && LaidOut(disk[p..p + n], files)
  {
  }

  /** File `i` is the first of that name. */
  predicate Named(files: seq<File>, name: seq<byte>, i: nat) {
    i < |files| && files[i].name == name && forall k :: 0 <= k < i ==> files[k].name != name
  }

  predicate Absent(files: seq<File>, name: seq<byte>) {
    forall k :: 0 <= k < |files| ==> files[k].name != name
  }

  /** What the bytes of record `i` in memory say. */
  ghost predicate MetaOf(metas: seq<byte>, i: nat, file: File, offset: nat) {
    && META_SIZE * i + META_SIZE <= |metas|
    && Terminated(metas[META_SIZE * i..META_SIZE * i + NAME_SIZE])
    && CStr(metas[META_SIZE * i..META_SIZE * i + NAME_SIZE]) == file.name
    && Word(metas, META_SIZE * i + NAME_SIZE) == |file.data| && Word(metas, META_SIZE * i + NAME_SIZE + 4) == offset
  }

  /** A record seen through a window of the bytes is a record of the bytes, and the other way round. */
  lemma RecordWithin(s: seq<byte>, a: nat, b: nat, c: nat, file: File, offset: nat)
    requires a <= b <= |s| && c + META_SIZE <= b - a
    ensures RecordAt(s[a..b], c, file, offset) <==> RecordAt(s, a + c, file, offset)
  {
    Subrange(s, a, b, c, c + NAME_SIZE);
    WordWithin(s, a, b, c + NAME_SIZE);
    WordWithin(s, a, b, c + NAME_SIZE + 4);
  }

  lemma CountRead(disk: seq<byte>, files: seq<File>)
    requires Holding(disk, files)
    ensures PARTITION_OFFSET + 4 + META_SIZE * |files| <= PARTITION_OFFSET + DataOffset(files, |files|) <= |disk|
    ensures Word(disk, PARTITION_OFFSET) == |files|
  {
    WordWithin(disk, PARTITION_OFFSET, PARTITION_OFFSET + DataOffset(files, |files|), 0);
  }

  lemma RecordRead(disk: seq<byte>, files: seq<File>, i: nat)
    requires Holding(disk, files) && i < |files|
    ensures files[i].NameOk() && PARTITION_OFFSET + DataOffset(files, |files|) <= |disk|
    ensures RecordOf(disk[PARTITION_OFFSET..PARTITION_OFFSET + DataOffset(files, |files|)], files, i)
  {
    hide RecordOf, Word;
  }

  lemma MetaRead(disk: seq<byte>, files: seq<File>, i: nat)
    requires Holding(disk, files) && i < |files|
    ensures Word(disk, PARTITION_OFFSET) == |files|
    ensures PARTITION_OFFSET + 4 + META_SIZE * |files| <= |disk|
    ensures MetaOf(disk[PARTITION_OFFSET + 4..PARTITION_OFFSET + 4 + META_SIZE * |files|], i, files[i], DataOffset(files, i))
  {
    hide Holding, LaidOut, Records, DataOffset, RecordAt, MetaOf, Word;
    var p, n, m := PARTITION_OFFSET, DataOffset(files, |files|), META_SIZE * i;
    CountRead(disk, files);
    RecordRead(disk, files, i);
    RecordWithin(disk, p, p + n, 4 + m, files[i], DataOffset(files, i));
    RecordWithin(disk, p + 4, p + 4 + META_SIZE * |files|, m, files[i], DataOffset(files, i));
    RecordSays(disk[p + 4..p + 4 + META_SIZE * |files|], i, files[i], DataOffset(files, i));
  }

  lemma RecordSays(metas: seq<byte>, i: nat, file: File, offset: nat)
    requires file.NameOk() && RecordAt(metas, META_SIZE * i, file, offset)
    ensures MetaOf(metas, i, file, offset)
  {
    Padded(file);
  }

  lemma MetaFields(metas: seq<byte>, i: nat, file: File, offset: nat)
    requires MetaOf(metas, i, file, offset)
    ensures META_SIZE * i + META_SIZE <= |metas|
    ensures Word(metas, META_SIZE * i + NAME_SIZE) == |file.data| && Word(metas, META_SIZE * i + NAME_SIZE + 4) == offset
  {
  }

  lemma WordWithin(s: seq<byte>, a: nat, b: nat, c: nat)
    requires a <= b <= |s| && c + 4 <= b - a
    ensures Word(s[a..b], c) == Word(s, a + c)
  {
  }

  lemma Padded(file: File)
    requires file.NameOk()
    ensures
      var s := file.name + Zeros(NAME_SIZE - |file.name|);
      Terminated(s) && CStr(s) == file.name
  {
    var s := file.name + Zeros(NAME_SIZE - |file.name|);
    assert s[|file.name|] == 0;
    CStrIs(s, |file.name|);
  }

  lemma DataRead(disk: seq<byte>, files: seq<File>, i: nat)
    requires Holding(disk, files) && i < |files|
    ensures
      var a := PARTITION_OFFSET + DataOffset(files, i);
      a + |files[i].data| <= |disk| && disk[a..a + |files[i].data|] == files[i].data
  {
    var p, n, a, data := PARTITION_OFFSET, DataOffset(files, |files|), DataOffset(files, i), files[i].data;
    assert DataOf(disk[p..p + n], files, i);
    hide Holding, LaidOut, DataOffset;
    Subrange(disk, p, p + n, a, a + |data|);
  }

  /**
   * A read of `file`, whose data is at `a`, put the clamped number of bytes from its start on into the buffer, and
   * those are bytes of the file when the range is inside it.
   */
  ghost predicate Answered(disk: seq<byte>, file: File, a: nat, start: nat, length: nat, r: int, was: seq<byte>,
                           now: seq<byte>)
  {
    && r == Min(length, |file.data|) <= |now| == |was| && a + start + r <= |disk|
    && now[..r] == disk[a + start..a + start + r] && now[r..] == was[r..]
    && (start + r <= |file.data| ==> now[..r] == file.data[start..start + r])
  }

  /** If the file is there, the clamped range lies on the disk and fits the buffer. */
  ghost predicate RoomFor(disk: seq<byte>, files: seq<File>, name: seq<byte>, start: nat, length: nat, room: nat) {
    forall i: nat :: Named(files, name, i) ==>
      && Min(length, |files[i].data|) <= room
      && PARTITION_OFFSET + DataOffset(files, i) + start + Min(length, |files[i].data|) <= |disk|
  }

  /** If the file is there, the read of it was answered. */
  ghost predicate AnsweredFor(disk: seq<byte>, files: seq<File>, name: seq<byte>, start: nat, length: nat, r: int,
                              was: seq<byte>, now: seq<byte>)
  {
    forall i: nat :: Named(files, name, i) ==>
      Answered(disk, files[i], PARTITION_OFFSET + DataOffset(files, i), start, length, r, was, now)
  }

  /** What an answered read delivers: as many bytes as asked for or as the file has, from its start on. */
  lemma AnswerMeans(disk: seq<byte>, files: seq<File>, name: seq<byte>, i: nat, start: nat, length: nat, r: int,
                    was: seq<byte>, now: seq<byte>)
    requires AnsweredFor(disk, files, name, start, length, r, was, now)
    requires i < |files| && files[i].name == name && forall k :: 0 <= k < i ==> files[k].name != name
    ensures r == (if length < |files[i].data| then length else |files[i].data|) && r <= |now| == |was|
    ensures
      var from := 1053184 + DataOffset(files, i) + start;
      from + r <= |disk| && now[..r] == disk[from..from + r] && now[r..] == was[r..]
    ensures start + r <= |files[i].data| ==> now[..r] == files[i].data[start..start + r]
  {
    assert Named(files, name, i);
    hide DataOffset;
  }

  class NaiveFs {
    const disk: seq<byte>
    var partitionOffset: nat
    var fileNum: nat
    var fileMetas: array<byte>

    ghost predicate Valid()
      reads this, fileMetas
    {
      && Readable(disk) && partitionOffset == PARTITION_OFFSET && fileNum == Word(disk, PARTITION_OFFSET)
      && fileMetas[..] == disk[PARTITION_OFFSET + 4..PARTITION_OFFSET + 4 + META_SIZE * fileNum]
    }

    /** `init_naive_fs` */
    constructor (disk: seq<byte>)
      requires Readable(disk)
      ensures Valid() && this.disk == disk && fresh(fileMetas)
    {
      this.disk := disk;
      partitionOffset := 2057 * SECTOR_SIZE;
      var count := new byte[4](_ => 0);
      ReadHardDisk(disk, count, 0 + PARTITION_OFFSET, 4);
      assert count[..] == count[..4];
      var found := Word(count[..], 0);
      assert found == Word(disk, PARTITION_OFFSET);
      var metaSize := META_SIZE * found;
      var metas := new byte[metaSize](_ => 0);
      ReadHardDisk(disk, metas, 4 + PARTITION_OFFSET, metaSize);
      assert metas[..] == metas[..metaSize];
      fileNum := found;
      fileMetas := metas;
    }

    /** The search loop shared by stat and read: the first file of that name, or `fileNum`. */
    method FindFile(ghost files: seq<File>, filename: seq<byte>) returns (i: nat)
      requires Valid() && Holding(disk, files) && Terminated(filename)
      ensures i <= fileNum == |files|
      ensures if i == fileNum then Absent(files, CStr(filename)) else Named(files, CStr(filename), i)
      ensures i < fileNum ==> MetaOf(fileMetas[..], i, files[i], DataOffset(files, i))
    {
      hide Holding, LaidOut;
      CountRead(disk, files);
      i := 0;
      while i < fileNum
        invariant i <= fileNum && forall k :: 0 <= k < i ==> files[k].name != CStr(filename)
      {
        MetaRead(disk, files, i);
        var c := Strcmp(fileMetas[META_SIZE * i..META_SIZE * i + NAME_SIZE], filename);
        assert fileMetas[META_SIZE * i..META_SIZE * i + NAME_SIZE] == fileMetas[..][META_SIZE * i..META_SIZE * i + NAME_SIZE];
        if c == 0 {
          return;
        }
        i := i + 1;
      }
    }

    /** The size the writer recorded for the first file of that name; -1 when there is none. */
    method StatFile(ghost files: seq<File>, filename: seq<byte>) returns (r: int, size: nat)
      requires Valid() && Holding(disk, files) && Terminated(filename)
      ensures r == 0 || r == -1
      ensures r == -1 <==> Absent(files, CStr(filename))
      ensures forall i: nat :: Named(files, CStr(filename), i) ==> r == 0 && size == |files[i].data|
    {
      hide Holding;
      var i := FindFile(files, filename);
      if i < fileNum {
        return 0, Word(fileMetas[..], META_SIZE * i + NAME_SIZE);
      }
      return -1, 0;
    }

    /**
     * Clamps the length to the size of the file, not to what follows `start`; a range inside the file yields exactly
     * its bytes.
     */
    method ReadData(ghost files: seq<File>, filename: seq<byte>, buffer: array<byte>, start: nat, length: nat)
      returns (r: int)
      requires Valid() && Holding(disk, files) && Terminated(filename) && buffer != fileMetas
      requires RoomFor(disk, files, CStr(filename), start, length, buffer.Length)
      modifies buffer
      ensures r == -1 <==> Absent(files, CStr(filename))
      ensures r == -1 ==> buffer[..] == old(buffer[..])
      ensures AnsweredFor(disk, files, CStr(filename), start, length, r, old(buffer[..]), buffer[..])
    {
      hide Holding, CStr, DataOffset, Terminated, MetaOf, Word, RoomFor, AnsweredFor, Named, Absent, U32;
      var i := FindFile(files, filename);
      if i == fileNum {
        NoAnswer(disk, files, CStr(filename), start, length, -1, buffer[..], buffer[..]);
        return -1;
      }
      FoundFile(disk, files, CStr(filename), i, start, length, buffer.Length);
      MetaFields(fileMetas[..], i, files[i], DataOffset(files, i));
      var offset := Word(fileMetas[..], META_SIZE * i + NAME_SIZE + 4);
      var size := Word(fileMetas[..], META_SIZE * i + NAME_SIZE);
      r := if length > size then size else length;
      ghost var was := buffer[..];
      ReadHardDisk(disk, buffer, U32(partitionOffset + offset + start), r);
      Answer(disk, files, CStr(filename), i, start, length, r, was, buffer[..]);
    }
  }

  lemma NoAnswer(disk: seq<byte>, files: seq<File>, name: seq<byte>, start: nat, length: nat, r: int, was: seq<byte>,
                 now: seq<byte>)
    requires Absent(files, name)
    ensures AnsweredFor(disk, files, name, start, length, r, was, now)
  {
    hide Answered;
  }

  /** The range that is read lies on the disk and fits the buffer. */
  lemma FoundFile(disk: seq<byte>, files: seq<File>, name: seq<byte>, i: nat, start: nat, length: nat, room: nat)
    requires Holding(disk, files) && Named(files, name, i) && RoomFor(disk, files, name, start, length, room)
    ensures i < |files| && !Absent(files, name) && DiskOk(disk)
    ensures
      var from, r := PARTITION_OFFSET + DataOffset(files, i) + start, Min(length, |files[i].data|);
      U32(from) == from && 0 < from + r <= |disk| && r <= room
  {
    hide LaidOut, DataOffset, Word;
  }

  lemma Answer(disk: seq<byte>, files: seq<File>, name: seq<byte>, i: nat, start: nat, length: nat, r: nat,
               was: seq<byte>, now: seq<byte>)
    requires Holding(disk, files) && Named(files, name, i)
    requires r == Min(length, |files[i].data|) <= |now| == |was|
    requires
      var from := PARTITION_OFFSET + DataOffset(files, i) + start;
      from + r <= |disk| && now[..r] == disk[from..from + r] && now[r..] == was[r..]
    ensures AnsweredFor(disk, files, name, start, length, r, was, now)
  {
    hide LaidOut, Readable, DataOffset, Holding;
    var data, a := files[i].data, PARTITION_OFFSET + DataOffset(files, i);
    DataRead(disk, files, i);
    if start + r <= |data| {
      Subrange(disk, a, a + |data|, start, start + r);
    }
    assert forall k :: Named(files, name, k) ==> k == i;
  }

  // ---- When a read is one of the file ----

  /** The files in the places of `files`, with the data that `disk` has there. */
  function Reread(disk: seq<byte>, files: seq<File>): (r: seq<File>)
    requires PARTITION_OFFSET + DataOffset(files, |files|) <= |disk|
    ensures |r| == |files|
  {
    seq(|files|, k requires 0 <= k < |files| => DataStarts(files, k); File(files[k].name, DataIn(disk, files, k)))
  }

  function DataIn(disk: seq<byte>, files: seq<File>, k: nat): (data: seq<byte>)
    requires k < |files| && PARTITION_OFFSET + DataOffset(files, |files|) <= |disk|
    ensures |data| == |files[k].data|
  {
    DataStarts(files, k);
    disk[PARTITION_OFFSET + DataOffset(files, k)..PARTITION_OFFSET + DataOffset(files, k) + |files[k].data|]
  }

  lemma DataStarts(files: seq<File>, k: nat)
    requires k < |files|
    ensures 4 + META_SIZE * |files| <= DataOffset(files, k)
    ensures DataOffset(files, k) + |files[k].data| == DataOffset(files, k + 1) <= DataOffset(files, |files|)
  {
    OffsetGrows(files, k);
  }

  lemma {:induction false} SameOffsets(files: seq<File>, files': seq<File>, k: nat)
    requires k <= |files| == |files'| && forall j :: 0 <= j < k ==> |files'[j].data| == |files[j].data|
    ensures DataOffset(files', k) == DataOffset(files, k)
    decreases k
  {
    if k > 0 {
      SameOffsets(files, files', k - 1);
    }
  }

  /** A record is the same on a disk with the same bytes there. */
  lemma RecordCopied(s: seq<byte>, s': seq<byte>, n: nat, a: nat, file: File, file': File, offset: nat)
    requires n <= |s| == |s'| && s'[..n] == s[..n] && a + META_SIZE <= n && RecordAt(s, a, file, offset)
    requires file'.name == file.name && |file'.data| == |file.data|
    ensures RecordAt(s', a, file', offset)
  {
    assert forall k :: 0 <= k < n ==> s'[k] == s'[..n][k] == s[..n][k] == s[k];
    assert s'[a..a + NAME_SIZE] == s[a..a + NAME_SIZE];
  }

  /** The disk with one byte overwritten. */
  function Overwrite(disk: seq<byte>, at: nat, c: byte): (r: seq<byte>)
    requires at < |disk|
    ensures |r| == |disk| && r[at] == c && forall k :: 0 <= k < |disk| && k != at ==> r[k] == disk[k]
  {
    disk[at := c]
  }

  /** With a byte behind the records overwritten, a disk holds whatever it then has in the places of the files. */
  lemma Overwritten(disk: seq<byte>, files: seq<File>, at: nat, c: byte)
    requires Holding(disk, files) && PARTITION_OFFSET + 4 + META_SIZE * |files| <= at < |disk|
    ensures Holding(Overwrite(disk, at, c), Reread(Overwrite(disk, at, c), files))
  {
    hide LaidOut, DataOffset, RecordOf, DataOf, Word, Overwrite, Reread;
    var disk', p, n := Overwrite(disk, at, c), PARTITION_OFFSET, DataOffset(files, |files|);
    var files', image' := Reread(disk', files), disk'[p..p + n];
    forall k | 0 <= k < |files'|
      ensures files'[k].NameOk() && |files'[k].data| == |files[k].data|
      ensures RecordOf(image', files', k) && DataOf(image', files', k)
    {
      OverwrittenFile(disk, files, at, c, k);
    }
    SameOffsets(files, files', |files|);
    OverwrittenCount(disk, files, at, c);
    LaidOutAgain(image', files');
  }

  lemma LaidOutAgain(image: seq<byte>, files: seq<File>)
    requires |image| == DataOffset(files, |files|) && |image| >= 4 && Word(image, 0) == |files|
    requires forall k :: 0 <= k < |files| ==> RecordOf(image, files, k) && DataOf(image, files, k)
    ensures LaidOut(image, files)
  {
    hide DataOffset, RecordOf, DataOf, Word;
  }

  lemma OverwrittenCount(disk: seq<byte>, files: seq<File>, at: nat, c: byte)
    requires Holding(disk, files) && PARTITION_OFFSET + 4 + META_SIZE * |files| <= at < |disk|
    ensures Readable(Overwrite(disk, at, c)) && DataOffset(files, |files|) >= 4
    ensures PARTITION_OFFSET + DataOffset(files, |files|) <= |disk|
    ensures
      var p := PARTITION_OFFSET;
      Word(Overwrite(disk, at, c)[p..p + DataOffset(files, |files|)], 0) == |files|
  {
    hide LaidOut;
    CountRead(disk, files);
    var disk', p := Overwrite(disk, at, c), PARTITION_OFFSET;
    assert Word(disk', p) == Word(disk, p);
    hide Word;
    WordWithin(disk', p, p + DataOffset(files, |files|), 0);
  }

  lemma SameHead(disk: seq<byte>, disk': seq<byte>, p: nat, n: nat, head: nat)
    requires head <= n && p + n <= |disk| == |disk'| && forall i :: 0 <= i < p + head ==> disk'[i] == disk[i]
    ensures disk'[p..p + n][..head] == disk[p..p + n][..head]
  {
  }

  lemma OverwrittenFile(disk: seq<byte>, files: seq<File>, at: nat, c: byte, k: nat)
    requires Holding(disk, files) && PARTITION_OFFSET + 4 + META_SIZE * |files| <= at < |disk| && k < |files|
    ensures PARTITION_OFFSET + DataOffset(files, |files|) <= |disk|
    ensures
      var disk', p, n := Overwrite(disk, at, c), PARTITION_OFFSET, DataOffset(files, |files|);
      var files' := Reread(disk', files);
      && files'[k].NameOk() && |files'[k].data| == |files[k].data|
      && RecordOf(disk'[p..p + n], files', k) && DataOf(disk'[p..p + n], files', k)
  {
    hide LaidOut, Readable, DataOffset, RecordAt, DataAt, Word, Overwrite;
    RecordRead(disk, files, k);
    CountRead(disk, files);
    hide Holding;
    var disk', p, n := Overwrite(disk, at, c), PARTITION_OFFSET, DataOffset(files, |files|);
    var files', head := Reread(disk', files), 4 + META_SIZE * |files|;
    DataStarts(files, k);
    SameHead(disk, disk', p, n, head);
    SameOffsets(files, files', k);
    RecordCopied(disk[p..p + n], disk'[p..p + n], head, 4 + META_SIZE * k, files[k], files'[k], DataOffset(files, k));
    DataCopied(disk', p, n, DataOffset(files, k), files'[k].data);
  }

  lemma DataCopied(disk: seq<byte>, p: nat, n: nat, a: nat, data: seq<byte>)
    requires p + n <= |disk| && a + |data| <= n && data == disk[p + a..p + a + |data|]
    ensures DataAt(disk[p..p + n], a, data)
  {
    Subrange(disk, p, p + n, a, a + |data|);
  }

  /** Another disk of the same size, with that very file in that very place. */
  ghost predicate Alike(disk: seq<byte>, files: seq<File>, disk': seq<byte>, files': seq<File>, i: nat)
    requires i < |files|
  {
    && |disk'| == |disk| && Holding(disk', files')
    && i < |files'| && files'[i] == files[i] && DataOffset(files', i) == DataOffset(files, i)
  }

  lemma AlikeOutside(disk: seq<byte>, files: seq<File>, i: nat, at: nat, c: byte)
    requires Holding(disk, files) && i < |files|
    requires PARTITION_OFFSET + DataOffset(files, i) + |files[i].data| <= at < |disk|
    ensures PARTITION_OFFSET + DataOffset(files, |files|) <= |Overwrite(disk, at, c)|
    ensures Alike(disk, files, Overwrite(disk, at, c), Reread(Overwrite(disk, at, c), files), i)
  {
    hide LaidOut, Readable, DataOffset;
    var disk', a := Overwrite(disk, at, c), PARTITION_OFFSET + DataOffset(files, i);
    DataStarts(files, i);
    Overwritten(disk, files, at, c);
    SameOffsets(files, Reread(disk', files), i);
    DataRead(disk, files, i);
    assert disk'[a..a + |files[i].data|] == disk[a..a + |files[i].data|];
  }

  /**
   * On every disk that holds files, a read of `r` bytes from `start` of file `i` is determined by that file if and only
   * if it asks for nothing or stays inside. Otherwise another disk with that very file in that place answers differently.
   */
  lemma ReadIsOfTheFile(disk: seq<byte>, files: seq<File>, i: nat, start: nat, length: nat)
    requires Holding(disk, files) && i < |files|
    requires PARTITION_OFFSET + DataOffset(files, i) + start + Min(length, |files[i].data|) <= |disk|
    ensures
      var r, from := Min(length, |files[i].data|), PARTITION_OFFSET + DataOffset(files, i) + start;
      (forall disk': seq<byte>, files': seq<File> :: Alike(disk, files, disk', files', i) ==> disk'[from..from + r] == disk[from..from + r])
      <==> (r == 0 || start + r <= |files[i].data|)
  {
    hide LaidOut, Readable, DataOffset, Holding;
    var data, a := files[i].data, PARTITION_OFFSET + DataOffset(files, i);
    var r, from := Min(length, |data|), a + start;
    if r == 0 || start + r <= |data| {
      forall disk': seq<byte>, files': seq<File> | Alike(disk, files, disk', files', i)
        ensures disk'[from..from + r] == disk[from..from + r]
      {
        if r > 0 {
          DataRead(disk, files, i);
          DataRead(disk', files', i);
          Subrange(disk, a, a + |data|, start, start + r);
          Subrange(disk', a, a + |data|, start, start + r);
        }
      }
    } else {
      var at := from + r - 1;
      var c: byte := if disk[at] == 0 then 1 else 0;
      AlikeOutside(disk, files, i, at, c);
      assert Overwrite(disk, at, c)[from..from + r][r - 1] != disk[from..from + r][r - 1];
    }
  }

  /** What a read that runs past the end of its file delivers: the rest of the file and the start of the next one. */
  lemma ReadRunsOn(disk: seq<byte>, files: seq<File>, i: nat, start: nat, r: nat)
    requires Holding(disk, files) && i + 1 < |files| && start <= |files[i].data| <= start + r
    requires start + r - |files[i].data| <= |files[i + 1].data|
    ensures
      var from := PARTITION_OFFSET + DataOffset(files, i) + start;
      && from + r <= |disk|
      && disk[from..from + r] == files[i].data[start..] + files[i + 1].data[..start + r - |files[i].data|]
  {
    hide LaidOut, Readable, DataOffset, Holding;
    var data, next := files[i].data, files[i + 1].data;
    var a, rest := PARTITION_OFFSET + DataOffset(files, i), start + r - |data|;
    DataStarts(files, i);
    DataRead(disk, files, i);
    DataRead(disk, files, i + 1);
    Subrange(disk, a, a + |data|, start, |data|);
    Subrange(disk, a + |data|, a + |data| + |next|, 0, rest);
    assert disk[a + start..a + start + r] == disk[a + start..a + |data|] + disk[a + |data|..a + |data| + rest];
  }

  // ---- Round trip ----

  /** Write the files, put the image on a disk, mount it, and read a range of one of them: its own bytes come back. */
  method RoundTrip(files: seq<File>, i: nat, start: nat, length: nat, before: seq<byte>, behind: seq<byte>)
    returns (size: nat, bytes: seq<byte>)
    requires Writable(files) && i < |files| && forall k :: 0 <= k < i ==> files[k].name != files[i].name
    requires start + length <= |files[i].data|
    requires |before| == PARTITION_OFFSET && DiskOk(before + Zeros(DataOffset(files, |files|)) + behind)
    ensures size == |files[i].data| && bytes == files[i].data[start..start + length]
  {
    var image := WriteImage(files);
    var disk := before + image + behind;
    assert disk[PARTITION_OFFSET..PARTITION_OFFSET + DataOffset(files, |files|)] == image;
    Mounted(disk, files);
    var fs := new NaiveFs(disk);
    var filename := files[i].name + [0];
    CStrIs(filename, |files[i].name|);
    assert filename[|files[i].name|] == 0 && CStr(filename) == files[i].name;
    assert Named(files, files[i].name, i);
    DataRead(disk, files, i);
    hide Holding;
    var r;
    r, size := fs.StatFile(files, filename);
    var buffer := new byte[length](_ => 0);
    r := fs.ReadData(files, filename, buffer, start, length);
    bytes := buffer[..][..length];
  }

  lemma Mounted(disk: seq<byte>, files: seq<File>)
    requires DiskOk(disk) && Writable(files) && PARTITION_OFFSET + DataOffset(files, |files|) <= |disk|
    requires LaidOut(disk[PARTITION_OFFSET..PARTITION_OFFSET + DataOffset(files, |files|)], files)
    ensures Holding(disk, files)
  {
    var image := disk[PARTITION_OFFSET..PARTITION_OFFSET + DataOffset(files, |files|)];
    assert Word(image, 0) == Word(disk, PARTITION_OFFSET);
  }
}

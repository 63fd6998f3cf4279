/**
 The freestanding C stub that a bundle starts with: its I/O loops, the trailer reader and the
 extractor of the embedded binaries (`stub/stub.c`).

 System calls are methods with the nondeterminism of the kernel: a read or a write transfers
 some positive part of what was asked, and on an unreliable device it may also fail.
 */
module StubIo {
  import opened ByteCodec

  // A file opened for reading.  `lseek` past `seekLimit` fails and leaves the position alone.
  class InputFile {
    const content: Bytes
    const seekLimit: nat
    const reliable: bool
    var pos: nat

    constructor Open(content: Bytes, seekLimit: nat, reliable: bool)
      ensures this.content == content && this.seekLimit == seekLimit && this.reliable == reliable
      ensures pos == 0
    {
      this.content, this.seekLimit, this.reliable := content, seekLimit, reliable;
      pos := 0;
    }

    ghost function Rest(): Bytes
      reads this
    {
      if pos <= |content| then content[pos..] else []
    }

    method Seek(offset: nat)
      modifies this
      ensures pos == if offset <= seekLimit then offset else old(pos)
    {
      if offset <= seekLimit {
        pos := offset;
      }
    }

    method SysRead(buf: array<byte>, at: nat, len: nat) returns (n: int)
      requires at + len <= buf.Length
      modifies this, buf
      ensures n <= len && (reliable ==> n >= 0)
      ensures n > 0 ==> n <= |old(Rest())| && Rest() == old(Rest())[n..]
      ensures n > 0 ==> buf[..] == old(buf[..at]) + old(Rest())[..n] + old(buf[at + n..])
      ensures n == 0 ==> len == 0 || old(Rest()) == []
      ensures n <= 0 ==> buf[..] == old(buf[..]) && pos == old(pos)
    {
      if !reliable {
        if * { return -1; }
      }
      var available := if pos <= |content| then |content| - pos else 0;
      var most := if len < available then len else available;
      if most == 0 { return 0; }
      n :| 1 <= n <= most;
      forall i | 0 <= i < n {
        buf[at + i] := content[pos + i];
      }
      pos := pos + n;
    }
  }

  // The files the stub can write.  `openable` says which paths can be opened for writing:
  // the directories of the path exist and the path is not itself a directory.
  class FileSystem {
    const openable: Bytes -> bool
    const reliable: bool
    var files: map<Bytes, Bytes>

    constructor (openable: Bytes -> bool, reliable: bool, files: map<Bytes, Bytes>)
      ensures this.openable == openable && this.reliable == reliable && this.files == files
    {
      this.openable, this.reliable, this.files := openable, reliable, files;
    }

    method OpenTruncated(path: Bytes) returns (ok: bool)
      modifies this
      ensures ok ==> openable(path) && files == old(files)[path := []]
      ensures !ok ==> files == old(files)
      ensures reliable ==> ok == openable(path)
    {
      ok := openable(path);
      if !reliable {
        if * { ok := false; }
      }
      if ok {
        files := files[path := []];
      }
    }

    method SysWrite(path: Bytes, buf: array<byte>, at: nat, len: nat) returns (n: int)
      requires path in files && at + len <= buf.Length && len > 0
      modifies this
      ensures n == -1 || 1 <= n <= len
      ensures reliable ==> n > 0
      ensures n < 0 ==> files == old(files)
      ensures n > 0 ==> files == old(files)[path := old(files)[path] + buf[at..at + n]]
    {
      if !reliable {
        if * { return -1; }
      }
      n :| 1 <= n <= len;
      files := files[path := files[path] + buf[at..at + n]];
    }
  }

  method ReadAll(fd: InputFile, buf: array<byte>, len: nat) returns (r: int)
    requires len <= buf.Length
    modifies fd, buf
    ensures r == 0 || r == -1
    ensures r == 0 ==>
              && len <= |old(fd.Rest())|
              && buf[..len] == old(fd.Rest())[..len]
              && fd.Rest() == old(fd.Rest())[len..]
    ensures fd.reliable ==> (r == 0 <==> len <= |old(fd.Rest())|)
  {
    var readBytes := 0;
    while readBytes < len
      invariant readBytes <= len && readBytes <= |old(fd.Rest())|
      invariant buf[..readBytes] == old(fd.Rest())[..readBytes]
      invariant fd.Rest() == old(fd.Rest())[readBytes..]
    {
      ghost var before := buf[..readBytes];
      var n := fd.SysRead(buf, readBytes, len - readBytes);
      if n <= 0 {
        return -1;
      }
      assert buf[..readBytes] == buf[..][..readBytes] == before;
      assert buf[readBytes..readBytes + n] == buf[..][readBytes..readBytes + n];
      assert buf[..readBytes + n] == buf[..readBytes] + buf[readBytes..readBytes + n];
      readBytes := readBytes + n;
    }
    return 0;
  }

  // Fills a fixed local buffer of `len` bytes and hands out its contents.
  method ReadBuffer(fd: InputFile, len: nat) returns (ok: bool, b: Bytes)
    modifies fd
    ensures ok ==> len <= |old(fd.Rest())| && b == old(fd.Rest())[..len] && fd.Rest() == old(fd.Rest())[len..]
    ensures fd.reliable ==> (ok <==> len <= |old(fd.Rest())|)
  {
    var buf := new byte[len];
    var got := ReadAll(fd, buf, len);
    if got < 0 {
      return false, [];
    }
    assert buf[..] == buf[..len];
    return true, buf[..];
  }

  // Some part of `data`, from its start, was appended to the file at `path`.
  predicate Appended(before: map<Bytes, Bytes>, after: map<Bytes, Bytes>, path: Bytes, data: Bytes)
    requires path in before
  {
    exists k | 0 <= k <= |data| :: after == before[path := before[path] + data[..k]]
  }

  method WriteAll(fs: FileSystem, path: Bytes, buf: array<byte>, len: nat) returns (r: int)
    requires path in fs.files && len <= buf.Length
    modifies fs
    ensures r == 0 || r == -1
    ensures fs.reliable ==> r == 0
    ensures r == 0 ==> fs.files == old(fs.files)[path := old(fs.files)[path] + buf[..len]]
    ensures Appended(old(fs.files), fs.files, path, buf[..len])
  {
    var written := 0;
    assert old(fs.files)[path] + buf[..0] == old(fs.files)[path];
    while written < len
      invariant written <= len
      invariant path in fs.files && fs.files == old(fs.files)[path := old(fs.files)[path] + buf[..written]]
    {
      var n := fs.SysWrite(path, buf, written, len - written);
      if n < 0 {
        assert buf[..len][..written] == buf[..written];
        return -1;
      }
      assert buf[..written] + buf[written..written + n] == buf[..written + n];
      Assoc(old(fs.files)[path], buf[..written], buf[written..written + n]);
      written := written + n;
    }
    assert buf[..len][..written] == buf[..written];
    return 0;
  }
}

module Stub {
  import opened ByteCodec
  import opened Bootstrap
  import opened StubIo

  // ----- What the extractor does, as functions of the file -----

  // The characters of a C string stored in `s`: up to the first NUL.
  function CString(s: Bytes): (c: Bytes)
    ensures NUL !in c && |c| <= |s| && c == s[..|c|]
    ensures |c| < |s| ==> s[|c|] == NUL
  {
    if s == [] || s[0] == NUL then [] else [s[0]] + CString(s[1..])
  }

  lemma {:induction false} CStringUntil(s: Bytes, k: nat)
    requires k <= |s| && NUL !in s[..k] && (k < |s| ==> s[k] == NUL)
    ensures CString(s) == s[..k]
  {
    if k > 0 {
      assert s[0] == s[..k][0] && s[..k] == [s[0]] + s[1..][..k - 1];
      CStringUntil(s[1..], k - 1);
    }
  }

  const PATH_SIZE: nat := 512
  const NAME_SIZE: nat := 256
  const CHUNK: nat := 4096

  function Least(a: nat, b: nat): nat { if a < b then a else b }

  // The path built in the 512-byte buffer: both parts are cut to fit.
  function StubPath(dir: Bytes, name: Bytes): (path: Bytes)
    ensures |path| < PATH_SIZE
  {
    var d := dir[..Least(|dir|, PATH_SIZE - 2)];
    var room := PATH_SIZE - 1 - (|d| + 1);
    d + [SLASH] + name[..Least(|name|, room)]
  }

  // The path is the joined one cut to 511 bytes, or, when the directory alone leaves no room for a
  // name, the first 510 bytes of the directory and a slash.
  lemma PathIsCut(dir: Bytes, name: Bytes)
    ensures StubPath(dir, name) ==
            var full := dir + [0x2F] + name;
            if |dir| > 510 then dir[..510] + [0x2F] else if |full| > 511 then full[..511] else full
  {
    if |dir| <= 510 {
      assert dir[..|dir|] == dir;
      if |name| > 510 - |dir| {
        assert (dir + [SLASH] + name)[..511] == dir + [SLASH] + name[..510 - |dir|];
      } else {
        assert name[..|name|] == name;
      }
    }
  }

  function EntryPath(dir: Bytes, name: Bytes): Bytes { StubPath(dir, CString(name)) }

  datatype Extraction = Extraction(ok: bool, files: map<Bytes, Bytes>)

  datatype Head = Head(name: Bytes, dataLen: nat, rest: Bytes)

  // The two length fields and the name of the next entry; names of 256 bytes or more are refused.
  function EntryHead(d: Bytes): (r: Option<Head>)
    ensures r.Some? ==> |r.value.rest| < |d|
  {
    if |d| < 2 then None
    else
      var nameLen := FromLittle(d[..2]);
      var d1 := d[2..];
      if nameLen >= NAME_SIZE || |d1| < nameLen then None
      else
        var d2 := d1[nameLen..];
        if |d2| < 4 then None else Some(Head(d1[..nameLen], FromLittle(d2[..4]), d2[4..]))
  }

  // What reaches the file when the data ends early: the chunks that were complete.
  function WholeChunks(d: Bytes): Bytes { d[..|d| / CHUNK * CHUNK] }

  // Streams `count` entries from `d` into files, stopping at the first thing that goes wrong.
  // Data that ends early is written in whole chunks only.
  function ExtractEntries(count: nat, d: Bytes, dir: Bytes, files: map<Bytes, Bytes>, openable: Bytes -> bool)
    : Extraction
  {
    if count == 0 then Extraction(true, files)
    else
      match EntryHead(d)
      case None => Extraction(false, files)
      case Some(Head(name, dataLen, rest)) =>
        var path := EntryPath(dir, name);
        if !openable(path) then Extraction(false, files)
        else if |rest| < dataLen then Extraction(false, files[path := WholeChunks(rest)])
        else ExtractEntries(count - 1, rest[dataLen..], dir, files[path := rest[..dataLen]], openable)
  }

  // The file at `path` was made anew, and some part of `data`, from its start, written to it.
  predicate Started(before: map<Bytes, Bytes>, after: map<Bytes, Bytes>, path: Bytes, data: Bytes) {
    exists k | 0 <= k <= |data| :: after == before[path := data[..k]]
  }

  // The files that a run which gave up may have left: those of some entries from the start,
  // complete, and perhaps a part of the next one's.
  predicate MayLeave(count: nat, d: Bytes, dir: Bytes, files: map<Bytes, Bytes>, openable: Bytes -> bool,
                     after: map<Bytes, Bytes>)
  {
    || after == files
    || (count > 0 && EntryHead(d).Some? &&
        var Head(name, dataLen, rest) := EntryHead(d).value;
        var path := EntryPath(dir, name);
        && openable(path)
        && (|| Started(files, after, path, rest[..Least(dataLen, |rest|)])
            || (dataLen <= |rest| &&
                MayLeave(count - 1, rest[dataLen..], dir, files[path := rest[..dataLen]], openable, after))))
  }

  // What is left of the file after seeking to `offset`.
  function Sought(file: Bytes, offset: nat, seekLimit: nat): Bytes {
    if offset > seekLimit then file else if offset <= |file| then file[offset..] else []
  }

  function ExtractBundle(file: Bytes, seekLimit: nat, dir: Bytes, files: map<Bytes, Bytes>,
                         openable: Bytes -> bool): Extraction
  {
    match ReadTrailer(file)
    case None => Extraction(false, files)
    case Some((offset, _)) =>
      var d := Sought(file, offset, seekLimit);
      if |d| < 4 then Extraction(false, files)
      else ExtractEntries(FromLittle(d[..4]), d[4..], dir, files, openable)
  }

  predicate BundleMayLeave(file: Bytes, seekLimit: nat, dir: Bytes, files: map<Bytes, Bytes>,
                           openable: Bytes -> bool, after: map<Bytes, Bytes>)
  {
    || after == files
    || (ReadTrailer(file).Some? &&
        var d := Sought(file, ReadTrailer(file).value.0, seekLimit);
        |d| >= 4 && MayLeave(FromLittle(d[..4]), d[4..], dir, files, openable, after))
  }

  // ----- The code -----

  // The stub assembles integers with shifts and ors of disjoint bits, that is, sums.
  function Assemble4(b0: byte, b1: byte, b2: byte, b3: byte): nat {
    b0 + 0x100 * b1 + 0x1_0000 * b2 + 0x100_0000 * b3
  }

  function Assemble2(b0: byte, b1: byte): nat { b0 + 0x100 * b1 }

  lemma AssembleIsLittle(b: Bytes)
    ensures |b| == 2 ==> FromLittle(b) == Assemble2(b[0], b[1])
    ensures |b| == 4 ==> FromLittle(b) == Assemble4(b[0], b[1], b[2], b[3])
    ensures |b| == 8 ==> FromLittle(b) == Assemble4(b[0], b[1], b[2], b[3])
                                          + 0x1_0000_0000 * Assemble4(b[4], b[5], b[6], b[7])
  {
    if |b| == 2 {
      FromLittleStep(b);
      FromLittleStep(b[1..]);
    } else if |b| == 4 {
      FromLittle4(b);
    } else if |b| == 8 {
      FromLittleStep(b);
      FromLittleStep(b[1..]);
      FromLittleStep(b[1..][1..]);
      FromLittleStep(b[1..][1..][1..]);
      assert b[1..][1..][1..][1..] == b[4..];
      FromLittle4(b[4..]);
    }
  }

  lemma FromLittleStep(b: Bytes)
    requires b != []
    ensures FromLittle(b) == b[0] + 256 * FromLittle(b[1..])
  {
  }

  lemma FromLittle4(b: Bytes)
    requires |b| == 4
    ensures FromLittle(b) == Assemble4(b[0], b[1], b[2], b[3])
  {
    FromLittleStep(b);
    FromLittleStep(b[1..]);
    FromLittleStep(b[1..][1..]);
    FromLittleStep(b[1..][1..][1..]);
  }

  method ReadBootstrapTrailer(file: Bytes, seekLimit: nat, reliable: bool)
    returns (r: int, offset: nat, size: nat)
    requires |file| <= seekLimit
    ensures r == 0 || r == -1
    ensures r == 0 ==> ReadTrailer(file) == Some((offset, size))
    ensures reliable ==> (r == 0 <==> ReadTrailer(file).Some?)
  {
    hide FromLittle;
    offset, size := 0, 0;
    var fd := new InputFile.Open(file, seekLimit, reliable);
    if |file| < 20 {
      return -1, 0, 0;
    }
    var trailerOff := |file| - 20;
    fd.Seek(trailerOff);
    var got, t := ReadBuffer(fd, 20);
    if !got {
      return -1, 0, 0;
    }
    assert t == file[trailerOff..];
    assert t[..4] == file[trailerOff..trailerOff + 4];
    assert t[..4] == [t[0], t[1], t[2], t[3]];
    if t[0] != 0x4E || t[1] != 0x58 || t[2] != 0x42 || t[3] != 0x54 {
      return -1, 0, 0;
    }
    offset := Assemble4(t[4], t[5], t[6], t[7]) + 0x1_0000_0000 * Assemble4(t[8], t[9], t[10], t[11]);
    size := Assemble4(t[12], t[13], t[14], t[15]) + 0x1_0000_0000 * Assemble4(t[16], t[17], t[18], t[19]);
    assert t[4..12] == file[trailerOff + 4..trailerOff + 12];
    assert t[12..20] == file[trailerOff + 12..trailerOff + 20];
    AssembleIsLittle(t[4..12]);
    AssembleIsLittle(t[12..20]);
    r := 0;
  }

  // Joins the directory and the NUL-terminated `name` in the fixed buffer `path`.
  method JoinPath(dir: Bytes, name: array<byte>, path: array<byte>) returns (len: nat)
    requires NUL !in dir && NUL in name[..] && path.Length == PATH_SIZE && name != path
    modifies path
    ensures len < PATH_SIZE && path[len] == NUL
    ensures path[..len] == StubPath(dir, CString(name[..]))
  {
    hide CString;
    var pi := 0;
    while pi < |dir| && pi < PATH_SIZE - 2
      invariant pi <= |dir| && pi <= PATH_SIZE - 2
      invariant path[..pi] == dir[..pi]
    {
      path[pi] := dir[pi];
      assert path[..pi + 1] == path[..pi] + [dir[pi]];
      pi := pi + 1;
    }
    ghost var d := dir[..pi];
    path[pi] := SLASH;
    pi := pi + 1;
    assert path[..pi] == d + [SLASH];
    ghost var base := path[..pi];
    ghost var text := name[..];
    ghost var c := CString(text);
    var ni := 0;
    while name[ni] != NUL && pi < PATH_SIZE - 1
      invariant ni <= |c| && pi == |base| + ni && pi <= PATH_SIZE - 1
      invariant name[..] == text && |c| < |text|
      invariant path[..pi] == base + c[..ni]
      decreases PATH_SIZE - pi
    {
      assert c[ni] == text[ni] by { assert ni < |c|; }
      path[pi] := name[ni];
      assert path[..pi + 1] == path[..pi] + [c[ni]];
      pi, ni := pi + 1, ni + 1;
    }
    path[pi] := NUL;
    len := pi;
  }

  // Copies `dataLen` bytes to the file at `path` through the 4096-byte buffer.
  method CopyData(fd: InputFile, fs: FileSystem, path: Bytes, dataLen: nat) returns (r: int)
    requires path in fs.files && fs.files[path] == []
    modifies fd, fs
    ensures r == 0 || r == -1
    ensures var d := old(fd.Rest());
            r == 0 ==>
              && dataLen <= |d| && fd.Rest() == d[dataLen..]
              && fs.files == old(fs.files)[path := d[..dataLen]]
    ensures var d := old(fd.Rest());
            r != 0 && fd.reliable && fs.reliable ==>
              && |d| < dataLen && fs.files == old(fs.files)[path := WholeChunks(d)]
    ensures var d := old(fd.Rest());
            r != 0 ==> Started(old(fs.files), fs.files, path, d[..Least(dataLen, |d|)])
  {
    hide WholeChunks;
    var fbuf := new byte[CHUNK];
    var remaining := dataLen;
    ghost var d, files := fd.Rest(), fs.files;
    ghost var chunks, written: nat := 0, 0;
    NothingWritten(files, path, d);
    while remaining > 0
      invariant 0 <= remaining && written + remaining == dataLen && written <= |d|
      invariant fd.Rest() == d[written..]
      invariant fs.files == files[path := d[..written]]
      invariant remaining > 0 ==> written == chunks * CHUNK
    {
      var chunk := if remaining < CHUNK then remaining else CHUNK;
      var copied := CopyChunk(fd, fs, path, fbuf, chunk);
      if copied < 0 {
        if fd.reliable && fs.reliable {
          LastWholeChunk(d, chunks);
        }
        PartOfCopy(files, fs.files, path, d, written, chunk, dataLen);
        return -1;
      }
      NextSlice(d, written, chunk);
      OverwriteTwice(files, path, d[..written], d[..written + chunk]);
      remaining := remaining - chunk;
      chunks, written := chunks + 1, written + chunk;
    }
    return 0;
  }

  // A part of the next chunk after what was written before it.
  lemma PartOfCopy(files: map<Bytes, Bytes>, after: map<Bytes, Bytes>, path: Bytes, d: Bytes, written: nat, chunk: nat,
                   dataLen: nat)
    requires written <= |d| && written + chunk <= dataLen
    requires Appended(files[path := d[..written]], after, path, d[written..][..Least(chunk, |d| - written)])
    ensures Started(files, after, path, d[..Least(dataLen, |d|)])
  {
    var before, next := files[path := d[..written]], d[written..][..Least(chunk, |d| - written)];
    var k :| 0 <= k <= |next| && after == before[path := before[path] + next[..k]];
    var whole := d[..Least(dataLen, |d|)];
    assert next[..k] == d[written..][..k] && whole[..written + k] == d[..written + k];
    NextSlice(d, written, k);
    OverwriteTwice(files, path, d[..written], whole[..written + k]);
  }

  lemma NothingWritten(files: map<Bytes, Bytes>, path: Bytes, d: Bytes)
    requires path in files && files[path] == []
    ensures files == files[path := d[..0]] && d[0..] == d
  {
  }

  // One round of the copy: fill the buffer, then empty it.
  method CopyChunk(fd: InputFile, fs: FileSystem, path: Bytes, fbuf: array<byte>, chunk: nat) returns (r: int)
    requires path in fs.files && chunk <= fbuf.Length
    modifies fd, fs, fbuf
    ensures r == 0 || r == -1
    ensures var d := old(fd.Rest());
            r == 0 ==>
              && chunk <= |d| && fd.Rest() == d[chunk..]
              && fs.files == old(fs.files)[path := old(fs.files)[path] + d[..chunk]]
    ensures r != 0 && fd.reliable && fs.reliable ==> |old(fd.Rest())| < chunk && fs.files == old(fs.files)
    ensures var d := old(fd.Rest());
            r != 0 ==> Appended(old(fs.files), fs.files, path, d[..Least(chunk, |d|)])
  {
    ghost var d := fd.Rest();
    var got := ReadAll(fd, fbuf, chunk);
    if got < 0 {
      NothingAppended(fs.files, path, d[..Least(chunk, |d|)]);
      return -1;
    }
    r := WriteAll(fs, path, fbuf, chunk);
  }

  lemma NothingAppended(files: map<Bytes, Bytes>, path: Bytes, data: Bytes)
    requires path in files
    ensures Appended(files, files, path, data)
  {
    assert files[path] + data[..0] == files[path];
  }

  lemma LastWholeChunk(d: Bytes, chunks: nat)
    requires chunks * CHUNK <= |d| < (chunks + 1) * CHUNK
    ensures WholeChunks(d) == d[..chunks * CHUNK]
  {
  }

  lemma NextSlice(d: Bytes, written: nat, chunk: nat)
    requires written + chunk <= |d|
    ensures d[..written] + d[written..][..chunk] == d[..written + chunk]
    ensures d[written..][chunk..] == d[written + chunk..]
  {
  }

  // Under every pattern of short reads and writes the extractor either does exactly what
  // `ExtractBundle` says or, only when a system call failed, gives up with -1; whenever it gives
  // up it leaves some complete files and perhaps a part of the next one.
  method ExtractSelfBootstrap(file: Bytes, seekLimit: nat, readable: bool, dir: Bytes, fs: FileSystem)
    returns (r: int)
    requires |file| <= seekLimit && NUL !in dir
    modifies fs
    ensures r == 0 || r == -1
    ensures var want := ExtractBundle(file, seekLimit, dir, old(fs.files), fs.openable);
            && (r == 0 ==> want == Extraction(true, fs.files))
            && (readable && fs.reliable ==> want == Extraction(r == 0, fs.files))
    ensures r != 0 ==> BundleMayLeave(file, seekLimit, dir, old(fs.files), fs.openable, fs.files)
  {
    hide FromLittle, ReadTrailer, ExtractEntries, Assemble4, MayLeave;
    ghost var want := ExtractBundle(file, seekLimit, dir, fs.files, fs.openable);
    var t, bootOff, bootSize := ReadBootstrapTrailer(file, seekLimit, readable);
    if t != 0 {
      return -1;
    }
    var fd := new InputFile.Open(file, seekLimit, readable);
    fd.Seek(bootOff);
    ghost var d := Sought(file, bootOff, seekLimit);
    assert fd.Rest() == d;
    var got, hdr := ReadBuffer(fd, 4);
    if !got {
      return -1;
    }
    AssembleIsLittle(hdr);
    var ok := ExtractCount(fd, fs, dir, Assemble4(hdr[0], hdr[1], hdr[2], hdr[3]));
    return if ok then 0 else -1;
  }

  method ExtractCount(fd: InputFile, fs: FileSystem, dir: Bytes, count: nat) returns (ok: bool)
    requires NUL !in dir
    modifies fd, fs
    ensures var want := ExtractEntries(count, old(fd.Rest()), dir, old(fs.files), fs.openable);
            && (ok ==> want == Extraction(true, fs.files))
            && (!ok && fd.reliable && fs.reliable ==> want == Extraction(false, fs.files))
    ensures !ok ==> MayLeave(count, old(fd.Rest()), dir, old(fs.files), fs.openable, fs.files)
  {
    hide ExtractEntries, MayLeave;
    ghost var want, d, files := ExtractEntries(count, fd.Rest(), dir, fs.files, fs.openable), fd.Rest(), fs.files;
    for i := 0 to count
      invariant want == ExtractEntries(count - i, fd.Rest(), dir, fs.files, fs.openable)
      invariant forall after | MayLeave(count - i, fd.Rest(), dir, fs.files, fs.openable, after) ::
                  MayLeave(count, d, dir, files, fs.openable, after)
    {
      ok := ExtractOne(fd, fs, dir, count - i);
      if !ok {
        return false;
      }
    }
    NoEntriesLeft(fd.Rest(), dir, fs.files, fs.openable);
    return true;
  }

  // Giving up never removes a file, and changes only files that entries are extracted to.
  lemma {:induction false} OtherFilesLeft(count: nat, d: Bytes, dir: Bytes, files: map<Bytes, Bytes>,
                                          openable: Bytes -> bool, after: map<Bytes, Bytes>, path: Bytes)
    requires MayLeave(count, d, dir, files, openable, after)
    ensures path in files ==> path in after
    ensures path in after && !(path in files && after[path] == files[path]) ==>
              openable(path) && exists name :: path == EntryPath(dir, name)
  {
    hide EntryHead, EntryPath;
    if after != files {
      var Head(name, dataLen, rest) := EntryHead(d).value;
      var entry := EntryPath(dir, name);
      var whole := rest[..Least(dataLen, |rest|)];
      if Started(files, after, entry, whole) {
        var k :| 0 <= k <= |whole| && after == files[entry := whole[..k]];
      } else {
        OtherFilesLeft(count - 1, rest[dataLen..], dir, files[entry := whole], openable, after, path);
      }
    }
  }

  lemma NoEntriesLeft(d: Bytes, dir: Bytes, files: map<Bytes, Bytes>, openable: Bytes -> bool)
    ensures ExtractEntries(0, d, dir, files, openable) == Extraction(true, files)
  {
  }

  // One round of the extractor's loop.
  method ExtractOne(fd: InputFile, fs: FileSystem, dir: Bytes, ghost count: nat) returns (ok: bool)
    requires NUL !in dir && count > 0
    modifies fd, fs
    ensures var want := ExtractEntries(count, old(fd.Rest()), dir, old(fs.files), fs.openable);
            && (ok ==> want == ExtractEntries(count - 1, fd.Rest(), dir, fs.files, fs.openable))
            && (!ok && fd.reliable && fs.reliable ==> want == Extraction(false, fs.files))
    ensures !ok ==> MayLeave(count, old(fd.Rest()), dir, old(fs.files), fs.openable, fs.files)
    ensures ok ==> forall after | MayLeave(count - 1, fd.Rest(), dir, fs.files, fs.openable, after) ::
              MayLeave(count, old(fd.Rest()), dir, old(fs.files), fs.openable, after)
  {
    hide FromLittle, StubPath, CString, EntryHead, WholeChunks;
    ghost var head := EntryHead(fd.Rest());
    var got, name, dataLen := ReadEntryHead(fd);
    if !got {
      return false;
    }
    var filePath := new byte[PATH_SIZE];
    var len := JoinPath(dir, name, filePath);
    var path := filePath[..len];
    assert path == EntryPath(dir, head.value.name);
    var created := fs.OpenTruncated(path);
    if !created {
      return false;
    }
    ghost var rest := fd.Rest();
    var copied := CopyData(fd, fs, path, dataLen);
    OverwriteTwice(old(fs.files), path, [], if copied == 0 then rest[..dataLen] else WholeChunks(rest));
    if copied != 0 {
      StartedAnew(old(fs.files), fs.files, path, rest[..Least(dataLen, |rest|)]);
    }
    return copied == 0;
  }

  lemma StartedAnew(files: map<Bytes, Bytes>, after: map<Bytes, Bytes>, path: Bytes, data: Bytes)
    requires Started(files[path := []], after, path, data)
    ensures Started(files, after, path, data)
  {
    var k :| 0 <= k <= |data| && after == files[path := []][path := data[..k]];
    OverwriteTwice(files, path, [], data[..k]);
  }

  lemma OverwriteTwice(files: map<Bytes, Bytes>, path: Bytes, before: Bytes, data: Bytes)
    ensures files[path := before][path := data] == files[path := data]
  {
  }

  // Reads both length fields and the name, which ends up NUL-terminated in its 256-byte buffer.
  method ReadEntryHead(fd: InputFile) returns (ok: bool, name: array<byte>, dataLen: nat)
    modifies fd
    ensures fresh(name) && name.Length == NAME_SIZE
    ensures ok ==>
              && EntryHead(old(fd.Rest())).Some?
              && var head := EntryHead(old(fd.Rest())).value;
              && NUL in name[..] && CString(name[..]) == CString(head.name)
              && dataLen == head.dataLen && fd.Rest() == head.rest
    ensures !ok && fd.reliable ==> EntryHead(old(fd.Rest())) == None
  {
    hide FromLittle, CString, Assemble2, Assemble4;
    name := new byte[NAME_SIZE];
    ok, dataLen := false, 0;
    var got, nl := ReadBuffer(fd, 2);
    if !got {
      return;
    }
    AssembleIsLittle(nl);
    var nameLen := Assemble2(nl[0], nl[1]);
    if nameLen >= NAME_SIZE {
      return;
    }
    got := ReadName(fd, name, nameLen);
    if !got {
      return;
    }
    var dl;
    got, dl := ReadBuffer(fd, 4);
    if !got {
      return;
    }
    AssembleIsLittle(dl);
    dataLen := Assemble4(dl[0], dl[1], dl[2], dl[3]);
    ok := true;
  }

  method ReadName(fd: InputFile, name: array<byte>, nameLen: nat) returns (ok: bool)
    requires nameLen < name.Length == NAME_SIZE
    modifies fd, name
    ensures var d := old(fd.Rest());
            ok ==>
              && nameLen <= |d| && fd.Rest() == d[nameLen..]
              && NUL in name[..] && CString(name[..]) == CString(d[..nameLen])
    ensures !ok && fd.reliable ==> |old(fd.Rest())| < nameLen
  {
    hide CString;
    var got := ReadAll(fd, name, nameLen);
    if got < 0 {
      return false;
    }
    ghost var raw := name[..nameLen];
    name[nameLen] := NUL;
    assert name[..nameLen] == raw;
    TerminatedName(name[..], raw);
    return true;
  }

  lemma TerminatedName(buffer: Bytes, raw: Bytes)
    requires |raw| < |buffer| && raw == buffer[..|raw|] && buffer[|raw|] == NUL
    ensures NUL in buffer && CString(buffer) == CString(raw)
  {
    var c := CString(raw);
    if |c| < |raw| {
      assert raw[|c|] == NUL;
    }
    assert buffer[..|c|] == c;
    CStringUntil(buffer, |c|);
  }
}

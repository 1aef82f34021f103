/** Files in memory, the streams opened on them, and the mount point's transport that cuts
    every transfer into messages. Bytes are characters; a path is a flat name. */
module Ramfs {
  type Fd = nat

  const MESSAGE_MAX: nat := 0x1000
  const ZERO: char := '\0'

  /** Undefined: the server writes in front of the file's memory, or asks for more than there is. */
  datatype Code = Ok | Failure | IllArgs | NotMounted | Eof | Undefined

  datatype Whence = Begin | Current | End

  // ---------- what one whole transfer means ----------

  /** The bytes a read of `size` at `pos` finds. */
  function ReadAt(data: seq<char>, pos: int, size: nat): (bytes: seq<char>)
    ensures |bytes| <= size
  {
    if pos < 0 || pos >= |data| then []
    else if pos + size <= |data| then data[pos..pos + size]
    else data[pos..]
  }

  /** Byte by byte: what stands there, up to the size asked for or the end of the file. */
  lemma ReadBytes(data: seq<char>, pos: int, size: nat)
    ensures var r := ReadAt(data, pos, size);
      && |r| == (if pos < 0 || pos >= |data| then 0 else if size <= |data| - pos then size else |data| - pos)
      && forall i :: 0 <= i < |r| ==> r[i] == data[pos + i]
  {
  }

  /** Cut or extended with zeros to a length. */
  function Resized(data: seq<char>, length: nat): (r: seq<char>)
    ensures |r| == length
    ensures forall i :: 0 <= i < length ==> r[i] == if i < |data| then data[i] else ZERO
  {
    if length <= |data| then data[..length] else data + seq(length - |data|, _ => ZERO)
  }

  /** The file after `bytes` were written at `pos`: gaps are filled with zeros. */
  function WriteAt(data: seq<char>, pos: nat, bytes: seq<char>): seq<char> {
    var grown := if pos + |bytes| >= |data| then Resized(data, pos + |bytes|) else data;
    grown[..pos] + bytes + grown[pos + |bytes|..]
  }

  /** Byte by byte: what was written, else what was there, else zero. */
  lemma WrittenBytes(data: seq<char>, pos: nat, bytes: seq<char>)
    ensures var r := WriteAt(data, pos, bytes);
      && |r| == (if pos + |bytes| >= |data| then pos + |bytes| else |data|)
      && forall i :: 0 <= i < |r| ==>
        r[i] == if pos <= i < pos + |bytes| then bytes[i - pos] else if i < |data| then data[i] else ZERO
  {
  }

  function Clipped(data: seq<char>, at: nat): nat {
    if at <= |data| then at else |data|
  }

  lemma ReadIsSlice(data: seq<char>, pos: nat, size: nat)
    ensures ReadAt(data, pos, size) == data[Clipped(data, pos)..Clipped(data, pos + size)]
  {
  }

  lemma SliceSplits(data: seq<char>, from: nat, mid: nat, to: nat)
    requires from <= mid <= to <= |data|
    ensures data[from..to] == data[from..mid] + data[mid..to]
  {
  }

  /** Reading in two pieces is reading at once. */
  lemma ReadSplits(data: seq<char>, pos: nat, a: nat, b: nat)
    ensures ReadAt(data, pos, a + b) == ReadAt(data, pos, a) + ReadAt(data, pos + |ReadAt(data, pos, a)|, b)
         || |ReadAt(data, pos, a)| < a
    ensures |ReadAt(data, pos, a)| < a ==> ReadAt(data, pos, a + b) == ReadAt(data, pos, a)
  {
    hide ReadAt;
    var x, y, z := Clipped(data, pos), Clipped(data, pos + a), Clipped(data, pos + a + b);
    ReadIsSlice(data, pos, a);
    ReadIsSlice(data, pos, a + b);
    ReadIsSlice(data, pos + a, b);
    SliceSplits(data, x, y, z);
  }

  /** Asking for as much as a read gave gives the same. */
  lemma ReadAgain(data: seq<char>, pos: nat, size: nat)
    ensures ReadAt(data, pos, |ReadAt(data, pos, size)|) == ReadAt(data, pos, size)
  {
  }

  lemma NothingRead(data: seq<char>, pos: int)
    ensures ReadAt(data, pos, 0) == []
    ensures pos < 0 ==> forall len: nat :: ReadAt(data, pos, len) == []
  {
  }

  /** One more piece of a transfer: it extends what was read, and a short piece ends it. */
  lemma PieceStep(data: seq<char>, pos: nat, size: nat, bytes: seq<char>, len: nat)
    requires bytes == ReadAt(data, pos, |bytes|) && |bytes| + len <= size
    ensures var chunk := ReadAt(data, pos + |bytes|, len);
      && bytes + chunk == ReadAt(data, pos, |bytes| + |chunk|)
      && (|chunk| < len || |bytes| + len == size ==> bytes + chunk == ReadAt(data, pos, size))
  {
    hide ReadAt;
    ReadSplits(data, pos, |bytes|, len);
    ReadAgain(data, pos, |bytes| + len);
    ReadSplits(data, pos, |bytes| + len, size - |bytes| - len);
  }

  /** Writing in two pieces is writing at once. */
  lemma WriteSplits(data: seq<char>, pos: nat, a: seq<char>, b: seq<char>)
    ensures |a| > 0 ==> WriteAt(WriteAt(data, pos, a), pos + |a|, b) == WriteAt(data, pos, a + b)
  {
    var once := WriteAt(data, pos, a + b);
    var mid := WriteAt(data, pos, a);
    var twice := WriteAt(mid, pos + |a|, b);
    WrittenBytes(data, pos, a + b);
    WrittenBytes(data, pos, a);
    WrittenBytes(mid, pos + |a|, b);
    hide WriteAt;
    assert |once| == |twice|;
    forall i | 0 <= i < |once| ensures once[i] == twice[i] {
    }
  }

  /** The file after the first `done` bytes of a transfer. */
  function Partly(data: seq<char>, pos: nat, bytes: seq<char>, done: nat): seq<char>
    requires done <= |bytes|
  {
    if done == 0 then data else WriteAt(data, pos, bytes[..done])
  }

  lemma PartlyStep(data: seq<char>, pos: nat, bytes: seq<char>, done: nat, len: nat)
    requires len > 0 && done + len <= |bytes|
    ensures WriteAt(Partly(data, pos, bytes, done), pos + done, bytes[done..done + len])
      == Partly(data, pos, bytes, done + len)
  {
    assert bytes[..done] + bytes[done..done + len] == bytes[..done + len];
    if done > 0 { WriteSplits(data, pos, bytes[..done], bytes[done..done + len]); }
  }

  lemma PartlyWhole(data: seq<char>, pos: nat, bytes: seq<char>)
    requires bytes != []
    ensures Partly(data, pos, bytes, 0) == data && Partly(data, pos, bytes, |bytes|) == WriteAt(data, pos, bytes)
  {
    assert bytes[..|bytes|] == bytes;
  }

  /** What was written is what is read back. */
  lemma ReadBack(data: seq<char>, pos: nat, bytes: seq<char>)
    ensures ReadAt(WriteAt(data, pos, bytes), pos, |bytes|) == bytes
  {
    WrittenBytes(data, pos, bytes);
  }

  // ---------- files and streams ----------

  class File {
    var data: seq<char>

    constructor (data: seq<char>)
      ensures this.data == data
    {
      this.data := data;
    }

    method Read(pos: int, size: nat) returns (bytes: seq<char>)
      ensures bytes == ReadAt(data, pos, size)
    {
      if pos < 0 || pos >= |data| { return []; }
      var act := if size <= |data| - pos then size else |data| - pos;
      bytes := data[pos..pos + act];
    }

    /** A position in front of the file is not refused. */
    method Write(pos: int, bytes: seq<char>) returns (code: Code, act: nat)
      modifies this
      ensures code == if pos < 0 then Undefined else Ok
      ensures pos >= 0 ==> data == WriteAt(old(data), pos, bytes) && act == |bytes|
    {
      if pos < 0 { return Undefined, 0; }
      if pos + |bytes| >= |data| { data := Resized(data, pos + |bytes|); }
      data := data[..pos] + bytes + data[pos + |bytes|..];
      code, act := Ok, |bytes|;
    }
  }

  class FileStream {
    const file: File
    var pos: int

    constructor (file: File)
      ensures this.file == file && pos == 0
    {
      this.file := file;
      pos := 0;
    }

    method Read(size: nat) returns (bytes: seq<char>)
      modifies this
      ensures bytes == ReadAt(file.data, old(pos), size) && pos == old(pos) + |bytes|
    {
      bytes := file.Read(pos, size);
      pos := pos + |bytes|;
    }

    method Write(bytes: seq<char>) returns (code: Code, act: nat)
      modifies this, file
      ensures code == if old(pos) < 0 then Undefined else Ok
      ensures old(pos) >= 0 ==>
        act == |bytes| && pos == old(pos) + act && file.data == WriteAt(old(file.data), old(pos), bytes)
    {
      code, act := file.Write(pos, bytes);
      pos := pos + act;
    }

    method Seek(off: int, whence: Whence) returns (to: int)
      modifies this
      ensures to == pos == match whence case Begin => off case Current => old(pos) + off case End => |file.data| + off
    {
      match whence {
        case Begin => pos := off;
        case Current => pos := pos + off;
        case End => pos := |file.data| + off;
      }
      to := pos;
    }
  }

  // ---------- the server's tables ----------

  class FileSystem {
    var files: map<string, File>
    var streams: map<Fd, FileStream>
    var nextFd: Fd

    /** Every descriptor has a stream of its own, on a file of this file system. */
    ghost predicate Valid()
      reads this
    {
      && (forall fd :: fd in streams ==> fd < nextFd && streams[fd].file in files.Values)
      && (forall a, b :: a in streams && b in streams && a != b ==> streams[a] != streams[b])
    }

    constructor ()
      ensures Valid() && files == map[] && streams == map[]
    {
      files, streams, nextFd := map[], map[], 0;
    }

    /** create_file for a flat name: refused when empty or taken. */
    method CreateFile(name: string, data: seq<char>) returns (made: bool)
      requires Valid() && '/' !in name
      modifies this`files
      ensures Valid()
      ensures made <==> name != "" && name !in old(files)
      ensures !made ==> files == old(files)
      ensures made ==>
        && name in files && fresh(files[name]) && files[name].data == data
        && files == old(files)[name := files[name]]
    {
      if name == "" || name in files { return false; }
      var file := new File(data);
      ghost var before := files;
      files := files[name := file];
      forall fd | fd in streams ensures streams[fd].file in files.Values {
        var x :| x in before && before[x] == streams[fd].file;
        assert x in files && files[x] == streams[fd].file;
      }
      made := true;
    }

    /** ramfs_open for a flat name: an unknown name makes an empty file. */
    method Open(name: string) returns (code: Code, fd: Fd)
      requires Valid() && '/' !in name && name != ""
      modifies this
      ensures Valid() && code == Ok && fd !in old(streams) && name in files
      ensures fd in streams && fresh(streams[fd]) && streams == old(streams)[fd := streams[fd]]
      ensures streams[fd].pos == 0 && streams[fd].file == files[name]
      ensures name in old(files) ==> files == old(files)
      ensures name !in old(files) ==> files == old(files)[name := files[name]] && files[name].data == []
    {
      if name !in files {
        var made := CreateFile(name, []);
      }
      var stream := new FileStream(files[name]);
      fd := nextFd;
      streams := streams[fd := stream];
      nextFd := nextFd + 1;
      code := Ok;
    }

    method Close(fd: Fd) returns (code: Code)
      requires Valid()
      modifies this`streams
      ensures Valid() && streams == old(streams) - {fd}
      ensures code == if fd in old(streams) then Ok else IllArgs
    {
      if fd !in streams {
        assert streams - {fd} == streams;
        return IllArgs;
      }
      streams := streams - {fd};
      code := Ok;
    }

    /** ramfs_read: the end of the file shows as a short read. */
    method Read(fd: Fd, size: nat) returns (code: Code, bytes: seq<char>)
      requires Valid()
      modifies if fd in streams then {streams[fd]} else {}
      ensures Valid()
      ensures fd !in streams ==> code == IllArgs && bytes == []
      ensures fd in streams ==>
        && bytes == ReadAt(streams[fd].file.data, old(streams[fd].pos), size)
        && streams[fd].pos == old(streams[fd].pos) + |bytes|
        && code == if |bytes| < size then Eof else Ok
    {
      if fd !in streams { return IllArgs, []; }
      bytes := streams[fd].Read(size);
      code := if size > |bytes| then Eof else Ok;
    }

    method Write(fd: Fd, bytes: seq<char>) returns (code: Code, act: nat)
      requires Valid()
      modifies if fd in streams then {streams[fd], streams[fd].file} else {}
      ensures Valid()
      ensures fd !in streams ==> code == IllArgs && act == 0
      ensures fd in streams && old(streams[fd].pos) < 0 ==> code == Undefined
      ensures fd in streams && old(streams[fd].pos) >= 0 ==>
        && code == Ok && act == |bytes|
        && streams[fd].pos == old(streams[fd].pos) + act
        && streams[fd].file.data == WriteAt(old(streams[fd].file.data), old(streams[fd].pos), bytes)
    {
      if fd !in streams { return IllArgs, 0; }
      code, act := streams[fd].Write(bytes);
      if code == Ok && |bytes| > act { code := Eof; }
    }
  }

  // ---------- the mount point ----------

  datatype Transfer = Failed(code: Code) | Done(bytes: seq<char>)

  datatype Count = Refused(code: Code) | Wrote(count: nat)

  class MountPoint {
    const fs: FileSystem
    var mounted: bool
    /** Descriptors this mount point handed out. */
    var fds: set<Fd>

    constructor (fs: FileSystem)
      ensures this.fs == fs && !mounted && fds == {}
    {
      this.fs := fs;
      mounted, fds := false, {};
    }

    /** mount_point::read: one request per message until the size is met or a read is short. An
        unknown descriptor reads as no bytes, not as an error. */
    method Read(fd: Fd, size: nat) returns (result: Transfer)
      requires fs.Valid() && (fd in fds ==> fd in fs.streams)
      modifies if fd in fs.streams then {fs.streams[fd]} else {}
      ensures fs.Valid()
      ensures !mounted ==> result == Failed(NotMounted)
      ensures mounted && fd !in fds ==> result == Done([])
      ensures mounted && fd in fds ==>
        && result == Done(ReadAt(fs.streams[fd].file.data, old(fs.streams[fd].pos), size))
        && fs.streams[fd].pos == old(fs.streams[fd].pos) + |result.bytes|
    {
      if !mounted { return Failed(NotMounted); }
      if fd !in fds { return Done([]); }
      if size == 0 { return Done([]); }
      var bytes := ReadChunks(fd, size);
      result := Done(bytes);
    }

    /** The loop of mount_point::read. */
    method ReadChunks(fd: Fd, size: nat) returns (bytes: seq<char>)
      requires fs.Valid() && fd in fs.streams && size > 0
      modifies fs.streams[fd]
      ensures fs.Valid() && fs.streams[fd].pos == old(fs.streams[fd].pos) + |bytes|
      ensures bytes == ReadAt(fs.streams[fd].file.data, old(fs.streams[fd].pos), size)
    {
      var stream := fs.streams[fd];
      ghost var data, from := stream.file.data, stream.pos;
      hide ReadAt, FileSystem.Valid;
      NothingRead(data, from);
      var capacity := if size <= MESSAGE_MAX then size else MESSAGE_MAX;
      bytes := [];
      while |bytes| < size
        invariant fs.Valid() && fd in fs.streams && fs.streams[fd] == stream
        invariant |bytes| <= size && stream.pos == from + |bytes|
        invariant if from >= 0 then bytes == ReadAt(data, from, |bytes|) else bytes == []
        decreases size - |bytes|
      {
        var len := if size - |bytes| <= capacity then size - |bytes| else capacity;
        var code, chunk := fs.Read(fd, len);
        if from >= 0 { PieceStep(data, from, size, bytes, len); }
        if |chunk| == 0 { break; }
        bytes := bytes + chunk;
        if code == Eof { break; }
      }
    }

    /** mount_point::write: one request per message. */
    method Write(fd: Fd, bytes: seq<char>) returns (result: Count)
      requires fs.Valid() && (fd in fds ==> fd in fs.streams)
      modifies if fd in fs.streams then {fs.streams[fd], fs.streams[fd].file} else {}
      ensures fs.Valid()
      ensures !mounted ==> result == Refused(NotMounted)
      ensures mounted && fd !in fds ==> result == Refused(IllArgs)
      ensures mounted && fd in fds && bytes != [] && old(fs.streams[fd].pos) < 0 ==> result == Refused(Undefined)
      ensures mounted && fd in fds && (bytes == [] || old(fs.streams[fd].pos) >= 0) ==>
        && result == Wrote(|bytes|)
        && fs.streams[fd].pos == old(fs.streams[fd].pos) + |bytes|
        && (bytes != [] ==>
              fs.streams[fd].file.data == WriteAt(old(fs.streams[fd].file.data), old(fs.streams[fd].pos), bytes))
        && (bytes == [] ==> fs.streams[fd].file.data == old(fs.streams[fd].file.data))
    {
      if !mounted { return Refused(NotMounted); }
      if fd !in fds { return Refused(IllArgs); }
      if bytes == [] { return Wrote(0); }
      var code := WriteChunks(fd, bytes);
      result := if code == Ok then Wrote(|bytes|) else Refused(code);
    }

    /** One message of a write: bytes done to done + len. */
    method WriteChunk(fd: Fd, bytes: seq<char>, done: nat, len: nat, ghost data: seq<char>, ghost from: int)
        returns (code: Code)
      requires fs.Valid() && fd in fs.streams && len > 0 && done + len <= |bytes|
      requires fs.streams[fd].pos == from + done && (from < 0 ==> done == 0)
      requires from >= 0 ==> fs.streams[fd].file.data == Partly(data, from, bytes, done)
      modifies fs.streams[fd], fs.streams[fd].file
      ensures fs.Valid() && code == if from < 0 then Undefined else Ok
      ensures from >= 0 ==>
        fs.streams[fd].pos == from + done + len && fs.streams[fd].file.data == Partly(data, from, bytes, done + len)
    {
      hide Partly, WriteAt, Resized;
      if from >= 0 { PartlyStep(data, from, bytes, done, len); }
      var act;
      code, act := fs.Write(fd, bytes[done..done + len]);
    }

    /** The loop of mount_point::write. */
    method WriteChunks(fd: Fd, bytes: seq<char>) returns (code: Code)
      requires fs.Valid() && fd in fs.streams && bytes != []
      modifies fs.streams[fd], fs.streams[fd].file
      ensures fs.Valid() && code == if old(fs.streams[fd].pos) < 0 then Undefined else Ok
      ensures old(fs.streams[fd].pos) >= 0 ==>
        && fs.streams[fd].pos == old(fs.streams[fd].pos) + |bytes|
        && fs.streams[fd].file.data == WriteAt(old(fs.streams[fd].file.data), old(fs.streams[fd].pos), bytes)
    {
      hide Partly, WriteAt, FileSystem.Valid;
      ghost var stream := fs.streams[fd];
      ghost var data, from := stream.file.data, stream.pos;
      if from >= 0 { PartlyWhole(data, from, bytes); }
      var capacity := if |bytes| <= MESSAGE_MAX then |bytes| else MESSAGE_MAX;
      var done := 0;
      while done < |bytes|
        invariant fs.Valid() && fd in fs.streams && fs.streams[fd] == stream
        invariant done <= |bytes| && stream.pos == from + done && (from < 0 ==> done == 0)
        invariant from >= 0 ==> stream.file.data == Partly(data, from, bytes, done)
        decreases |bytes| - done
      {
        var len := if |bytes| - done <= capacity then |bytes| - done else capacity;
        code := WriteChunk(fd, bytes, done, len, data, from);
        if code != Ok { return; }
        done := done + len;
      }
      code := Ok;
    }
  }

  /** The program launcher's loop: messages of 4096 bytes until one comes back short. */
  method ReadWhole(mount: MountPoint, fd: Fd) returns (data: Transfer)
    requires mount.fs.Valid() && mount.mounted && fd in mount.fds && fd in mount.fs.streams
    requires mount.fs.streams[fd].pos == 0
    modifies mount.fs.streams[fd]
    ensures mount.fs.Valid() && data == Done(mount.fs.streams[fd].file.data)
  {
    var stream := mount.fs.streams[fd];
    var bytes := [];
    while true
      invariant mount.fs.Valid() && fd in mount.fs.streams && mount.fs.streams[fd] == stream
      invariant |bytes| <= |stream.file.data| && bytes == stream.file.data[..|bytes|] && stream.pos == |bytes|
      decreases |stream.file.data| - |bytes|
    {
      var chunk := mount.Read(fd, 0x1000);
      if chunk.Failed? { return chunk; }
      if |chunk.bytes| == 0 { break; }
      bytes := bytes + chunk.bytes;
      if |chunk.bytes| < 0x1000 { break; }
    }
    data := Done(bytes);
  }
}

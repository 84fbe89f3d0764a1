/**
 The open files of the two backends: a buffer over a shared backing array, filled on first use and
 written back on Close. Each method is proved to do what FileSpec says of its operation.
 */
module Files {
  import opened Wrappers
  import opened Words
  import opened FileSpec

  /** bytes.Buffer as the source uses it: the first `len` bytes of a backing array that truncation keeps. */
  class Buffer {
    var arr: array<byte>
    var len: nat

    ghost predicate Valid()
      reads this
    {
      len <= arr.Length
    }

    ghost function Contents(): seq<byte>
      reads this, arr
      requires Valid()
    {
      arr[..len]
    }

    constructor (data: seq<byte>)
      ensures Valid() && fresh(arr) && Contents() == data
    {
      arr := new byte[|data|](i requires 0 <= i < |data| => data[i]);
      len := |data|;
    }

    /** copy(p, data[at:]); data[at:] needs at <= len. */
    method CopyOut(p: array<byte>, at: nat) returns (n: nat)
      requires Valid() && p != arr && at <= len
      modifies p
      ensures n == |Slice(Contents(), at, p.Length)|
      ensures p[..n] == Slice(Contents(), at, p.Length) && p[n..] == old(p[n..])
      ensures Contents() == old(Contents())
    {
      n := Min(p.Length, len - at);
      forall i | 0 <= i < n {
        p[i] := arr[at + i];
      }
      assert p[..n] == arr[at..at + n] == Slice(Contents(), at, p.Length);
    }

    /** The common end of Read and ReadAt. */
    method ReadOut(p: array<byte>, at: nat) returns (n: nat, e: IoError)
      requires Valid() && p != arr
      modifies p
      ensures n <= p.Length && p[n..] == old(p[n..])
      ensures Plain(p[..n], n, e) == SliceOut(Contents(), at, p.Length)
      ensures Contents() == old(Contents())
    {
      if at >= len {
        return 0, Eof;
      }
      n := CopyOut(p, at);
      e := if n < p.Length then Eof else NoError;
    }

    /** The body of Write: a fresh zeroed array when the data does not fit, in place otherwise. */
    method Overwrite(at: nat, p: seq<byte>)
      requires Valid()
      modifies this, arr
      ensures Valid() && (arr == old(arr) || fresh(arr))
      ensures Contents() == Overlay(old(Contents()), at, p)
    {
      ghost var c := Contents();
      var end := at + |p|;
      if end > len {
        var extended := new byte[end](i => 0);
        forall i | 0 <= i < len {
          extended[i] := arr[i];
        }
        arr, len := extended, end;
        assert Contents() == c + Zeros(end - |c|);
      }
      ghost var base := Contents();
      forall i | 0 <= i < |p| {
        arr[at + i] := p[i];
      }
      assert Contents() == base[..at] + p + base[end..];
    }

    /** The body of Truncate: a shorter slice of the same array, or a fresh zeroed one. */
    method SetSize(size: nat)
      requires Valid()
      modifies this
      ensures Valid() && (arr == old(arr) || fresh(arr))
      ensures Contents() == Resize(old(Contents()), size)
    {
      ghost var c := Contents();
      if size < len {
        len := size;
      } else if size > len {
        var extended := new byte[size](i => 0);
        forall i | 0 <= i < len {
          extended[i] := arr[i];
        }
        arr, len := extended, size;
      }
      assert Contents() == Resize(c, size);
    }
  }

  class NfsFile {
    var buf: Buffer
    var pos: nat
    var dirty: bool
    var closed: bool
    var loaded: bool

    ghost predicate Valid()
      reads this, buf
    {
      buf.Valid() && (dirty ==> loaded)
    }

    ghost function View(): File
      reads this, buf, buf.arr
      requires Valid()
    {
      File(Nfs, false, if loaded then Some(buf.Contents()) else None, pos, dirty, closed)
    }

    /** OpenFile without O_CREATE|O_TRUNC. */
    constructor Open()
      ensures Valid() && fresh(buf) && fresh(buf.arr) && View() == File(Nfs, false, None, 0, false, false)
    {
      buf := new Buffer([]);
      pos, dirty, closed, loaded := 0, false, false, false;
    }

    /** Create, or OpenFile with O_CREATE|O_TRUNC. */
    constructor Create()
      ensures Valid() && fresh(buf) && fresh(buf.arr) && View() == File(Nfs, false, Some([]), 0, true, false)
    {
      buf := new Buffer([]);
      pos, dirty, closed, loaded := 0, true, false, true;
    }

    method LoadContent(remote: Remote) returns (e: IoError)
      requires Valid()
      modifies this
      ensures Valid() && (buf == old(buf) || (fresh(buf) && fresh(buf.arr)))
      ensures (View(), e) == Load(old(View()), remote)
      ensures e == NoError ==> loaded
    {
      if loaded {
        return NoError;
      }
      match remote
      case Unreachable =>
        return RemoteFailed;
      case Missing =>
        buf := new Buffer([]);
        loaded := true;
        return NoError;
      case Data(bytes) =>
        buf := new Buffer(bytes);
        loaded := true;
        return NoError;
    }

    /** Read on a file that has its content. */
    method GetLoaded(p: array<byte>) returns (n: nat, e: IoError)
      requires Valid() && loaded && p != buf.arr
      modifies this`pos, p
      ensures Valid() && n <= p.Length && p[n..] == old(p[n..])
      ensures (View(), Plain(p[..n], n, e)) == Act(old(View()), FileSpec.Read(p.Length))
    {
      n, e := buf.ReadOut(p, pos);
      pos := pos + n;
    }

    method Read(p: array<byte>, remote: Remote) returns (n: nat, e: IoError)
      requires Valid() && p != buf.arr
      modifies this, p
      ensures Valid() && (buf == old(buf) || (fresh(buf) && fresh(buf.arr)))
      ensures n <= p.Length && p[n..] == old(p[n..])
      ensures (View(), Plain(p[..n], n, e)) == Step(old(View()), FileSpec.Read(p.Length), remote)
    {
      if closed {
        return 0, AlreadyClosed;
      }
      e := LoadContent(remote);
      if e != NoError {
        return 0, e;
      }
      n, e := GetLoaded(p);
    }

    method ReadAt(p: array<byte>, off: nat, remote: Remote) returns (n: nat, e: IoError)
      requires Valid() && p != buf.arr
      modifies this, p
      ensures Valid() && (buf == old(buf) || (fresh(buf) && fresh(buf.arr)))
      ensures n <= p.Length && p[n..] == old(p[n..])
      ensures (View(), Plain(p[..n], n, e)) == Step(old(View()), FileSpec.ReadAt(p.Length, off), remote)
    {
      if closed {
        return 0, AlreadyClosed;
      }
      e := LoadContent(remote);
      if e != NoError {
        return 0, e;
      }
      n, e := buf.ReadOut(p, off);
    }

    /** Write on a file that has its content. */
    method PutLoaded(p: seq<byte>)
      requires Valid() && loaded
      modifies this, buf, buf.arr
      ensures Valid() && loaded && buf == old(buf) && (buf.arr == old(buf.arr) || fresh(buf.arr))
      ensures (View(), Plain([], |p|, NoError)) == Act(old(View()), FileSpec.Write(p))
    {
      buf.Overwrite(pos, p);
      pos := pos + |p|;
      dirty := true;
    }

    method Write(p: seq<byte>, remote: Remote) returns (n: nat, e: IoError)
      requires Valid()
      modifies this, buf, buf.arr
      ensures Valid() && (buf == old(buf) || fresh(buf)) && (buf.arr == old(buf.arr) || fresh(buf.arr))
      ensures (View(), Plain([], n, e)) == Step(old(View()), FileSpec.Write(p), remote)
    {
      if closed {
        return 0, AlreadyClosed;
      }
      e := LoadContent(remote);
      if e != NoError {
        return 0, e;
      }
      PutLoaded(p);
      n := |p|;
    }

    method Seek(offset: int, whence: int, remote: Remote) returns (r: int, e: IoError)
      requires Valid()
      modifies this
      ensures Valid() && (buf == old(buf) || (fresh(buf) && fresh(buf.arr)))
      ensures (View(), Plain([], r, e)) == Step(old(View()), FileSpec.Seek(offset, whence), remote)
    {
      e := LoadContent(remote);
      if e != NoError {
        return 0, e;
      }
      var newPos := 0;
      if whence == SEEK_START {
        newPos := offset;
      } else if whence == SEEK_CURRENT {
        newPos := pos + offset;
      } else if whence == SEEK_END {
        newPos := buf.len + offset;
      }
      if newPos < 0 {
        return pos, NegativeSeek;
      }
      pos := newPos;
      r := pos;
    }

    method Truncate(size: nat, remote: Remote) returns (e: IoError)
      requires Valid()
      modifies this, buf
      ensures Valid() && (buf == old(buf) || fresh(buf)) && (buf.arr == old(buf.arr) || fresh(buf.arr))
      ensures (View(), Plain([], 0, e)) == Step(old(View()), FileSpec.Truncate(size), remote)
    {
      e := LoadContent(remote);
      if e != NoError {
        return;
      }
      buf.SetSize(size);
      dirty := true;
    }

    /** `flushed` is the argument of the WriteFile call, if there is one; `accepted` its success. */
    method Close(accepted: bool) returns (e: IoError, flushed: Option<seq<byte>>)
      requires Valid()
      modifies this
      ensures Valid() && buf == old(buf)
      ensures (View(), Out([], 0, e, flushed)) == DoClose(old(View()), accepted)
    {
      if closed {
        return NoError, None;
      }
      closed := true;
      if dirty {
        return (if accepted then NoError else WriteFailed), Some(buf.arr[..buf.len]);
      }
      return NoError, None;
    }
  }

  class WebdavFile {
    var buf: Buffer
    var pos: nat
    var loaded: bool
    var dirty: bool
    var closed: bool
    const mayCreate: bool
    const isDir: bool
    var infoSize: nat
    var infoMtime: int

    ghost predicate Valid()
      reads this, buf
    {
      buf.Valid() && (dirty ==> loaded)
    }

    ghost function View(): File
      reads this, buf, buf.arr
      requires Valid()
    {
      File(Webdav, mayCreate, if loaded then Some(buf.Contents()) else None, pos, dirty, closed)
    }

    /** OpenFile on an existing file or directory, whatever O_TRUNC says; size and time are its stat's. */
    constructor Existing(mayCreate: bool, isDir: bool, size: nat, mtime: int)
      ensures Valid() && fresh(buf) && fresh(buf.arr) && View() == File(Webdav, mayCreate, None, 0, false, false)
      ensures this.isDir == isDir && infoSize == size && infoMtime == mtime
    {
      this.mayCreate, this.isDir := mayCreate, isDir;
      infoSize, infoMtime := size, mtime;
      buf := new Buffer([]);
      pos, dirty, closed, loaded := 0, false, false, false;
    }

    /** OpenFile with O_CREATE on a missing file: only O_TRUNC makes it dirty at once. */
    constructor Created(truncate: bool, now: int)
      ensures Valid() && fresh(buf) && fresh(buf.arr) && View() == File(Webdav, true, Some([]), 0, truncate, false)
      ensures !isDir && infoSize == 0 && infoMtime == now
    {
      mayCreate, isDir := true, false;
      infoSize, infoMtime := 0, now;
      buf := new Buffer([]);
      pos, dirty, closed, loaded := 0, truncate, false, true;
    }

    method EnsureLoaded(remote: Remote) returns (e: IoError)
      requires Valid()
      modifies this`buf, this`loaded
      ensures Valid() && (buf == old(buf) || (fresh(buf) && fresh(buf.arr)))
      ensures (View(), e) == Load(old(View()), remote)
      ensures e == NoError ==> loaded
    {
      if loaded {
        return NoError;
      }
      match remote
      case Unreachable =>
        return RemoteFailed;
      case Missing =>
        if !mayCreate {
          return NotExist;
        }
        buf := new Buffer([]);
        loaded := true;
        return NoError;
      case Data(bytes) =>
        buf := new Buffer(bytes);
        loaded := true;
        return NoError;
    }

    /** Read on a file that has its content. */
    method GetLoaded(p: array<byte>) returns (n: nat, e: IoError)
      requires Valid() && loaded && p != buf.arr
      modifies this`pos, p
      ensures Valid() && n <= p.Length && p[n..] == old(p[n..])
      ensures (View(), Plain(p[..n], n, e)) == Act(old(View()), FileSpec.Read(p.Length))
    {
      n, e := buf.ReadOut(p, pos);
      pos := pos + n;
    }

    method Read(p: array<byte>, remote: Remote) returns (n: nat, e: IoError)
      requires Valid() && p != buf.arr
      modifies this, p
      ensures Valid() && (buf == old(buf) || (fresh(buf) && fresh(buf.arr)))
      ensures n <= p.Length && p[n..] == old(p[n..])
      ensures if isDir then View() == old(View()) && n == 0 && e == Eof
              else (View(), Plain(p[..n], n, e)) == Step(old(View()), FileSpec.Read(p.Length), remote)
    {
      if isDir {
        return 0, Eof;
      }
      e := EnsureLoaded(remote);
      if e != NoError {
        return 0, e;
      }
      n, e := GetLoaded(p);
    }

    method ReadAt(p: array<byte>, off: nat, remote: Remote) returns (n: nat, e: IoError)
      requires Valid() && p != buf.arr
      modifies this, p
      ensures Valid() && (buf == old(buf) || (fresh(buf) && fresh(buf.arr)))
      ensures n <= p.Length && p[n..] == old(p[n..])
      ensures if isDir then View() == old(View()) && n == 0 && e == Eof
              else (View(), Plain(p[..n], n, e)) == Step(old(View()), FileSpec.ReadAt(p.Length, off), remote)
    {
      if isDir {
        return 0, Eof;
      }
      e := EnsureLoaded(remote);
      if e != NoError {
        return 0, e;
      }
      n, e := buf.ReadOut(p, off);
    }

    /** Write on a file that has its content. */
    method PutLoaded(p: seq<byte>)
      requires Valid() && loaded
      modifies this, buf, buf.arr
      ensures Valid() && loaded && buf == old(buf) && (buf.arr == old(buf.arr) || fresh(buf.arr))
      ensures (View(), Plain([], |p|, NoError)) == Act(old(View()), FileSpec.Write(p))
    {
      buf.Overwrite(pos, p);
      pos := pos + |p|;
      dirty := true;
    }

    method Write(p: seq<byte>, remote: Remote) returns (n: nat, e: IoError)
      requires Valid()
      modifies this, buf, buf.arr
      ensures Valid() && (buf == old(buf) || fresh(buf)) && (buf.arr == old(buf.arr) || fresh(buf.arr))
      ensures if isDir then View() == old(View()) && n == 0 && e == IsDirectory
              else (View(), Plain([], n, e)) == Step(old(View()), FileSpec.Write(p), remote)
    {
      if isDir {
        return 0, IsDirectory;
      }
      e := EnsureLoaded(remote);
      if e != NoError {
        return 0, e;
      }
      PutLoaded(p);
      n := |p|;
    }

    method Seek(offset: int, whence: int, remote: Remote) returns (r: int, e: IoError)
      requires Valid()
      modifies this
      ensures Valid() && (buf == old(buf) || (fresh(buf) && fresh(buf.arr)))
      ensures if isDir then View() == old(View()) && r == 0 && e == IsDirectory
              else (View(), Plain([], r, e)) == Step(old(View()), FileSpec.Seek(offset, whence), remote)
    {
      if isDir {
        return 0, IsDirectory;
      }
      e := EnsureLoaded(remote);
      if e != NoError {
        return 0, e;
      }
      var next: int;
      if whence == SEEK_START {
        next := offset;
      } else if whence == SEEK_CURRENT {
        next := pos + offset;
      } else if whence == SEEK_END {
        next := buf.len + offset;
      } else {
        return 0, BadWhence;
      }
      if next < 0 {
        return 0, NegativeSeek;
      }
      pos := next;
      r := next;
    }

    /** Stat refreshes the recorded size from the content. */
    method Stat(remote: Remote) returns (e: IoError)
      requires Valid()
      modifies this
      ensures Valid() && (buf == old(buf) || (fresh(buf) && fresh(buf.arr)))
      ensures infoMtime == old(infoMtime)
      ensures if isDir then View() == old(View()) && e == NoError && infoSize == old(infoSize)
              else
                && (View(), e) == Load(old(View()), remote)
                && infoSize == if e == NoError then |View().content.value| else old(infoSize)
    {
      if isDir {
        return NoError;
      }
      e := EnsureLoaded(remote);
      if e == NoError {
        infoSize := buf.len;
      }
    }

    /** A successful write-back also records the size and time. Directories never write. */
    method Close(accepted: bool, now: int) returns (e: IoError, flushed: Option<seq<byte>>)
      requires Valid()
      modifies this
      ensures Valid() && buf == old(buf)
      ensures if isDir then View() == old(View()).(closed := true) && e == NoError && flushed == None
              else (View(), Out([], 0, e, flushed)) == DoClose(old(View()), accepted)
      ensures if flushed.Some? && accepted then infoSize == |flushed.value| && infoMtime == now
              else infoSize == old(infoSize) && infoMtime == old(infoMtime)
    {
      if closed {
        return NoError, None;
      }
      closed := true;
      if isDir || !dirty {
        return NoError, None;
      }
      flushed := Some(buf.arr[..buf.len]);
      if !accepted {
        return WriteFailed, flushed;
      }
      infoSize, infoMtime := buf.len, now;
      e := NoError;
    }
  }
}

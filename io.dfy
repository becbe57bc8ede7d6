/**
 * The filesystem as the hashing stage sees it. Opening a file and each call
 * to `read` are I/O; the model replaces them with data: a file's content, its
 * metadata, whether it can be opened, and a schedule saying what each
 * successive `read` call does.
 */
module Io {
  import opened Base

  datatype IoError = NotFound | PermissionDenied | ReadFailed

  /**
   * What one call to `read` does. `Deliver(k)` returns `k` bytes, moved into
   * the only range a read of a regular file can return: at least one byte while
   * any byte is left, at most the buffer's length and the bytes left. `Fail`
   * makes the call return an error.
   */
  datatype ReadStep = Deliver(count: nat) | Fail

  /**
   * One file: its bytes, its metadata length (`None` when `metadata()` fails),
   * whether `File::open` succeeds, and the schedule of its reads. Once the
   * schedule runs out, every read fills as much of the buffer as it can.
   */
  datatype FileState = FileState(
    content: seq<byte>,
    metadata: Option<u64>,
    readable: bool,
    schedule: seq<ReadStep>)

  type FileSystem = map<string, FileState>

  /** Why `File::open(path)` fails, if it does. */
  function OpenError(fs: FileSystem, path: string): Option<IoError>
  {
    if path !in fs then Some(NotFound)
    else if !fs[path].readable then Some(PermissionDenied)
    else None
  }

  function Min(a: nat, b: nat): nat { if a <= b then a else b }

  /**
   * What the read number `next` returns at offset `pos` into a buffer of
   * length `cap`: an error, or a count that is 0 exactly at end of file
   * (or for an empty buffer) and never more than the buffer or the bytes left.
   */
  function ReadOutcome(content: seq<byte>, pos: nat, schedule: seq<ReadStep>, next: nat, cap: nat): (r: Result<nat, IoError>)
    requires pos <= |content|
    ensures r.Err? <==> next < |schedule| && schedule[next].Fail?
    ensures r.Ok? ==> r.value <= cap && pos + r.value <= |content|
    ensures r.Ok? ==> (r.value == 0 <==> pos == |content| || cap == 0)
  {
    var most := Min(cap, |content| - pos);
    if next < |schedule| then
      match schedule[next]
      case Fail => Err(ReadFailed)
      case Deliver(k) => Ok(if most == 0 then 0 else if k == 0 then 1 else Min(k, most))
    else Ok(most)
  }

  /** An open file handle: the content, the read cursor and the reads made so far. */
  class OpenFile {
    const content: seq<byte>
    const schedule: seq<ReadStep>
    var pos: nat
    var next: nat

    ghost predicate Valid()
      reads this
    {
      pos <= |content|
    }

    constructor (content: seq<byte>, schedule: seq<ReadStep>)
      ensures Valid()
      ensures this.content == content && this.schedule == schedule && pos == 0 && next == 0
    {
      this.content := content;
      this.schedule := schedule;
      pos := 0;
      next := 0;
    }

    /**
     * `file.read(&mut buf)`: on success the first `n` bytes of `buf` receive
     * the next `n` bytes of the file and the cursor moves past them; on an
     * error the cursor stays. The rest of `buf` is left as it was.
     */
    method Read(buf: array<byte>) returns (r: Result<nat, IoError>)
      requires Valid()
      modifies this, buf
      ensures Valid()
      ensures r == ReadOutcome(content, old(pos), schedule, old(next), buf.Length)
      ensures next == old(next) + 1
      ensures r.Ok? ==> pos == old(pos) + r.value && buf[..r.value] == content[old(pos)..pos]
      ensures r.Ok? ==> buf[r.value..] == old(buf[r.value..])
      ensures r.Err? ==> pos == old(pos) && buf[..] == old(buf[..])
    {
      r := ReadOutcome(content, pos, schedule, next, buf.Length);
      next := next + 1;
      if r.Ok? {
        var n := r.value;
        for k := 0 to n
          invariant pos == old(pos) && next == old(next) + 1
          invariant forall i :: 0 <= i < k ==> buf[i] == content[pos + i]
          invariant buf[n..] == old(buf[n..])
        {
          buf[k] := content[pos + k];
        }
        pos := pos + n;
      }
    }
  }

  /** `fs::File::open(path)`: a fresh handle at offset 0, or the reason it fails. */
  method Open(fs: FileSystem, path: string) returns (r: Result<OpenFile, IoError>)
    ensures OpenError(fs, path).Some? ==> r == Err(OpenError(fs, path).value)
    ensures OpenError(fs, path).None? ==> && r.Ok? && fresh(r.value) && r.value.Valid()
                                          && r.value.content == fs[path].content
                                          && r.value.schedule == fs[path].schedule
                                          && r.value.pos == 0 && r.value.next == 0
  {
    match OpenError(fs, path)
    case Some(e) => r := Err(e);
    case None =>
      var file := new OpenFile(fs[path].content, fs[path].schedule);
      r := Ok(file);
  }
}

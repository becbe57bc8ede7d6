/**
 * The fingerprint engine `calculate_hash` (src/hashing.rs): stream a file
 * through an incremental hasher in reads of at most 8192 bytes and finalise it
 * at end of file. The hash algorithms come from foreign crates; the model treats
 * each as a function of the whole absorbed byte sequence.
 */
module Hashing {
  import opened Base
  import opened Io

  datatype HashAlgo = Sha256 | Blake3 | XxHash

  /** A 32-byte digest, as SHA-256 and BLAKE3 produce. */
  type Bytes32 = s: seq<byte> | |s| == 32 witness seq(32, _ => 0 as byte)

  /**
   * The foreign hash functions, each applied to the entire absorbed input:
   * SHA-256 (`sha2`), BLAKE3 (`blake3`) and XXH64 with a seed (`twox_hash`).
   */
  datatype Primitives = Primitives(
    sha256: seq<byte> -> Bytes32,
    blake3: seq<byte> -> Bytes32,
    xxh64: (u64, seq<byte>) -> u64)

  /** The size of the read buffer `[0; 8192]`. */
  const BufferSize: nat := 8192

  /** The seed of `XxHash64::with_seed(0)`. */
  const XxHashSeed: u64 := 0

  function DigestLength(algo: HashAlgo): nat
  {
    match algo
    case Sha256 => 32
    case Blake3 => 32
    case XxHash => 8
  }

  function Pow256(n: nat): (p: nat)
    ensures p > 0
  {
    if n == 0 then 1 else 256 * Pow256(n - 1)
  }

  /** The `n` least significant bytes of `x`, least significant first. */
  function LeBytes(x: nat, n: nat): (b: seq<byte>)
    ensures |b| == n
  {
    if n == 0 then [] else [(x % 256) as byte] + LeBytes(x / 256, n - 1)
  }

  /** The number whose little-endian encoding is `b` (`u64::from_le_bytes` for 8 bytes). */
  function FromLeBytes(b: seq<byte>): (x: nat)
    ensures x < Pow256(|b|)
  {
    if b == [] then 0 else b[0] as nat + 256 * FromLeBytes(b[1..])
  }

  /** Decoding a little-endian encoding gives back the number. */
  lemma {:induction false} FromLeBytesOfLeBytes(x: nat, n: nat)
    requires x < Pow256(n)
    ensures FromLeBytes(LeBytes(x, n)) == x
  {
    if n > 0 {
      FromLeBytesOfLeBytes(x / 256, n - 1);
      assert LeBytes(x, n)[1..] == LeBytes(x / 256, n - 1);
    }
  }

  /** Encoding the decoded number gives back the bytes. */
  lemma {:induction false} LeBytesOfFromLeBytes(b: seq<byte>)
    ensures LeBytes(FromLeBytes(b), |b|) == b
  {
    if b != [] {
      var x := FromLeBytes(b);
      assert x % 256 == b[0] as nat && x / 256 == FromLeBytes(b[1..]);
      LeBytesOfFromLeBytes(b[1..]);
    }
  }

  /** `u64::to_le_bytes`: eight bytes from which `from_le_bytes` recovers `x`. */
  function U64ToLeBytes(x: u64): (b: seq<byte>)
    ensures |b| == 8 && FromLeBytes(b) == x as nat
  {
    assert Pow256(8) == 0x1_0000_0000_0000_0000;
    FromLeBytesOfLeBytes(x as nat, 8);
    LeBytes(x as nat, 8)
  }

  /** The digest `finalize` returns for the absorbed bytes `data`. */
  function Digest(prims: Primitives, algo: HashAlgo, data: seq<byte>): (d: seq<byte>)
    ensures |d| == DigestLength(algo)
  {
    match algo
    case Sha256 => prims.sha256(data)
    case Blake3 => prims.blake3(data)
    case XxHash => U64ToLeBytes(prims.xxh64(XxHashSeed, data))
  }

  /** The XXH64 digest decodes, little-endian, to the 64-bit hasher state. */
  lemma XxHashDigestDecodes(prims: Primitives, data: seq<byte>)
    ensures FromLeBytes(Digest(prims, XxHash, data)) == prims.xxh64(XxHashSeed, data) as nat
  {
  }

  /** `Ok(done + rest)` for `Ok(rest)`; an error stays an error. */
  function Prepend(done: seq<seq<byte>>, r: Result<seq<seq<byte>>, IoError>): Result<seq<seq<byte>>, IoError>
  {
    match r
    case Ok(rest) => Ok(done + rest)
    case Err(e) => Err(e)
  }

  lemma PrependNothing(r: Result<seq<seq<byte>>, IoError>)
    ensures Prepend([], r) == r
  {
    if r.Ok? {
      assert [] + r.value == r.value;
    }
  }

  lemma PrependTwice(a: seq<seq<byte>>, b: seq<seq<byte>>, r: Result<seq<seq<byte>>, IoError>)
    ensures Prepend(a, Prepend(b, r)) == Prepend(a + b, r)
  {
    if r.Ok? {
      assert a + (b + r.value) == (a + b) + r.value;
    }
  }

  /**
   * The chunks the read loop feeds to the hasher from offset `pos` on, starting
   * with read number `next`, into a buffer of length `cap`: each chunk is what
   * one read returned, the loop stops at the first read that returns 0, and the
   * first failing read makes the whole outcome that error.
   */
  function Chunks(content: seq<byte>, pos: nat, schedule: seq<ReadStep>, next: nat, cap: nat)
    : Result<seq<seq<byte>>, IoError>
    requires pos <= |content|
    decreases |content| - pos
  {
    match ReadOutcome(content, pos, schedule, next, cap)
    case Err(e) => Err(e)
    case Ok(n) =>
      if n == 0 then Ok([])
      else Prepend([content[pos..pos + n]], Chunks(content, pos + n, schedule, next + 1, cap))
  }

  /** One iteration of the read loop: a read that fails, returns 0, or returns `n` bytes. */
  lemma ChunksUnfold(content: seq<byte>, pos: nat, schedule: seq<ReadStep>, next: nat, cap: nat)
    requires pos <= |content|
    ensures ReadOutcome(content, pos, schedule, next, cap).Err? ==>
      Chunks(content, pos, schedule, next, cap) == Err(ReadOutcome(content, pos, schedule, next, cap).error)
    ensures ReadOutcome(content, pos, schedule, next, cap) == Ok(0) ==>
      Chunks(content, pos, schedule, next, cap) == Ok([])
    ensures forall n :: 0 < n && ReadOutcome(content, pos, schedule, next, cap) == Ok(n) ==>
      Chunks(content, pos, schedule, next, cap)
        == Prepend([content[pos..pos + n]], Chunks(content, pos + n, schedule, next + 1, cap))
  {
  }

  /**
   * Whatever the reads return, the chunks of a loop that reaches end of file
   * are non-empty, no longer than the buffer, and concatenate to exactly the
   * unread part of the file, in order.
   */
  lemma {:induction false} ChunksCoverContent(content: seq<byte>, pos: nat, schedule: seq<ReadStep>, next: nat, cap: nat)
    requires pos <= |content| && cap > 0
    requires Chunks(content, pos, schedule, next, cap).Ok?
    ensures Flatten(Chunks(content, pos, schedule, next, cap).value) == content[pos..]
    ensures forall c :: c in Chunks(content, pos, schedule, next, cap).value ==> 0 < |c| <= cap
    decreases |content| - pos
  {
    var n := ReadOutcome(content, pos, schedule, next, cap).value;
    if n > 0 {
      ChunksCoverContent(content, pos + n, schedule, next + 1, cap);
      var rest := Chunks(content, pos + n, schedule, next + 1, cap).value;
      assert Chunks(content, pos, schedule, next, cap).value == [content[pos..pos + n]] + rest;
      assert ([content[pos..pos + n]] + rest)[1..] == rest;
      assert content[pos..] == content[pos..pos + n] + content[pos + n..];
    }
  }

  /** The loop fails only if a read it makes fails: with no `Fail` step ahead, it reaches end of file. */
  lemma {:induction false} ChunksFailOnlyOnFailedRead(content: seq<byte>, pos: nat, schedule: seq<ReadStep>, next: nat, cap: nat)
    requires pos <= |content|
    requires forall k :: next <= k < |schedule| ==> schedule[k].Deliver?
    ensures Chunks(content, pos, schedule, next, cap).Ok?
    decreases |content| - pos
  {
    var n := ReadOutcome(content, pos, schedule, next, cap).value;
    if n > 0 {
      ChunksFailOnlyOnFailedRead(content, pos + n, schedule, next + 1, cap);
    }
  }

  /**
   * The fingerprint of the file at `path`: the open error, the first read
   * error, or the digest of the bytes fed to the hasher.
   */
  function Fingerprint(fs: FileSystem, path: string, algo: HashAlgo, prims: Primitives): Result<seq<byte>, IoError>
  {
    match OpenError(fs, path)
    case Some(e) => Err(e)
    case None =>
      match Chunks(fs[path].content, 0, fs[path].schedule, 0, BufferSize)
      case Err(e) => Err(e)
      case Ok(chunks) => Ok(Digest(prims, algo, Flatten(chunks)))
  }

  /**
   * A successful fingerprint is the digest of the file's whole content, of the
   * algorithm's length, however the reads split the content.
   */
  lemma FingerprintIsDigestOfContent(fs: FileSystem, path: string, algo: HashAlgo, prims: Primitives)
    requires Fingerprint(fs, path, algo, prims).Ok?
    ensures path in fs
    ensures Fingerprint(fs, path, algo, prims).value == Digest(prims, algo, fs[path].content)
    ensures |Fingerprint(fs, path, algo, prims).value| == DigestLength(algo)
  {
    ChunksCoverContent(fs[path].content, 0, fs[path].schedule, 0, BufferSize);
  }

  /** A file that opens and whose read schedule has no `Fail` step always gets a digest. */
  lemma FingerprintFailsOnlyOnIoError(fs: FileSystem, path: string, algo: HashAlgo, prims: Primitives)
    requires path in fs && fs[path].readable
    requires forall k :: 0 <= k < |fs[path].schedule| ==> fs[path].schedule[k].Deliver?
    ensures Fingerprint(fs, path, algo, prims).Ok?
  {
    ChunksFailOnlyOnFailedRead(fs[path].content, 0, fs[path].schedule, 0, BufferSize);
  }

  /** Two files with the same content get the same digest, whatever their read schedules. */
  lemma SameContentSameDigest(fs1: FileSystem, p1: string, fs2: FileSystem, p2: string, algo: HashAlgo, prims: Primitives)
    requires Fingerprint(fs1, p1, algo, prims).Ok? && Fingerprint(fs2, p2, algo, prims).Ok?
    requires p1 in fs1 && p2 in fs2 && fs1[p1].content == fs2[p2].content
    ensures Fingerprint(fs1, p1, algo, prims) == Fingerprint(fs2, p2, algo, prims)
  {
    FingerprintIsDigestOfContent(fs1, p1, algo, prims);
    FingerprintIsDigestOfContent(fs2, p2, algo, prims);
  }

  /**
   * An incremental hasher (`Sha256`, `blake3::Hasher`, `XxHash64`): its state
   * is the sequence of bytes absorbed so far.
   */
  class Hasher {
    const prims: Primitives
    const algo: HashAlgo
    var absorbed: seq<byte>

    /** `Sha256::new()`, `blake3::Hasher::new()`, `XxHash64::with_seed(0)`. */
    constructor (prims: Primitives, algo: HashAlgo)
      ensures this.prims == prims && this.algo == algo && absorbed == []
    {
      this.prims := prims;
      this.algo := algo;
      absorbed := [];
    }

    /** `update` / `write`: absorb `chunk` after everything absorbed before. */
    method Update(chunk: seq<byte>)
      modifies this
      ensures absorbed == old(absorbed) + chunk
    {
      absorbed := absorbed + chunk;
    }

    /** `finalize` / `finish().to_le_bytes()`: the digest of everything absorbed. */
    method Finalize() returns (d: seq<byte>)
      ensures d == Digest(prims, algo, absorbed)
    {
      d := Digest(prims, algo, absorbed);
    }
  }

  /**
   * `calculate_hash`: open the file, feed each `buffer[..bytes_read]` to a fresh
   * hasher until a read returns 0, then finalise. The ghost `fed` records the
   * chunks in the order they were fed.
   */
  method CalculateHash(fs: FileSystem, path: string, algo: HashAlgo, prims: Primitives)
    returns (r: Result<seq<byte>, IoError>, ghost fed: seq<seq<byte>>)
    ensures r == Fingerprint(fs, path, algo, prims)
    ensures r.Ok? ==> path in fs && Flatten(fed) == fs[path].content
    ensures r.Ok? ==> r.value == Digest(prims, algo, Flatten(fed))
    ensures forall c :: c in fed ==> 0 < |c| <= BufferSize
  {
    fed := [];
    var openResult := Open(fs, path);
    if openResult.Err? {
      return Err(openResult.error), fed;
    }
    var file := openResult.value;
    var buffer := new byte[BufferSize];
    var hasher := new Hasher(prims, algo);
    ghost var content, schedule := fs[path].content, fs[path].schedule;
    PrependNothing(Chunks(content, 0, schedule, 0, BufferSize));
    while true
      invariant file.Valid() && file.content == content && file.schedule == schedule
      invariant buffer.Length == BufferSize
      invariant hasher.prims == prims && hasher.algo == algo
      invariant hasher.absorbed == Flatten(fed)
      invariant forall c :: c in fed ==> 0 < |c| <= BufferSize
      invariant Chunks(content, 0, schedule, 0, BufferSize)
             == Prepend(fed, Chunks(content, file.pos, schedule, file.next, BufferSize))
      decreases |content| - file.pos
    {
      ghost var pos, next := file.pos, file.next;
      var read := file.Read(buffer);
      ChunksUnfold(content, pos, schedule, next, BufferSize);
      if read.Err? {
        return Err(read.error), fed;
      }
      var bytesRead := read.value;
      if bytesRead == 0 {
        break;
      }
      var chunk := buffer[..bytesRead];
      PrependTwice(fed, [chunk], Chunks(content, file.pos, schedule, file.next, BufferSize));
      hasher.Update(chunk);
      FlattenSnoc(fed, chunk);
      fed := fed + [chunk];
    }
    var digest := hasher.Finalize();
    assert fed + [] == fed;
    ChunksCoverContent(content, 0, schedule, 0, BufferSize);
    return Ok(digest), fed;
  }
}

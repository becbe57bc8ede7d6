/**
 * The stages of `main` (src/main.rs) that form the hashing and grouping
 * pipeline: keep the eligible entries, turn each into a `FileEntry` through the
 * dispatcher, bucket the records by their `hash` string, and keep the buckets
 * with more than one member.
 */
module Pipeline {
  import opened Base
  import opened Io
  import Filter
  import Hashing
  import Hex
  import Parallel

  /** The record of one processed file: its path, its size and the hex digest or `"ERROR"`. */
  datatype FileEntry = FileEntry(path: string, size: u64, hash: string)

  /** The sentinel stored in `hash` when `calculate_hash` fails. */
  const ErrorHash: string := "ERROR"

  /** The algorithm `main` hashes with. */
  const Algo: Hashing.HashAlgo := Hashing.Blake3

  /**
   * A bucket lists positions in `results` (the `&FileEntry` references of the
   * source); `groups` maps each hash string to its bucket.
   */
  type Groups = map<string, seq<nat>>

  /**
   * `.filter(|e| file_filter(e, ..))`: the entries that pass the filter,
   * in traversal order.
   */
  function SelectFiles(entries: seq<Filter.DirEntry>, c: Filter.Criteria): (r: seq<Filter.DirEntry>)
    ensures forall e :: e in r ==> e in entries && Filter.FileFilter(e, c)
    ensures forall e :: e in entries && Filter.FileFilter(e, c) ==> e in r
    ensures |r| <= |entries|
  {
    if entries == [] then []
    else
      var rest := SelectFiles(entries[1..], c);
      if Filter.FileFilter(entries[0], c) then [entries[0]] + rest else rest
  }

  /** Selecting from a concatenation selects from each part, in order. */
  lemma {:induction false} SelectFilesAppend(a: seq<Filter.DirEntry>, b: seq<Filter.DirEntry>, c: Filter.Criteria)
    ensures SelectFiles(a + b, c) == SelectFiles(a, c) + SelectFiles(b, c)
  {
    if a != [] {
      assert (a + b)[0] == a[0] && (a + b)[1..] == a[1..] + b;
      SelectFilesAppend(a[1..], b, c);
    } else {
      assert a + b == b;
    }
  }

  /**
   * A single entry is kept as itself or dropped. With `SelectFilesAppend`
   * this fixes the result: the eligible entries, in traversal order, each
   * as often as it occurs.
   */
  lemma SelectFilesSingle(e: Filter.DirEntry, c: Filter.Criteria)
    ensures SelectFiles([e], c) == if Filter.FileFilter(e, c) then [e] else []
  {
    assert [e][1..] == [];
  }

  /** `entry.metadata().map(|m| m.len()).unwrap_or(0)`. */
  function MetadataSize(fs: FileSystem, path: string): u64
  {
    if path in fs && fs[path].metadata.Some? then fs[path].metadata.value else 0
  }

  /** A well-formed digest string: lowercase hex, two digits per byte of a BLAKE3 digest. */
  predicate IsDigestHash(h: string)
  {
    |h| == 2 * Hashing.DigestLength(Algo) && Hex.IsLowerHex(h)
  }

  /** `"ERROR"` is not the encoding of any digest. */
  lemma ErrorIsNotAnEncoding(d: seq<byte>)
    ensures Hex.Encode(d) != ErrorHash
    ensures !Hex.IsLowerHex(ErrorHash)
  {
    assert !Hex.IsLowerHexDigit(ErrorHash[0]);
  }

  /**
   * The per-entry closure of `main`: the path, the metadata size or 0, and the
   * lowercase hex of the BLAKE3 digest, or `"ERROR"` when hashing fails.
   */
  function MakeRecord(fs: FileSystem, prims: Hashing.Primitives, entry: Filter.DirEntry): (r: FileEntry)
    ensures r.path == entry.path
    ensures entry.path in fs && fs[entry.path].metadata.Some? ==> r.size == fs[entry.path].metadata.value
    ensures !(entry.path in fs && fs[entry.path].metadata.Some?) ==> r.size == 0
    ensures r.hash == ErrorHash <==> Hashing.Fingerprint(fs, entry.path, Algo, prims).Err?
    ensures r.hash != ErrorHash ==>
      && IsDigestHash(r.hash)
      && Hex.Decode(r.hash) == Some(Hashing.Fingerprint(fs, entry.path, Algo, prims).value)
  {
    var hash := (
      match Hashing.Fingerprint(fs, entry.path, Algo, prims)
      case Ok(digest) =>
        Hashing.FingerprintIsDigestOfContent(fs, entry.path, Algo, prims);
        ErrorIsNotAnEncoding(digest);
        Hex.DecodeEncode(digest);
        Hex.Encode(digest)
      case Err(_) => ErrorHash);
    FileEntry(entry.path, MetadataSize(fs, entry.path), hash)
  }

  /**
   * `groups` buckets the first `n` records: buckets are non-empty, list
   * positions below `n` in increasing order, hold only records whose hash is
   * the bucket's key, and every one of the first `n` records is in the bucket
   * of its hash.
   */
  ghost predicate IsGrouping(results: seq<FileEntry>, groups: Groups, n: nat)
    requires n <= |results|
  {
    && (forall k :: k in groups ==> groups[k] != [])
    && (forall k, j :: k in groups && 0 <= j < |groups[k]| ==> groups[k][j] < n && results[groups[k][j]].hash == k)
    && (forall k, j, j' :: k in groups && 0 <= j < j' < |groups[k]| ==> groups[k][j] < groups[k][j'])
    && (forall i :: 0 <= i < n ==> results[i].hash in groups && i in groups[results[i].hash])
  }

  /** The number of bucket slots, over all buckets. */
  ghost function TotalMembers(groups: Groups): nat
    decreases |groups|
  {
    if groups == map[] then 0
    else
      var k :| k in groups;
      assert |groups - {k}| < |groups| by {
        assert (groups - {k}).Keys == groups.Keys - {k};
      }
      |groups[k]| + TotalMembers(groups - {k})
  }

  /** The total does not depend on which bucket is counted first. */
  lemma TotalMembersPick(groups: Groups, k: string)
    requires k in groups
    ensures TotalMembers(groups) == |groups[k]| + TotalMembers(groups - {k})
    decreases |groups|
  {
    var k' :| k' in groups && TotalMembers(groups) == |groups[k']| + TotalMembers(groups - {k'});
    if k' != k {
      assert (groups - {k'}).Keys == groups.Keys - {k'};
      assert (groups - {k}).Keys == groups.Keys - {k};
      TotalMembersPick(groups - {k'}, k);
      TotalMembersPick(groups - {k}, k');
      assert groups - {k'} - {k} == groups - {k} - {k'};
    }
  }

  /** Pushing one record onto a bucket (new or old) adds one slot. */
  lemma TotalMembersPush(groups: Groups, k: string, bucket: seq<nat>)
    requires k in groups ==> |bucket| == |groups[k]| + 1
    requires k !in groups ==> |bucket| == 1
    ensures TotalMembers(groups[k := bucket]) == TotalMembers(groups) + 1
  {
    TotalMembersPick(groups[k := bucket], k);
    assert groups[k := bucket] - {k} == groups - {k};
    if k in groups {
      TotalMembersPick(groups, k);
    } else {
      assert groups - {k} == groups;
    }
  }

  /** `groups.entry(key).or_default().push(i)`. */
  function Push(groups: Groups, key: string, i: nat): Groups
  {
    groups[key := (if key in groups then groups[key] else []) + [i]]
  }

  /**
   * The loop `for entry in &results { groups.entry(..).or_default().push(entry) }`:
   * every record lands in exactly the bucket of its hash, buckets keep the
   * order of `results`, and the bucket sizes add up to `|results|`.
   */
  method GroupByHash(results: seq<FileEntry>) returns (groups: Groups)
    ensures IsGrouping(results, groups, |results|)
    ensures TotalMembers(groups) == |results|
  {
    groups := map[];
    for i := 0 to |results|
      invariant IsGrouping(results, groups, i)
      invariant TotalMembers(groups) == i
    {
      var key := results[i].hash;
      TotalMembersPush(groups, key, (if key in groups then groups[key] else []) + [i]);
      GroupingPush(results, groups, i);
      groups := Push(groups, key, i);
    }
  }

  /** Pushing record `i` onto the bucket of its hash extends a grouping of the first `i` records by one. */
  lemma GroupingPush(results: seq<FileEntry>, groups: Groups, i: nat)
    requires i < |results| && IsGrouping(results, groups, i)
    ensures IsGrouping(results, Push(groups, results[i].hash, i), i + 1)
  {
    var key := results[i].hash;
    var g' := Push(groups, key, i);
    forall k, j | k in g' && 0 <= j < |g'[k]|
      ensures g'[k][j] < i + 1 && results[g'[k][j]].hash == k
    {
      if k == key && key in groups && j < |groups[key]| {
        assert g'[k][j] == groups[key][j];
      }
    }
    forall k, j, j' | k in g' && 0 <= j < j' < |g'[k]|
      ensures g'[k][j] < g'[k][j']
    {
      if k == key && key in groups {
        assert g'[k] == groups[key] + [i];
        if j' < |groups[key]| {
          assert g'[k][j] == groups[key][j] && g'[k][j'] == groups[key][j'];
        } else {
          assert g'[k][j] == groups[key][j] < i;
        }
      }
    }
    forall n | 0 <= n < i + 1
      ensures results[n].hash in g' && n in g'[results[n].hash]
    {
      if n < i && results[n].hash == key {
        assert n in groups[key];
      }
    }
  }

  /** A record is in the bucket of its own hash, once, and in no other bucket. */
  lemma MemberOfExactlyOneBucket(results: seq<FileEntry>, groups: Groups, i: nat, k: string, j: nat)
    requires IsGrouping(results, groups, |results|) && i < |results|
    requires k in groups && j < |groups[k]| && groups[k][j] == i
    ensures k == results[i].hash
    ensures forall j' :: 0 <= j' < |groups[k]| && groups[k][j'] == i ==> j' == j
  {
  }

  /** `groups.values().filter(|g| g.len() > 1)`: the buckets with more than one member. */
  function Duplicates(groups: Groups): (d: set<seq<nat>>)
    ensures forall g :: g in d ==> |g| >= 2
    ensures forall k :: k in groups && |groups[k]| > 1 ==> groups[k] in d
    ensures forall g :: g in d ==> exists k :: k in groups && groups[k] == g
  {
    set k | k in groups && |groups[k]| > 1 :: groups[k]
  }

  /**
   * Two different groups of `Duplicates` have no member in common, and all
   * members of one group carry the same hash.
   */
  lemma DuplicateGroupsArePartition(results: seq<FileEntry>, groups: Groups, g1: seq<nat>, g2: seq<nat>)
    requires IsGrouping(results, groups, |results|)
    requires g1 in Duplicates(groups) && g2 in Duplicates(groups)
    ensures forall x, y :: x in g1 && y in g1 ==> results[x].hash == results[y].hash
    ensures g1 != g2 ==> forall x :: x in g1 ==> x !in g2
  {

  }

  /**
   * Lines 55-75 of `main`: hash every entry through the dispatcher, bucket the
   * records and keep the buckets with more than one member.
   */
  method FindDuplicates(files: seq<Filter.DirEntry>, fs: FileSystem, prims: Hashing.Primitives)
    returns (results: seq<FileEntry>, groups: Groups, duplicates: set<seq<nat>>)
    ensures |results| == |files|
    ensures forall i :: 0 <= i < |files| ==> results[i] == MakeRecord(fs, prims, files[i])
    ensures IsGrouping(results, groups, |results|) && TotalMembers(groups) == |results|
    ensures duplicates == Duplicates(groups)
  {
    var finalPosition;
    ghost var invoked;
    results, finalPosition, invoked := Parallel.ProcessFilesParallel(files, e => MakeRecord(fs, prims, e));
    groups := GroupByHash(results);
    duplicates := Duplicates(groups);
  }

  /** Records are those of `MakeRecord` for `files`, and `groups` buckets them. */
  ghost predicate Processed(files: seq<Filter.DirEntry>, fs: FileSystem, prims: Hashing.Primitives,
                            results: seq<FileEntry>, groups: Groups)
  {
    && |results| == |files|
    && (forall i :: 0 <= i < |files| ==> results[i] == MakeRecord(fs, prims, files[i]))
    && IsGrouping(results, groups, |results|)
  }

  /**
   * Every file that fails to hash is in the one `"ERROR"` bucket, and that
   * bucket holds no file that was hashed.
   */
  lemma FailuresShareOneBucket(files: seq<Filter.DirEntry>, fs: FileSystem, prims: Hashing.Primitives,
                               results: seq<FileEntry>, groups: Groups)
    requires Processed(files, fs, prims, results, groups)
    ensures forall i :: 0 <= i < |files| && Hashing.Fingerprint(fs, files[i].path, Algo, prims).Err? ==>
      ErrorHash in groups && i in groups[ErrorHash]
    ensures ErrorHash in groups ==> forall j :: j in groups[ErrorHash] ==>
      j < |files| && Hashing.Fingerprint(fs, files[j].path, Algo, prims).Err?
  {
  }

  /**
   * As written, two files that both fail to hash share the `"ERROR"` bucket,
   * which is then reported among the duplicate groups.
   */
  lemma TwoFailuresAreReportedAsDuplicates(files: seq<Filter.DirEntry>, fs: FileSystem, prims: Hashing.Primitives,
                                           results: seq<FileEntry>, groups: Groups, i: nat, j: nat)
    requires Processed(files, fs, prims, results, groups)
    requires i < j < |files|
    requires Hashing.Fingerprint(fs, files[i].path, Algo, prims).Err?
    requires Hashing.Fingerprint(fs, files[j].path, Algo, prims).Err?
    ensures ErrorHash in groups && groups[ErrorHash] in Duplicates(groups)
  {

  }

  /** Two missing files, for instance, both fail to hash. */
  lemma MissingFilesFailToHash(fs: FileSystem, prims: Hashing.Primitives, a: Filter.DirEntry, b: Filter.DirEntry)
    requires a.path !in fs && b.path !in fs
    ensures MakeRecord(fs, prims, a).hash == ErrorHash == MakeRecord(fs, prims, b).hash
  {
  }

  /**
   * The duplicate groups among the files that were hashed: the buckets with
   * more than one member, leaving out the `"ERROR"` bucket.
   */
  function ComparableDuplicates(groups: Groups): (d: set<seq<nat>>)
    ensures d <= Duplicates(groups)
    ensures forall k :: k in groups && k != ErrorHash && |groups[k]| > 1 ==> groups[k] in d
    ensures ErrorHash in groups && groups[ErrorHash] in d ==>
      exists k :: k in groups && k != ErrorHash && groups[k] == groups[ErrorHash]
  {
    set k | k in groups && k != ErrorHash && |groups[k]| > 1 :: groups[k]
  }

  /**
   * The corrected groups contain only files that were hashed, every group's
   * members have byte-identical digests, and every hashed file whose digest
   * another file shares is in a group.
   */
  lemma ComparableDuplicatesAreDigestClasses(files: seq<Filter.DirEntry>, fs: FileSystem, prims: Hashing.Primitives,
                                             results: seq<FileEntry>, groups: Groups)
    requires Processed(files, fs, prims, results, groups)
    ensures forall g, x :: g in ComparableDuplicates(groups) && x in g ==>
      x < |files| && Hashing.Fingerprint(fs, files[x].path, Algo, prims).Ok?
    ensures forall g, x, y :: g in ComparableDuplicates(groups) && x in g && y in g ==>
      Hashing.Fingerprint(fs, files[x].path, Algo, prims) == Hashing.Fingerprint(fs, files[y].path, Algo, prims)
    ensures forall x, y ::
      (&& 0 <= x < y < |files|
       && Hashing.Fingerprint(fs, files[x].path, Algo, prims).Ok?
       && Hashing.Fingerprint(fs, files[x].path, Algo, prims) == Hashing.Fingerprint(fs, files[y].path, Algo, prims))
      ==> exists g :: g in ComparableDuplicates(groups) && x in g && y in g
  {

  }
}

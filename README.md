# Duplicate-file finder: verified model of the hashing and grouping pipeline

This project models the core of a duplicate-file finder written in Rust. The
program walks a directory tree and keeps the files that pass an eligibility
filter (`file_filter`). It hashes each kept file's content by streaming it
through SHA-256, BLAKE3 or XXH64 (`calculate_hash`); this runs in parallel
(`process_files_parallel`). It then buckets the resulting `FileEntry` records
by their hex hash string and reports the buckets with more than one member as
duplicate groups.

Modules:

- `Filter` (src/filter.rs): `FileFilter` and the extension rules of `Path::extension`, with `Utf8` (well-formed UTF-8 per section 4 of RFC 3629) for `OsStr::to_str`.
- `Hashing` (src/hashing.rs): `HashAlgo`, the digest of each algorithm and the little-endian XXH64 digest. `Chunks` and `Fingerprint` are the pure specification of the read loop. `CalculateHash` is the imperative loop: an 8192-byte `array` buffer, an `OpenFile` handle and a `Hasher` object.
- `Io`: the filesystem as data. It holds each file's content, its metadata, whether it can be opened and a schedule for its reads.
- `Parallel` (src/parallel.rs): the dispatcher, modelled as a sequential loop that fills an output array and bumps a `ProgressBar` counter.
- `Hex`: `hex::encode` (lowercase Base16, section 8 of RFC 4648) and its inverse.
- `Pipeline` (src/main.rs): `SelectFiles`, `MakeRecord` (the per-entry closure), the grouping loop `GroupByHash`, `Duplicates`, and `FindDuplicates`, which runs lines 55-75.

How I/O and foreign code are modelled:

- **Hash functions.** The three foreign hash functions are the fields of a `Primitives` value. Each is a function of the whole absorbed byte sequence. SHA-256 and BLAKE3 return `Bytes32`, a 32-byte sequence. XXH64 takes a seed and returns a `u64`, and its digest is that value's 8 little-endian bytes.
- **Reads.** The model gives each file a schedule of read steps. `Deliver(k)` returns `k` bytes, clamped into the range a regular-file read can return: at least 1 while bytes remain, and at most the buffer size and the bytes remaining. `Fail` returns an error. Once the schedule runs out, each read fills the buffer as far as it can. Any split of the content into reads can be written as such a schedule, so a lemma that holds for every schedule holds for every split.
- **Name regex.** The name regex, applied to the lossily decoded file name, is a predicate field of `Criteria`.
- **Paths and names.** Paths are strings (their `display()` form). File names are raw bytes.

Points where the model follows the code rather than what a reader might expect of a duplicate finder:

- **Output order.** Rayon's indexed `par_iter().map().collect()` keeps input order. So `ProcessFilesParallel` promises `results[i] == processFn(files[i])`, not just one record per input in some order.
- **Size fallback.** A record's size comes from a second `metadata()` call. It falls back to 0 when that call fails. `MakeRecord` reads it from the filesystem at hashing time, not from the entry the filter saw.
- **Failure sentinel.** Failed files are not kept out of grouping. Their hash is the string `"ERROR"` and they are bucketed like any other hash. See "## Findings".
- **Bucket key.** Grouping is keyed by the hex string, not by the raw digest bytes. `Hex.EncodeInjective` and `Hex.DecodeEncode` show that this makes no difference for digests.

Two properties hold by construction and need no lemma. `FileFilter` is a function, so it is deterministic and has no side effects. A failed fingerprint is an `Err` and can carry no digest bytes.

## Model

| member | source | states |
|---|---|---|
| `Filter.LastDot` | src/filter.rs:10 | The position found holds a `.` and no `.` follows it; `None` only when the name has no `.` at all |
| `Filter.Extension` | src/filter.rs:10 | No extension exactly for `..` or a name with no `.` after its first byte; otherwise the extension is the dot-free tail after the last `.`, preceded by a non-empty stem |
| `Filter.EffectiveExtension` | src/filter.rs:10 | `and_then(to_str).unwrap_or("")` is either `""` or the extension, which is then well-formed UTF-8, and it is the extension whenever that is well-formed UTF-8 |
| `Filter.Any` | src/filter.rs:12 | `any` over the list is true exactly when the extension is in the allowed list |
| `Filter.FileFilter` | src/filter.rs:4-14 | Eligible iff the metadata could be read, `min_size <= size <= max_size`, the extension (or `""`) is in the list, and the name predicate holds |
| `Filter.MetadataFailureRejects` | src/filter.rs:5-8 | An entry whose metadata cannot be read is rejected whatever the criteria |
| `Filter.SizeBoundsInclusive` | src/filter.rs:11 | Sizes `min_size` and `max_size` pass; `min_size - 1` and `max_size + 1` fail |
| `Filter.EmptyAllowListRejects` | src/filter.rs:12 | An empty list of allowed extensions rejects every entry |
| `Filter.MissingOrNonUtf8ExtensionIsEmpty` | src/filter.rs:10-12 | A missing or non-UTF-8 extension is treated as `""`, so the entry passes only if `""` is allowed |
| `Filter.ExtensionMatchIsExact` | src/filter.rs:10-12 | A UTF-8 extension passes only when the allowed list contains exactly those bytes |
| `Filter.ExtensionIsCaseSensitive` | src/filter.rs:10-12 | `a.TXT` has extension `TXT` and is rejected when the list is `["txt"]` |
| `Filter.DotFileHasNoExtension` | src/filter.rs:10 | `.bashrc`, whose only dot is its first byte, has no extension |
| `Filter.NonUtf8ExtensionExample` | src/filter.rs:10 | `a.<0xFF>` has extension `<0xFF>`, which is not UTF-8 and so becomes `""` |
| `Utf8.AsciiIsValid` | src/filter.rs:10 | Every ASCII byte string is well-formed UTF-8, so `to_str` keeps ASCII extensions |
| `Utf8.BadLeadIsInvalid` | src/filter.rs:10 | A string starting with a byte that cannot lead a UTF-8 character is not valid UTF-8 |
| `Io.ReadOutcome` | src/hashing.rs:23 | A read fails only on a `Fail` step; otherwise it returns at most the buffer size and the bytes left, and 0 exactly at end of file |
| `Io.Open` | src/hashing.rs:16 | `File::open` yields the open error, or a fresh handle at offset 0 over the file's content |
| `Io.OpenFile.Read` | src/hashing.rs:23 | On success `buf[..n]` receives the next `n` bytes of the file and the cursor advances by `n`; on error nothing moves |
| `Hashing.FromLeBytesOfLeBytes` | src/hashing.rs:51 | Decoding the little-endian encoding of `x` gives back `x` |
| `Hashing.LeBytesOfFromLeBytes` | src/hashing.rs:51 | Re-encoding the decoded value gives back the bytes |
| `Hashing.U64ToLeBytes` | src/hashing.rs:51 | `to_le_bytes` gives 8 bytes that decode to the value |
| `Hashing.Chunks` | src/hashing.rs:22-28 | Definition (no contract of its own): the chunks the `loop` feeds, stopping at the first read of 0 and failing at the first failed read. Its properties are stated by `ChunksUnfold`, `ChunksCoverContent` and `ChunksFailOnlyOnFailedRead` |
| `Hashing.Fingerprint` | src/hashing.rs:15-53 | Definition (no contract of its own) of `calculate_hash`'s result, which `MakeRecord` uses: the open error, the first read error, or the digest of the chunks fed. Its properties are stated by `CalculateHash` (the loop returns exactly it), `FingerprintIsDigestOfContent`, `FingerprintFailsOnlyOnIoError` and `SameContentSameDigest` |
| `Hashing.Digest` | src/hashing.rs:29-51 | The digest is 32 bytes for `Sha256` and `Blake3` and 8 for `XxHash` |
| `Hashing.XxHashDigestDecodes` | src/hashing.rs:43-51 | The XXH64 digest decodes, little-endian, to the seed-0 hasher's `finish()` value |
| `Hashing.ChunksUnfold` | src/hashing.rs:22-28 | Proof helper for the `CalculateHash` loop, unfolding `Chunks` by one step; states no property beyond the definition. One loop iteration: a failed read ends in that error, a read of 0 ends the loop, a read of `n` feeds `content[pos..pos+n]` and continues |
| `Hashing.ChunksCoverContent` | src/hashing.rs:22-28 | However the reads split the file, the chunks fed are non-empty, at most the buffer size, and concatenate in order to the whole unread content |
| `Hashing.ChunksFailOnlyOnFailedRead` | src/hashing.rs:23-26 | With no failing read ahead, the loop reaches end of file, because each read shrinks the unread rest |
| `Hashing.FingerprintIsDigestOfContent` | src/hashing.rs:15-53 | A successful result is the digest of the file's entire content, of the algorithm's length |
| `Hashing.FingerprintFailsOnlyOnIoError` | src/hashing.rs:16-23 | A file that opens and whose reads do not fail always gets a digest |
| `Hashing.SameContentSameDigest` | src/hashing.rs:15-53 | Two files with equal content get equal digests under the same algorithm, whatever their read schedules |
| `Hashing.Hasher.constructor` | src/hashing.rs:21 | A new hasher has absorbed nothing |
| `Hashing.Hasher.Update` | src/hashing.rs:27 | `update`/`write` appends the chunk to the bytes absorbed so far |
| `Hashing.Hasher.Finalize` | src/hashing.rs:29 | `finalize` returns the digest of all bytes absorbed |
| `Hashing.CalculateHash` | src/hashing.rs:15-53 | Returns the open error, the first read error, or `Ok` of the digest; the chunks fed, each `buffer[..bytes_read]` with `0 < bytes_read <= 8192`, concatenate to the whole file |
| `Parallel.ProgressBar.Inc` | src/parallel.rs:16 | `inc(delta)` advances the position by `delta` |
| `Parallel.ProcessFilesParallel` | src/parallel.rs:5-21 | Same length as the input, `results[i] == process_fn(files[i])`, `process_fn` called once per entry in order, and the bar ends at `files.len()` |
| `Hex.DigitValue` | src/main.rs:59 | A character is a lowercase hex digit exactly when it has a digit value below 16 |
| `Hex.Encode` | src/main.rs:59 | `hex::encode` gives two lowercase hex digits per byte |
| `Hex.Decode` | src/main.rs:59 | A decoded string had two characters per byte |
| `Hex.DecodeEncode` | src/main.rs:59 | Decoding an encoding gives back the digest |
| `Hex.EncodeDecode` | src/main.rs:59 | Every decodable string is the encoding of what it decodes to |
| `Hex.EncodeInjective` | src/main.rs:59 | Distinct digests have distinct hex strings, so keying by the string equals keying by the bytes |
| `Pipeline.SelectFiles` | src/main.rs:43-47 | Every kept entry is an input entry that passes `file_filter`, and every passing input entry is kept; order and multiplicity are fixed by the two lemmas below |
| `Pipeline.SelectFilesAppend` | src/main.rs:46-47 | Selecting from `a + b` gives the selection from `a` followed by the selection from `b`, so traversal order is kept |
| `Pipeline.SelectFilesSingle` | src/main.rs:46 | One entry is kept as `[e]` when it passes and dropped otherwise, so each entry is kept as often as it occurs |
| `Pipeline.ErrorIsNotAnEncoding` | src/main.rs:60 | `"ERROR"` is not the hex encoding of any digest |
| `Pipeline.MetadataSize` | src/main.rs:57 | Definition (no contract of its own): the metadata length, or 0 when metadata fails. `MakeRecord`'s contract states the fallback |
| `Pipeline.MakeRecord` | src/main.rs:55-66 | Path kept; size is the metadata length or 0; hash is `"ERROR"` iff hashing fails, else 64 lowercase hex digits decoding to the BLAKE3 digest |
| `Pipeline.Push` | src/main.rs:73 | Definition (no contract of its own) of `entry(key).or_default().push(i)`. `GroupingPush` and `TotalMembersPush` state what it preserves |
| `Pipeline.GroupingPush` | src/main.rs:73 | `entry(hash).or_default().push(entry)` extends a grouping of the first `i` records to the first `i + 1` |
| `Pipeline.TotalMembersPick` | src/main.rs:72-74 | The total number of bucket members may be counted from any bucket first |
| `Pipeline.TotalMembersPush` | src/main.rs:73 | Pushing one record onto a bucket adds one to the total number of members |
| `Pipeline.GroupByHash` | src/main.rs:71-74 | Every record lies in the bucket of its hash; buckets are non-empty, hold only that hash, keep `results` order; sizes sum to `results.len()` |
| `Pipeline.MemberOfExactlyOneBucket` | src/main.rs:72-74 | A record appears in no bucket but its hash's, and only once there |
| `Pipeline.Duplicates` | src/main.rs:75 | Exactly the buckets with more than one member, so each has length at least 2 |
| `Pipeline.DuplicateGroupsArePartition` | src/main.rs:71-75 | Members of one duplicate group share a hash; distinct groups have no member in common |
| `Pipeline.FindDuplicates` | src/main.rs:55-75 | One record per file in order, a grouping of all of them, and the buckets with more than one member |
| `Pipeline.FailuresShareOneBucket` | src/main.rs:58-74 | Every file that fails to hash is in the single `"ERROR"` bucket, and that bucket holds only such files |
| `Pipeline.TwoFailuresAreReportedAsDuplicates` | src/main.rs:58-75 | Two files that fail to hash make the `"ERROR"` bucket a reported duplicate group |
| `Pipeline.MissingFilesFailToHash` | src/main.rs:58-60 | A file missing at hashing time gets the hash `"ERROR"` |
| `Pipeline.ComparableDuplicates` | src/main.rs:75 | The buckets of more than one member other than `"ERROR"`: a subset of `Duplicates` that keeps every such bucket |
| `Pipeline.ComparableDuplicatesAreDigestClasses` | src/main.rs:55-75 | Corrected groups hold only hashed files with byte-identical digests, and any two hashed files with equal digests share a group |

## Left out

- The internals of SHA-256, BLAKE3 and XXH64 (`sha2`, `blake3`, `twox_hash`). They are foreign code, and the model treats them as functions of the absorbed bytes with fixed output lengths.
- File I/O. `File::open`, `read`, `metadata()` and directory traversal with `walkdir`, including `filter_map` of traversal errors at src/main.rs:45, are replaced by the `Io` data model. The model's error kinds are coarse (not found, permission denied, read failed).
- A file changing while it is hashed. The model fixes a file's content for the whole of one `calculate_hash`. In the source, a file that shrinks between reads gets the digest of a prefix rather than an error, and a file that grows gets the digest of more than it held when its metadata was read.
- `Filter.DirEntry`: the file name is a field of its own. The model does not derive it from the path, so the root entry's special case is not modelled.
- Rayon's thread pool (src/parallel.rs:15). Concurrency cannot be expressed here, so the dispatcher is a sequential loop. The result is the same because the collect is indexed.
- `Parallel.ProcessFilesParallel`: `process_fn` is a pure function, because Dafny cannot pass a method as a value. In `FindDuplicates` it is `MakeRecord`, which uses `Hashing.Fingerprint`. `Hashing.CalculateHash` is proved to return exactly `Fingerprint`, so the two agree.
- Progress-bar display (`indicatif`, src/parallel.rs:10-14 and 19, src/main.rs:49-53 and 67). This is UI, and only the position counter is kept. The bar in `main` is never incremented.
- The `regex` engine and `to_string_lossy` (src/filter.rs:13, src/main.rs:40). These are library behaviour, and the model treats their combination as an abstract name predicate.
- `path.display().to_string()` (src/main.rs:62). Paths are strings in the model, so the lossy display conversion is not modelled.
- The iteration order of `groups.values()` (src/main.rs:75). It is unspecified, so `Duplicates` is a set of buckets, not a sequence.
- Console output and the JSON report (src/main.rs:77-92, src/report.rs). These are I/O. `generate_html_report` returns a constant.
- The quarantine mover (src/quarantine.rs). It is a single filesystem rename, and nothing calls it.
- The configuration literals of `main` (src/main.rs:36-40). `Criteria` holds the size bounds, the extension list and the name pattern, and `Pipeline.Algo` is the choice of BLAKE3. `target_dir` (src/main.rs:36) is the traversal root, which is left out together with `walkdir`.

## Findings

| source | as written | input that shows it | evidently intended | confidence | as-written member | corrected member |
|---|---|---|---|---|---|---|
| src/main.rs:58-75 | A failed hash becomes the string `"ERROR"` and is bucketed like a digest | two eligible files that no longer exist, or cannot be opened, at hashing time | failed files are reported separately and never form a duplicate group | medium, not executed | `Pipeline.TwoFailuresAreReportedAsDuplicates` | `Pipeline.ComparableDuplicates` |

`Pipeline.MissingFilesFailToHash` shows that such inputs exist. `Pipeline.ComparableDuplicatesAreDigestClasses` proves the intended property of the corrected definition: groups hold only hashed files, those files have equal digests, and every shared digest leads to a group. No other part of the model consumes the duplicate groups, so the corrected definition stands beside the as-written `Duplicates` that `FindDuplicates` returns.

/**
 * The eligibility predicate `file_filter` (src/filter.rs): a file takes part in
 * duplicate detection when its metadata can be read, its size lies within the
 * inclusive bounds, its extension is one of the allowed ones and its name
 * matches the name pattern.
 */
module Filter {
  import opened Base
  import Utf8

  /** The byte of `'.'`. */
  const DOT: byte := 46

  /**
   * A directory entry as the traversal hands it over: its displayed path, the
   * raw bytes of its last path component, and its size when the metadata can be
   * read (`None` when `metadata()` fails).
   */
  datatype DirEntry = DirEntry(path: string, fileName: seq<byte>, metadata: Option<u64>)

  /**
   * The run's criteria. Allowed extensions are the UTF-8 bytes of `&str`
   * values; `nameMatches` stands for `Regex::is_match` applied to the lossily
   * decoded file name.
   */
  datatype Criteria = Criteria(
    minSize: u64,
    maxSize: u64,
    allowedExts: seq<seq<byte>>,
    nameMatches: seq<byte> -> bool)

  /** The position of the last `'.'` in `name`, if any (`rsplitn(2, '.')`). */
  function LastDot(name: seq<byte>): (r: Option<nat>)
    ensures r.Some? ==> r.value < |name| && name[r.value] == DOT
    ensures r.Some? ==> forall j :: r.value < j < |name| ==> name[j] != DOT
    ensures r.None? ==> forall j :: 0 <= j < |name| ==> name[j] != DOT
  {
    if name == [] then None
    else if name[|name| - 1] == DOT then Some(|name| - 1)
    else LastDot(name[..|name| - 1])
  }

  /**
   * `Path::extension` of a file name: the bytes after the last `'.'`, except
   * that `".."`, a name without a dot and a name whose only dot is its first
   * byte have no extension.
   */
  function Extension(name: seq<byte>): (r: Option<seq<byte>>)
    ensures r.None? <==> name == [DOT, DOT] || forall j :: 0 < j < |name| ==> name[j] != DOT
    ensures r.Some? ==> |r.value| + 1 < |name| && name[|name| - |r.value| - 1] == DOT
    ensures r.Some? ==> name[|name| - |r.value|..] == r.value && DOT !in r.value
  {
    if name == [DOT, DOT] then None
    else
      match LastDot(name)
      case None => None
      case Some(i) => if i == 0 then None else Some(name[i + 1..])
  }

  /**
   * `extension().and_then(|s| s.to_str()).unwrap_or("")`: the extension when
   * there is one and it is well-formed UTF-8, and the empty string otherwise.
   */
  function EffectiveExtension(name: seq<byte>): (e: seq<byte>)
    ensures e == [] || (Extension(name) == Some(e) && Utf8.Valid(e))
    ensures Extension(name).Some? && Utf8.Valid(Extension(name).value) ==> e == Extension(name).value
  {
    match Extension(name)
    case Some(e) => if Utf8.Valid(e) then e else []
    case None => []
  }

  /** `allowed_exts.iter().any(|x| x == &ext)`. */
  function Any(exts: seq<seq<byte>>, ext: seq<byte>): (r: bool)
    ensures r <==> ext in exts
  {
    if exts == [] then false
    else exts[0] == ext || Any(exts[1..], ext)
  }

  /** `file_filter`: the entry is eligible under the criteria. */
  function FileFilter(entry: DirEntry, c: Criteria): (ok: bool)
    ensures ok <==>
      && entry.metadata.Some?
      && c.minSize <= entry.metadata.value <= c.maxSize
      && EffectiveExtension(entry.fileName) in c.allowedExts
      && c.nameMatches(entry.fileName)
  {
    match entry.metadata
    case None => false
    case Some(size) =>
      && size >= c.minSize && size <= c.maxSize
      && Any(c.allowedExts, EffectiveExtension(entry.fileName))
      && c.nameMatches(entry.fileName)
  }

  /** An entry whose metadata cannot be read is rejected, whatever the criteria. */
  lemma MetadataFailureRejects(entry: DirEntry, c: Criteria)
    requires entry.metadata.None?
    ensures !FileFilter(entry, c)
  {
  }

  /**
   * The size bounds are inclusive: with the extension and name tests passing,
   * sizes `minSize` and `maxSize` pass, and `minSize - 1` and `maxSize + 1` fail.
   */
  lemma SizeBoundsInclusive(path: string, name: seq<byte>, c: Criteria)
    requires c.minSize <= c.maxSize
    requires EffectiveExtension(name) in c.allowedExts && c.nameMatches(name)
    ensures FileFilter(DirEntry(path, name, Some(c.minSize)), c)
    ensures FileFilter(DirEntry(path, name, Some(c.maxSize)), c)
    ensures c.minSize > 0 ==> !FileFilter(DirEntry(path, name, Some(c.minSize - 1)), c)
    ensures c.maxSize < U64_MAX ==> !FileFilter(DirEntry(path, name, Some(c.maxSize + 1)), c)
  {
  }

  /** An empty list of allowed extensions rejects every entry. */
  lemma EmptyAllowListRejects(entry: DirEntry, c: Criteria)
    requires c.allowedExts == []
    ensures !FileFilter(entry, c)
  {
  }

  /**
   * An entry without an extension, or whose extension is not well-formed UTF-8,
   * is treated as if its extension were `""`.
   */
  lemma MissingOrNonUtf8ExtensionIsEmpty(entry: DirEntry, c: Criteria)
    requires Extension(entry.fileName).None? || !Utf8.Valid(Extension(entry.fileName).value)
    ensures FileFilter(entry, c) <==>
      && entry.metadata.Some?
      && c.minSize <= entry.metadata.value <= c.maxSize
      && [] in c.allowedExts
      && c.nameMatches(entry.fileName)
  {
  }

  /** An extension other than `""` passes only when it is listed byte for byte. */
  lemma ExtensionMatchIsExact(entry: DirEntry, c: Criteria)
    requires Extension(entry.fileName).Some? && Utf8.Valid(Extension(entry.fileName).value)
    ensures FileFilter(entry, c) ==> Extension(entry.fileName).value in c.allowedExts
  {
  }

  /** `a.TXT` has extension `TXT` and is rejected when only `txt` is allowed. */
  lemma ExtensionIsCaseSensitive(path: string, size: u64, c: Criteria)
    requires c.allowedExts == [[116, 120, 116]]  // "txt"
    ensures Extension([97, DOT, 84, 88, 84]) == Some([84, 88, 84])  // "a.TXT", "TXT"
    ensures !FileFilter(DirEntry(path, [97, DOT, 84, 88, 84], Some(size)), c)
  {

  }

  /** `.bashrc` has no extension: its only dot is its first byte. */
  lemma DotFileHasNoExtension()
    ensures Extension([DOT, 98, 97, 115, 104, 114, 99]) == None  // ".bashrc"
  {
  }

  /** `a.<0xFF>` has an extension that is not UTF-8, so it is treated as `""`. */
  lemma NonUtf8ExtensionExample()
    ensures Extension([97, DOT, 0xFF]) == Some([0xFF])
    ensures EffectiveExtension([97, DOT, 0xFF]) == []
  {
    var name: seq<byte> := [97, DOT, 0xFF];
    assert LastDot(name) == Some(1) by {
      assert name[..2] == [97, DOT];
    }
    assert name[2..] == [0xFF];
    Utf8.BadLeadIsInvalid([0xFF]);
  }
}

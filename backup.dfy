/**
 * The backup decisions: which objects are backed up and how, whether a
 * file changed since the previous version, which versions a new version
 * depends on, and how a restore request picks its version and orders the
 * files it restores.  `Fso` holds the fields of a file system object that
 * these decisions read and write, and the path logic over its parent chain;
 * `BackupStream` is a stream of the archive with the objects it carries.
 */
module Backup {
  import opened Types
  import opened Sorting
  import CaseInsensitive

  /** `invalid_version_number`. */
  const INVALID_VERSION: int := -1
  /** `first_valid_stream_id`: one past `invalid_stream_id`, which is 0. */
  const FIRST_VALID_STREAM_ID: u64 := 1
  /** Files below 1 MiB are compared by hash under HashAuto. */
  const HASH_AUTO_LIMIT: nat := 1024 * 1024

  type Sha256 = s: seq<u8> | |s| == 32 witness seq(32, _ => 0)

  datatype FileHash = FileHash(valid: bool, digest: Sha256)

  const ZERO_DIGEST: Sha256 := seq(32, _ => 0)
  const ONES_DIGEST: Sha256 := seq(32, _ => 1)
  datatype Guid = Guid(valid: bool, data: seq<u8>)

  datatype FsoType = Directory | RegularFile | DirectorySymlink | Junction | FileSymlink | FileHardlink | FileReparsePoint
  datatype BackupMode = NoBackup | Directory | Full | ForceFull | Unmodified | Rsync
  datatype ChangeCriterium = ArchiveFlag | Size | Date | Hash | HashAuto
  datatype NameIgnoreType = File | Directory | All
  datatype DriveType = Unknown | NoRootDirectory | Removable | Fixed | Network | CDRom | Ram
  datatype BasePathType = Mapped | Unmapped | Override

  /** The numeric value of a `NameIgnoreType`: File = 0, Directory = 1, All = 2. */
  function IgnoreBits(t: NameIgnoreType): bv32
  {
    match t
    case File => 0
    case Directory => 1
    case All => 2
  }

  /** `is_backupable`: removable, fixed and RAM drives only. */
  function IsBackupable(t: DriveType): (r: bool)
    ensures r <==> t == Removable || t == Fixed || t == Ram
  {
    match t
    case Unknown | NoRootDirectory | Network | CDRom => false
    case Removable | Fixed | Ram => true
  }

  /** The characters `regex_escape` escapes; the array's terminating NUL is among them. */
  const ESCAPED: seq<char> := ".^$|()[]{}*+?\\" + ['\0']

  function EscapeChar(c: char): string
  {
    if c in ESCAPED then ['\\', c] else [c]
  }

  /** The number of characters of `s` that get a backslash. */
  function CountEscaped(s: string): nat
  {
    if s == [] then 0 else (if s[0] in ESCAPED then 1 else 0) + CountEscaped(s[1..])
  }

  /** `regex_escape`: a backslash before every special character, everything else copied. */
  function RegexEscape(s: string): (r: string)
    ensures |r| == |s| + CountEscaped(s)
    ensures s == [] <==> r == []
  {
    if s == [] then [] else EscapeChar(s[0]) + RegexEscape(s[1..])
  }

  /** Reading an escaped string back: a backslash makes the next character literal. */
  function Unescape(r: string): string
    decreases |r|
  {
    if r == [] then []
    else if r[0] == '\\' && |r| >= 2 then [r[1]] + Unescape(r[2..])
    else [r[0]] + Unescape(r[1..])
  }

  /** Unescaping reads one escaped character back and goes on with the rest. */
  lemma UnescapeChar(c: char, rest: string)
    ensures Unescape(EscapeChar(c) + rest) == [c] + Unescape(rest)
  {
    if c in ESCAPED {
      assert (['\\', c] + rest)[2..] == rest;
    } else {
      assert '\\' in ESCAPED;
      assert ([c] + rest)[1..] == rest;
    }
  }

  /** Escaping loses nothing: unescaping gives the original string back. */
  lemma {:induction false} EscapeRoundTrip(s: string)
    ensures Unescape(RegexEscape(s)) == s
  {
    if s != [] {
      EscapeRoundTrip(s[1..]);
      UnescapeChar(s[0], RegexEscape(s[1..]));
      assert [s[0]] + s[1..] == s;
    }
  }

  /**
   * The extension of a file name as `path::extension` gives it: from the
   * last dot to the end, nothing without a dot and nothing for "." and "..".
   */
  function Extension(name: string): (e: string)
    ensures e == [] || (|e| <= |name| && e[0] == '.' && e == name[|name| - |e|..])
    ensures forall k | 1 <= k < |e| :: e[k] != '.'
    ensures e == [] && name != "." && name != ".." ==> '.' !in name
    ensures name == "." || name == ".." ==> e == []
  {
    if name == "." || name == ".." then ""
    else ExtensionFrom(name, |name|)
  }

  /** The suffix starting at the last dot before index `i`; none follows `i`. */
  function ExtensionFrom(name: string, i: nat): (e: string)
    requires i <= |name| && forall j | i <= j < |name| :: name[j] != '.'
    ensures e == [] || (|e| <= |name| && e[0] == '.' && e == name[|name| - |e|..])
    ensures forall k | 1 <= k < |e| :: e[k] != '.'
    ensures e == [] ==> '.' !in name
  {
    if i == 0 then ""
    else if name[i - 1] == '.' then name[i - 1..]
    else ExtensionFrom(name, i - 1)
  }

  /** How `file_has_changed` compares by hash; equal digests count as a change. */
  function CompareHashes(oldHash: FileHash, newHash: Option<Sha256>): (changed: bool)
    ensures !oldHash.valid || newHash.None? ==> changed
    ensures !changed ==> newHash.Some? && newHash.value != oldHash.digest
  {
    if !oldHash.valid then true
    else if newHash.None? then true
    else newHash.value == oldHash.digest
  }

  /**
   * The hash comparison reports a change exactly when the digests agree,
   * and no change when they differ: the test is inverted.
   */
  lemma CompareHashesInverted(oldHash: FileHash, newHash: Sha256)
    requires oldHash.valid
    ensures CompareHashes(oldHash, Some(newHash)) <==> newHash == oldHash.digest
  {
  }

  /** An identical file is reported as changed; a file with another digest as unchanged. */
  lemma CompareHashesWitness()
    ensures CompareHashes(FileHash(true, ZERO_DIGEST), Some(ZERO_DIGEST))
    ensures !CompareHashes(FileHash(true, ZERO_DIGEST), Some(ONES_DIGEST))
  {
    assert ONES_DIGEST[0] != ZERO_DIGEST[0];
  }

  /** The kind of a backup stream and the version dependencies it adds. */
  datatype StreamKind = UnmodifiedStream(containingVersion: int) | FullStream

  /** A stream of the archive with the objects whose data it carries. */
  class BackupStream {
    const kind: StreamKind
    var uniqueId: u64
    var fsos: seq<Fso>

    constructor (k: StreamKind, id: u64)
      ensures kind == k && uniqueId == id && fsos == []
    {
      kind := k;
      uniqueId := id;
      fsos := [];
    }

    /**
     * `get_dependencies(dst)`: an unmodified stream needs the version that
     * holds its data; a full stream needs nothing.
     */
    function GetDependencies(dst: set<int>): (r: set<int>)
      ensures dst <= r
      ensures kind.UnmodifiedStream? ==> r - dst <= {kind.containingVersion} && kind.containingVersion in r
      ensures kind.FullStream? ==> r == dst
    {
      match kind
      case UnmodifiedStream(v) => dst + {v}
      case FullStream => dst
    }

    /** Collecting a stream's dependencies twice adds nothing the first pass did not. */
    lemma GetDependenciesIdempotent(dst: set<int>)
      ensures GetDependencies(GetDependencies(dst)) == GetDependencies(dst)
    {
    }

    /** `add_file_system_object`. */
    method AddFileSystemObject(f: Fso)
      modifies this`fsos
      ensures fsos == old(fsos) + [f]
    {
      fsos := fsos + [f];
    }
  }

  /** A file system object: its name, its parent, and the fields the backup decisions use. */
  class Fso {
    var name: string
    var parent: Fso?
    var mappedBasePath: Option<string>
    var unmappedBasePath: Option<string>
    const kind: FsoType
    const directoryish: bool
    const linkish: bool
    var latestVersion: int
    var streamId: u64
    var hash: FileHash
    var guid: Guid
    var backupMode: BackupMode
    var backupStream: BackupStream?
    var size: u64
    var modificationTime: int
    var archiveFlag: bool

    constructor (n: string, p: Fso?, k: FsoType, isDirectoryish: bool, isLinkish: bool)
      ensures name == n && parent == p && kind == k && directoryish == isDirectoryish && linkish == isLinkish
      ensures mappedBasePath == None && unmappedBasePath == None && backupStream == null
    {
      name := n;
      parent := p;
      kind := k;
      directoryish := isDirectoryish;
      linkish := isLinkish;
      mappedBasePath := None;
      unmappedBasePath := None;
      latestVersion := INVALID_VERSION;
      streamId := 0;
      hash := FileHash(false, ZERO_DIGEST);
      guid := Guid(false, []);
      backupMode := BackupMode.Full;
      backupStream := null;
      size := 0;
      modificationTime := 0;
      archiveFlag := false;
    }

    /** `set_hash`: stores the digest and marks it valid. */
    method SetHash(digest: Sha256)
      modifies this`hash
      ensures hash.valid && hash.digest == digest
    {
      hash := FileHash(true, digest);
    }

    /** `set_unique_ids`: the object takes the backup system's next stream id. */
    method SetUniqueIds(bs: BackupSystem)
      modifies this`streamId, bs`nextStreamId
      ensures streamId == old(bs.nextStreamId)
      ensures bs.nextStreamId == (old(bs.nextStreamId) + 1) % TWO_64
    {
      streamId := bs.GetStreamId();
    }
  }

  /** `chain` lists an object and its ancestors up to the root, in that order. */
  ghost predicate Ancestry(chain: seq<Fso>)
    reads set i | 0 <= i < |chain| :: chain[i]
  {
    |chain| > 0 &&
    (forall i | 0 <= i < |chain| - 1 :: chain[i].parent == chain[i + 1]) &&
    chain[|chain| - 1].parent == null
  }

  /** The names along the chain, root first. */
  ghost function NamesRootFirst(chain: seq<Fso>): seq<string>
    reads set i | 0 <= i < |chain| :: chain[i]
  {
    if chain == [] then [] else NamesRootFirst(chain[1..]) + [chain[0].name]
  }

  /**
   * `path_override_base(base, override)`: the base (the root's mapped or
   * unmapped base, or the given override), then the names from the root
   * ancestor down to the object.  Paths are sequences of components.
   */
  method PathOverrideBase(fso: Fso, baseOverride: Option<string>, override: BasePathType, ghost chain: seq<Fso>)
    returns (path: seq<string>)
    requires Ancestry(chain) && chain[0] == fso
    ensures var root := chain[|chain| - 1];
            var base := match override
              case Mapped => root.mappedBasePath
              case Unmapped => root.unmappedBasePath
              case Override => baseOverride;
            path == (if base.Some? then [base.value] else []) + NamesRootFirst(chain)
  {
    var current := fso;
    var names: seq<string> := [];
    ghost var k := 0;
    while true
      invariant 0 <= k < |chain| && current == chain[k]
      invariant k < |chain| - 1 ==> current.parent == chain[k + 1]
      invariant |names| == k && forall j | 0 <= j < k :: names[j] == chain[j].name
      decreases |chain| - k
    {
      names := names + [current.name];
      if current.parent == null {
        break;
      }
      current := current.parent;
      k := k + 1;
    }
    assert k == |chain| - 1;
    var base: Option<string>;
    match override {
      case Mapped => base := current.mappedBasePath;
      case Unmapped => base := current.unmappedBasePath;
      case Override => base := baseOverride;
    }
    path := if base.Some? then [base.value] else [];
    var i := |names|;
    while i > 0
      invariant 0 <= i <= |names|
      invariant path == (if base.Some? then [base.value] else []) + NamesRootFirst(chain[i..])
    {
      i := i - 1;
      assert chain[i..][1..] == chain[i + 1..];
      path := path + [names[i]];
    }
    assert chain[0..] == chain;
  }

  /** `dir` with a trailing "." component dropped. */
  function DropDot(dir: seq<string>): seq<string>
  {
    if |dir| > 0 && dir[|dir| - 1] == "." then dir[..|dir| - 1] else dir
  }

  /** `std::equal` with `pathcmp` over the first `n` components. */
  function ComponentsEqual(a: seq<string>, b: seq<string>, n: nat): (r: bool)
    requires n <= |a| && n <= |b|
    ensures r <==> forall i | 0 <= i < n :: CaseInsensitive.Equal(a[i], b[i])
  {
    if n == 0 then true else ComponentsEqual(a, b, n - 1) && CaseInsensitive.Equal(a[n - 1], b[n - 1])
  }

  /**
   * `path_contains_path(dir, file)`: the directory's components, a trailing
   * "." dropped, lead the components of the file's parent, compared ignoring
   * case.  Normalisation is not modelled; both paths come in components.
   */
  function PathContainsPath(dir: seq<string>, file: seq<string>): (r: bool)
    requires |file| > 0
    ensures var d, p := DropDot(dir), file[..|file| - 1];
            r <==> |d| <= |p| && forall i | 0 <= i < |d| :: CaseInsensitive.Lowered(d[i]) == CaseInsensitive.Lowered(p[i])
  {
    var d := DropDot(dir);
    var p := file[..|file| - 1];
    if |d| > |p| then false else ComponentsEqual(d, p, |d|)
  }

  /** A file lies in its own directory, and in every directory above it. */
  lemma ParentContains(file: seq<string>, k: nat)
    requires 0 < |file| && k < |file|
    requires k > 0 ==> file[k - 1] != "."
    ensures PathContainsPath(file[..k], file)
  {
    var d := file[..k];
    assert DropDot(d) == d;
    forall i | 0 <= i < k
      ensures CaseInsensitive.Lowered(d[i]) == CaseInsensitive.Lowered(file[..|file| - 1][i])
    {
    }
  }

  /** `contains(path)`: the object's mapped path contains `path`. */
  method Contains(fso: Fso, path: seq<string>, ghost chain: seq<Fso>) returns (r: bool)
    requires Ancestry(chain) && chain[0] == fso && |path| > 0
    ensures var root := chain[|chain| - 1];
            var mapped := (if root.mappedBasePath.Some? then [root.mappedBasePath.value] else []) + NamesRootFirst(chain);
            r == PathContainsPath(mapped, path)
  {
    var mapped := PathOverrideBase(fso, None, Mapped, chain);
    r := PathContainsPath(mapped, path);
  }

  /** The restore order: by version, then by stream id. */
  datatype RestoreEntry = RestoreEntry(version: int, streamId: u64, fso: nat)

  predicate RestoreLess(a: RestoreEntry, b: RestoreEntry)
  {
    if a.version < b.version then true
    else if a.version > b.version then false
    else a.streamId < b.streamId
  }

  lemma RestoreLessIsStrictOrder()
    ensures StrictOrder(RestoreLess)
  {
  }

  /** The sort in `restore_backup`: the same entries, ordered by version, then stream id. */
  function RestoreOrder(entries: seq<RestoreEntry>): (r: seq<RestoreEntry>)
    ensures multiset(r) == multiset(entries)
    ensures SortedBy(r, RestoreLess)
    ensures forall i, j | 0 <= i < j < |r| :: r[i].version <= r[j].version
  {
    RestoreLessIsStrictOrder();
    SortBySorted(entries, RestoreLess);
    var r := SortBy(entries, RestoreLess);
    assert forall i, j | 0 <= i < j < |r| :: !RestoreLess(r[j], r[i]);
    r
  }

  /** The outcome of the first steps of `restore_backup`. */
  datatype RestoreStart = NothingToRestore | NoSuchVersion | RestoreVersion(version: int)

  /**
   * The backup system's state between operations: the versions found in the
   * target directory, the cached version count, the ignore rules, the change
   * criterion and the stream id counter.
   */
  class BackupSystem {
    var versions: seq<int>
    var versionCount: int
    var changeCriterium: ChangeCriterium
    var ignoredNames: map<string, NameIgnoreType>
    var ignoredExtensions: set<string>
    var ignoredPaths: set<string>
    var nextStreamId: u64

    /** The versions are kept in ascending order. */
    ghost predicate Valid()
      reads this
    {
      forall i, j | 0 <= i < j < |versions| :: versions[i] <= versions[j]
    }

    /**
     * `BackupSystem(dst)`: no cached count, the default criterion HashAuto,
     * the first valid stream id, and the version numbers found, sorted.
     */
    constructor (found: seq<int>)
      ensures Valid() && multiset(versions) == multiset(found)
      ensures versionCount == -1 && changeCriterium == HashAuto && nextStreamId == FIRST_VALID_STREAM_ID
      ensures ignoredNames == map[] && ignoredExtensions == {} && ignoredPaths == {}
    {
      var lt := (a: int, b: int) => a < b;
      SortBySorted(found, lt);
      versions := SortBy(found, lt);
      versionCount := -1;
      changeCriterium := HashAuto;
      ignoredNames := map[];
      ignoredExtensions := {};
      ignoredPaths := {};
      nextStreamId := FIRST_VALID_STREAM_ID;
    }

    /**
     * `get_version_count`: the cached count once there is one; otherwise one
     * past the last version, or 0 without versions, which is then cached.
     */
    method GetVersionCount() returns (n: int)
      requires Valid()
      modifies this`versionCount
      ensures old(versionCount) >= 0 ==> n == old(versionCount) && versionCount == old(versionCount)
      ensures old(versionCount) < 0 ==> versionCount == n
      ensures old(versionCount) < 0 ==> (versions == [] <==> n == 0) || (versions != [] && versions[|versions| - 1] == -1)
      ensures old(versionCount) < 0 ==> forall v | v in versions :: v < n
      ensures old(versionCount) < 0 && versions != [] ==> n - 1 in versions
    {
      if versionCount >= 0 {
        return versionCount;
      }
      n := if |versions| > 0 then versions[|versions| - 1] + 1 else 0;
      versionCount := n;
    }

    /** `std::lower_bound` over the versions: the first index whose version is at least `v`. */
    function LowerBound(v: int): (i: nat)
      reads this
      requires Valid()
      ensures i <= |versions|
      ensures forall j | 0 <= j < i :: versions[j] < v
      ensures i < |versions| ==> versions[i] >= v
    {
      LowerBoundFrom(v, 0)
    }

    function LowerBoundFrom(v: int, from: nat): (i: nat)
      reads this
      requires Valid() && from <= |versions| && forall j | 0 <= j < from :: versions[j] < v
      ensures from <= i <= |versions|
      ensures forall j | 0 <= j < i :: versions[j] < v
      ensures i < |versions| ==> versions[i] >= v
      decreases |versions| - from
    {
      if from == |versions| || versions[from] >= v then from else LowerBoundFrom(v, from + 1)
    }

    /** `version_exists(v)`: some recorded version is at least `v`, which is not membership. */
    function VersionExists(v: int): (r: bool)
      reads this
      requires Valid()
      ensures r <==> exists x | x in versions :: x >= v
    {
      var i := LowerBound(v);
      assert i < |versions| ==> versions[i] in versions;
      i != |versions|
    }

    /** `version_exists` accepts a version that was never recorded. */
    lemma VersionExistsIsNotMembership()
      requires versions == [3]
      ensures VersionExists(1) && 1 !in versions
    {
    }

    /** `get_stream_id`: the next stream id, post-incremented on 64 bits. */
    method GetStreamId() returns (id: u64)
      modifies this`nextStreamId
      ensures id == old(nextStreamId)
      ensures nextStreamId == (old(nextStreamId) + 1) % TWO_64
    {
      id := nextStreamId;
      nextStreamId := (nextStreamId + 1) % TWO_64;
    }

    /** `get_change_criterium`: HashAuto picks Hash below 1 MiB and Date otherwise. */
    function GetChangeCriterium(fileSize: u64): (c: ChangeCriterium)
      reads this
      ensures c != HashAuto
      ensures changeCriterium != HashAuto ==> c == changeCriterium
      ensures changeCriterium == HashAuto ==> (c == ChangeCriterium.Hash <==> fileSize < HASH_AUTO_LIMIT) && (c == ChangeCriterium.Hash || c == Date)
    {
      match changeCriterium
      case ArchiveFlag | Size | Date | Hash => changeCriterium
      case HashAuto => if fileSize < HASH_AUTO_LIMIT then ChangeCriterium.Hash else Date
    }

    /**
     * `get_backup_mode_for_object`: NoBackup for an ignored name, an ignored
     * extension on a non-directory, or an ignored base path; otherwise
     * Directory or Full.  The name rule masks the ignore type with the
     * numeric values of File (0) and Directory (1), so only a Directory
     * entry on a directory excludes anything.  Links are never followed.
     */
    function GetBackupModeForObject(fso: Fso): (r: (BackupMode, bool))
      reads this, fso
      requires fso.unmappedBasePath.Some?
      ensures !r.1
      ensures r.0 == NoBackup <==>
        (fso.name in ignoredNames && ignoredNames[fso.name] == NameIgnoreType.Directory && fso.directoryish) ||
        (Extension(fso.name) in ignoredExtensions && !fso.directoryish) ||
        fso.unmappedBasePath.value in ignoredPaths
      ensures r.0 != NoBackup ==> r.0 == if fso.directoryish then BackupMode.Directory else BackupMode.Full
    {
      var dir := fso.directoryish;
      var bits := if fso.name in ignoredNames then IgnoreBits(ignoredNames[fso.name]) else 0;
      if (!dir && bits & IgnoreBits(NameIgnoreType.File) != 0) || (dir && bits & IgnoreBits(NameIgnoreType.Directory) != 0) then
        (NoBackup, false)
      else if Extension(fso.name) in ignoredExtensions && !dir then
        (NoBackup, false)
      else if fso.unmappedBasePath.value in ignoredPaths then
        (NoBackup, false)
      else
        (if dir then BackupMode.Directory else BackupMode.Full, false)
    }

    /**
     * `should_be_added`: directoryish objects, objects not backed up, file
     * hard links and files whose valid GUID is already known are not added.
     * The latest version is reset to -1, and set to the new version number
     * once the first three checks pass.
     */
    method ShouldBeAdded(fso: Fso, knownGuids: map<seq<u8>, BackupStream>, newVersion: int) returns (r: bool)
      modifies fso`latestVersion
      ensures r <==>
        !fso.directoryish && fso.backupMode != NoBackup && !(fso.linkish && fso.kind == FileHardlink) &&
        !(fso.guid.valid && fso.guid.data in knownGuids)
      ensures fso.latestVersion ==
        if fso.directoryish || fso.backupMode == NoBackup || (fso.linkish && fso.kind == FileHardlink)
        then INVALID_VERSION else newVersion
    {
      fso.latestVersion := INVALID_VERSION;
      if fso.directoryish {
        return false;
      }
      if fso.backupMode == NoBackup {
        return false;
      }
      if fso.linkish && fso.kind == FileHardlink {
        return false;
      }
      fso.latestVersion := newVersion;
      if fso.guid.valid && fso.guid.data in knownGuids {
        return false;
      }
      return true;
    }

    /**
     * `fix_up_stream_reference`: links a file to the stream already made for
     * its GUID.  The GUID test is inverted: a valid GUID returns at once, and
     * only an invalid one is looked up.
     */
    method FixUpStreamReference(fso: Fso, knownGuids: map<seq<u8>, BackupStream>)
      modifies fso`streamId, fso`backupStream, fso`latestVersion, (set k | k in knownGuids :: knownGuids[k])`fsos
      ensures fso.kind == FileHardlink || fso.directoryish || fso.guid.valid || fso.guid.data !in knownGuids ==>
        fso.streamId == old(fso.streamId) && fso.backupStream == old(fso.backupStream) &&
        fso.latestVersion == old(fso.latestVersion) &&
        forall k | k in knownGuids :: knownGuids[k].fsos == old(knownGuids[k].fsos)
      ensures !(fso.kind == FileHardlink || fso.directoryish || fso.guid.valid) && fso.guid.data in knownGuids ==>
        var s := knownGuids[fso.guid.data];
        fso.streamId == s.uniqueId && fso.backupStream == s && s.fsos == old(s.fsos) + [fso] &&
        fso.latestVersion == (if old(s.fsos) != [] then old(s.fsos[0].latestVersion) else old(fso.latestVersion)) &&
        forall k | k in knownGuids && knownGuids[k] != s :: knownGuids[k].fsos == old(knownGuids[k].fsos)
    {
      if fso.kind == FileHardlink || fso.directoryish {
        return;
      }
      if fso.guid.valid {
        return;
      }
      if fso.guid.data !in knownGuids {
        return;
      }
      var stream := knownGuids[fso.guid.data];
      fso.streamId := stream.uniqueId;
      fso.backupStream := stream;
      if |stream.fsos| > 0 {
        fso.latestVersion := stream.fsos[0].latestVersion;
      }
      stream.AddFileSystemObject(fso);
    }

    /**
     * The hash `new_file` holds after the comparison: `compute_hash` stores
     * `newHash` when it is computed, which happens when there is no old file
     * and when the hash criterion meets a valid old hash.
     */
    ghost function HashAfterCompare(newFile: Fso, oldFile: Fso?, newHash: Option<Sha256>, before: FileHash): FileHash
      reads this, newFile, oldFile
    {
      var computes := oldFile == null || (GetChangeCriterium(newFile.size) == ChangeCriterium.Hash && oldFile.hash.valid);
      if computes && newHash.Some? then FileHash(true, newHash.value) else before
    }

    /**
     * `file_has_changed(dst, new_file)`.  `oldFile` is the first non-directory
     * object found at the same path in the old versions, and `newHash` the
     * digest `compute_hash` gets for the new file, `None` when it fails.  An
     * unchanged file takes the old file's hash (when valid), latest version
     * and stream id, and `dst` is that version; otherwise `dst` is -1.
     */
    method FileHasChanged(newFile: Fso, oldFile: Fso?, newHash: Option<Sha256>) returns (changed: bool, dst: int)
      requires oldFile != newFile
      modifies newFile`hash, newFile`latestVersion, newFile`streamId
      ensures oldFile == null ==> changed && dst == INVALID_VERSION
      ensures oldFile != null ==> changed == match GetChangeCriterium(newFile.size)
        case ArchiveFlag => newFile.archiveFlag
        case Size => newFile.size != oldFile.size
        case Date => newFile.modificationTime != oldFile.modificationTime
        case Hash => CompareHashes(oldFile.hash, newHash)
        case HashAuto => true
      ensures changed ==>
        dst == INVALID_VERSION && newFile.hash == HashAfterCompare(newFile, oldFile, newHash, old(newFile.hash)) &&
        newFile.latestVersion == old(newFile.latestVersion) && newFile.streamId == old(newFile.streamId)
      ensures !changed ==>
        oldFile != null && dst == oldFile.latestVersion && newFile.latestVersion == oldFile.latestVersion &&
        newFile.streamId == oldFile.streamId &&
        newFile.hash == if oldFile.hash.valid then oldFile.hash
                        else HashAfterCompare(newFile, oldFile, newHash, old(newFile.hash))
    {
      dst := INVALID_VERSION;
      if oldFile == null {
        if newHash.Some? {
          newFile.SetHash(newHash.value);
        }
        return true, dst;
      }
      var criterium := GetChangeCriterium(newFile.size);
      match criterium {
        case ArchiveFlag => changed := newFile.archiveFlag;
        case Size => changed := newFile.size != oldFile.size;
        case Date => changed := newFile.modificationTime != oldFile.modificationTime;
        case Hash =>
          if oldFile.hash.valid && newHash.Some? {
            newFile.SetHash(newHash.value);
          }
          changed := CompareHashes(oldFile.hash, newHash);
        case HashAuto => changed := true;
      }
      if !changed {
        var h := oldFile.hash;
        if h.valid {
          newFile.SetHash(h.digest);
        }
        var v := oldFile.latestVersion;
        newFile.latestVersion := v;
        newFile.streamId := oldFile.streamId;
        dst := v;
      }
    }

    /**
     * `get_dependencies(dst, fso)`: nothing for an object without a version,
     * its own version when it has no stream, else what its stream needs.
     */
    function GetDependencies(dst: set<int>, fso: Fso): (r: set<int>)
      reads fso
      ensures dst <= r
      ensures fso.latestVersion == INVALID_VERSION ==> r == dst
      ensures fso.latestVersion != INVALID_VERSION && fso.backupStream == null ==> r == dst + {fso.latestVersion}
      ensures fso.latestVersion != INVALID_VERSION && fso.backupStream != null ==> r == fso.backupStream.GetDependencies(dst)
    {
      if fso.latestVersion == INVALID_VERSION then dst
      else if fso.backupStream == null then dst + {fso.latestVersion}
      else fso.backupStream.GetDependencies(dst)
    }

    /** Collecting an object's dependencies twice adds nothing the first pass did not. */
    lemma GetDependenciesIdempotent(dst: set<int>, fso: Fso)
      ensures GetDependencies(GetDependencies(dst, fso), fso) == GetDependencies(dst, fso)
    {
      if fso.latestVersion != INVALID_VERSION && fso.backupStream != null {
        fso.backupStream.GetDependenciesIdempotent(dst);
      }
    }

    /**
     * The first steps of `restore_backup(v)`: nothing to do without versions;
     * a negative `v` counts back from the last version (-1 is the last); a
     * version `version_exists` rejects is an error.
     */
    function ResolveRestoreVersion(v: int): (r: RestoreStart)
      reads this
      requires Valid()
      ensures versions == [] <==> r == NothingToRestore
      ensures versions != [] ==>
        var w := if v < 0 then versions[|versions| - 1] + v + 1 else v;
        r == if VersionExists(w) then RestoreVersion(w) else NoSuchVersion
    {
      if |versions| == 0 then NothingToRestore
      else
        var w := if v < 0 then versions[|versions| - 1] + v + 1 else v;
        if VersionExists(w) then RestoreVersion(w) else NoSuchVersion
    }

    /** Every recorded version, and -1, resolve to a restore of that version; -1 is the last. */
    lemma RestoreResolvesRecorded(v: int)
      requires Valid() && v in versions
      ensures ResolveRestoreVersion(v) == RestoreVersion(v) || v < 0
      ensures ResolveRestoreVersion(-1) == RestoreVersion(versions[|versions| - 1])
    {
      var last := versions[|versions| - 1];
      assert last in versions;
    }
  }
}

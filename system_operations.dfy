/**
 * The arithmetic and string handling of the Windows system layer: long-path
 * prefixing, splitting the NUL-separated list of a volume's mount points,
 * combining a file size from its two halves, and the length fields of a
 * junction's reparse buffer.  Every operating-system call is a parameter
 * standing for what that call reports.
 */
module SystemOps {
  import opened Types
  import Arith

  const MAX_PATH: nat := 260
  /** `system_path_prefix`, the `\\?\` that lifts the path length limit. */
  const SYSTEM_PATH_PREFIX: string := "\\\\?\\"
  const NUL: char := '\0'

  /** Whether the path already starts with `\\?\`. */
  predicate HasSystemPrefix(path: string)
  {
    |path| >= 4 && path[0] == '\\' && path[1] == '\\' && path[2] == '?' && path[3] == '\\'
  }

  /**
   * `path_from_string`: a path of at least `MAX_PATH - 5` characters that
   * does not start with `\\?\` gets it prepended; any other path is kept.
   * Whatever the input, the result ends with it, and a result that long
   * always carries the prefix.
   */
  function PathFromString(path: string): (r: string)
    ensures r == path || r == SYSTEM_PATH_PREFIX + path
    ensures |r| >= |path| && r[|r| - |path|..] == path
    ensures r != path <==> |path| >= MAX_PATH - 5 && !HasSystemPrefix(path)
    ensures |r| >= MAX_PATH - 5 ==> HasSystemPrefix(r)
  {
    if |path| >= MAX_PATH - 5 && !HasSystemPrefix(path) then
      assert (SYSTEM_PATH_PREFIX + path)[|SYSTEM_PATH_PREFIX|..] == path;
      SYSTEM_PATH_PREFIX + path
    else path
  }

  /** Prefixing twice is prefixing once. */
  lemma PathFromStringIdempotent(path: string)
    ensures PathFromString(PathFromString(path)) == PathFromString(path)
  {
    var r := PathFromString(path);
    if r != path {
      assert HasSystemPrefix(r);
    }
  }

  /**
   * `strings.find(NUL, pos)`: the first NUL at or after `pos`, or `None`
   * for `npos` when there is none.
   */
  function FindNul(s: string, pos: nat): (r: Option<nat>)
    requires pos <= |s|
    ensures r.Some? ==> pos <= r.value < |s| && s[r.value] == NUL && NUL !in s[pos..r.value]
    ensures r.None? ==> NUL !in s[pos..]
    decreases |s| - pos
  {
    if pos == |s| then None
    else if s[pos] == NUL then Some(pos)
    else
      var r := FindNul(s, pos + 1);
      assert r.Some? ==> s[pos..r.value] == [s[pos]] + s[pos + 1..r.value];
      assert s[pos..] == [s[pos]] + s[pos + 1..];
      r
  }

  /**
   * The mount points a NUL-separated list names: each string up to the
   * next NUL, in order, ending at the first empty string or where no NUL
   * follows.
   */
  function MountPoints(s: string): (r: seq<string>)
    decreases |s|
  {
    match FindNul(s, 0)
    case None => []
    case Some(e) => if e == 0 then [] else [s[..e]] + MountPoints(s[e + 1..])
  }

  /** Every mount point is a non-empty string without a NUL. */
  lemma {:induction false} MountPointsWellFormed(s: string)
    ensures forall i | 0 <= i < |MountPoints(s)| :: |MountPoints(s)[i]| > 0 && NUL !in MountPoints(s)[i]
    decreases |s|
  {
    match FindNul(s, 0)
    case None =>
    case Some(e) =>
      if e > 0 {
        MountPointsWellFormed(s[e + 1..]);
        assert s[..e] == s[0..e];
      }
  }

  /** The list a caller would write: each string followed by a NUL. */
  function Joined(paths: seq<string>): string
  {
    if paths == [] then [] else paths[0] + [NUL] + Joined(paths[1..])
  }

  /** A NUL with none before it, from `pos` on, is the one `find` reports. */
  lemma {:induction false} FirstNul(s: string, pos: nat, e: nat)
    requires pos <= e < |s| && s[e] == NUL && NUL !in s[pos..e]
    ensures FindNul(s, pos) == Some(e)
    decreases e - pos
  {
    if pos < e {
      assert s[pos] == s[pos..e][0];
      assert s[pos + 1..e] == s[pos..e][1..];
      FirstNul(s, pos + 1, e);
    }
  }

  /** With no NUL from `pos` on, `find` reports `npos`. */
  lemma {:induction false} NoNul(s: string, pos: nat)
    requires pos <= |s| && NUL !in s[pos..]
    ensures FindNul(s, pos) == None
    decreases |s| - pos
  {
    if pos < |s| {
      assert s[pos] == s[pos..][0];
      assert s[pos + 1..] == s[pos..][1..];
      NoNul(s, pos + 1);
    }
  }

  /** A non-empty string without a NUL, then a NUL, is the first mount point. */
  lemma MountPointsCons(p: string, rest: string)
    requires |p| > 0 && NUL !in p
    ensures MountPoints(p + [NUL] + rest) == [p] + MountPoints(rest)
  {
    var s := p + [NUL] + rest;
    assert s[0..|p|] == p;
    FirstNul(s, 0, |p|);
    assert s[..|p|] == p;
    assert s[|p| + 1..] == rest;
  }

  /** A list that starts with a NUL, or has none, names no mount point. */
  lemma MountPointsEmpty(tail: string)
    requires (|tail| > 0 && tail[0] == NUL) || NUL !in tail
    ensures MountPoints(tail) == []
  {
    assert tail[0..] == tail;
    if NUL in tail {
      FirstNul(tail, 0, 0);
    } else {
      NoNul(tail, 0);
    }
  }

  /**
   * Splitting undoes joining: after the joined strings, an empty string
   * (a second NUL) or a tail with no NUL ends the list, whatever follows.
   */
  lemma {:induction false} MountPointsOfJoined(paths: seq<string>, tail: string)
    requires forall i | 0 <= i < |paths| :: |paths[i]| > 0 && NUL !in paths[i]
    requires (|tail| > 0 && tail[0] == NUL) || NUL !in tail
    ensures MountPoints(Joined(paths) + tail) == paths
  {
    if paths == [] {
      assert Joined(paths) + tail == tail;
      MountPointsEmpty(tail);
    } else {
      var rest := Joined(paths[1..]) + tail;
      assert Joined(paths) + tail == paths[0] + [NUL] + rest;
      MountPointsCons(paths[0], rest);
      MountPointsOfJoined(paths[1..], tail);
    }
  }

  /** The first NUL at or after `pos` is the first NUL of the rest of the string. */
  lemma FindNulOfRest(s: string, pos: nat)
    requires pos <= |s|
    ensures FindNul(s, pos).None? ==> FindNul(s[pos..], 0) == None
    ensures FindNul(s, pos).Some? ==> FindNul(s[pos..], 0) == Some(FindNul(s, pos).value - pos)
  {
    var rest := s[pos..];
    assert rest[0..] == rest;
    match FindNul(s, pos)
    case None =>
      NoNul(rest, 0);
    case Some(e) =>
      assert rest[0..e - pos] == s[pos..e];
      FirstNul(rest, 0, e - pos);
  }

  /**
   * One turn of the splitting loop: `find` from `pos` either ends the list
   * (a NUL right at `pos`, or none left) or yields the string up to the NUL
   * and moves `pos` past it.
   */
  method NextMountPoint(buffer: string, pos: nat) returns (piece: Option<string>, next: nat)
    requires pos <= |buffer|
    ensures piece.None? ==> MountPoints(buffer[pos..]) == []
    ensures piece.Some? ==>
      pos < next <= |buffer| && MountPoints(buffer[pos..]) == [piece.value] + MountPoints(buffer[next..])
  {
    var end := FindNul(buffer, pos);
    FindNulOfRest(buffer, pos);
    if end == Some(pos) {
      return None, pos;
    }
    if end.None? {
      return None, pos;
    }
    var e := end.value;
    ghost var rest := buffer[pos..];
    assert rest[..e - pos] == buffer[pos..e];
    assert rest[e - pos + 1..] == buffer[e + 1..];
    return Some(buffer[pos..e]), e + 1;
  }

  /**
   * The splitting loop of `enumerate_mounted_paths`: `buffer` holds the
   * `length` characters the volume query returned, and the strings are
   * yielded in order.
   */
  method EnumerateMountedPaths(buffer: string) returns (paths: seq<string>)
    ensures paths == MountPoints(buffer)
  {
    paths := [];
    var pos := 0;
    assert buffer[0..] == buffer;
    while true
      invariant pos <= |buffer|
      invariant paths + MountPoints(buffer[pos..]) == MountPoints(buffer)
      decreases |buffer| - pos
    {
      var piece, next := NextMountPoint(buffer, pos);
      if piece.None? {
        break;
      }
      assert (paths + [piece.value]) + MountPoints(buffer[next..]) == paths + MountPoints(buffer[pos..]);
      paths := paths + [piece.value];
      pos := next;
    }
  }

  /** The size halves of a `WIN32_FILE_ATTRIBUTE_DATA`. */
  datatype FileAttributes = FileAttributes(sizeHigh: u32, sizeLow: u32)

  /**
   * `get_file_size`: the attributes of the prefixed path, as `query`
   * reports them (or its error code), give the size `high << 32 | low`.
   */
  function GetFileSize(path: string, query: string -> Result<FileAttributes, u32>): (r: Result<u64, u32>)
    ensures query(PathFromString(path)).Err? ==> r == Err(query(PathFromString(path)).error)
    ensures query(PathFromString(path)).Ok? ==>
      (var a := query(PathFromString(path)).value;
       r.Ok? && r.value / TWO_32 == a.sizeHigh && r.value % TWO_32 == a.sizeLow)
  {
    match query(PathFromString(path))
    case Err(error) => Err(error)
    case Ok(a) => Ok(Arith.HighLow(a.sizeHigh, a.sizeLow))
  }

  const ERROR_SUCCESS: u32 := 0
  const IO_REPARSE_TAG_MOUNT_POINT: u32 := 0xA000_0003
  /** The NT namespace prefix `\??\` put before a junction's target. */
  const NT_PREFIX: string := "\\??\\"
  /** `offsetof(REPARSE_MOUNTPOINT_DATA_BUFFER, ReparseTarget)`: a DWORD and six WORDs. */
  const REPARSE_TARGET_OFFSET: nat := 16
  /** The tag, the data length and the reserved WORD that the data length does not count. */
  const REPARSE_HEADER_LENGTH: nat := 8

  /** The fields of the mount-point reparse buffer `create_junction` sends, and its size. */
  datatype MountPointBuffer = MountPointBuffer(
    tag: u32, dataLength: u16, reserved: u16, targetLength: u16,
    targetMaximumLength: u16, reserved1: u16, target: string, size: nat)

  /**
   * The reparse buffer for a junction to `targetLocation`.  The length
   * fields are WORDs: each is truncated to 16 bits.  When the target fits,
   * the target length is its size in UTF-16 bytes, the maximum length adds
   * the terminating NUL, and the data length covers everything after the
   * 8-byte header.
   */
  function MountPoint(targetLocation: string): (b: MountPointBuffer)
    ensures b.tag == IO_REPARSE_TAG_MOUNT_POINT && b.target == NT_PREFIX + targetLocation
    ensures b.size == REPARSE_TARGET_OFFSET + 2 * |b.target| + 4
    ensures b.targetLength == (2 * |b.target|) % TWO_16
    ensures b.targetMaximumLength == (b.targetLength + 2) % TWO_16
    ensures b.dataLength == (b.size - REPARSE_HEADER_LENGTH) % TWO_16
    ensures b.size - REPARSE_HEADER_LENGTH < TWO_16 ==>
      b.targetLength == 2 * |b.target| &&
      b.targetMaximumLength == b.targetLength + 2 &&
      b.dataLength == b.size - REPARSE_HEADER_LENGTH &&
      b.size == REPARSE_TARGET_OFFSET + b.targetMaximumLength + 2
  {
    var target := NT_PREFIX + targetLocation;
    var byteLength := |target| * 2;
    var byteLengthZ := byteLength + 2;
    var targetLength := byteLength % TWO_16;
    var b := MountPointBuffer(IO_REPARSE_TAG_MOUNT_POINT, (byteLengthZ + 10) % TWO_16, 0,
      targetLength, (targetLength + 2) % TWO_16, 0, target, REPARSE_TARGET_OFFSET + byteLengthZ + 2);
    if b.size - REPARSE_HEADER_LENGTH < TWO_16 then
      Arith.ModBelow(byteLength, TWO_16);
      Arith.ModBelow(byteLength + 2, TWO_16);
      Arith.ModBelow(byteLengthZ + 10, TWO_16);
      b
    else b
  }

  /** What an operating-system call reports: success, or the error code `GetLastError` gives. */
  datatype Outcome = Success | Failure(error: u32)

  /**
   * `create_junction`: the link's prefixed path is opened (`open`), then the
   * mount-point buffer is sent to it (`setReparsePoint`); the first failure's
   * error code is returned, else `ERROR_SUCCESS`.
   */
  function CreateJunction(linkLocation: string, targetLocation: string,
                          open: string -> Outcome, setReparsePoint: MountPointBuffer -> Outcome): (status: u32)
    ensures open(PathFromString(linkLocation)).Failure? ==> status == open(PathFromString(linkLocation)).error
    ensures open(PathFromString(linkLocation)).Success? ==>
      (status == if setReparsePoint(MountPoint(targetLocation)).Success? then ERROR_SUCCESS
                 else setReparsePoint(MountPoint(targetLocation)).error)
  {
    match open(PathFromString(linkLocation))
    case Failure(error) => error
    case Success =>
      match setReparsePoint(MountPoint(targetLocation))
      case Failure(error) => error
      case Success => ERROR_SUCCESS
  }
}

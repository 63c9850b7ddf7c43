/**
 * The directory snapshot and comparator of the crypto round-trip test
 * (test/002_test_crypto/compare_dirs.py).  A snapshot node is the tuple
 * (name, isdir, hash, children); the comparator walks two child lists in
 * lock-step, first checking every sibling and only then descending.
 */
module TreeSnapshot {
  import opened Types
  import Sorting

  /** The file system as the snapshot code sees it through `os.listdir`. */
  datatype FsNode =
    | FsFile(name: string, contents: seq<u8>)
    | FsDir(name: string, listing: seq<FsNode>)

  /** A snapshot node: name, whether it is a directory, its MD5 (files only), children. */
  datatype Entry = Entry(name: string, isDir: bool, digest: Option<string>, children: seq<Entry>)

  const SVN := ".svn"
  const ROOT_PATH := "$(ROOT)"

  /** Python's ordering of `str` values: lexicographic by code point. */
  predicate StrLess(a: string, b: string)
  {
    if |a| == 0 then |b| > 0
    else if |b| == 0 then false
    else a[0] < b[0] || (a[0] == b[0] && StrLess(a[1..], b[1..]))
  }

  lemma {:induction false} StrLessIrreflexive(a: string)
    ensures !StrLess(a, a)
  {
    if |a| > 0 { StrLessIrreflexive(a[1..]); }
  }

  lemma {:induction false} StrLessTransitive(a: string, b: string, c: string)
    requires StrLess(a, b) && StrLess(b, c)
    ensures StrLess(a, c)
  {
    if |a| > 0 && |b| > 0 && |c| > 0 && a[0] == b[0] && b[0] == c[0] {
      StrLessTransitive(a[1..], b[1..], c[1..]);
    }
  }

  /** The sort key of line 23: entries are ordered by name only. */
  predicate NameLess(x: Entry, y: Entry) { StrLess(x.name, y.name) }

  lemma NameLessIsStrictOrder()
    ensures Sorting.StrictOrder(NameLess)
  {
    forall a: Entry ensures !NameLess(a, a) { StrLessIrreflexive(a.name); }
    forall a: Entry, b: Entry, c: Entry | NameLess(a, b) && NameLess(b, c) ensures NameLess(a, c) {
      StrLessTransitive(a.name, b.name, c.name);
    }
  }

  /**
   * `construct_tree`: a file becomes a leaf carrying its digest; a directory
   * becomes a node whose children are the snapshots of its listing without
   * `.svn`, sorted by name.  `md5` stands for the hashlib digest.
   */
  function ConstructTree(md5: seq<u8> -> string, n: FsNode): (e: Entry)
    decreases n, 1
    ensures e.name == n.name && e.isDir == n.FsDir?
    ensures n.FsFile? ==> e.digest == Some(md5(n.contents)) && e.children == []
    ensures n.FsDir? ==> e.digest == None
    ensures n.FsDir? ==> Sorting.SortedBy(e.children, NameLess)
    ensures n.FsDir? ==> forall c | c in e.children :: c.name != SVN
    ensures n.FsDir? ==> forall m | m in n.listing && m.name != SVN :: ConstructTree(md5, m) in e.children
    ensures n.FsDir? ==> |e.children| <= |n.listing|
    ensures n.FsDir? ==> multiset(e.children) == multiset(ChildEntries(md5, n.listing))
  {
    match n
    case FsFile(name, contents) => Entry(name, false, Some(md5(contents)), [])
    case FsDir(name, listing) =>
      var kids := ChildEntries(md5, listing);
      NameLessIsStrictOrder();
      Sorting.SortBySorted(kids, NameLess);
      var sorted := Sorting.SortBy(kids, NameLess);
      assert forall c :: c in sorted <==> c in multiset(kids);
      Entry(name, true, None, sorted)
  }

  /** The listed children the loop of lines 19-22 keeps: all but `.svn`, in listing order. */
  function Visible(listing: seq<FsNode>): (v: seq<FsNode>)
    ensures |v| <= |listing|
    ensures forall m :: m in v <==> m in listing && m.name != SVN
  {
    if listing == [] then []
    else
      var rest := Visible(listing[1..]);
      assert forall m | m in listing :: m == listing[0] || m in listing[1..];
      if listing[0].name == SVN then rest else [listing[0]] + rest
  }

  /**
   * The loop of lines 19-22: the snapshots of the kept children, one per
   * child and in listing order.
   */
  function ChildEntries(md5: seq<u8> -> string, listing: seq<FsNode>): (r: seq<Entry>)
    decreases listing, 0
    ensures |r| == |Visible(listing)|
    ensures forall c | c in r :: c.name != SVN
    ensures forall m | m in listing && m.name != SVN :: ConstructTree(md5, m) in r
  {
    if listing == [] then []
    else
      var rest := ChildEntries(md5, listing[1..]);
      assert forall m | m in listing :: m == listing[0] || m in listing[1..];
      if listing[0].name == SVN then rest else [ConstructTree(md5, listing[0])] + rest
  }

  /** One step of `ChildEntries` and `Visible` over a listing that starts with `.svn`. */
  lemma ChildEntriesSkip(md5: seq<u8> -> string, listing: seq<FsNode>)
    requires listing != [] && listing[0].name == SVN
    ensures ChildEntries(md5, listing) == ChildEntries(md5, listing[1..])
    ensures Visible(listing) == Visible(listing[1..])
  {
  }

  /** One step of `ChildEntries` and `Visible` over a listing that starts with a kept child. */
  lemma ChildEntriesKeep(md5: seq<u8> -> string, listing: seq<FsNode>, i: nat)
    requires listing != [] && listing[0].name != SVN
    requires 0 < i < |Visible(listing)|
    ensures ChildEntries(md5, listing)[i] == ChildEntries(md5, listing[1..])[i - 1]
    ensures Visible(listing)[i] == Visible(listing[1..])[i - 1]
  {
  }

  /** `ChildEntries` is exactly the snapshots of `Visible(listing)`, position by position. */
  lemma {:induction false} ChildEntriesInOrder(md5: seq<u8> -> string, listing: seq<FsNode>, i: nat)
    requires i < |Visible(listing)|
    ensures ChildEntries(md5, listing)[i] == ConstructTree(md5, Visible(listing)[i])
  {
    if listing[0].name == SVN {
      ChildEntriesSkip(md5, listing);
      ChildEntriesInOrder(md5, listing[1..], i);
    } else if i > 0 {
      ChildEntriesKeep(md5, listing, i);
      ChildEntriesInOrder(md5, listing[1..], i - 1);
    }
  }

  /** `bool_to_type`, used in the type-mismatch message. */
  function BoolToType(b: bool): (r: string)
    ensures b <==> r == "dir"
    ensures !b <==> r == "file"
  {
    if b then "dir" else "file"
  }

  /** What the comparator prints before returning False. */
  datatype Mismatch =
    | CountMismatch(path: string)
    | NameMismatch(nameA: string, nameB: string)
    | TypeMismatch(nameA: string, typeA: string, nameB: string, typeB: string)
    | HashMismatch(nameA: string, nameB: string)

  /** True, False (with the message printed), or an IndexError raised by `children_b[i]`. */
  datatype Verdict = Pass | Fail(reason: Mismatch) | IndexError

  /** Two sibling entries survive the first pass: same name, same type, and for files the same digest. */
  predicate Agrees(x: Entry, y: Entry)
  {
    x.name == y.name && x.isDir == y.isDir && (!x.isDir ==> x.digest == y.digest)
  }

  /** The message printed for the first check two siblings fail, in the order name, type, hash. */
  function FirstFailure(x: Entry, y: Entry): Mismatch
  {
    if x.name != y.name then NameMismatch(x.name, y.name)
    else if x.isDir != y.isDir then TypeMismatch(x.name, BoolToType(x.isDir), y.name, BoolToType(y.isDir))
    else HashMismatch(x.name, y.name)
  }

  /** The sibling pass of lines 44-55, from index i on. */
  function SiblingPass(a: seq<Entry>, b: seq<Entry>, i: nat): (v: Verdict)
    requires i <= |a|
    decreases |a| - i
    ensures v == Pass <==> forall k | i <= k < |a| :: k < |b| && Agrees(a[k], b[k])
    ensures v == IndexError <==> i < |a| && |b| < |a| && forall k | i <= k < |b| :: Agrees(a[k], b[k])
    ensures v.Fail? ==> exists k :: (i <= k < |a| && k < |b| && !Agrees(a[k], b[k])
      && v.reason == FirstFailure(a[k], b[k]) && forall j | i <= j < k :: Agrees(a[j], b[j]))
  {
    if i == |a| then Pass
    else if i >= |b| then
      assert !(i < |b|);
      IndexError
    else if a[i].name != b[i].name then Fail(NameMismatch(a[i].name, b[i].name))
    else if a[i].isDir != b[i].isDir then
      Fail(TypeMismatch(a[i].name, BoolToType(a[i].isDir), b[i].name, BoolToType(b[i].isDir)))
    else if a[i].isDir then SiblingPass(a, b, i + 1)
    else if a[i].digest != b[i].digest then Fail(HashMismatch(a[i].name, b[i].name))
    else SiblingPass(a, b, i + 1)
  }

  /** `compare_trees_helper`: the (never firing) count guard, the sibling pass, then the descent. */
  function CompareTreesHelper(a: seq<Entry>, b: seq<Entry>, path: string): (v: Verdict)
    decreases a, 1
    ensures !(v.Fail? && v.reason.CountMismatch?)
  {
    if |a| != |a| then Fail(CountMismatch(path))
    else
      var first := SiblingPass(a, b, 0);
      if first != Pass then first
      else
        assert |a| > 0 ==> |a| - 1 < |b|;
        Descend(a, b, path, 0)
  }

  /** The recursive pass of lines 56-60, from index i on. */
  function Descend(a: seq<Entry>, b: seq<Entry>, path: string, i: nat): (v: Verdict)
    requires i <= |a| <= |b|
    decreases a, 0, |a| - i
    ensures !(v.Fail? && v.reason.CountMismatch?)
    ensures v != Pass ==> exists k :: (i <= k < |a| && a[k].isDir
      && v == CompareTreesHelper(a[k].children, b[k].children, path + "/" + b[k].name)
      && forall j | i <= j < k && a[j].isDir :: CompareTreesHelper(a[j].children, b[j].children, path + "/" + b[j].name) == Pass)
  {
    if i == |a| then Pass
    else if !a[i].isDir then Descend(a, b, path, i + 1)
    else
      var sub := CompareTreesHelper(a[i].children, b[i].children, path + "/" + b[i].name);
      if sub != Pass then sub else Descend(a, b, path, i + 1)
  }

  /** `compare_trees`: only the two roots' child lists are compared, never the root names. */
  function CompareTrees(x: Entry, y: Entry): (v: Verdict)
    ensures v == Pass <==> Equivalent(x.children, y.children)
  {
    HelperMeansEquivalent(x.children, y.children, ROOT_PATH);
    CompareTreesHelper(x.children, y.children, ROOT_PATH)
  }

  /**
   * Independent statement of what a passing comparison means: every entry of
   * a agrees with the entry of b at the same index, directories agree
   * recursively, and b may have extra entries at the end.
   */
  ghost predicate Equivalent(a: seq<Entry>, b: seq<Entry>)
    decreases a
  {
    |a| <= |b| &&
    forall k | 0 <= k < |a| :: Agrees(a[k], b[k]) && (a[k].isDir ==> Equivalent(a[k].children, b[k].children))
  }

  lemma {:induction false} HelperMeansEquivalent(a: seq<Entry>, b: seq<Entry>, path: string)
    decreases a, 1
    ensures CompareTreesHelper(a, b, path) == Pass <==> Equivalent(a, b)
  {
    if SiblingPass(a, b, 0) == Pass {
      assert |a| > 0 ==> |a| - 1 < |b|;
      DescendMeansEquivalent(a, b, path, 0);
    }
  }

  lemma {:induction false} DescendMeansEquivalent(a: seq<Entry>, b: seq<Entry>, path: string, i: nat)
    requires i <= |a| <= |b|
    decreases a, 0, |a| - i
    ensures Descend(a, b, path, i) == Pass <==>
      forall k | i <= k < |a| && a[k].isDir :: Equivalent(a[k].children, b[k].children)
  {
    if i < |a| {
      DescendMeansEquivalent(a, b, path, i + 1);
      var rest := Descend(a, b, path, i + 1);
      if a[i].isDir {
        var sub := CompareTreesHelper(a[i].children, b[i].children, path + "/" + b[i].name);
        HelperMeansEquivalent(a[i].children, b[i].children, path + "/" + b[i].name);
        assert Descend(a, b, path, i) == if sub != Pass then sub else rest;
      } else {
        assert Descend(a, b, path, i) == rest;
      }
    }
  }

  lemma {:induction false} EquivalentReflexive(a: seq<Entry>)
    ensures Equivalent(a, a)
  {
    forall k | 0 <= k < |a| && a[k].isDir ensures Equivalent(a[k].children, a[k].children) {
      EquivalentReflexive(a[k].children);
    }
  }

  /** `compare_trees(A, A)` is True for every snapshot A. */
  lemma CompareTreesReflexive(x: Entry)
    ensures CompareTrees(x, x) == Pass
  {
    EquivalentReflexive(x.children);
  }

  /** A b-list shorter than a never passes: the comparison returns False or raises. */
  lemma ShorterListNeverPasses(a: seq<Entry>, b: seq<Entry>, path: string)
    requires |b| < |a|
    ensures CompareTreesHelper(a, b, path) != Pass
  {
    HelperMeansEquivalent(a, b, path);
  }

  lemma {:induction false} EquivalentIgnoresExtra(a: seq<Entry>, b: seq<Entry>, extra: seq<Entry>)
    requires |a| <= |b|
    ensures Equivalent(a, b + extra) <==> Equivalent(a, b)
  {
    forall k | 0 <= k < |a| ensures (b + extra)[k] == b[k] { }
  }

  /** Entries of b beyond the length of a are never looked at. */
  lemma ExtraEntriesIgnored(a: seq<Entry>, b: seq<Entry>, extra: seq<Entry>, path: string)
    requires |a| <= |b|
    ensures CompareTreesHelper(a, b + extra, path) == Pass <==> CompareTreesHelper(a, b, path) == Pass
  {
    HelperMeansEquivalent(a, b, path);
    HelperMeansEquivalent(a, b + extra, path);
    EquivalentIgnoresExtra(a, b, extra);
  }

  /** Two snapshots of the same directory always compare equal. */
  lemma SnapshotsOfSameTreeCompareEqual(md5: seq<u8> -> string, n: FsNode)
    ensures CompareTrees(ConstructTree(md5, n), ConstructTree(md5, n)) == Pass
  {
    CompareTreesReflexive(ConstructTree(md5, n));
  }
}

/**
 * The version generator of the crypto round-trip test
 * (test/002_test_crypto/test.py): random text lines, in-place edits of word
 * and line lists, and the bookkeeping of the `files`/`directories` sets that
 * describe the generated tree.  Randomness is an explicit oracle; file
 * writes and directory creation are I/O and are not modelled.
 */
module VersionMutator {
  import opened Types
  import Arith

  const MAX_LINE_LENGTH: nat := 120
  /** `max_line_length / 10`; the comparison against it is numeric either way. */
  const MIN_LINE_LENGTH: nat := 12
  const TEXT_SUFFIX := ".txt"
  const BINARY_DIR := "binary.files"

  /** The `random` module together with the loaded word list. */
  class Random {
    const draws: nat -> nat
    const wordlist: seq<string>
    var used: nat

    /** The word list is non-empty and has no empty words (one word per line of the dictionary). */
    ghost predicate Valid()
      reads this
    {
      |wordlist| > 0 && forall k | 0 <= k < |wordlist| :: |wordlist[k]| > 0
    }

    constructor (draws: nat -> nat, wordlist: seq<string>)
      ensures this.draws == draws && this.wordlist == wordlist && used == 0
    {
      this.draws := draws;
      this.wordlist := wordlist;
      used := 0;
    }

    /** `random.randint(lo, hi)`: a value in the closed range. */
    method RandInt(lo: int, hi: int) returns (r: int)
      requires lo <= hi
      modifies this`used
      ensures lo <= r <= hi
      ensures r == lo + draws(old(used)) % (hi - lo + 1)
      ensures used == old(used) + 1
    {
      r := lo + draws(used) % (hi - lo + 1);
      used := used + 1;
    }

    /** `pick_word`: `random.choice(wordlist)`. */
    method PickWord() returns (w: string)
      requires Valid()
      modifies this`used
      ensures w in wordlist && |w| > 0
      ensures used == old(used) + 1
    {
      w := wordlist[draws(used) % |wordlist|];
      used := used + 1;
    }
  }

  /** `random.sample(s, 1)[0]`: some member of a non-empty set. */
  method Sample(s: set<string>) returns (x: string)
    requires s != {}
    ensures x in s
  {
    x :| x in s;
  }

  /** `' '.join(ws)`. */
  function JoinWords(ws: seq<string>): string
  {
    if |ws| == 0 then ""
    else if |ws| == 1 then ws[0]
    else ws[0] + " " + JoinWords(ws[1..])
  }

  /** Appending one word adds a separating space (unless the list was empty) and the whole word. */
  lemma {:induction false} JoinWordsAppend(ws: seq<string>, w: string)
    ensures JoinWords(ws + [w]) == if ws == [] then w else JoinWords(ws) + " " + w
  {
    if |ws| > 1 {
      assert (ws + [w])[1..] == ws[1..] + [w];
      JoinWordsAppend(ws[1..], w);
    } else if |ws| == 1 {
      assert (ws + [w])[1..] == [w];
    }
  }

  /** `s.split(' ')`: the pieces between single spaces, empty pieces included. */
  function SplitSpace(s: string): (r: seq<string>)
    ensures |r| >= 1
  {
    if s == "" then [""]
    else if s[0] == ' ' then [""] + SplitSpace(s[1..])
    else
      var rest := SplitSpace(s[1..]);
      [[s[0]] + rest[0]] + rest[1..]
  }

  /** Splitting on spaces and joining with spaces gives back the line. */
  lemma {:induction false} JoinSplitRoundTrip(s: string)
    ensures JoinWords(SplitSpace(s)) == s
  {
    if s != "" {
      JoinSplitRoundTrip(s[1..]);
      var rest := SplitSpace(s[1..]);
      if s[0] == ' ' {
        assert ([""] + rest)[1..] == rest;
        assert s == [' '] + s[1..];
      } else {
        var r := [[s[0]] + rest[0]] + rest[1..];
        assert r[1..] == rest[1..];
        assert s == [s[0]] + s[1..];
      }
    }
  }

  /** The first index holding `x`: `list.index(x)`. */
  function IndexOf(ws: seq<string>, x: string): (i: nat)
    requires x in ws
    ensures i < |ws| && ws[i] == x && x !in ws[..i]
  {
    if ws[0] == x then 0
    else
      var j := IndexOf(ws[1..], x);
      assert ws[..j + 1] == [ws[0]] + ws[1..][..j];
      j + 1
  }

  /** `list.remove(x)`: drops the first occurrence of `x` and keeps the rest in order. */
  function RemoveFirst(ws: seq<string>, x: string): (r: seq<string>)
    ensures x in ws ==> r == ws[..IndexOf(ws, x)] + ws[IndexOf(ws, x) + 1..]
    ensures x !in ws ==> r == ws
  {
    if ws == [] then []
    else if ws[0] == x then
      assert ws[..0] == [];
      ws[1..]
    else
      var rest := RemoveFirst(ws[1..], x);
      if x in ws[1..] then
        var j := IndexOf(ws[1..], x);
        assert ws[..j + 1] == [ws[0]] + ws[1..][..j];
        assert ws[j + 2..] == ws[1..][j + 1..];
        [ws[0]] + rest
      else
        assert ws == [ws[0]] + ws[1..];
        [ws[0]] + rest
  }

  /**
   * `generate_random_line`: a length is always drawn; an override replaces
   * it; words are appended, separated by single spaces, until the line is
   * at least that long.  Nothing caps the overshoot of the last word.
   */
  method GenerateRandomLine(rng: Random, overrideLength: int) returns (ret: string, ghost words: seq<string>)
    requires rng.Valid()
    modifies rng`used
    ensures ret == JoinWords(words)
    ensures forall k | 0 <= k < |words| :: words[k] in rng.wordlist
    ensures overrideLength >= 0 ==> |ret| >= overrideLength
    ensures overrideLength < 0 && old(rng.draws(rng.used)) % (MAX_LINE_LENGTH + 1) < MIN_LINE_LENGTH ==> ret == ""
    ensures overrideLength < 0 && old(rng.draws(rng.used)) % (MAX_LINE_LENGTH + 1) >= MIN_LINE_LENGTH ==>
      |ret| >= old(rng.draws(rng.used)) % (MAX_LINE_LENGTH + 1)
    ensures |words| > 0 ==> |JoinWords(words[..|words| - 1])| < (if overrideLength >= 0 then overrideLength else MAX_LINE_LENGTH)
  {
    ret := "";
    words := [];
    var length := rng.RandInt(0, MAX_LINE_LENGTH);
    if overrideLength >= 0 {
      length := overrideLength;
    }
    if length >= MIN_LINE_LENGTH || overrideLength >= 0 {
      while |ret| < length
        invariant ret == JoinWords(words)
        invariant |ret| == 0 <==> words == []
        invariant forall k | 0 <= k < |words| :: words[k] in rng.wordlist
        invariant |words| > 0 ==> |JoinWords(words[..|words| - 1])| < length
        invariant rng.Valid()
        decreases length - |ret|
      {
        ghost var before := words;
        if |ret| > 0 {
          ret := ret + " ";
        }
        var w := rng.PickWord();
        ret := ret + w;
        words := words + [w];
        JoinWordsAppend(before, w);
        assert words[..|words| - 1] == before;
      }
    }
  }

  /**
   * `edit_line`: split on spaces, drop one empty token, then overwrite a
   * contiguous span of words with fresh words and join again.  `before` is
   * the word list after the empty token is dropped, `after` the edited one.
   */
  method EditLine(rng: Random, line: string)
    returns (r: string, ghost before: seq<string>, ghost after: seq<string>, ghost start: nat, ghost count: nat)
    requires rng.Valid()
    modifies rng`used
    ensures before == RemoveFirst(SplitSpace(line), "")
    ensures r == JoinWords(after) && |after| == |before|
    ensures start + count <= |before|
    ensures |before| > 1 ==> 1 <= count <= |before| / 2
    ensures |before| <= 1 ==> start == 0 && count == |before|
    ensures forall k | 0 <= k < |before| && !(start <= k < start + count) :: after[k] == before[k]
    ensures forall k | start <= k < start + count :: after[k] in rng.wordlist
  {
    var words := SplitSpace(line);
    if "" in words {
      words := RemoveFirst(words, "");
    }
    before := words;
    var length: int;
    var st: int;
    if |words| > 1 {
      st := rng.RandInt(0, |words| - 1);
      var drawn := rng.RandInt(1, |words| / 2);
      length := Min(|words| - st, drawn);
    } else {
      st := 0;
      length := |words|;
    }
    var i := st;
    while i < st + length
      invariant st <= i <= st + length
      invariant |words| == |before|
      invariant forall k | 0 <= k < |before| && !(st <= k < i) :: words[k] == before[k]
      invariant forall k | st <= k < i :: words[k] in rng.wordlist
      invariant rng.Valid()
    {
      var w := rng.PickWord();
      words := words[i := w];
      i := i + 1;
    }
    after := words;
    start := st;
    count := length;
    r := JoinWords(words);
  }

  /** One edited block of `edit_existing_file`: first line and number of lines. */
  datatype Block = Block(first: nat, count: nat)

  /**
   * The in-memory part of `edit_existing_file`: up to five passes each edit
   * a contiguous block of at most 100 lines, then one time in four 20..512
   * fresh lines are appended.  `ok` is false when a pass is drawn for a file
   * with no lines, where `randint(0, -1)` raises ValueError.
   */
  method EditExistingFile(rng: Random, lines: seq<string>)
    returns (ok: bool, result: seq<string>, ghost blocks: seq<Block>)
    requires rng.Valid()
    modifies rng`used
    ensures |blocks| <= 5
    ensures forall b | b in blocks :: 1 <= b.count <= 100 && b.first + b.count <= |lines|
    ensures ok ==> |result| == |lines| || 20 <= |result| - |lines| <= 512
    ensures ok ==> forall k | 0 <= k < |lines| && (forall b | b in blocks :: !(b.first <= k < b.first + b.count)) ::
      result[k] == lines[k]
    ensures !ok ==> lines == []
  {
    result := lines;
    blocks := [];
    var passes := rng.RandInt(0, 5);
    var p := 0;
    while p < passes
      invariant 0 <= p <= passes && |blocks| == p
      invariant |result| == |lines|
      invariant forall b | b in blocks :: 1 <= b.count <= 100 && b.first + b.count <= |lines|
      invariant forall k | 0 <= k < |lines| && (forall b | b in blocks :: !(b.first <= k < b.first + b.count)) ::
        result[k] == lines[k]
      invariant rng.Valid()
    {
      if |result| == 0 {
        ok := false;
        return;
      }
      var blockstart := rng.RandInt(0, |result| - 1);
      var r := rng.RandInt(1, 100);
      var count := Min(|result| - blockstart, r);
      var j := blockstart;
      while j < blockstart + count
        invariant blockstart <= j <= blockstart + count
        invariant |result| == |lines|
        invariant forall k | 0 <= k < |lines| && (forall b | b in blocks :: !(b.first <= k < b.first + b.count)) && !(blockstart <= k < j) ::
          result[k] == lines[k]
        invariant rng.Valid()
      {
        var edited, _, _, _, _ := EditLine(rng, result[j]);
        result := result[j := edited];
        j := j + 1;
      }
      blocks := blocks + [Block(blockstart, count)];
      p := p + 1;
    }
    ghost var edited := result;
    var quarter := rng.RandInt(0, 3);
    if quarter == 0 {
      var newLines := rng.RandInt(20, 512);
      var i := 0;
      while i < newLines
        invariant 0 <= i <= newLines
        invariant |result| == |lines| + i
        invariant result[..|lines|] == edited
        invariant rng.Valid()
      {
        var line, _ := GenerateRandomLine(rng, -1);
        result := result + [line];
        i := i + 1;
      }
    }
    ok := true;
  }

  function DecimalDigit(d: nat): (c: char)
    requires d < 10
    ensures IsDecimalDigit(c) && DigitValue(c) == d
  {
    "0123456789"[d]
  }

  predicate IsDecimalDigit(c: char)
  {
    '0' <= c <= '9'
  }

  function DigitValue(c: char): int
  {
    c as int - '0' as int
  }

  function Pow10(n: nat): (r: nat)
    ensures r >= 1
  {
    if n == 0 then 1 else 10 * Pow10(n - 1)
  }

  /** The number a string of decimal digits spells, most significant first. */
  function ReadDecimal(s: string): int
  {
    if s == [] then 0 else 10 * ReadDecimal(s[..|s| - 1]) + DigitValue(s[|s| - 1])
  }

  /**
   * `'%0*d' % (width, i)` for `i < 10^width`: the decimal digits of `i`,
   * zero-padded on the left to `width` characters.  Python pads to at least
   * `width` and never truncates; for larger `i` this function keeps only the
   * last `width` digits, so it agrees with Python exactly below `10^width`.
   */
  function ZeroPad(i: nat, width: nat): (r: string)
    ensures |r| == width
    ensures forall k | 0 <= k < |r| :: IsDecimalDigit(r[k])
    ensures ReadDecimal(r) == i % Pow10(width)
    ensures i < Pow10(width) ==> ReadDecimal(r) == i
  {
    if width == 0 then ""
    else
      var front := ZeroPad(i / 10, width - 1);
      var r := front + [DecimalDigit(i % 10)];
      assert r[..|r| - 1] == front;
      assert ReadDecimal(r) == 10 * ReadDecimal(front) + i % 10;
      LastDigitSplit(i, Pow10(width - 1));
      ModBelowWhen(i, Pow10(width));
      r
  }

  lemma ModBelowWhen(x: nat, m: nat)
    requires m > 0
    ensures x < m ==> x % m == x
  {
    if x < m {
      Arith.ModBelow(x, m);
    }
  }

  /** Splitting off the last decimal digit of `i`, modulo `10 * p`. */
  lemma LastDigitSplit(i: nat, p: nat)
    requires p >= 1
    ensures i % (10 * p) == 10 * ((i / 10) % p) + i % 10
  {
    var q := i / 10;
    assert i == 10 * q + i % 10;
    assert q == p * (q / p) + q % p;
    assert i == (10 * p) * (q / p) + (10 * (q % p) + i % 10);
    Arith.DivModUnique(i, q / p, 10 * (q % p) + i % 10, 10 * p);
  }

  /** `'binary.files/%08d.bin' % i`. */
  function BinaryPath(i: nat): (r: string)
    requires i < 100_000_000
    ensures StartsWith(r, BINARY_DIR + "/") && EndsWith(r, ".bin")
  {
    BINARY_DIR + "/" + ZeroPad(i, 8) + ".bin"
  }

  predicate StartsWith(s: string, prefix: string)
  {
    |prefix| <= |s| && s[..|prefix|] == prefix
  }

  predicate EndsWith(s: string, suffix: string)
  {
    |suffix| <= |s| && s[|s| - |suffix|..] == suffix
  }

  /** A batch path can never be mistaken for a text file. */
  lemma BinaryPathIsNotText(i: nat)
    requires i < 100_000_000
    ensures !EndsWith(BinaryPath(i), TEXT_SUFFIX)
  {
    var p := BinaryPath(i);
    assert p[|p| - 3] == 'b';
  }

  /** The batch paths numbered 0 .. n-1, in order. */
  function BatchPaths(n: nat): (r: seq<string>)
    requires n <= 100_000_000
    ensures |r| == n
    ensures forall k | 0 <= k < n :: StartsWith(r[k], BINARY_DIR + "/") && !EndsWith(r[k], TEXT_SUFFIX)
  {
    if n == 0 then []
    else
      BinaryPathIsNotText(n - 1);
      BatchPaths(n - 1) + [BinaryPath(n - 1)]
  }

  /**
   * `generate_new_binaries_batch`: 1..20 paths `binary.files/%08d.bin`,
   * numbered from 0, appended to addenda only (the bytes are I/O).
   */
  method GenerateNewBinariesBatch(rng: Random, addenda: seq<string>) returns (result: seq<string>)
    modifies rng`used
    ensures 1 <= |result| - |addenda| <= 20
    ensures result == addenda + BatchPaths(|result| - |addenda|)
    ensures forall k | |addenda| <= k < |result| :: StartsWith(result[k], BINARY_DIR + "/")
  {
    var n := rng.RandInt(1, 20);
    result := AppendBatch(addenda, n);
  }

  /** The loop of `generate_new_binaries_batch`: the paths numbered 0 to `n - 1`, in order. */
  method AppendBatch(addenda: seq<string>, n: nat) returns (result: seq<string>)
    requires n <= 20
    ensures result == addenda + BatchPaths(n)
    ensures forall k | |addenda| <= k < |result| :: StartsWith(result[k], BINARY_DIR + "/")
  {
    result := addenda;
    var i := 0;
    while i < n
      invariant 0 <= i <= n
      invariant result == addenda + BatchPaths(i)
    {
      BatchStep(addenda, i);
      result := result + [BinaryPath(i)];
      i := i + 1;
    }
    BatchUnderDirectory(addenda, n, result);
  }

  /** Every path a batch appends lies in the binaries directory. */
  lemma BatchUnderDirectory(addenda: seq<string>, n: nat, result: seq<string>)
    requires n <= 100_000_000 && result == addenda + BatchPaths(n)
    ensures forall k | |addenda| <= k < |result| :: StartsWith(result[k], BINARY_DIR + "/")
  {
    forall k | |addenda| <= k < |result|
      ensures StartsWith(result[k], BINARY_DIR + "/")
    {
      assert result[k] == BatchPaths(n)[k - |addenda|];
    }
  }

  /** One more path extends the batch. */
  lemma BatchStep(addenda: seq<string>, i: nat)
    requires i < 100_000_000
    ensures addenda + BatchPaths(i) + [BinaryPath(i)] == addenda + BatchPaths(i + 1)
  {
    assert BatchPaths(i + 1) == BatchPaths(i) + [BinaryPath(i)];
  }

  /** A path created at the root or directly under a known directory. */
  ghost predicate PlacedUnder(p: string, dirs: set<string>, words: seq<string>, suffix: string)
  {
    (exists w | w in words :: p == w + suffix) ||
    (exists d, w | d in dirs && w in words :: p == d + "/" + w + suffix)
  }

  /** Every element of a prefix is an element of the whole. */
  lemma PrefixMembers<T>(prefix: seq<T>, all: seq<T>)
    requires |prefix| <= |all| && all[..|prefix|] == prefix
    ensures forall p | p in prefix :: p in all
  {
    forall p | p in prefix ensures p in all {
      var k :| 0 <= k < |prefix| && prefix[k] == p;
      assert all[k] == p;
    }
  }

  /** A sequence whose prefix lies in `a` and whose rest lies in `b` lies in their union. */
  lemma SplitMembers<T>(prefix: seq<T>, all: seq<T>, a: set<T>, b: set<T>)
    requires |prefix| <= |all| && all[..|prefix|] == prefix
    requires forall k | 0 <= k < |prefix| :: prefix[k] in a
    requires forall k | |prefix| <= k < |all| :: all[k] in b
    ensures forall p | p in all :: p in a || p in b
  {
    forall p | p in all ensures p in a || p in b {
      var k :| 0 <= k < |all| && all[k] == p;
      if k < |prefix| {
        assert all[..|prefix|][k] == p;
      }
    }
  }

  /** After a batch of binaries, each path is a known file or directory, or lies under the binary directory. */
  lemma BatchMembers(before: seq<string>, all: seq<string>, files: set<string>, directories: set<string>)
    requires |before| <= |all| && all[..|before|] == before
    requires forall p | p in before :: p in files || p in directories
    requires forall k | |before| <= k < |all| :: StartsWith(all[k], BINARY_DIR + "/")
    ensures forall p | p in all :: p in files || p in directories || p == BINARY_DIR || StartsWith(p, BINARY_DIR + "/")
  {
    forall p | p in all
      ensures p in files || p in directories || p == BINARY_DIR || StartsWith(p, BINARY_DIR + "/")
    {
      var k :| 0 <= k < |all| && all[k] == p;
      if k < |before| {
        assert before[k] == p;
      }
    }
  }

  class KnownPaths {
    var directories: set<string>
    var files: set<string>

    constructor ()
      ensures directories == {} && files == {}
    {
      directories := {};
      files := {};
    }

    /**
     * One container choice of lines 118-121: the root with chance
     * 1/(|directories| + 1), otherwise a sampled directory and a slash.
     */
    method PickContainer(rng: Random) returns (container: string)
      modifies rng`used
      ensures container == "" || exists d | d in directories :: container == d + "/"
    {
      var r := rng.RandInt(0, |directories|);
      if r == 0 {
        container := "";
      } else {
        var d := Sample(directories);
        container := d + "/";
      }
    }

    /** Lines 116-125: 1..5 new directories, each at the root or under a known directory. */
    method CreateDirectories(rng: Random, addenda: seq<string>) returns (result: seq<string>)
      requires rng.Valid()
      modifies this`directories, rng`used
      ensures old(directories) <= directories
      ensures |result| >= |addenda| && result[..|addenda|] == addenda
      ensures forall p | p in directories && p !in old(directories) :: p in result[|addenda|..] && PlacedUnder(p, directories, rng.wordlist, "")
      ensures forall k | |addenda| <= k < |result| :: result[k] in directories
    {
      var n := rng.RandInt(1, 5);
      result := addenda;
      var i := 0;
      while i < n
        invariant 0 <= i <= n
        invariant old(directories) <= directories
        invariant |result| >= |addenda| && result[..|addenda|] == addenda
        invariant forall p | p in directories && p !in old(directories) :: p in result[|addenda|..] && PlacedUnder(p, directories, rng.wordlist, "")
        invariant forall k | |addenda| <= k < |result| :: result[k] in directories
        invariant rng.Valid()
      {
        var container := PickContainer(rng);
        var w := rng.PickWord();
        var path := container + w;
        assert PlacedUnder(path, directories, rng.wordlist, "") by {
          if container != "" {
            var d :| d in directories && container == d + "/";
            assert path == d + "/" + w + "";
          } else {
            assert path == w + "";
          }
        }
        ghost var prev := result;
        directories := directories + {path};
        result := result + [path];
        assert result[|addenda|..] == prev[|addenda|..] + [path];
        assert result[..|addenda|] == prev[..|addenda|];
        i := i + 1;
      }
    }

    /** Lines 128-137: 1..5 new text files, each at the root or under a known directory. */
    method CreateTextFiles(rng: Random, addenda: seq<string>) returns (result: seq<string>)
      requires rng.Valid()
      modifies this`files, rng`used
      ensures old(files) <= files
      ensures |result| >= |addenda| && result[..|addenda|] == addenda
      ensures forall p | p in files && p !in old(files) ::
        p in result[|addenda|..] && EndsWith(p, TEXT_SUFFIX) && PlacedUnder(p, directories, rng.wordlist, TEXT_SUFFIX)
      ensures forall k | |addenda| <= k < |result| :: result[k] in files
    {
      var n := rng.RandInt(1, 5);
      result := addenda;
      var i := 0;
      while i < n
        invariant 0 <= i <= n
        invariant old(files) <= files
        invariant |result| >= |addenda| && result[..|addenda|] == addenda
        invariant forall p | p in files && p !in old(files) ::
          p in result[|addenda|..] && EndsWith(p, TEXT_SUFFIX) && PlacedUnder(p, directories, rng.wordlist, TEXT_SUFFIX)
        invariant forall k | |addenda| <= k < |result| :: result[k] in files
        invariant rng.Valid()
      {
        var container := PickContainer(rng);
        var w := rng.PickWord();
        var path := container + w + TEXT_SUFFIX;
        assert PlacedUnder(path, directories, rng.wordlist, TEXT_SUFFIX) by {
          if container != "" {
            var d :| d in directories && container == d + "/";
            assert path == d + "/" + w + TEXT_SUFFIX;
          }
        }
        assert EndsWith(path, TEXT_SUFFIX) by {
          assert path[|path| - 4..] == TEXT_SUFFIX;
        }
        ghost var prev := result;
        files := files + {path};
        result := result + [path];
        assert result[|addenda|..] == prev[|addenda|..] + [path];
        assert result[..|addenda|] == prev[..|addenda|];
        i := i + 1;
      }
    }

    /** Lines 102-108: 0..10 text files at the root, then the binary directory, which enters addenda only. */
    method Bootstrap(rng: Random) returns (addenda: seq<string>)
      requires rng.Valid()
      modifies this`files, rng`used
      ensures old(files) <= files
      ensures 1 <= |addenda| <= 11 && addenda[|addenda| - 1] == BINARY_DIR
      ensures forall k | 0 <= k < |addenda| - 1 :: addenda[k] in files
      ensures forall p | p in files && p !in old(files) ::
        p in addenda && EndsWith(p, TEXT_SUFFIX) && PlacedUnder(p, directories, rng.wordlist, TEXT_SUFFIX)
    {
      var n := rng.RandInt(0, 10);
      addenda := [];
      var i := 0;
      while i < n
        invariant 0 <= i <= n && |addenda| == i
        invariant old(files) <= files
        invariant forall p | p in files && p !in old(files) ::
          p in addenda && EndsWith(p, TEXT_SUFFIX) && PlacedUnder(p, directories, rng.wordlist, TEXT_SUFFIX)
        invariant forall k | 0 <= k < |addenda| :: addenda[k] in files
        invariant rng.Valid()
      {
        var w := rng.PickWord();
        var path := w + TEXT_SUFFIX;
        assert EndsWith(path, TEXT_SUFFIX) by {
          assert path[|path| - 4..] == TEXT_SUFFIX;
        }
        files := files + {path};
        addenda := addenda + [path];
        i := i + 1;
      }
      addenda := addenda + [BINARY_DIR];
    }

    /**
     * `generate_next_version`.  The edits of existing files are I/O on file
     * contents (see EditExistingFile); here only the sampling loop is kept.
     * The Python function returns None; `created` is its local list
     * `addenda` of new paths and `edited` the paths the sampling loop
     * draws for editing, both exposed for the contract.
     */
    method GenerateNextVersion(rng: Random) returns (ghost created: seq<string>, ghost edited: seq<string>)
      requires rng.Valid()
      modifies this, rng`used
      ensures old(directories) <= directories && old(files) <= files
      ensures forall p | p in files && p !in old(files) ::
        p in created && EndsWith(p, TEXT_SUFFIX) && PlacedUnder(p, directories, rng.wordlist, TEXT_SUFFIX)
      ensures forall p | p in directories && p !in old(directories) :: p in created && PlacedUnder(p, directories, rng.wordlist, "")
      ensures forall p | p in created :: p in files || p in directories || p == BINARY_DIR || StartsWith(p, BINARY_DIR + "/")
      ensures old(files) == {} ==> directories == old(directories)
      ensures old(files) == {} ==> 1 <= |created| <= 11 && created[|created| - 1] == BINARY_DIR
      ensures old(files) == {} ==> forall k | 0 <= k < |created| - 1 :: created[k] in files
      ensures old(files) == {} ==> edited == []
      ensures old(files) != {} ==> |edited| == Min(old(rng.draws(rng.used)) % 100 + 1, |old(files)|)
      ensures forall k | 0 <= k < |edited| :: edited[k] in old(files)
    {
      var addenda: seq<string> := [];
      edited := [];
      if |files| == 0 {
        addenda := Bootstrap(rng);
      } else {
        var edits := rng.RandInt(1, 100);
        var i := 0;
        while i < Min(edits, |files|)
          invariant 0 <= i <= Min(edits, |files|)
          invariant |edited| == i
          invariant forall k | 0 <= k < |edited| :: edited[k] in files
          invariant directories == old(directories) && files == old(files)
          invariant rng.Valid()
        {
          var path := Sample(files);
          edited := edited + [path];
          i := i + 1;
        }

        var dirRoll := rng.RandInt(1, 25);
        if dirRoll == 1 {
          addenda := CreateDirectories(rng, addenda);
        }
        ghost var afterDirs := addenda;
        ghost var dirsNow := directories;

        var fileRoll := rng.RandInt(1, 5);
        if fileRoll == 1 {
          addenda := CreateTextFiles(rng, addenda);
        }
        PrefixMembers(afterDirs, addenda);
        SplitMembers(afterDirs, addenda, directories, files);

        var binRoll := rng.RandInt(1, 50);
        if binRoll == 1 {
          ghost var before := addenda;
          addenda := GenerateNewBinariesBatch(rng, addenda);
          PrefixMembers(before, addenda);
          BatchMembers(before, addenda, files, directories);
        }
      }
      created := addenda;
    }
  }

  /** How `print_percent` splits the bar: `#` count and blank count. */
  datatype Bar = Bar(filled: nat, blank: nat)

  /**
   * `print_percent(i, width, n)`: `int(i * width / n)` marks, then
   * `width - percent` blanks (none when that is negative).  n = 0 raises
   * ZeroDivisionError, modelled as None.
   */
  function PrintPercent(i: nat, width: nat, n: nat): (r: Option<Bar>)
    ensures r.None? <==> n == 0
    ensures r.Some? ==> r.value.filled * n <= i * width < (r.value.filled + 1) * n
    ensures r.Some? && i <= n ==> r.value.filled + r.value.blank == width
  {
    if n == 0 then None
    else
      var percent := i * width / n;
      PercentBounds(i, width, n, i * width);
      if i <= n then
        Some(Bar(percent, width - percent))
      else
        Some(Bar(percent, if width >= percent then width - percent else 0))
  }

  /** The quotient `product / n` brackets `product`, and is at most `width` when `i <= n`. */
  lemma PercentBounds(i: nat, width: nat, n: nat, product: nat)
    requires n > 0 && product == i * width
    ensures (product / n) * n <= product < (product / n + 1) * n
    ensures i <= n ==> product / n <= width
  {
    Arith.DivBracket(product, n);
    if i <= n {
      Arith.MulMonotone(i, n, width);
      assert (width + 1) * n == n * width + n;
      Arith.DivBelow(product, width + 1, n);
    }
  }
}

/**
 * The command interpreter: the program arguments, the input loop that stops
 * at `quit`, and the dispatch of a tokenised line to the handler its words
 * select.  Tokenising a line is done before the model sees it; handlers are
 * named by the words that selected them, with the tokens left for them.
 */
module Commands {
  import opened Types
  import CaseInsensitive

  datatype OperationMode = User | Pipe

  /** A handler chosen by a line: the keywords that led to it and the tokens it receives. */
  datatype Command = Command(words: seq<string>, args: seq<string>)

  const TOP_LEVEL: seq<string> := ["open", "add", "exclude", "backup", "restore", "select", "show", "if", "set"]
  const EXCLUDE_KEYS: seq<string> := ["extension", "path", "name"]
  const SELECT_KEYS: seq<string> := ["version"]
  const SHOW_KEYS: seq<string> := ["dependencies", "versions", "version_count", "paths"]
  const SET_KEYS: seq<string> := ["use_snapshots", "change_criterium"]

  /** `strcmpci::equal` of a token against a NUL-terminated keyword. */
  function Is(token: string, word: string): (r: bool)
    ensures '\0' !in word ==> (r <==> CaseInsensitive.Equal(token, word))
  {
    var cword := word + ['\0'];
    assert cword[|word|] == '\0';
    if '\0' !in word then
      CaseInsensitive.EqualCStrAgrees(token, word);
      CaseInsensitive.EqualCStr(token, cword)
    else
      CaseInsensitive.EqualCStr(token, cword)
  }

  /** The index of the first keyword `token` matches. */
  function FirstMatch(keys: seq<string>, token: string): (r: Option<nat>)
    ensures r.Some? ==> r.value < |keys| && Is(token, keys[r.value]) && forall j | 0 <= j < r.value :: !Is(token, keys[j])
    ensures r.None? ==> forall j | 0 <= j < |keys| :: !Is(token, keys[j])
  {
    if keys == [] then None
    else if Is(token, keys[0]) then Some(0)
    else match FirstMatch(keys[1..], token)
      case None => None
      case Some(k) => Some(k + 1)
  }

  /**
   * `iterate_pair_array`: the handler of the first key matching the first
   * token runs, and only when another token follows; at most one runs.
   */
  method IteratePairArray(keys: seq<string>, tokens: seq<string>) returns (handler: Option<nat>)
    requires |tokens| > 0
    ensures handler == if |tokens| > 1 then FirstMatch(keys, tokens[0]) else None
  {
    var i := 0;
    while i < |keys|
      invariant 0 <= i <= |keys|
      invariant forall j | 0 <= j < i :: !Is(tokens[0], keys[j])
    {
      if !Is(tokens[0], keys[i]) {
        i := i + 1;
        continue;
      }
      if |tokens| > 1 {
        return Some(i);
      }
      return None;
    }
    return None;
  }

  /** `to_string`: each wide character narrowed by a `(char)` cast, keeping its low 8 bits. */
  function Narrow(s: string): (r: string)
    ensures |r| == |s| && forall i | 0 <= i < |s| :: r[i] as int == s[i] as int % 256
  {
    seq(|s|, i requires 0 <= i < |s| => (s[i] as int % 256) as char)
  }

  /** A line is `quit` when its first token is, ignoring case. */
  predicate IsQuit(line: seq<string>)
  {
    |line| > 0 && Is(line[0], "quit")
  }

  /** The handler a group of second-level keys selects. */
  function SubDispatch(word: string, keys: seq<string>, tokens: seq<string>): Option<Command>
    requires |tokens| > 0
  {
    if |tokens| > 1 then
      match FirstMatch(keys, tokens[0])
      case None => None
      case Some(k) => Some(Command([word, keys[k]], tokens[1..]))
    else None
  }

  /** A second-level handler receives the tokens after its keyword, of which there is at least one. */
  lemma SubDispatchArgs(tokens: seq<string>)
    requires |tokens| > 0
    ensures forall word, keys :: SubDispatch(word, keys, tokens).Some? ==>
      SubDispatch(word, keys, tokens).value.args == tokens[1..] && |tokens| > 1
  {
  }

  /**
   * Lookup in the argument set, which is ordered by `strcmpci`: a string is
   * found when some argument is neither less nor greater than it.
   */
  function ArgumentsContain(args: seq<string>, s: string, i: nat): (r: bool)
    requires i <= |args|
    ensures r <==> exists j | i <= j < |args| :: CaseInsensitive.Equal(args[j], s)
    decreases |args| - i
  {
    if i == |args| then false
    else
      CaseInsensitive.EquivalentIsEqual(args[i], s);
      (!CaseInsensitive.Less(args[i], s) && !CaseInsensitive.Less(s, args[i])) || ArgumentsContain(args, s, i + 1)
  }

  /** The line processor: its arguments, operating mode and selected version. */
  class LineProcessor {
    var args: seq<string>
    var operationMode: OperationMode
    var selectedVersion: int

    /** Whether `s` is in the argument set. */
    function InArgumentSet(s: string): (r: bool)
      reads this
      ensures r <==> exists a | a in args :: CaseInsensitive.Equal(a, s)
    {
      ArgumentsContain(args, s, 0)
    }

    /**
     * `LineProcessor(argc, argv)`: the arguments after the program name, in
     * order; Pipe mode exactly when one of them is `--pipe`, ignoring case.
     */
    constructor (argv: seq<string>)
      ensures args == if |argv| > 0 then argv[1..] else []
      ensures operationMode == Pipe <==> exists a | a in args :: CaseInsensitive.Equal(a, "--pipe")
      ensures selectedVersion == -1
    {
      selectedVersion := -1;
      var collected: seq<string> := [];
      var i := 1;
      while i < |argv|
        invariant 1 <= i <= |argv| || (|argv| == 0 && i == 1)
        invariant collected == if |argv| > 0 then argv[1..i] else []
      {
        collected := collected + [argv[i]];
        i := i + 1;
      }
      args := collected;
      operationMode := if ArgumentsContain(collected, "--pipe", 0) then Pipe else User;
    }

    /**
     * `process`: reads lines until the input ends or a line starts with
     * `quit`; empty lines are skipped and no other command is dispatched.
     * `lines` is the tokenised input; `stop` is the index of the line that
     * ended the loop, or the number of lines when the input ran out.
     */
    method Process(lines: seq<seq<string>>) returns (stop: nat)
      ensures stop <= |lines|
      ensures forall j | 0 <= j < stop :: !IsQuit(lines[j])
      ensures stop < |lines| ==> IsQuit(lines[stop])
    {
      stop := 0;
      while stop < |lines|
        invariant stop <= |lines|
        invariant forall j | 0 <= j < stop :: !IsQuit(lines[j])
      {
        var line := lines[stop];
        if |line| == 0 {
          stop := stop + 1;
          continue;
        }
        if Is(line[0], "quit") {
          break;
        }
        stop := stop + 1;
      }
    }

    /**
     * What `process_line` runs for a line: nothing for an empty line or an
     * unknown word, else the one handler the keywords select.  `if` checks
     * its narrowed first argument against the program arguments and then
     * runs the rest of the line.
     */
    function Dispatch(tokens: seq<string>): Option<Command>
      reads this
      decreases |tokens|
    {
      if tokens == [] || |tokens| == 1 then None
      else match FirstMatch(TOP_LEVEL, tokens[0])
        case None => None
        case Some(k) =>
          var rest := tokens[1..];
          if k == 2 then SubDispatch("exclude", EXCLUDE_KEYS, rest)
          else if k == 5 then SubDispatch("select", SELECT_KEYS, rest)
          else if k == 6 then SubDispatch("show", SHOW_KEYS, rest)
          else if k == 8 then SubDispatch("set", SET_KEYS, rest)
          else if k == 7 then (if InArgumentSet(Narrow(rest[0])) then Dispatch(rest[1..]) else None)
          else Some(Command([TOP_LEVEL[k]], rest))
    }

    /** The second-level dispatch of `process_exclude`, `process_select`, `process_show` and `process_set`. */
    method ProcessGroup(word: string, keys: seq<string>, tokens: seq<string>) returns (run: Option<Command>)
      requires |tokens| > 0
      ensures run == SubDispatch(word, keys, tokens)
    {
      var handler := IteratePairArray(keys, tokens);
      run := match handler
        case None => None
        case Some(k) => Some(Command([word, keys[k]], tokens[1..]));
    }

    /** `process_line(begin, end)`, with `process_if` calling back into it. */
    method ProcessLine(tokens: seq<string>) returns (run: Option<Command>)
      ensures run == Dispatch(tokens)
      decreases |tokens|
    {
      if tokens == [] {
        return None;
      }
      var handler := IteratePairArray(TOP_LEVEL, tokens);
      if handler.None? {
        return None;
      }
      var k := handler.value;
      var rest := tokens[1..];
      if k == 2 {
        run := ProcessGroup("exclude", EXCLUDE_KEYS, rest);
      } else if k == 5 {
        run := ProcessGroup("select", SELECT_KEYS, rest);
      } else if k == 6 {
        run := ProcessGroup("show", SHOW_KEYS, rest);
      } else if k == 8 {
        run := ProcessGroup("set", SET_KEYS, rest);
      } else if k == 7 {
        run := ProcessIf(rest);
      } else {
        run := Some(Command([TOP_LEVEL[k]], rest));
      }
    }

    /** `process_if`: the rest of the line runs only when the narrowed first token is a program argument. */
    method ProcessIf(tokens: seq<string>) returns (run: Option<Command>)
      requires |tokens| > 0
      ensures run == if InArgumentSet(Narrow(tokens[0])) then Dispatch(tokens[1..]) else None
      decreases |tokens|
    {
      var narrowed := Narrow(tokens[0]);
      if !InArgumentSet(narrowed) {
        return None;
      }
      run := ProcessLine(tokens[1..]);
    }

    /** A line whose first word is no command runs nothing. */
    lemma UnknownWordRunsNothing(tokens: seq<string>)
      requires |tokens| > 0 && forall j | 0 <= j < |TOP_LEVEL| :: !Is(tokens[0], TOP_LEVEL[j])
      ensures Dispatch(tokens) == None
    {
    }

    /** A word alone on its line runs nothing: every handler needs a token after its keyword. */
    lemma {:induction false} HandlersReceiveTokens(tokens: seq<string>)
      ensures Dispatch(tokens).Some? ==> |Dispatch(tokens).value.args| > 0 && |tokens| > |Dispatch(tokens).value.args|
      decreases |tokens|
    {
      if |tokens| > 1 {
        var rest := tokens[1..];
        match FirstMatch(TOP_LEVEL, tokens[0])
        case None =>
        case Some(k) =>
          if k == 7 {
            HandlersReceiveTokens(rest[1..]);
          } else if k == 2 || k == 5 || k == 6 || k == 8 {
            SubDispatchArgs(rest);
          }
      }
    }

    /** `open` with a path selects the open handler with that path, whatever its case. */
    lemma OpenDispatch(path: string)
      ensures Dispatch(["OPEN", path]) == Some(Command(["open"], [path]))
    {
      assert Is("OPEN", "open");
    }
  }
}

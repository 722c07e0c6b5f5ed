/** The compile-command tokenizer of the daemon (daemon/src/main.rs, `split_command`,
    `replace_file_arg`, `resolve_arguments`). */
module CommandLine {
  import opened Wrappers

  /** Rust's `char::is_whitespace`: the Unicode White_Space property. */
  predicate IsWhitespace(c: char) {
    || '\U{9}' <= c <= '\U{D}'
    || c == ' '
    || c == '\U{85}'
    || c == '\U{A0}'
    || c == '\U{1680}'
    || '\U{2000}' <= c <= '\U{200A}'
    || c == '\U{2028}'
    || c == '\U{2029}'
    || c == '\U{202F}'
    || c == '\U{205F}'
    || c == '\U{3000}'
  }

  /** The state `split_command` carries from one character to the next. */
  datatype Lexer = Lexer(args: seq<string>, current: string, inSingle: bool, inDouble: bool, escape: bool)

  const Start: Lexer := Lexer([], [], false, false, false)

  /** Outside any quote and not after a backslash. */
  predicate Idle(st: Lexer) {
    !st.inSingle && !st.inDouble && !st.escape
  }

  /** One iteration of the per-character loop. */
  function Step(st: Lexer, ch: char): Lexer {
    if st.escape then
      st.(current := st.current + [ch], escape := false)
    else if ch == '\\' && !st.inSingle then
      st.(escape := true)
    else if ch == '\'' && !st.inDouble then
      st.(inSingle := !st.inSingle)
    else if ch == '"' && !st.inSingle then
      st.(inDouble := !st.inDouble)
    else if IsWhitespace(ch) && !st.inSingle && !st.inDouble then
      if st.current != [] then st.(args := st.args + [st.current], current := []) else st
    else
      st.(current := st.current + [ch])
  }

  /** The loop over all characters of `s`, starting in state `st`. */
  function Run(st: Lexer, s: string): Lexer
    decreases |s|
  {
    if s == [] then st else Run(Step(st, s[0]), s[1..])
  }

  /** What remains in `current` after the loop becomes the last argument. */
  function Finish(st: Lexer): seq<string> {
    if st.current != [] then st.args + [st.current] else st.args
  }

  /** The arguments `split_command` returns for `command`; none of them is empty. */
  function Split(command: string): (args: seq<string>)
    ensures NoEmptyArgs(args)
  {
    RunKeepsNoEmptyArgs(Start, command);
    Finish(Run(Start, command))
  }

  predicate NoEmptyArgs(args: seq<string>) {
    forall i :: 0 <= i < |args| ==> args[i] != []
  }

  lemma {:induction false} RunAppend(st: Lexer, a: string, b: string)
    ensures Run(st, a + b) == Run(Run(st, a), b)
    decreases |a|
  {
    if a != [] {
      assert a + b != [] && (a + b)[0] == a[0];
      assert (a + b)[1..] == a[1..] + b;
      RunAppend(Step(st, a[0]), a[1..], b);
      assert Run(st, a + b) == Run(Step(st, a[0]), a[1..] + b);
      assert Run(st, a) == Run(Step(st, a[0]), a[1..]);
    } else {
      assert a + b == b;
    }
  }

  lemma RunSnoc(st: Lexer, s: string, ch: char)
    ensures Run(st, s + [ch]) == Step(Run(st, s), ch)
  {
    RunAppend(st, s, [ch]);
  }

  lemma {:induction false} RunKeepsNoEmptyArgs(st: Lexer, s: string)
    requires NoEmptyArgs(st.args)
    ensures NoEmptyArgs(Run(st, s).args)
    decreases |s|
  {
    if s != [] {
      RunKeepsNoEmptyArgs(Step(st, s[0]), s[1..]);
    }
  }

  /** The loop of `split_command`: one character at a time, flushing `current`
      on unquoted whitespace and at the end. */
  method SplitCommand(command: string) returns (args: seq<string>)
    ensures args == Split(command)
    ensures NoEmptyArgs(args)
  {
    args := [];
    var current: string := [];
    var inSingle, inDouble, escape := false, false, false;
    for i := 0 to |command|
      invariant Lexer(args, current, inSingle, inDouble, escape) == Run(Start, command[..i])
    {
      var ch := command[i];
      RunSnoc(Start, command[..i], ch);
      assert command[..i + 1] == command[..i] + [ch];
      if escape {
        current := current + [ch];
        escape := false;
        continue;
      }
      if ch == '\\' && !inSingle {
        escape := true;
        continue;
      }
      if ch == '\'' && !inDouble {
        inSingle := !inSingle;
        continue;
      }
      if ch == '"' && !inSingle {
        inDouble := !inDouble;
        continue;
      }
      if IsWhitespace(ch) && !inSingle && !inDouble {
        if current != [] {
          args := args + [current];
          current := [];
        }
        continue;
      }
      current := current + [ch];
    }
    assert command[..|command|] == command;
    if current != [] {
      args := args + [current];
    }
  }

  // ---------------------------------------------------------------------------
  // Quoting and escaping

  /** Characters that `split_command` treats specially outside quotes. */
  predicate IsSpecial(c: char) {
    IsWhitespace(c) || c == '\\' || c == '\'' || c == '"'
  }

  predicate Plain(word: string) {
    forall i :: 0 <= i < |word| ==> !IsSpecial(word[i])
  }

  /** Every character preceded by a backslash. */
  function Escape(word: string): (r: string)
    ensures |r| == 2 * |word|
  {
    if word == [] then [] else ['\\', word[0]] + Escape(word[1..])
  }

  /** `piece` read from any idle state appends exactly `word` to the current argument. */
  ghost predicate Encodes(piece: string, word: string) {
    forall st: Lexer {:trigger Run(st, piece)} :: Idle(st) ==> Run(st, piece) == st.(current := st.current + word)
  }

  /** Outside single quotes (inside double quotes or not) a backslash makes the
      next character literal, whatever it is, and the quoting state stays. */
  lemma {:induction false} EscapedRun(st: Lexer, word: string)
    requires !st.inSingle && !st.escape
    ensures Run(st, Escape(word)) == st.(current := st.current + word)
    decreases |word|
  {
    if word != [] {
      var mid := Step(Step(st, '\\'), word[0]);
      assert mid == st.(current := st.current + [word[0]]);
      RunAppend(st, ['\\', word[0]], Escape(word[1..]));
      assert Run(st, ['\\', word[0]]) == mid by {
        assert ['\\', word[0]][1..] == [word[0]];
        assert Run(st, ['\\', word[0]]) == Run(Step(st, '\\'), [word[0]]);
        assert [word[0]][1..] == [];
        assert Run(Step(st, '\\'), [word[0]]) == Run(mid, []);
      }
      EscapedRun(mid, word[1..]);
      assert st.current + [word[0]] + word[1..] == st.current + word;
    }
  }

  lemma EscapeEncodes(word: string)
    ensures Encodes(Escape(word), word)
  {
    forall st: Lexer | Idle(st)
      ensures Run(st, Escape(word)) == st.(current := st.current + word)
    {
      EscapedRun(st, word);
    }
  }

  /** Inside double quotes, `\c` appends `c` and the quote stays open. */
  lemma BackslashInDoubleQuotes(st: Lexer, c: char)
    requires st.inDouble && !st.inSingle && !st.escape
    ensures Run(st, ['\\', c]) == st.(current := st.current + [c])
  {
    assert Escape([c]) == ['\\', c];
    EscapedRun(st, [c]);
  }

  /** Any word, double-quoted with every character backslash-escaped (`"` and `\`
      included), is taken literally. */
  lemma EscapedDoubleQuotedEncodes(word: string)
    ensures Encodes(['"'] + Escape(word) + ['"'], word)
  {
    forall st: Lexer | Idle(st)
      ensures Run(st, ['"'] + Escape(word) + ['"']) == st.(current := st.current + word)
    {
      var inQuote := st.(inDouble := true);
      assert Run(st, ['"']) == inQuote;
      RunAppend(st, ['"'], Escape(word));
      EscapedRun(inQuote, word);
      RunAppend(st, ['"'] + Escape(word), ['"']);
      assert Run(inQuote.(current := st.current + word), ['"']) == st.(current := st.current + word);
    }
  }

  lemma {:induction false} PlainEncodes(word: string)
    requires Plain(word)
    ensures Encodes(word, word)
    decreases |word|
  {
    if word != [] {
      PlainEncodes(word[1..]);
      forall st: Lexer | Idle(st)
        ensures Run(st, word) == st.(current := st.current + word)
      {
        assert !IsSpecial(word[0]);
        assert st.current + [word[0]] + word[1..] == st.current + word;
      }
    }
  }

  /** Inside single quotes every character, backslash included, is literal. */
  lemma {:induction false} SingleQuotedRun(st: Lexer, text: string)
    requires st.inSingle && !st.inDouble && !st.escape
    requires forall i :: 0 <= i < |text| ==> text[i] != '\''
    ensures Run(st, text) == st.(current := st.current + text)
    decreases |text|
  {
    if text != [] {
      assert st.current + [text[0]] + text[1..] == st.current + text;
      SingleQuotedRun(Step(st, text[0]), text[1..]);
    }
  }

  /** A single-quoted text without a single quote inside is taken literally and
      the two quote characters are dropped. */
  lemma SingleQuotedEncodes(text: string)
    requires forall i :: 0 <= i < |text| ==> text[i] != '\''
    ensures Encodes(['\''] + text + ['\''], text)
  {
    forall st: Lexer | Idle(st)
      ensures Run(st, ['\''] + text + ['\'']) == st.(current := st.current + text)
    {
      var inQuote := st.(inSingle := true);
      assert Run(st, ['\'']) == inQuote;
      RunAppend(st, ['\''], text);
      SingleQuotedRun(inQuote, text);
      RunAppend(st, ['\''] + text, ['\'']);
      assert Run(inQuote.(current := st.current + text), ['\'']) == st.(current := st.current + text);
    }
  }

  /** Inside double quotes whitespace and single quotes are literal. */
  lemma {:induction false} DoubleQuotedRun(st: Lexer, text: string)
    requires !st.inSingle && st.inDouble && !st.escape
    requires forall i :: 0 <= i < |text| ==> text[i] != '"' && text[i] != '\\'
    ensures Run(st, text) == st.(current := st.current + text)
    decreases |text|
  {
    if text != [] {
      assert st.current + [text[0]] + text[1..] == st.current + text;
      DoubleQuotedRun(Step(st, text[0]), text[1..]);
    }
  }

  /** A double-quoted text without double quotes or backslashes inside is taken
      literally and the two quote characters are dropped. */
  lemma DoubleQuotedEncodes(text: string)
    requires forall i :: 0 <= i < |text| ==> text[i] != '"' && text[i] != '\\'
    ensures Encodes(['"'] + text + ['"'], text)
  {
    forall st: Lexer | Idle(st)
      ensures Run(st, ['"'] + text + ['"']) == st.(current := st.current + text)
    {
      var inQuote := st.(inDouble := true);
      assert Run(st, ['"']) == inQuote;
      RunAppend(st, ['"'], text);
      DoubleQuotedRun(inQuote, text);
      RunAppend(st, ['"'] + text, ['"']);
      assert Run(inQuote.(current := st.current + text), ['"']) == st.(current := st.current + text);
    }
  }

  /** Pieces separated by one space. */
  function Join(pieces: seq<string>): string
    decreases |pieces|
  {
    if |pieces| == 0 then []
    else if |pieces| == 1 then pieces[0]
    else pieces[0] + [' '] + Join(pieces[1..])
  }

  lemma {:induction false} JoinRun(acc: seq<string>, pieces: seq<string>, words: seq<string>)
    requires |pieces| == |words|
    requires NoEmptyArgs(words)
    requires forall i :: 0 <= i < |pieces| ==> Encodes(pieces[i], words[i])
    ensures Finish(Run(Lexer(acc, [], false, false, false), Join(pieces))) == acc + words
    decreases |pieces|
  {
    var st := Lexer(acc, [], false, false, false);
    if |pieces| == 0 {
      assert acc + words == acc;
    } else {
      assert Encodes(pieces[0], words[0]);
      assert Run(st, pieces[0]) == st.(current := words[0]);
      if |pieces| == 1 {
        assert Join(pieces) == pieces[0];
      } else {
        var rest := Join(pieces[1..]);
        assert Join(pieces) == pieces[0] + [' '] + rest;
        RunAppend(st, pieces[0] + [' '], rest);
        RunAppend(st, pieces[0], [' ']);
        var next := Lexer(acc + [words[0]], [], false, false, false);
        assert Run(st.(current := words[0]), [' ']) == next;
        JoinRun(acc + [words[0]], pieces[1..], words[1..]);
        assert acc + [words[0]] + words[1..] == acc + words;
      }
    }
  }

  function EscapeAll(words: seq<string>): (r: seq<string>)
    ensures |r| == |words|
    ensures forall i :: 0 <= i < |words| ==> r[i] == Escape(words[i])
  {
    seq(|words|, i requires 0 <= i < |words| => Escape(words[i]))
  }

  /** Unquoted whitespace separates arguments: joining plain words with spaces
      and splitting gives the words back. */
  lemma PlainJoinRoundTrip(words: seq<string>)
    requires NoEmptyArgs(words)
    requires forall i :: 0 <= i < |words| ==> Plain(words[i])
    ensures Split(Join(words)) == words
  {
    forall i | 0 <= i < |words| ensures Encodes(words[i], words[i]) {
      PlainEncodes(words[i]);
    }
    JoinRun([], words, words);
  }

  /** A backslash makes the next character literal: backslash-escaping every
      character of every argument and joining with spaces splits back to the
      same arguments, whatever characters they hold. */
  lemma EscapeJoinRoundTrip(words: seq<string>)
    requires NoEmptyArgs(words)
    ensures Split(Join(EscapeAll(words))) == words
  {
    var pieces := EscapeAll(words);
    forall i | 0 <= i < |words| ensures Encodes(pieces[i], words[i]) {
      EscapeEncodes(words[i]);
    }
    JoinRun([], pieces, words);
  }

  /** A quoted empty string yields no argument, and a trailing backslash is dropped. */
  lemma EmptyQuotesAndTrailingBackslash(word: string)
    requires word != [] && Plain(word)
    ensures Split(['\'', '\'']) == []
    ensures Split(word + ['\\']) == [word]
  {
    PlainEncodes(word);
    assert Run(Start, word) == Start.(current := word);
    RunAppend(Start, word, ['\\']);
  }

  // ---------------------------------------------------------------------------
  // Compile commands

  /** An entry of compile_commands.json as the index stores it. */
  datatype CompileCommandEntry = CompileCommandEntry(
    file: string,
    directory: string,
    command: Option<string>,
    arguments: Option<seq<string>>)

  /** `resolve_arguments`: the explicit `arguments` list wins over splitting `command`. */
  function ResolveArguments(entry: CompileCommandEntry): (r: Option<seq<string>>)
    ensures r.None? <==> entry.arguments.None? && entry.command.None?
    ensures entry.arguments.Some? ==> r == entry.arguments
    ensures entry.arguments.None? && entry.command.Some? ==> r == Some(Split(entry.command.value))
    ensures entry.arguments.None? && r.Some? ==> NoEmptyArgs(r.value)
  {
    if entry.arguments.Some? then
      entry.arguments
    else if entry.command.Some? then
      Some(Split(entry.command.value))
    else
      None
  }

  // ---------------------------------------------------------------------------
  // Swapping the source file for the temporary copy

  predicate Matches(arg: string, rawFile: string, originalPath: string) {
    arg == rawFile || arg == originalPath
  }

  /** `args` with every argument naming the file replaced by `tempPath`. */
  function ReplaceAll(args: seq<string>, rawFile: string, originalPath: string, tempPath: string): (r: seq<string>)
    ensures |r| == |args|
    ensures forall i :: 0 <= i < |args| && !Matches(args[i], rawFile, originalPath) ==> r[i] == args[i]
    decreases |args|
  {
    if args == [] then []
    else
      var last := args[|args| - 1];
      ReplaceAll(args[..|args| - 1], rawFile, originalPath, tempPath)
        + [if Matches(last, rawFile, originalPath) then tempPath else last]
  }

  /** Some argument names the file. */
  predicate Mentions(args: seq<string>, rawFile: string, originalPath: string) {
    exists i :: 0 <= i < |args| && Matches(args[i], rawFile, originalPath)
  }

  /** Pointwise meaning of `ReplaceAll`: same length, matching arguments become
      `tempPath`, all others are kept. */
  lemma {:induction false} ReplaceAllPointwise(args: seq<string>, rawFile: string, originalPath: string, tempPath: string)
    ensures |ReplaceAll(args, rawFile, originalPath, tempPath)| == |args|
    ensures forall i :: 0 <= i < |args| ==>
      ReplaceAll(args, rawFile, originalPath, tempPath)[i]
        == if Matches(args[i], rawFile, originalPath) then tempPath else args[i]
    decreases |args|
  {
    if args != [] {
      ReplaceAllPointwise(args[..|args| - 1], rawFile, originalPath, tempPath);
    }
  }

  /** When the temporary path is a new name, no argument names the file afterwards. */
  lemma ReplaceAllRemovesMentions(args: seq<string>, rawFile: string, originalPath: string, tempPath: string)
    requires tempPath != rawFile && tempPath != originalPath
    ensures !Mentions(ReplaceAll(args, rawFile, originalPath, tempPath), rawFile, originalPath)
  {
    ReplaceAllPointwise(args, rawFile, originalPath, tempPath);
  }

  /** Replacing twice is the same as replacing once. */
  lemma ReplaceAllIdempotent(args: seq<string>, rawFile: string, originalPath: string, tempPath: string)
    ensures ReplaceAll(ReplaceAll(args, rawFile, originalPath, tempPath), rawFile, originalPath, tempPath)
         == ReplaceAll(args, rawFile, originalPath, tempPath)
  {
    var once := ReplaceAll(args, rawFile, originalPath, tempPath);
    ReplaceAllPointwise(args, rawFile, originalPath, tempPath);
    ReplaceAllPointwise(once, rawFile, originalPath, tempPath);
  }

  /** Without a mention, nothing changes. */
  lemma ReplaceAllWithoutMention(args: seq<string>, rawFile: string, originalPath: string, tempPath: string)
    requires !Mentions(args, rawFile, originalPath)
    ensures ReplaceAll(args, rawFile, originalPath, tempPath) == args
  {
    ReplaceAllPointwise(args, rawFile, originalPath, tempPath);
  }

  /** `replace_file_arg`: rewrites the argument slice in place and reports whether
      anything was replaced. */
  method ReplaceFileArg(args: array<string>, rawFile: string, originalPath: string, tempPath: string)
    returns (replaced: bool)
    modifies args
    ensures args[..] == ReplaceAll(old(args[..]), rawFile, originalPath, tempPath)
    ensures replaced <==> Mentions(old(args[..]), rawFile, originalPath)
  {
    ghost var before := args[..];
    replaced := false;
    for i := 0 to args.Length
      invariant args[..i] == ReplaceAll(before[..i], rawFile, originalPath, tempPath)
      invariant args[i..] == before[i..]
      invariant replaced <==> Mentions(before[..i], rawFile, originalPath)
    {
      assert before[..i + 1][..i] == before[..i];
      assert args[i] == before[i];
      if args[i] == rawFile || args[i] == originalPath {
        args[i] := tempPath;
        replaced := true;
      }
      assert args[..i + 1] == args[..i] + [args[i]];
      assert Mentions(before[..i + 1], rawFile, originalPath)
        <==> Mentions(before[..i], rawFile, originalPath) || Matches(before[i], rawFile, originalPath) by {
        assert forall j :: 0 <= j < i ==> before[..i + 1][j] == before[..i][j];
        assert before[..i + 1][i] == before[i];
      }
    }
    assert before[..args.Length] == before;
  }
}

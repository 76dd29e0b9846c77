/**
 The copyable command line (docker/support/scripts/publish-npm-baseline.ts) and the shell
 that reads it back: token recognition and quote removal as in sections 2.2.1 to 2.2.3 of
 the POSIX Shell Command Language (IEEE Std 1003.1, XCU).
 */
module ShellQuoting {
  import opened Wrappers

  // ---------------------------------------------------------------- printing

  predicate Plain(c: char) {
    || 'a' <= c <= 'z' || 'A' <= c <= 'Z' || '0' <= c <= '9'
    || c in "_./:@=+-"
  }

  /** Every single quote leaves the quotation, appears in double quotes, and enters it again. */
  function EscapeSingleQuotes(value: string): string {
    if value == "" then ""
    else (if value[0] == '\'' then "'\"'\"'" else [value[0]]) + EscapeSingleQuotes(value[1..])
  }

  function QuoteShellArgument(value: string): string {
    if value != "" && forall c :: c in value ==> Plain(c) then value
    else "'" + EscapeSingleQuotes(value) + "'"
  }

  lemma {:induction false} EscapingKeeps(value: string)
    ensures |EscapeSingleQuotes(value)| >= |value|
    ensures '\'' !in value ==> EscapeSingleQuotes(value) == value
  {
    if value != "" {
      EscapingKeeps(value[1..]);
      assert value == [value[0]] + value[1..];
    }
  }

  /** What a reader sees: the harmless arguments bare, the others in single quotes. */
  lemma HarmlessArgumentsPrintBare(value: string)
    ensures QuoteShellArgument(value) == value <==>
              value != "" && forall c :: c in value ==>
                'a' <= c <= 'z' || 'A' <= c <= 'Z' || '0' <= c <= '9'
                || c in {'_', '.', '/', ':', '@', '=', '+', '-'}
    ensures QuoteShellArgument(value) != value && '\'' !in value ==> QuoteShellArgument(value) == "'" + value + "'"
  {
    EscapingKeeps(value);
    forall c ensures c in "_./:@=+-" <==> c in {'_', '.', '/', ':', '@', '=', '+', '-'} {
      SamePunctuation(c);
    }
  }

  lemma SamePunctuation(c: char)
    ensures c in "_./:@=+-" <==> c in {'_', '.', '/', ':', '@', '=', '+', '-'}
  {
    var punctuation := "_./:@=+-";
    assert punctuation[0] == '_' && punctuation[1] == '.' && punctuation[2] == '/' && punctuation[3] == ':';
    assert punctuation[4] == '@' && punctuation[5] == '=' && punctuation[6] == '+' && punctuation[7] == '-';
  }

  function JoinWords(words: seq<string>): string {
    if words == [] then ""
    else if |words| == 1 then words[0]
    else words[0] + " " + JoinWords(words[1..])
  }

  function QuoteAll(words: seq<string>): seq<string> {
    if words == [] then [] else [QuoteShellArgument(words[0])] + QuoteAll(words[1..])
  }

  function FormatCopyableCommand(command: string, args: seq<string>): string {
    JoinWords(QuoteAll([command] + args))
  }

  // ---------------------------------------------------------------- reading

  datatype Mode = Unquoted | SingleQuoted | DoubleQuoted | Escaped | EscapedInDoubleQuotes

  /** The words completed so far and the one in progress; an unquoted special character is rejected. */
  datatype Shell = Reading(mode: Mode, words: seq<string>, word: Option<string>) | Rejected

  /** Characters that mean something to the shell when they are not quoted, other than quotes and blanks. */
  predicate Special(c: char) {
    c in "|&;<>()$`*?[#~\n"
  }

  function Append(word: Option<string>, text: string): Option<string> {
    if word.Some? then Some(word.value + text) else Some(text)
  }

  function ReadUnquoted(s: Shell, c: char): Shell
    requires s.Reading?
  {
    if c == ' ' || c == '\t' then
      if s.word.Some? then Reading(Unquoted, s.words + [s.word.value], None) else s
    else if c == '\'' then s.(mode := SingleQuoted, word := Append(s.word, ""))
    else if c == '"' then s.(mode := DoubleQuoted, word := Append(s.word, ""))
    else if c == '\\' then s.(mode := Escaped)
    else if Special(c) then Rejected
    else s.(word := Append(s.word, [c]))
  }

  function Read(s: Shell, c: char): Shell {
    if s.Rejected? then Rejected
    else
      match s.mode
      case Unquoted => ReadUnquoted(s, c)
      case SingleQuoted => if c == '\'' then s.(mode := Unquoted) else s.(word := Append(s.word, [c]))
      case DoubleQuoted =>
        if c == '"' then s.(mode := Unquoted)
        else if c == '\\' then s.(mode := EscapedInDoubleQuotes)
        else if c == '$' || c == '`' then Rejected
        else s.(word := Append(s.word, [c]))
      case Escaped =>
        if c == '\n' then s.(mode := Unquoted) else s.(mode := Unquoted, word := Append(s.word, [c]))
      case EscapedInDoubleQuotes =>
        if c == '\n' then s.(mode := DoubleQuoted)
        else if c in "$`\"\\" then s.(mode := DoubleQuoted, word := Append(s.word, [c]))
        else s.(mode := DoubleQuoted, word := Append(s.word, ['\\', c]))
  }

  function ReadAll(s: Shell, text: string): Shell
    decreases |text|
  {
    if text == "" then s else ReadAll(Read(s, text[0]), text[1..])
  }

  /** The words of a command line, or None when it is not a plain list of words. */
  function Words(text: string): Option<seq<string>> {
    var s := ReadAll(Reading(Unquoted, [], None), text);
    if s.Rejected? || s.mode != Unquoted then None
    else Some(if s.word.Some? then s.words + [s.word.value] else s.words)
  }

  // ---------------------------------------------------------------- round trip

  lemma {:induction false} ReadConcat(s: Shell, a: string, b: string)
    ensures ReadAll(s, a + b) == ReadAll(ReadAll(s, a), b)
    decreases |a|
  {
    hide Read;
    if a == "" {
      assert a + b == b;
    } else {
      assert (a + b)[0] == a[0] && (a + b)[1..] == a[1..] + b;
      ReadConcat(Read(s, a[0]), a[1..], b);
    }
  }

  lemma ReadPlainCharacter(words: seq<string>, word: Option<string>, c: char)
    requires Plain(c)
    ensures Read(Reading(Unquoted, words, word), c) == Reading(Unquoted, words, Append(word, [c]))
  {
    assert !Special(c);
  }

  lemma AppendAppend(word: Option<string>, a: string, b: string)
    ensures Append(Append(word, a), b) == Append(word, a + b)
  {
    if word.Some? {
      assert word.value + a + b == word.value + (a + b);
    }
  }

  lemma {:induction false} ReadPlain(words: seq<string>, word: Option<string>, value: string)
    requires value != "" && forall c :: c in value ==> Plain(c)
    ensures ReadAll(Reading(Unquoted, words, word), value) == Reading(Unquoted, words, Append(word, value))
    decreases |value|
  {
    hide Read, Append, Plain;
    assert value[0] in value;
    ReadPlainCharacter(words, word, value[0]);
    assert value == [value[0]] + value[1..];
    if |value| > 1 {
      assert forall c :: c in value[1..] ==> c in value;
      ReadPlain(words, Append(word, [value[0]]), value[1..]);
      AppendAppend(word, [value[0]], value[1..]);
    } else {
      assert value == [value[0]] && value[1..] == "";
    }
  }

  /** Inside single quotes an escaped value reads back as itself, quotes included. */
  lemma {:induction false} ReadEscaped(words: seq<string>, word: string, value: string)
    ensures ReadAll(Reading(SingleQuoted, words, Some(word)), EscapeSingleQuotes(value))
            == Reading(SingleQuoted, words, Some(word + value))
    decreases |value|
  {
    if value == "" {
      assert word + value == word;
    } else {
      var s := Reading(SingleQuoted, words, Some(word));
      var piece := if value[0] == '\'' then "'\"'\"'" else [value[0]];
      ReadConcat(s, piece, EscapeSingleQuotes(value[1..]));
      if value[0] == '\'' {
        ReadQuotedQuote(words, word);
      } else {
        assert ReadAll(Read(s, value[0]), piece[1..]) == Read(s, value[0]);
      }
      ReadEscaped(words, word + [value[0]], value[1..]);
      assert word + [value[0]] + value[1..] == word + value;
    }
  }

  lemma ReadQuotedQuote(words: seq<string>, word: string)
    ensures ReadAll(Reading(SingleQuoted, words, Some(word)), "'\"'\"'")
        == Reading(SingleQuoted, words, Some(word + "'"))
  {
    var s0 := Reading(SingleQuoted, words, Some(word));
    var s1 := Read(s0, '\'');
    var s2 := Read(s1, '"');
    var s3 := Read(s2, '\'');
    var s4 := Read(s3, '"');
    var s5 := Read(s4, '\'');
    assert word + "" == word && word + "'" + "" == word + "'";
    assert s5 == Reading(SingleQuoted, words, Some(word + "'"));
    var text := "'\"'\"'";
    assert text[1..] == "\"'\"'" && text[1..][1..] == "'\"'" && "'\"'"[1..] == "\"'" && "\"'"[1..] == "'" &&
        "'"[1..] == "";
    assert ReadAll(s0, text) == ReadAll(s1, "\"'\"'") == ReadAll(s2, "'\"'") == ReadAll(s3, "\"'") == ReadAll(s4, "'");
    assert ReadAll(s4, "'") == ReadAll(s5, "") == s5;
  }

  lemma ReadQuotation(words: seq<string>, value: string)
    ensures ReadAll(Reading(Unquoted, words, None), "'" + EscapeSingleQuotes(value) + "'")
        == Reading(Unquoted, words, Some(value))
  {
    hide EscapeSingleQuotes;
    var escaped := EscapeSingleQuotes(value);
    var text := "'" + escaped + "'";
    assert text[0] == '\'' && text[1..] == escaped + "'";
    var inside := Reading(SingleQuoted, words, Some(""));
    var closing := Reading(SingleQuoted, words, Some(value));
    assert Read(Reading(Unquoted, words, None), '\'') == inside;
    ReadConcat(inside, escaped, "'");
    ReadEscaped(words, "", value);
    assert "" + value == value;
    assert ReadAll(closing, "'") == ReadAll(Read(closing, '\''), "");
    assert value + "" == value;
  }

  lemma ReadQuoted(words: seq<string>, value: string)
    ensures ReadAll(Reading(Unquoted, words, None), QuoteShellArgument(value)) == Reading(Unquoted, words, Some(value))
  {
    hide ReadAll, EscapeSingleQuotes;
    if value != "" && forall c :: c in value ==> Plain(c) {
      ReadPlain(words, None, value);
    } else {
      ReadQuotation(words, value);
    }
  }

  lemma JoinQuoted(words: seq<string>)
    requires |words| > 1
    ensures JoinWords(QuoteAll(words)) == QuoteShellArgument(words[0]) + ([' '] + JoinWords(QuoteAll(words[1..])))
  {
    assert QuoteAll(words)[1..] == QuoteAll(words[1..]);
    assert |QuoteAll(words[1..])| >= 1;
  }

  lemma ReadBlank(words: seq<string>, word: string, text: string)
    ensures ReadAll(Reading(Unquoted, words, Some(word)), [' '] + text)
        == ReadAll(Reading(Unquoted, words + [word], None), text)
  {
    assert ([' '] + text)[0] == ' ' && ([' '] + text)[1..] == text;
  }

  lemma {:induction false} ReadJoined(before: seq<string>, words: seq<string>)
    requires words != []
    ensures ReadAll(Reading(Unquoted, before, None), JoinWords(QuoteAll(words)))
            == Reading(Unquoted, before + words[..|words| - 1], Some(words[|words| - 1]))
    decreases |words|
  {
    hide ReadAll, QuoteShellArgument;
    ReadQuoted(before, words[0]);
    if |words| == 1 {
      assert QuoteAll(words) == [QuoteShellArgument(words[0])];
      assert before + words[..0] == before;
    } else {
      hide JoinWords, QuoteAll;
      var rest := JoinWords(QuoteAll(words[1..]));
      JoinQuoted(words);
      ReadConcat(Reading(Unquoted, before, None), QuoteShellArgument(words[0]), [' '] + rest);
      ReadBlank(before, words[0], rest);
      ReadJoined(before + [words[0]], words[1..]);
      FirstWordMoves(before, words);
    }
  }

  lemma FirstWordMoves(before: seq<string>, words: seq<string>)
    requires |words| > 1
    ensures before + [words[0]] + words[1..][..|words[1..]| - 1] == before + words[..|words| - 1]
    ensures words[1..][|words[1..]| - 1] == words[|words| - 1]
  {
    assert words[..|words| - 1] == [words[0]] + words[1..][..|words[1..]| - 1];
  }

  /** Round trip: the shell reads back exactly the command and its arguments, whatever characters they hold. */
  lemma CopyableCommandReadsBack(command: string, args: seq<string>)
    ensures Words(FormatCopyableCommand(command, args)) == Some([command] + args)
  {
    var words := [command] + args;
    hide ReadAll, JoinWords, QuoteAll;
    ReadJoined([], words);
    LastWordCompletes(words);
  }

  lemma LastWordCompletes(words: seq<string>)
    requires words != []
    ensures [] + words[..|words| - 1] + [words[|words| - 1]] == words
  {
  }

  /** So no two different command lines are printed alike. */
  lemma CopyableCommandsAreDistinct(command1: string, args1: seq<string>, command2: string, args2: seq<string>)
    requires FormatCopyableCommand(command1, args1) == FormatCopyableCommand(command2, args2)
    ensures command1 == command2 && args1 == args2
  {
    CopyableCommandReadsBack(command1, args1);
    CopyableCommandReadsBack(command2, args2);
    assert ([command1] + args1)[1..] == args1 && ([command2] + args2)[1..] == args2;
    assert ([command1] + args1)[0] == ([command2] + args2)[0];
  }
}

/**
 * The command line sent to a target (backend/ssh_manager.py), against the shell that reads it:
 * word recognition and quoting as in POSIX.1-2017, XCU sections 2.2 and 2.3.
 */
module ShellQuoting {
  import opened Optional

  // --- quoting ------------------------------------------------------------------------------

  predicate Safe(c: char) {
    'a' <= c <= 'z' || 'A' <= c <= 'Z' || '0' <= c <= '9' || c in "_-./:="
  }

  /** `s.replace("'", "'\"'\"'")`: out of the quotes, a quoted quote, and back in. */
  function Escaped(s: string): string {
    if s == "" then ""
    else (if s[0] == '\'' then "'\"'\"'" else [s[0]]) + Escaped(s[1..])
  }

  /** `_shell_quote`. */
  function ShellQuote(s: string): string {
    if s == "" then "''"
    else if forall i :: 0 <= i < |s| ==> Safe(s[i]) then s
    else "'" + Escaped(s) + "'"
  }

  /** `" ".join(_shell_quote(a) for a in args)`. */
  function CommandLine(args: seq<string>): string {
    if |args| == 0 then ""
    else if |args| == 1 then ShellQuote(args[0])
    else ShellQuote(args[0]) + " " + CommandLine(args[1..])
  }

  // --- the shell ----------------------------------------------------------------------------

  datatype Quotes = Unquoted | Single | Double

  /** Characters that, unquoted, mean something other than themselves somewhere in a word. */
  predicate Special(c: char) { c in "|&;<>()$`\\\n*?[]#~!{}^" }

  predicate Blank(c: char) { c == ' ' || c == '\t' }

  function WithWord(out: seq<string>, word: Option<string>): seq<string> {
    if word.Some? then out + [word.value] else out
  }

  function Append(word: Option<string>, s: string): Option<string> {
    Some(if word.Some? then word.value + s else s)
  }

  /**
   * The words of a line, or `None` when a quote stays open or a character is read with a meaning
   * of its own: an operator, an expansion, a pattern.
   */
  function Words(s: string, quotes: Quotes, word: Option<string>, out: seq<string>): Option<seq<string>> {
    if s == "" then
      if quotes.Unquoted? then Some(WithWord(out, word)) else None
    else
      var c, rest := s[0], s[1..];
      match quotes
      case Unquoted =>
        if Blank(c) then Words(rest, Unquoted, None, WithWord(out, word))
        else if c == '\'' then Words(rest, Single, Append(word, ""), out)
        else if c == '"' then Words(rest, Double, Append(word, ""), out)
        else if Special(c) then None
        else Words(rest, Unquoted, Append(word, [c]), out)
      case Single =>
        if c == '\'' then Words(rest, Unquoted, word, out) else Words(rest, Single, Append(word, [c]), out)
      case Double =>
        if c == '"' then Words(rest, Unquoted, word, out)
        else if c in "$`\\" then None
        else Words(rest, Double, Append(word, [c]), out)
  }

  function Split(line: string): Option<seq<string>> { Words(line, Unquoted, None, []) }

  // --- the words are the arguments ------------------------------------------------------------

  /** One character read. */
  lemma Read(c: char, rest: string, quotes: Quotes, word: Option<string>, out: seq<string>)
    ensures quotes.Unquoted? && Safe(c) ==>
              Words([c] + rest, quotes, word, out) == Words(rest, Unquoted, Append(word, [c]), out)
    ensures quotes.Unquoted? && c == '\'' ==>
              Words([c] + rest, quotes, word, out) == Words(rest, Single, Append(word, ""), out)
    ensures quotes.Unquoted? && c == '"' ==>
              Words([c] + rest, quotes, word, out) == Words(rest, Double, Append(word, ""), out)
    ensures quotes.Single? ==>
              Words([c] + rest, quotes, word, out) ==
              if c == '\'' then Words(rest, Unquoted, word, out) else Words(rest, Single, Append(word, [c]), out)
    ensures quotes.Double? && c == '"' ==> Words([c] + rest, quotes, word, out) == Words(rest, Unquoted, word, out)
    ensures quotes.Double? && c == '\'' ==>
              Words([c] + rest, quotes, word, out) == Words(rest, Double, Append(word, [c]), out)
  {
    assert ([c] + rest)[1..] == rest;
    assert Safe(c) ==> !Special(c) && !Blank(c);
  }

  lemma {:induction false} SafeWord(s: string, rest: string, word: string, out: seq<string>)
    requires forall i :: 0 <= i < |s| ==> Safe(s[i])
    ensures Words(s + rest, Unquoted, Some(word), out) == Words(rest, Unquoted, Some(word + s), out)
    decreases |s|
  {
    hide Words, Safe;
    if s == "" {
      assert s + rest == rest && word + s == word;
    } else {
      assert s + rest == [s[0]] + (s[1..] + rest);
      assert word + [s[0]] + s[1..] == word + s;
      Read(s[0], s[1..] + rest, Unquoted, Some(word), out);
      SafeWord(s[1..], rest, word + [s[0]], out);
    }
  }

  /** Inside single quotes, the escaped text reads as the text. */
  lemma {:induction false} EscapedWord(s: string, rest: string, word: string, out: seq<string>)
    ensures Words(Escaped(s) + "'" + rest, Single, Some(word), out) == Words(rest, Unquoted, Some(word + s), out)
    decreases |s|
  {
    hide Words, Safe;
    if s == "" {
      assert Escaped(s) + "'" + rest == ['\''] + rest && word + s == word;
      Read('\'', rest, Single, Some(word), out);
    } else {
      var tail := Escaped(s[1..]) + "'" + rest;
      assert word + [s[0]] + s[1..] == word + s;
      EscapedWord(s[1..], rest, word + [s[0]], out);
      if s[0] == '\'' {
        assert Escaped(s) + "'" + rest == "'\"'\"'" + tail;
        QuotedQuote(tail, word, out);
      } else {
        assert Escaped(s) + "'" + rest == [s[0]] + tail;
        Read(s[0], tail, Single, Some(word), out);
      }
    }
  }

  lemma QuotedQuote(tail: string, word: string, out: seq<string>)
    ensures Words("'\"'\"'" + tail, Single, Some(word), out) == Words(tail, Single, Some(word + ['\'']), out)
  {
    hide Words, Safe;
    var s1, s2, s3, s4 := "\"'\"'" + tail, "'\"'" + tail, "\"'" + tail, "'" + tail;
    var more := word + ['\''];
    assert "'\"'\"'" + tail == ['\''] + s1 && s1 == ['"'] + s2 && s2 == ['\''] + s3 && s3 == ['"'] + s4;
    assert s4 == ['\''] + tail && word + "" == word && more + "" == more;
    Read('\'', s1, Single, Some(word), out);
    Read('"', s2, Unquoted, Some(word), out);
    Read('\'', s3, Double, Some(word), out);
    Read('"', s4, Double, Some(more), out);
    Read('\'', tail, Unquoted, Some(more), out);
  }

  /** A quoted argument is one word, whatever is in it. */
  lemma QuotedIsOneWord(a: string, rest: string, out: seq<string>)
    ensures Words(ShellQuote(a) + rest, Unquoted, None, out) == Words(rest, Unquoted, Some(a), out)
  {
    hide Words, Safe;
    if a == "" {
      assert "''" + rest == ['\''] + (['\''] + rest);
      Read('\'', ['\''] + rest, Unquoted, None, out);
      Read('\'', rest, Single, Some(""), out);
    } else if forall i :: 0 <= i < |a| ==> Safe(a[i]) {
      assert a + rest == [a[0]] + (a[1..] + rest);
      assert [a[0]] + a[1..] == a;
      Read(a[0], a[1..] + rest, Unquoted, None, out);
      SafeWord(a[1..], rest, [a[0]], out);
    } else {
      assert ShellQuote(a) + rest == ['\''] + (Escaped(a) + "'" + rest);
      assert "" + a == a;
      Read('\'', Escaped(a) + "'" + rest, Unquoted, None, out);
      EscapedWord(a, rest, "", out);
    }
  }

  lemma {:induction false} WordsOfCommandLine(args: seq<string>, out: seq<string>)
    ensures Words(CommandLine(args), Unquoted, None, out) == Some(out + args)
    decreases |args|
  {
    if |args| == 0 {
      assert out + args == out;
    } else if |args| == 1 {
      QuotedIsOneWord(args[0], "", out);
      assert ShellQuote(args[0]) + "" == ShellQuote(args[0]) && args == [args[0]];
    } else {
      var rest := CommandLine(args[1..]);
      assert CommandLine(args) == ShellQuote(args[0]) + (" " + rest);
      QuotedIsOneWord(args[0], " " + rest, out);
      assert (" " + rest)[1..] == rest;
      WordsOfCommandLine(args[1..], out + [args[0]]);
      assert out + [args[0]] + args[1..] == out + args;
    }
  }

  /** The shell hands the program exactly the arguments that were joined. */
  lemma SplitUndoesJoin(args: seq<string>)
    ensures Split(CommandLine(args)) == Some(args)
  {
    WordsOfCommandLine(args, []);
    assert [] + args == args;
  }

  /** So different argument lists never read alike. */
  lemma CommandLinesDiffer(args: seq<string>, others: seq<string>)
    requires CommandLine(args) == CommandLine(others)
    ensures args == others
  {
    SplitUndoesJoin(args);
    SplitUndoesJoin(others);
  }

  /** With the `timeout` put in front unquoted, it is the same list behind two more words. */
  lemma TimeoutIsTwoWords(args: seq<string>, seconds: string)
    requires |args| > 0 && seconds != "" && forall i :: 0 <= i < |seconds| ==> '0' <= seconds[i] <= '9'
    ensures Split("timeout" + " " + (seconds + " " + CommandLine(args))) == Some(["timeout", seconds] + args)
  {
    BareWords(seconds);
    hide Words, Escaped, ShellQuote, Safe, CommandLine;
    FirstWord(seconds, args);
    FirstWord("timeout", [seconds] + args);
    assert ["timeout"] + ([seconds] + args) == ["timeout", seconds] + args;
    SplitUndoesJoin(["timeout", seconds] + args);
  }

  lemma BareWords(seconds: string)
    requires seconds != "" && forall i :: 0 <= i < |seconds| ==> '0' <= seconds[i] <= '9'
    ensures ShellQuote("timeout") == "timeout" && ShellQuote(seconds) == seconds
  {
    assert forall i :: 0 <= i < |seconds| ==> Safe(seconds[i]);
  }

  lemma FirstWord(word: string, args: seq<string>)
    requires |args| > 0 && ShellQuote(word) == word
    ensures CommandLine([word] + args) == word + " " + CommandLine(args)
  {
    assert ([word] + args)[1..] == args;
  }
}

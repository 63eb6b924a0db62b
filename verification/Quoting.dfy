/** Quoting an argument list for the remote shell. */
module Quoting {
  import opened Prelude
  import opened Text

  datatype BuildError = NonUtf8RemoteArgument

  /** `replace('\'', "'\\''")`. */
  function Escaped(s: string): string {
    if s == [] then []
    else (if s[0] == '\'' then "'\\''" else [s[0]]) + Escaped(s[1..])
  }

  function Quoted(s: string): string {
    "'" + Escaped(s) + "'"
  }

  function QuotedAll(arguments: seq<string>): (r: seq<string>)
    ensures |r| == |arguments|
  {
    if arguments == [] then [] else [Quoted(arguments[0])] + QuotedAll(arguments[1..])
  }

  /** `utf8` tells which operating-system strings are valid text. */
  function RemoteCommand(arguments: seq<string>, utf8: string -> bool): Result<string, BuildError> {
    if exists i :: 0 <= i < |arguments| && !utf8(arguments[i]) then Err(NonUtf8RemoteArgument)
    else Ok(Join(QuotedAll(arguments), " "))
  }

  // ---- The shell's own reading ----------------------------------------------------

  /** Where the shell stands in its input: between words, in a word, or between
      single quotes, with the part of the word read so far. */
  datatype Scan = Between | Word(part: string) | Single(part: string)

  function Part(at: Scan): string {
    match at
    case Between => []
    case Word(w) => w
    case Single(w) => w
  }

  /** Unquoted characters that mean something other than themselves: operators,
      expansions, the other quote, patterns, comments, new lines, tilde and
      assignment. */
  predicate Special(c: char) {
    c in "|&;<>()$`\"*?[]#~=%{}!\n\0"
  }

  /** Token recognition (section 2.3) with the escape character (2.2.1) and single
      quotes (2.2.2) of the POSIX.1-2017 Shell Command Language: the words of a
      simple command after quote removal. None for input that is unfinished or in
      which an unquoted character has another meaning. */
  function Words(s: string, at: Scan): Option<seq<string>> {
    if at.Single? then
      if s == [] then None
      else if s[0] == '\'' then Words(s[1..], Word(at.part))
      else Words(s[1..], Single(at.part + [s[0]]))
    else
      var w := Part(at);
      if s == [] then Some(if at.Word? then [w] else [])
      else if s[0] == '\'' then Words(s[1..], Single(w))
      else if s[0] == '\\' then
        if |s| == 1 then None
        else if s[1] == '\n' then Words(s[2..], at)
        else Words(s[2..], Word(w + [s[1]]))
      else if s[0] == ' ' || s[0] == '\t' then
        (match Words(s[1..], Between)
         case Some(rest) => Some(if at.Word? then [w] + rest else rest)
         case None => None)
      else if Special(s[0]) then None
      else Words(s[1..], Word(w + [s[0]]))
  }

  lemma {:induction false} QuoteStep(w: string, rest: string)
    ensures Words("'\\''" + rest, Single(w)) == Words(rest, Single(w + "'"))
  {
    var s := "'\\''" + rest;
    assert s[1..] == "\\''" + rest;
    assert s[1..][2..] == "'" + rest;
    assert ("'" + rest)[1..] == rest;
    assert Words(s, Single(w)) == Words(s[1..], Word(w));
    assert Words(s[1..], Word(w)) == Words("'" + rest, Word(w + ['\'']));
  }

  lemma PlainStep(c: char, w: string, rest: string)
    ensures Words([c] + rest, Single(w)) == if c == '\'' then Words(rest, Word(w)) else Words(rest, Single(w + [c]))
  {
    assert ([c] + rest)[1..] == rest;
  }

  /** Reading the escaped text up to the closing quote adds exactly the text. */
  lemma {:induction false} ReadEscaped(a: string, w: string, rest: string)
    ensures Words(Escaped(a) + "'" + rest, Single(w)) == Words(rest, Word(w + a))
    decreases a
  {
    hide Words;
    if a == [] {
      assert w + a == w && Escaped(a) + "'" + rest == ['\''] + rest;
      PlainStep('\'', w, rest);
    } else {
      var tail := Escaped(a[1..]) + "'" + rest;
      assert w + [a[0]] + a[1..] == w + a;
      ReadEscaped(a[1..], w + [a[0]], rest);
      if a[0] == '\'' {
        assert Escaped(a) + "'" + rest == "'\\''" + tail;
        QuoteStep(w, tail);
      } else {
        assert Escaped(a) + "'" + rest == [a[0]] + tail;
        PlainStep(a[0], w, tail);
      }
    }
  }

  lemma ReadQuoted(a: string, rest: string)
    ensures Words(Quoted(a) + rest, Between) == Words(rest, Word(a))
  {
    var s := Quoted(a) + rest;
    assert s[1..] == Escaped(a) + "'" + rest;
    ReadEscaped(a, [], rest);
    assert [] + a == a;
  }

  lemma {:induction false} ReadAll(arguments: seq<string>)
    ensures Words(Join(QuotedAll(arguments), " "), Between) == Some(arguments)
  {
    hide Special, Quoted;
    if |arguments| == 1 {
      ReadQuoted(arguments[0], []);
      assert arguments == [arguments[0]] && arguments[1..] == [];
      assert QuotedAll(arguments) == [Quoted(arguments[0])] && Quoted(arguments[0]) + [] == Quoted(arguments[0]);
    } else if |arguments| > 1 {
      var q := QuotedAll(arguments);
      assert q[1..] == QuotedAll(arguments[1..]);
      var more := Join(q[1..], " ");
      assert Join(q, " ") == Quoted(arguments[0]) + (" " + more);
      ReadQuoted(arguments[0], " " + more);
      assert (" " + more)[1..] == more;
      ReadAll(arguments[1..]);
      assert arguments == [arguments[0]] + arguments[1..];
    }
  }

  /** The shell reads back exactly the argument list: empty arguments, arguments
      made of quotes and the empty list included. Only text that is not UTF-8 is
      refused, and no two lists give the same command. */
  lemma CommandReadsBack(arguments: seq<string>, utf8: string -> bool)
    ensures RemoteCommand(arguments, utf8).Ok? <==> forall i :: 0 <= i < |arguments| ==> utf8(arguments[i])
    ensures RemoteCommand(arguments, utf8).Ok? ==>
      Words(RemoteCommand(arguments, utf8).value, Between) == Some(arguments)
    ensures forall others ::
      RemoteCommand(arguments, utf8).Ok? && RemoteCommand(others, utf8) == RemoteCommand(arguments, utf8) ==>
      others == arguments
  {
    ReadAll(arguments);
    forall others | RemoteCommand(arguments, utf8).Ok? && RemoteCommand(others, utf8) == RemoteCommand(arguments, utf8)
      ensures others == arguments
    {
      ReadAll(others);
    }
  }
}

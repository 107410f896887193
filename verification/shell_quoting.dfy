/** Shell quoting, the remote command line and the OpenRC init script, read back by the token rules of
    POSIX.1-2017, Shell Command Language, sections 2.2.2, 2.2.3 and 2.3. */
module ShellQuoting {
  import opened Model

  const NUL: char := '\0'

  /** The words and separators of a shell text. Adjacent operator characters are kept apart. */
  datatype Token = Word(text: string) | Newline | Operator(symbol: char)

  datatype Mode = Between | InWord | Single | Double | Comment

  /** The reader stops at anything it would have to expand or unescape, and at a NUL, which no command line can hold. */
  datatype Reader = Reading(mode: Mode, word: string, tokens: seq<Token>) | Stopped

  predicate Active(c: char)
  {
    c in {'$', '`', '\\', '*', '?', '[', '~', NUL}
  }

  predicate IsOperator(c: char)
  {
    c in {'&', '|', ';', '<', '>', '(', ')'}
  }

  /** The tokens once a word that was being read has been delimited. */
  function Delimited(r: Reader): seq<Token>
    requires r.Reading?
  {
    if r.mode == InWord then r.tokens + [Word(r.word)] else r.tokens
  }

  function Unquoted(r: Reader, c: char): Reader
    requires r.Reading?
  {
    var word := if r.mode == InWord then r.word else "";
    if c == '\'' then Reading(Single, word, r.tokens)
    else if c == '"' then Reading(Double, word, r.tokens)
    else if c == ' ' || c == '\t' then Reading(Between, "", Delimited(r))
    else if c == '\n' then Reading(Between, "", Delimited(r) + [Newline])
    else if IsOperator(c) then Reading(Between, "", Delimited(r) + [Operator(c)])
    else if Active(c) then Stopped
    else if c == '#' && r.mode == Between then Reading(Comment, "", r.tokens)
    else Reading(InWord, word + [c], r.tokens)
  }

  function Read(r: Reader, c: char): Reader
  {
    if r.Stopped? || c == NUL then Stopped
    else
      match r.mode
      case Between => Unquoted(r, c)
      case InWord => Unquoted(r, c)
      case Single => if c == '\'' then r.(mode := InWord) else r.(word := r.word + [c])
      case Double =>
        if c == '"' then r.(mode := InWord)
        else if c in {'$', '`', '\\'} then Stopped
        else r.(word := r.word + [c])
      case Comment => if c == '\n' then Reading(Between, "", r.tokens + [Newline]) else r
  }

  function ReadAll(r: Reader, text: string): Reader
  {
    if text == "" then r else Read(ReadAll(r, text[..|text| - 1]), text[|text| - 1])
  }

  /** The tokens of a whole text, or nothing when a quotation is left open or the reader stopped. */
  function Tokens(text: string): Option<seq<Token>>
  {
    var r := ReadAll(Reading(Between, "", []), text);
    if r.Stopped? || r.mode == Single || r.mode == Double then None else Some(Delimited(r))
  }

  /** strings.ReplaceAll(value, "'", ...). */
  function Escaped(value: string): string
  {
    if value == "" then ""
    else
      var c := value[|value| - 1];
      Escaped(value[..|value| - 1]) + if c == '\'' then "'\"'\"'" else [c]
  }

  /** sshShellQuote and shellQuote. */
  function Quote(value: string): string
  {
    "'" + Escaped(value) + "'"
  }

  lemma {:induction false} ReadAppend(r: Reader, a: string, b: string)
    ensures ReadAll(r, a + b) == ReadAll(ReadAll(r, a), b)
    decreases |b|
  {
    if b == "" {
      assert a + b == a;
    } else {
      assert (a + b)[..|a + b| - 1] == a + b[..|b| - 1];
      ReadAppend(r, a, b[..|b| - 1]);
    }
  }

  lemma ReadOne(r: Reader, c: char)
    ensures ReadAll(r, [c]) == Read(r, c)
  {
    assert [c][..0] == "";
  }

  /** The five characters that stand for one quotation mark: out of the quotes, one in double quotes, and back in. */
  lemma ReadEscapedQuote(word: string, tokens: seq<Token>)
    ensures ReadAll(Reading(Single, word, tokens), "'\"'\"'") == Reading(Single, word + "'", tokens)
  {
    var r := Reading(Single, word, tokens);
    assert "'\"'\"'" == ((("'" + "\"") + "'") + "\"") + "'";
    ReadAppend(r, (("'" + "\"") + "'") + "\"", "'");
    ReadAppend(r, ("'" + "\"") + "'", "\"");
    ReadAppend(r, "'" + "\"", "'");
    ReadAppend(r, "'", "\"");
    ReadOne(r, '\'');
    ReadOne(Reading(InWord, word, tokens), '"');
    ReadOne(Reading(Double, word, tokens), '\'');
    ReadOne(Reading(Double, word + "'", tokens), '"');
    ReadOne(Reading(InWord, word + "'", tokens), '\'');
  }

  /** Inside quotes, an escaped value reads as itself, unless it holds a NUL. */
  lemma {:induction false} ReadEscaped(word: string, tokens: seq<Token>, value: string)
    ensures ReadAll(Reading(Single, word, tokens), Escaped(value)) ==
            if NUL in value then Stopped else Reading(Single, word + value, tokens)
    decreases |value|
  {
    var r := Reading(Single, word, tokens);
    if value == "" {
      assert word + value == word;
    } else {
      var init, c := value[..|value| - 1], value[|value| - 1];
      assert value == init + [c];
      ReadEscaped(word, tokens, init);
      if c == '\'' {
        ReadAppend(r, Escaped(init), "'\"'\"'");
        if NUL in init { StaysStopped("'\"'\"'"); } else { ReadEscapedQuote(word + init, tokens); }
      } else {
        ReadAppend(r, Escaped(init), [c]);
        ReadOne(ReadAll(r, Escaped(init)), c);
      }
      assert word + value == word + init + [c];
    }
  }

  lemma {:induction false} StaysStopped(text: string)
    ensures ReadAll(Stopped, text) == Stopped
    decreases |text|
  {
    if text != "" {
      StaysStopped(text[..|text| - 1]);
    }
  }

  /** A quoted value extends the word under way by exactly the value. */
  lemma ReadQuoted(r: Reader, value: string)
    requires r.Reading? && r.mode in {Between, InWord} && (r.mode == Between ==> r.word == "")
    ensures ReadAll(r, Quote(value)) ==
            if NUL in value then Stopped else Reading(InWord, r.word + value, r.tokens)
  {
    ReadAppend(r, "'" + Escaped(value), "'");
    ReadAppend(r, "'", Escaped(value));
    ReadOne(r, '\'');
    ReadEscaped(r.word, r.tokens, value);
    ReadOne(ReadAll(r, "'" + Escaped(value)), '\'');
  }

  predicate Plain(c: char)
  {
    'a' <= c <= 'z' || c in {'_', '=', '-', '{', '}'}
  }

  lemma ReadPlainOne(r: Reader, c: char)
    requires r.Reading? && r.mode in {Between, InWord} && (r.mode == Between ==> r.word == "") && Plain(c)
    ensures Read(r, c) == Reading(InWord, r.word + [c], r.tokens)
  {
  }

  lemma SplitLast(text: string)
    requires text != ""
    ensures var n := |text| - 1; text == text[..n] + [text[n]]
  {
  }

  /** Text of ordinary characters extends the word under way. */
  lemma {:induction false} ReadPlain(r: Reader, text: string)
    requires r.Reading? && r.mode in {Between, InWord} && (r.mode == Between ==> r.word == "") && text != ""
    requires forall k :: 0 <= k < |text| ==> Plain(text[k])
    ensures ReadAll(r, text) == Reading(InWord, r.word + text, r.tokens)
    decreases |text|
  {
    hide Read, Plain;
    var init, c := text[..|text| - 1], text[|text| - 1];
    SplitLast(text);
    ReadAppend(r, init, [c]);
    if init == "" {
      ReadOne(r, c);
      ReadPlainOne(r, c);
    } else {
      ReadPlain(r, init);
      ReadOne(ReadAll(r, init), c);
      ReadPlainOne(ReadAll(r, init), c);
      assert r.word + (init + [c]) == r.word + init + [c];
    }
    if init == "" {
      assert text == [c];
    }
  }

  /** A blank ends the word under way. */
  lemma ReadBlank(r: Reader)
    requires r.Reading? && r.mode == InWord
    ensures ReadAll(r, " ") == Reading(Between, "", r.tokens + [Word(r.word)])
  {
    ReadOne(r, ' ');
  }

  /** A plain word followed by a blank. */
  lemma ReadPlainBlank(tokens: seq<Token>, text: string)
    requires text != "" && forall k :: 0 <= k < |text| ==> Plain(text[k])
    ensures ReadAll(Reading(Between, "", tokens), text + " ") == Reading(Between, "", tokens + [Word(text)])
  {
    hide ReadAll, Plain;
    ReadAppend(Reading(Between, "", tokens), text, " ");
    ReadPlain(Reading(Between, "", tokens), text);
    assert "" + text == text;
    ReadBlank(Reading(InWord, text, tokens));
  }

  function Words(values: seq<string>): seq<Token>
  {
    seq(|values|, i requires 0 <= i < |values| => Word(values[i]))
  }

  predicate NulFree(values: seq<string>)
  {
    forall v :: v in values ==> NUL !in v
  }

  /** Each value quoted, with a blank before it. */
  function BlankQuoted(values: seq<string>): string
  {
    if values == [] then "" else BlankQuoted(values[..|values| - 1]) + " " + Quote(values[|values| - 1])
  }

  lemma {:induction false} ReadBlankQuoted(r: Reader, values: seq<string>)
    requires r.Reading? && r.mode == InWord && NulFree(values)
    ensures var t := ReadAll(r, BlankQuoted(values));
            t.Reading? && t.mode == InWord && Delimited(t) == Delimited(r) + Words(values)
    decreases |values|
  {
    if values != [] {
      var init, v := values[..|values| - 1], values[|values| - 1];
      assert values == init + [v];
      LastBlankQuoted(values);
      LastWord(values);
      hide ReadAll, BlankQuoted, Quote, Words;
      ReadBlankQuoted(r, init);
      ReadAppend(r, BlankQuoted(init), " " + Quote(v));
      BlankAndValue(ReadAll(r, BlankQuoted(init)), v);
    } else {
      assert BlankQuoted(values) == "" && ReadAll(r, "") == r && Words(values) == [];
    }
  }

  lemma LastBlankQuoted(values: seq<string>)
    requires values != []
    ensures BlankQuoted(values) == BlankQuoted(values[..|values| - 1]) + (" " + Quote(values[|values| - 1]))
  {
    hide Quote;
    Regroup(BlankQuoted(values[..|values| - 1]), " ", Quote(values[|values| - 1]));
  }

  lemma LastWord(values: seq<string>)
    requires values != []
    ensures Words(values) == Words(values[..|values| - 1]) + [Word(values[|values| - 1])]
  {
  }

  lemma Regroup(a: string, b: string, c: string)
    ensures a + b + c == a + (b + c)
  {
  }

  /** A blank ends the word before it; the quoted value is the next word. */
  lemma BlankAndValue(t: Reader, v: string)
    requires t.Reading? && t.mode == InWord && NUL !in v
    ensures ReadAll(t, " " + Quote(v)) == Reading(InWord, v, Delimited(t))
  {
    hide ReadAll, Quote;
    ReadAppend(t, " ", Quote(v));
    ReadOne(t, ' ');
    ReadQuoted(Read(t, ' '), v);
    assert "" + v == v;
  }

  // ---- The remote command ----

  datatype RunError = EmptyScript | NulArgument

  /** unicode.IsSpace. */
  predicate IsSpace(c: char)
  {
    || c in {'\t', '\n', '\U{0B}', '\U{0C}', '\r', ' ', '\U{85}', '\U{A0}', '\U{1680}'}
    || '\U{2000}' <= c <= '\U{200A}'
    || c in {'\U{2028}', '\U{2029}', '\U{202F}', '\U{205F}', '\U{3000}'}
  }

  /** Run's checks and the command line it assembles. */
  method RemoteCommand(script: string, arguments: seq<string>) returns (r: Result<string, RunError>)
    ensures r == Err(EmptyScript) <==> forall c :: c in script ==> IsSpace(c)
    ensures r == Err(NulArgument) <==>
            (exists c :: c in script && !IsSpace(c)) && exists k :: 0 <= k < |arguments| && NUL in arguments[k]
    ensures r.Ok? ==> r.value == Assembled(script, arguments)
  {
    var blank := true;
    for i := 0 to |script|
      invariant blank <==> forall k :: 0 <= k < i ==> IsSpace(script[k])
    {
      blank := blank && IsSpace(script[i]);
    }
    if blank {
      return Err(EmptyScript);
    }
    assert exists c :: c in script && !IsSpace(c);
    for i := 0 to |arguments|
      invariant forall k :: 0 <= k < i ==> NUL !in arguments[k]
    {
      if NUL in arguments[i] {
        assert arguments[i] in arguments;
        return Err(NulArgument);
      }
    }
    var command := "sh -c " + Quote(script);
    if |arguments| > 0 {
      command := command + " alpineform";
      for i := 0 to |arguments|
        invariant command == "sh -c " + Quote(script) + " alpineform" + BlankQuoted(arguments[..i])
      {
        command := command + " " + Quote(arguments[i]);
        assert arguments[..i + 1][..i] == arguments[..i];
      }
      assert arguments[..|arguments|] == arguments;
    }
    return Ok(command);
  }

  function Assembled(script: string, arguments: seq<string>): string
  {
    "sh -c " + Quote(script) + if arguments == [] then "" else " alpineform" + BlankQuoted(arguments)
  }

  /** What the remote shell should see. */
  function Intended(script: string, arguments: seq<string>): seq<Token>
  {
    Words(["sh", "-c", script]) + if arguments == [] then [] else [Word("alpineform")] + Words(arguments)
  }

  lemma ReadShellPrefix()
    ensures ReadAll(Reading(Between, "", []), "sh -c ") == Reading(Between, "", [Word("sh"), Word("-c")])
  {
    hide ReadAll;
    assert "sh -c " == ("sh" + " ") + ("-c" + " ");
    ReadAppend(Reading(Between, "", []), "sh" + " ", "-c" + " ");
    ReadPlainBlank([], "sh");
    assert [] + [Word("sh")] == [Word("sh")];
    ReadPlainBlank([Word("sh")], "-c");
    assert [Word("sh")] + [Word("-c")] == [Word("sh"), Word("-c")];
  }

  lemma ReadTail(r: Reader, arguments: seq<string>)
    requires r.Reading? && r.mode == InWord && NulFree(arguments)
    ensures var t := ReadAll(r, " alpineform" + BlankQuoted(arguments));
            t.Reading? && t.mode == InWord && Delimited(t) == Delimited(r) + [Word("alpineform")] + Words(arguments)
  {
    hide ReadAll, BlankQuoted, Words;
    assert " alpineform" == " " + "alpineform";
    ReadAppend(r, " alpineform", BlankQuoted(arguments));
    ReadAppend(r, " ", "alpineform");
    ReadBlank(r);
    ReadPlain(ReadAll(r, " "), "alpineform");
    assert "" + "alpineform" == "alpineform";
    ReadBlankQuoted(ReadAll(r, " alpineform"), arguments);
  }

  /** The remote shell reads back exactly the script and the arguments, just when the script holds no NUL. */
  lemma RemoteCommandReadsBack(script: string, arguments: seq<string>)
    requires NulFree(arguments)
    ensures Tokens(Assembled(script, arguments)) == Some(Intended(script, arguments)) <==> NUL !in script
  {
    hide ReadAll, Quote, BlankQuoted;
    var r := Reading(Between, "", []);
    var mid := Reading(Between, "", [Word("sh"), Word("-c")]);
    var tail := if arguments == [] then "" else " alpineform" + BlankQuoted(arguments);
    ReadAppend(r, "sh -c " + Quote(script), tail);
    ReadAppend(r, "sh -c ", Quote(script));
    ReadShellPrefix();
    ReadQuoted(mid, script);
    if NUL in script {
      StaysStopped(tail);
    } else {
      assert "" + script == script;
      var held := Reading(InWord, script, [Word("sh"), Word("-c")]);
      ThreeWords("sh", "-c", script);
      assert Delimited(held) == Words(["sh", "-c", script]);
      if arguments == [] {
        ReadNothing(held);
        assert Delimited(held) + [] == Delimited(held);
      } else {
        ReadTail(held, arguments);
        assert Delimited(held) + [Word("alpineform")] + Words(arguments)
            == Delimited(held) + ([Word("alpineform")] + Words(arguments));
      }
    }
  }

  lemma ReadNothing(r: Reader)
    ensures ReadAll(r, "") == r
  {
  }

  lemma ThreeWords(a: string, b: string, c: string)
    ensures Words([a, b, c]) == [Word(a), Word(b), Word(c)]
  {
    assert [a, b, c][..2] == [a, b] && [a, b][..1] == [a] && [a][..0] == [];
  }

  lemma WordsInjective(a: seq<string>, b: seq<string>)
    requires Words(a) == Words(b)
    ensures a == b
  {
    assert |Words(a)| == |a| && |Words(b)| == |b|;
    forall i | 0 <= i < |a| ensures a[i] == b[i] {
      assert Words(a)[i] == Word(a[i]) && Words(b)[i] == Word(b[i]);
    }
  }

  /** The intended words determine the call. */
  lemma IntendedInjective(script: string, arguments: seq<string>, script': string, arguments': seq<string>)
    requires Intended(script, arguments) == Intended(script', arguments')
    ensures script == script' && arguments == arguments'
  {
    var t := Intended(script, arguments);
    assert t[2] == Word(script) && t[2] == Word(script');
    if arguments != [] && arguments' != [] {
      assert t[4..] == Words(arguments) && t[4..] == Words(arguments');
      WordsInjective(arguments, arguments');
    }
  }

  /** No two different calls are sent as the same command line. */
  lemma CommandsDiffer(script: string, arguments: seq<string>, script': string, arguments': seq<string>)
    requires NulFree(arguments) && NulFree(arguments') && NUL !in script && NUL !in script'
    requires Assembled(script, arguments) == Assembled(script', arguments')
    ensures script == script' && arguments == arguments'
  {
    hide *;
    RemoteCommandReadsBack(script, arguments);
    RemoteCommandReadsBack(script', arguments');
    IntendedInjective(script, arguments, script', arguments');
  }
}

/** The generated OpenRC init script: quoted values inside quoted values, read back at both levels. */
module OpenRCScript {
  import opened Model
  import opened ShellQuoting

  datatype Service = Service(
    description: string,
    command: string,
    commandArgs: seq<string>,
    commandUser: string,
    directory: string,
    commandBackground: bool,
    pidFile: string,
    need: seq<string>,
    use: seq<string>,
    want: seq<string>,
    after: seq<string>,
    before: seq<string>)

  /** strings.Join. */
  function Join(parts: seq<string>, separator: string): string
  {
    if parts == [] then ""
    else if |parts| == 1 then parts[0]
    else Join(parts[..|parts| - 1], separator) + separator + parts[|parts| - 1]
  }

  function QuoteAll(values: seq<string>): seq<string>
  {
    seq(|values|, i requires 0 <= i < |values| => Quote(values[i]))
  }

  /** The argument list as one string of quoted words. */
  function QuotedList(values: seq<string>): string
  {
    Join(QuoteAll(values), " ")
  }

  datatype Line =
    | Shebang
    | Assign(name: string, value: string)
    | Empty
    | OpenDepend
    | Depends(name: string, values: seq<string>)
    | CloseDepend

  function Optional(name: string, value: string): seq<Line>
  {
    if value == "" then [] else [Assign(name, value)]
  }

  function DependsOn(name: string, values: seq<string>): seq<Line>
  {
    if values == [] then [] else [Depends(name, values)]
  }

  function Kinds(s: Service): seq<(string, seq<string>)>
  {
    [("need", s.need), ("use", s.use), ("want", s.want), ("after", s.after), ("before", s.before)]
  }

  function DependLines(kinds: seq<(string, seq<string>)>): seq<Line>
  {
    if kinds == [] then []
    else
      var last := kinds[|kinds| - 1];
      DependLines(kinds[..|kinds| - 1]) + DependsOn(last.0, last.1)
  }

  lemma {:induction false} NoDependLines(kinds: seq<(string, seq<string>)>)
    ensures DependLines(kinds) == [] <==> forall kind :: kind in kinds ==> kind.1 == []
  {
    if kinds != [] {
      var init, last := kinds[..|kinds| - 1], kinds[|kinds| - 1];
      assert kinds == init + [last];
      NoDependLines(init);
    }
  }

  lemma NoDependBlock(s: Service)
    ensures DependLines(Kinds(s)) == [] <==> |s.need| + |s.use| + |s.want| + |s.after| + |s.before| == 0
    ensures DependBlock(s) == [] <==> |s.need| + |s.use| + |s.want| + |s.after| + |s.before| == 0
  {
    hide DependLines;
    NoDependLines(Kinds(s));
    var kinds := Kinds(s);
    assert kinds[0] in kinds && kinds[1] in kinds && kinds[2] in kinds && kinds[3] in kinds && kinds[4] in kinds;
  }

  function ArgsLine(args: seq<string>): seq<Line>
  {
    if args == [] then [] else [Assign("command_args", QuotedList(args))]
  }

  function BackgroundLine(background: bool): seq<Line>
  {
    if background then [Assign("command_background", "yes")] else []
  }

  function DependBlock(s: Service): seq<Line>
  {
    if DependLines(Kinds(s)) == [] then [] else [Empty, OpenDepend] + DependLines(Kinds(s)) + [CloseDepend]
  }

  /** The lines of the script, as what they declare. */
  function Layout(s: Service): seq<Line>
  {
    [Shebang] + Optional("description", s.description) + [Assign("command", s.command)] + ArgsLine(s.commandArgs)
    + Optional("command_user", s.commandUser) + Optional("directory", s.directory)
    + BackgroundLine(s.commandBackground) + Optional("pidfile", s.pidFile) + DependBlock(s)
  }

  function Assignment(name: string, value: string): string
  {
    name + "=" + Quote(value)
  }

  function Text(line: Line): string
  {
    match line
    case Shebang => "#!/sbin/openrc-run"
    case Assign(name, value) => Assignment(name, value)
    case Empty => ""
    case OpenDepend => "depend() {"
    case Depends(name, values) => "\t" + name + " " + QuotedList(values)
    case CloseDepend => "}"
  }

  /** What a shell sees in the line. */
  function Meaning(line: Line): seq<Token>
  {
    match line
    case Shebang => []
    case Assign(name, value) => [Word(name + "=" + value)]
    case Empty => []
    case OpenDepend => [Word("depend"), Operator('('), Operator(')'), Word("{")]
    case Depends(name, values) => [Word(name)] + Words(values)
    case CloseDepend => [Word("}")]
  }

  function Texts(lines: seq<Line>): seq<string>
  {
    seq(|lines|, i requires 0 <= i < |lines| => Text(lines[i]))
  }

  function Meanings(lines: seq<Line>): seq<Token>
  {
    if lines == [] then [] else Meanings(lines[..|lines| - 1]) + Meaning(lines[|lines| - 1]) + [Newline]
  }

  /** renderOpenRCInit. */
  function Rendered(s: Service): string
  {
    Join(Texts(Layout(s)), "\n") + "\n"
  }

  method QuoteEach(values: seq<string>) returns (quoted: seq<string>)
    ensures quoted == QuoteAll(values)
  {
    quoted := [];
    for i := 0 to |values|
      invariant |quoted| == i && forall k :: 0 <= k < i ==> quoted[k] == Quote(values[k])
    {
      quoted := quoted + [Quote(values[i])];
    }
  }

  lemma TextsPush(lines: seq<Line>, line: Line)
    ensures Texts(lines + [line]) == Texts(lines) + [Text(line)]
  {
  }

  method AddAssignment(lines: seq<string>, ghost done: seq<Line>, name: string,
                       value: string) returns (more: seq<string>)
    requires lines == Texts(done)
    ensures more == Texts(done + [Assign(name, value)])
  {
    TextsPush(done, Assign(name, value));
    more := lines + [Assignment(name, value)];
  }

  method AddOptional(lines: seq<string>, ghost done: seq<Line>, name: string, value: string) returns (more: seq<string>)
    requires lines == Texts(done)
    ensures more == Texts(done + Optional(name, value))
  {
    more := lines;
    if value != "" {
      more := AddAssignment(lines, done, name, value);
    } else {
      assert done + [] == done;
    }
  }

  method AddDepends(lines: seq<string>, ghost done: seq<Line>, name: string,
                    values: seq<string>) returns (more: seq<string>)
    requires lines == Texts(done)
    ensures more == Texts(done + DependsOn(name, values))
  {
    more := lines;
    if values == [] {
      assert done + [] == done;
      return;
    }
    var quoted := QuoteEach(values);
    TextsPush(done, Depends(name, values));
    more := lines + ["\t" + name + " " + Join(quoted, " ")];
  }

  method RenderInit(s: Service) returns (script: string)
    ensures script == Rendered(s)
  {
    hide *;
    var lines := ["#!/sbin/openrc-run"];
    ghost var done := [Shebang];
    ShebangText();
    lines := AddOptional(lines, done, "description", s.description);
    done := done + Optional("description", s.description);
    lines := AddAssignment(lines, done, "command", s.command);
    done := done + [Assign("command", s.command)];
    if |s.commandArgs| > 0 {
      var quoted := QuoteEach(s.commandArgs);
      ArgsText(s.commandArgs);
      lines := AddAssignment(lines, done, "command_args", Join(quoted, " "));
    } else {
      NothingAdded(done, s);
    }
    done := done + ArgsLine(s.commandArgs);
    lines := AddOptional(lines, done, "command_user", s.commandUser);
    done := done + Optional("command_user", s.commandUser);
    lines := AddOptional(lines, done, "directory", s.directory);
    done := done + Optional("directory", s.directory);
    BackgroundText(s.commandBackground);
    if s.commandBackground {
      lines := AddAssignment(lines, done, "command_background", "yes");
    } else {
      NothingAdded(done, s);
    }
    done := done + BackgroundLine(s.commandBackground);
    lines := AddOptional(lines, done, "pidfile", s.pidFile);
    done := done + Optional("pidfile", s.pidFile);
    if |s.need| + |s.use| + |s.want| + |s.after| + |s.before| > 0 {
      lines := AddDepend(lines, done, s);
    } else {
      NoDependBlock(s);
      NothingAdded(done, s);
    }
    done := done + DependBlock(s);
    IsLayout(s);
    script := Join(lines, "\n") + "\n";
  }

  lemma ShebangText()
    ensures Texts([Shebang]) == ["#!/sbin/openrc-run"]
  {
  }

  lemma ArgsText(args: seq<string>)
    requires args != []
    ensures ArgsLine(args) == [Assign("command_args", Join(QuoteAll(args), " "))]
  {
  }

  lemma BackgroundText(background: bool)
    ensures BackgroundLine(background) == if background then [Assign("command_background", "yes")] else []
  {
  }

  lemma NothingAdded(done: seq<Line>, s: Service)
    ensures done + [] == done
    ensures s.commandArgs == [] ==> ArgsLine(s.commandArgs) == []
  {
  }

  lemma IsLayout(s: Service)
    ensures Rendered(s) == Join(Texts(
              [Shebang] + Optional("description", s.description) + [Assign("command", s.command)] + ArgsLine(s.commandArgs)
              + Optional("command_user", s.commandUser) + Optional("directory", s.directory)
              + BackgroundLine(s.commandBackground) + Optional("pidfile", s.pidFile) + DependBlock(s)), "\n") + "\n"
  {
  }

  /** The depend() block. */
  method AddDepend(lines: seq<string>, ghost done: seq<Line>, s: Service) returns (more: seq<string>)
    requires lines == Texts(done) && |s.need| + |s.use| + |s.want| + |s.after| + |s.before| > 0
    ensures more == Texts(done + DependBlock(s))
  {
    hide Join, QuoteAll, Texts, DependsOn;
    NoDependBlock(s);
    TextsPush(done, Empty);
    TextsPush(done + [Empty], OpenDepend);
    more := lines + ["", "depend() {"];
    ghost var pushed := done + [Empty] + [OpenDepend];
    assert more == lines + [""] + ["depend() {"];
    var kinds := Kinds(s);
    ghost var inner: seq<Line> := [];
    assert pushed + inner == pushed;
    for i := 0 to |kinds|
      invariant more == Texts(pushed + inner)
      invariant inner == DependLines(kinds[..i])
    {
      more := AddDepends(more, pushed + inner, kinds[i].0, kinds[i].1);
      assert pushed + inner + DependsOn(kinds[i].0, kinds[i].1) == pushed + (inner + DependsOn(kinds[i].0, kinds[i].1));
      inner := inner + DependsOn(kinds[i].0, kinds[i].1);
      assert kinds[..i + 1][..i] == kinds[..i];
    }
    assert kinds[..|kinds|] == kinds;
    TextsPush(pushed + inner, CloseDepend);
    more := more + ["}"];
    assert pushed + inner + [CloseDepend] == done + ([Empty, OpenDepend] + DependLines(Kinds(s)) + [CloseDepend]);
  }

  // ---- Reading it back ----

  predicate NameOk(name: string)
  {
    name != "" && forall k :: 0 <= k < |name| ==> Plain(name[k])
  }

  predicate LineOk(line: Line)
  {
    match line
    case Assign(name, value) => NameOk(name) && NUL !in value
    case Depends(name, values) => NameOk(name) && values != [] && NulFree(values)
    case _ => true
  }

  function At(tokens: seq<Token>): Reader
  {
    Reading(Between, "", tokens)
  }

  /** A quoted list reads as its values. */
  lemma {:induction false} ReadQuotedList(tokens: seq<Token>, values: seq<string>)
    requires values != [] && NulFree(values)
    ensures var r := ReadAll(At(tokens), QuotedList(values));
            r.Reading? && r.mode == InWord && Delimited(r) == tokens + Words(values)
    decreases |values|
  {
    hide ReadAll, Quote;
    var n := |values| - 1;
    var init, last := values[..n], values[n];
    assert values == init + [last];
    assert QuoteAll(values)[..n] == QuoteAll(init);
    assert "" + last == last;
    if n == 0 {
      ReadQuoted(At(tokens), last);
      assert Words(values) == [Word(last)];
    } else {
      ReadQuotedList(tokens, init);
      var r := ReadAll(At(tokens), QuotedList(init));
      ReadAppend(At(tokens), QuotedList(init) + " ", Quote(last));
      ReadAppend(At(tokens), QuotedList(init), " ");
      ReadBlank(r);
      ReadQuoted(ReadAll(r, " "), last);
      assert Words(values) == Words(init) + [Word(last)];
    }
  }

  lemma ReadNewline(r: Reader)
    requires r.Reading? && r.mode in {Between, InWord}
    ensures ReadAll(r, "\n") == At(Delimited(r) + [Newline])
  {
    ReadOne(r, '\n');
  }

  lemma ReadAssignment(tokens: seq<Token>, name: string, value: string)
    requires NameOk(name) && NUL !in value
    ensures ReadAll(At(tokens), Assignment(name, value)) == Reading(InWord, name + "=" + value, tokens)
  {
    hide ReadAll, Quote;
    ReadAppend(At(tokens), name + "=", Quote(value));
    ReadPlain(At(tokens), name + "=");
    assert "" + (name + "=") == name + "=";
    ReadQuoted(Reading(InWord, name + "=", tokens), value);
  }

  lemma {:induction false} ReadComment(tokens: seq<Token>, text: string)
    requires '\n' !in text && NUL !in text
    ensures ReadAll(Reading(Comment, "", tokens), text) == Reading(Comment, "", tokens)
    decreases |text|
  {
    if text != "" {
      SplitLast(text);
      ReadComment(tokens, text[..|text| - 1]);
    }
  }

  lemma ReadShebang(tokens: seq<Token>)
    ensures ReadAll(At(tokens), Text(Shebang) + "\n") == At(tokens + [Newline])
  {
    hide ReadAll;
    assert Text(Shebang) == "#" + "!/sbin/openrc-run";
    ReadCommentLine(tokens, "!/sbin/openrc-run");
  }

  lemma ReadCommentLine(tokens: seq<Token>, text: string)
    requires '\n' !in text && NUL !in text
    ensures ReadAll(At(tokens), "#" + text + "\n") == At(tokens + [Newline])
  {
    hide ReadAll;
    ReadAppend(At(tokens), "#" + text, "\n");
    ReadAppend(At(tokens), "#", text);
    ReadOne(At(tokens), '#');
    ReadComment(tokens, text);
    ReadOne(Reading(Comment, "", tokens), '\n');
  }

  lemma ReadOperator(r: Reader, c: char)
    requires r.Reading? && r.mode in {Between, InWord} && IsOperator(c)
    ensures ReadAll(r, [c]) == At(Delimited(r) + [Operator(c)])
  {
    ReadOne(r, c);
  }

  lemma ReadOpenDepend(tokens: seq<Token>)
    ensures ReadAll(At(tokens), Text(OpenDepend)) == Reading(InWord, "{", tokens + [Word("depend"), Operator('('), Operator(')')])
  {
    hide ReadAll;
    assert Text(OpenDepend) == "depend" + "(" + ")" + " " + "{";
    ReadAppend(At(tokens), "depend" + "(" + ")" + " ", "{");
    ReadAppend(At(tokens), "depend" + "(" + ")", " ");
    ReadAppend(At(tokens), "depend" + "(", ")");
    ReadAppend(At(tokens), "depend", "(");
    ReadPlain(At(tokens), "depend");
    assert "" + "depend" == "depend" && "" + "{" == "{";
    ReadOperator(Reading(InWord, "depend", tokens), '(');
    var block := tokens + [Word("depend")] + [Operator('(')];
    ReadOperator(At(block), ')');
    ReadOne(At(block + [Operator(')')]), ' ');
    ReadPlain(At(block + [Operator(')')]), "{");
    assert block + [Operator(')')] == tokens + [Word("depend"), Operator('('), Operator(')')];
  }

  lemma ReadDepends(tokens: seq<Token>, name: string, values: seq<string>)
    requires LineOk(Depends(name, values))
    ensures var r := ReadAll(At(tokens), Text(Depends(name, values)));
            r.Reading? && r.mode == InWord && Delimited(r) == tokens + Meaning(Depends(name, values))
  {
    hide ReadAll, QuotedList, Words;
    assert "\t" + name + " " == "\t" + (name + " ");
    ReadAppend(At(tokens), "\t" + name + " ", QuotedList(values));
    ReadAppend(At(tokens), "\t", name + " ");
    ReadOne(At(tokens), '\t');
    ReadPlainBlank(tokens, name);
    ReadQuotedList(tokens + [Word(name)], values);
    assert tokens + [Word(name)] + Words(values) == tokens + Meaning(Depends(name, values));
  }

  lemma ReadLine(tokens: seq<Token>, line: Line)
    requires LineOk(line)
    ensures ReadAll(At(tokens), Text(line) + "\n") == At(tokens + (Meaning(line) + [Newline]))
  {
    hide ReadAll, Words, QuotedList, Assignment;
    ReadAppend(At(tokens), Text(line), "\n");
    assert tokens + Meaning(line) + [Newline] == tokens + (Meaning(line) + [Newline]);
    match line {
      case Shebang =>
        ReadShebang(tokens);
        assert tokens + [] == tokens;
      case Assign(name, value) => ReadAssignment(tokens, name, value); ReadNewline(Reading(InWord, name + "=" + value, tokens));
      case Empty =>
        ReadNothing(At(tokens));
        ReadNewline(At(tokens));
        assert tokens + [] == tokens;
      case OpenDepend =>
        ReadOpenDepend(tokens);
        var block := tokens + [Word("depend"), Operator('('), Operator(')')];
        ReadNewline(Reading(InWord, "{", block));
        assert block + [Word("{")] == tokens + Meaning(line);
      case Depends(name, values) =>
        ReadDepends(tokens, name, values);
        ReadNewline(ReadAll(At(tokens), Text(line)));
      case CloseDepend =>
        ReadPlain(At(tokens), "}");
        assert "" + "}" == "}";
        ReadNewline(Reading(InWord, "}", tokens));
    }
  }

  lemma {:induction false} ReadLines(lines: seq<Line>)
    requires lines != [] && LinesOk(lines)
    ensures ReadAll(At([]), Join(Texts(lines), "\n") + "\n") == At(Meanings(lines))
    decreases |lines|
  {
    hide ReadAll, LineOk, Text, Meaning;
    var n := |lines| - 1;
    var init, last := lines[..n], lines[n];
    assert lines == init + [last] && last in lines;
    TextsPush(init, last);
    assert Texts(lines)[..n] == Texts(init);
    assert Meanings(init) + (Meaning(last) + [Newline]) == Meanings(lines);
    ReadLine(Meanings(init), last);
    if n > 0 {
      ReadLines(init);
      ReadAppend(At([]), Join(Texts(init), "\n") + "\n", Text(last) + "\n");
      assert Join(Texts(lines), "\n") + "\n" == Join(Texts(init), "\n") + "\n" + (Text(last) + "\n");
    }
  }

  /** What compileOpenRCService has checked of every value, as far as the script is concerned. */
  predicate ServiceOk(s: Service)
  {
    && NulFree([s.description, s.command, s.commandUser, s.directory, s.pidFile]) && NulFree(s.commandArgs)
    && NulFree(s.need) && NulFree(s.use) && NulFree(s.want) && NulFree(s.after) && NulFree(s.before)
  }

  lemma {:induction false} QuotedListNulFree(values: seq<string>)
    requires NulFree(values)
    ensures NUL !in QuotedList(values)
    decreases |values|
  {
    if values != [] {
      var n := |values| - 1;
      assert values == values[..n] + [values[n]];
      assert QuoteAll(values)[..n] == QuoteAll(values[..n]);
      QuotedListNulFree(values[..n]);
      EscapedNulFree(values[n]);
    }
  }

  lemma {:induction false} EscapedNulFree(value: string)
    requires NUL !in value
    ensures NUL !in Escaped(value)
  {
    if value != "" {
      SplitLast(value);
      EscapedNulFree(value[..|value| - 1]);
    }
  }

  lemma {:induction false} DependLinesOk(kinds: seq<(string, seq<string>)>)
    requires forall kind :: kind in kinds ==> NameOk(kind.0) && NulFree(kind.1)
    ensures forall line :: line in DependLines(kinds) ==> LineOk(line)
  {
    if kinds != [] {
      var n := |kinds| - 1;
      assert kinds == kinds[..n] + [kinds[n]];
      DependLinesOk(kinds[..n]);
    }
  }

  ghost predicate LinesOk(lines: seq<Line>)
  {
    forall line :: line in lines ==> LineOk(line)
  }

  lemma BothOk(a: seq<Line>, b: seq<Line>)
    requires LinesOk(a) && LinesOk(b)
    ensures LinesOk(a + b)
  {
    hide LineOk;
  }

  lemma OptionalOk(name: string, value: string)
    requires NameOk(name) && NUL !in value
    ensures LinesOk(Optional(name, value)) && LinesOk([Assign(name, value)])
  {
    hide NameOk;
  }

  lemma ArgsOk(args: seq<string>)
    requires NulFree(args)
    ensures LinesOk(ArgsLine(args))
  {
    hide NameOk, NulFree;
    NamesOk();
    QuotedListNulFree(args);
  }

  lemma BackgroundOk(background: bool)
    ensures LinesOk(BackgroundLine(background))
  {
    hide NameOk;
    NamesOk();
  }

  lemma DependBlockOk(s: Service)
    requires ServiceOk(s)
    ensures LinesOk(DependBlock(s))
  {
    hide DependLines, NameOk, NulFree;
    KindsOk(s);
    DependLinesOk(Kinds(s));
    BothOk([Empty, OpenDepend], DependLines(Kinds(s)));
    BothOk([Empty, OpenDepend] + DependLines(Kinds(s)), [CloseDepend]);
  }

  lemma HeaderOk(s: Service)
    requires ServiceOk(s)
    ensures LinesOk([Shebang]) && NulFree(s.commandArgs)
    ensures NUL !in s.description && NUL !in s.command && NUL !in s.commandUser && NUL !in s.directory && NUL !in s.pidFile
  {
    var values := [s.description, s.command, s.commandUser, s.directory, s.pidFile];
    assert forall k :: 0 <= k < 5 ==> values[k] in values;
  }

  lemma LayoutOk(s: Service)
    requires ServiceOk(s)
    ensures LinesOk(Layout(s))
  {
    hide LinesOk, NameOk, NulFree, ServiceOk, Optional, ArgsLine, BackgroundLine, DependBlock;
    NamesOk();
    HeaderOk(s);
    OptionalOk("description", s.description);
    OptionalOk("command", s.command);
    ArgsOk(s.commandArgs);
    OptionalOk("command_user", s.commandUser);
    OptionalOk("directory", s.directory);
    BackgroundOk(s.commandBackground);
    OptionalOk("pidfile", s.pidFile);
    DependBlockOk(s);
    var lines := [Shebang] + Optional("description", s.description);
    BothOk([Shebang], Optional("description", s.description));
    BothOk(lines, [Assign("command", s.command)]);
    lines := lines + [Assign("command", s.command)];
    BothOk(lines, ArgsLine(s.commandArgs));
    lines := lines + ArgsLine(s.commandArgs);
    BothOk(lines, Optional("command_user", s.commandUser));
    lines := lines + Optional("command_user", s.commandUser);
    BothOk(lines, Optional("directory", s.directory));
    lines := lines + Optional("directory", s.directory);
    BothOk(lines, BackgroundLine(s.commandBackground));
    lines := lines + BackgroundLine(s.commandBackground);
    BothOk(lines, Optional("pidfile", s.pidFile));
    lines := lines + Optional("pidfile", s.pidFile);
    BothOk(lines, DependBlock(s));
  }

  lemma KindsOk(s: Service)
    requires ServiceOk(s)
    ensures forall kind :: kind in Kinds(s) ==> NameOk(kind.0) && NulFree(kind.1)
  {
    hide NulFree, NameOk;
    NamesOk();
  }

  lemma NamesOk()
    ensures NameOk("description") && NameOk("command") && NameOk("command_args") && NameOk("command_user")
    ensures NameOk("directory") && NameOk("command_background") && NameOk("pidfile")
    ensures NameOk("need") && NameOk("use") && NameOk("want") && NameOk("after") && NameOk("before")
  {
  }

  /** Commands as a shell sees them, each ended by its newline. */
  function Commands(commands: seq<seq<Token>>): seq<Token>
  {
    if commands == [] then [] else Commands(commands[..|commands| - 1]) + commands[|commands| - 1] + [Newline]
  }

  /** An assignment, unless its value is empty. */
  function Sets(name: string, value: string): seq<seq<Token>>
  {
    if value == "" then [] else [[Word(name + "=" + value)]]
  }

  /** A dependency command, unless it would name nothing. */
  function Asks(kind: string, values: seq<string>): seq<seq<Token>>
  {
    if values == [] then [] else [[Word(kind)] + Words(values)]
  }

  function Says(lines: seq<Line>): seq<seq<Token>>
  {
    seq(|lines|, i requires 0 <= i < |lines| => Meaning(lines[i]))
  }

  lemma SaysBoth(a: seq<Line>, b: seq<Line>)
    ensures Says(a + b) == Says(a) + Says(b)
  {
    hide Meaning;
  }

  lemma {:induction false} MeaningsAreCommands(lines: seq<Line>)
    ensures Meanings(lines) == Commands(Says(lines))
  {
    hide Meaning;
    if lines != [] {
      var n := |lines| - 1;
      MeaningsAreCommands(lines[..n]);
      assert Says(lines)[..n] == Says(lines[..n]);
    }
  }

  lemma OptionalSays(name: string, value: string)
    ensures Says(Optional(name, value)) == Sets(name, value)
  {
  }

  lemma DependsSays(name: string, values: seq<string>)
    ensures Says(DependsOn(name, values)) == Asks(name, values)
  {
    hide Words;
  }

  lemma DependLinesSay(s: Service)
    ensures Says(DependLines(Kinds(s))) ==
            Asks("need", s.need) + Asks("use", s.use) + Asks("want", s.want) + Asks("after", s.after) + Asks("before", s.before)
  {
    var kinds := Kinds(s);
    FiveKinds(kinds);
    hide DependLines, DependsOn, Asks, Says;
    DependsSays("need", s.need);
    DependsSays("use", s.use);
    DependsSays("want", s.want);
    DependsSays("after", s.after);
    DependsSays("before", s.before);
    var two := DependsOn("need", s.need) + DependsOn("use", s.use);
    var three := two + DependsOn("want", s.want);
    var four := three + DependsOn("after", s.after);
    SaysBoth(DependsOn("need", s.need), DependsOn("use", s.use));
    SaysBoth(two, DependsOn("want", s.want));
    SaysBoth(three, DependsOn("after", s.after));
    SaysBoth(four, DependsOn("before", s.before));
  }

  lemma FiveKinds(kinds: seq<(string, seq<string>)>)
    requires |kinds| == 5
    ensures DependLines(kinds) ==
            DependsOn(kinds[0].0, kinds[0].1) + DependsOn(kinds[1].0, kinds[1].1) + DependsOn(kinds[2].0, kinds[2].1)
            + DependsOn(kinds[3].0, kinds[3].1) + DependsOn(kinds[4].0, kinds[4].1)
  {
    hide DependsOn;
    assert kinds[..4][..3] == kinds[..3] && kinds[..3][..2] == kinds[..2] && kinds[..2][..1] == kinds[..1] && kinds[..1][..0] == [];
    DependLast(kinds);
    DependLast(kinds[..4]);
    DependLast(kinds[..3]);
    DependLast(kinds[..2]);
    DependLast(kinds[..1]);
    hide DependLines;
    assert [] + DependsOn(kinds[0].0, kinds[0].1) == DependsOn(kinds[0].0, kinds[0].1);
  }

  lemma DependLast(kinds: seq<(string, seq<string>)>)
    requires kinds != []
    ensures var n := |kinds| - 1; DependLines(kinds) == DependLines(kinds[..n]) + DependsOn(kinds[n].0, kinds[n].1)
    ensures DependLines([]) == []
  {
  }

  /** The depend() block, when anything is to be depended on. */
  lemma DependBlockSays(s: Service)
    ensures Says(DependBlock(s)) ==
            if s.need == [] && s.use == [] && s.want == [] && s.after == [] && s.before == [] then []
            else [[], [Word("depend"), Operator('('), Operator(')'), Word("{")]]
                 + Asks("need", s.need) + Asks("use", s.use) + Asks("want", s.want) + Asks("after", s.after)
                 + Asks("before", s.before) + [[Word("}")]]
  {
    NoDependBlock(s);
    DependLinesSay(s);
    BlockIs(s);
    hide DependLines, DependBlock, Asks, Kinds;
    var lines := DependLines(Kinds(s));
    assert Says([Empty, OpenDepend]) == [[], [Word("depend"), Operator('('), Operator(')'), Word("{")]];
    assert Says([CloseDepend]) == [[Word("}")]];
    hide Says;
    SaysBoth([Empty, OpenDepend], lines);
    SaysBoth([Empty, OpenDepend] + lines, [CloseDepend]);
  }

  lemma BlockIs(s: Service)
    ensures DependBlock(s) == [] || DependBlock(s) == [Empty, OpenDepend] + DependLines(Kinds(s)) + [CloseDepend]
    ensures Says([]) == []
  {
  }

  lemma FixedLinesSay(s: Service)
    ensures Says([Shebang]) == [[]] && Says([Assign("command", s.command)]) == [[Word("command=" + s.command)]]
    ensures Says(ArgsLine(s.commandArgs)) ==
            if s.commandArgs == [] then [] else [[Word("command_args=" + QuotedList(s.commandArgs))]]
    ensures Says(BackgroundLine(s.commandBackground)) == if s.commandBackground then [[Word("command_background=yes")]] else []
  {
    hide QuotedList;
    assert "command" + "=" == "command=" && "command_args" + "=" == "command_args=";
    assert "command_background" + "=" + "yes" == "command_background=yes";
  }

  lemma LayoutSays(s: Service)
    ensures Says(Layout(s)) ==
            Says([Shebang]) + Says(Optional("description", s.description)) + Says([Assign("command", s.command)])
            + Says(ArgsLine(s.commandArgs)) + Says(Optional("command_user", s.commandUser))
            + Says(Optional("directory", s.directory)) + Says(BackgroundLine(s.commandBackground))
            + Says(Optional("pidfile", s.pidFile)) + Says(DependBlock(s))
  {
    hide Says, Optional, ArgsLine, BackgroundLine, DependBlock;
    var lines := [Shebang];
    SaysBoth(lines, Optional("description", s.description));
    lines := lines + Optional("description", s.description);
    SaysBoth(lines, [Assign("command", s.command)]);
    lines := lines + [Assign("command", s.command)];
    SaysBoth(lines, ArgsLine(s.commandArgs));
    lines := lines + ArgsLine(s.commandArgs);
    SaysBoth(lines, Optional("command_user", s.commandUser));
    lines := lines + Optional("command_user", s.commandUser);
    SaysBoth(lines, Optional("directory", s.directory));
    lines := lines + Optional("directory", s.directory);
    SaysBoth(lines, BackgroundLine(s.commandBackground));
    lines := lines + BackgroundLine(s.commandBackground);
    SaysBoth(lines, Optional("pidfile", s.pidFile));
    lines := lines + Optional("pidfile", s.pidFile);
    SaysBoth(lines, DependBlock(s));
  }

  /** A shell sees exactly the service's own settings and dependencies, whatever the values contain: nothing a value
      holds ends its quotation, starts a comment or separates commands. */
  lemma InitScriptReadsBack(s: Service)
    requires ServiceOk(s)
    ensures Tokens(Rendered(s)) == Some(Commands(
              [[]] + Sets("description", s.description) + [[Word("command=" + s.command)]]
              + (if s.commandArgs == [] then [] else [[Word("command_args=" + QuotedList(s.commandArgs))]])
              + Sets("command_user", s.commandUser) + Sets("directory", s.directory)
              + (if s.commandBackground then [[Word("command_background=yes")]] else [])
              + Sets("pidfile", s.pidFile)
              + (if s.need == [] && s.use == [] && s.want == [] && s.after == [] && s.before == [] then []
                 else [[], [Word("depend"), Operator('('), Operator(')'), Word("{")]]
                      + Asks("need", s.need) + Asks("use", s.use) + Asks("want", s.want) + Asks("after", s.after)
                      + Asks("before", s.before) + [[Word("}")]])))
  {
    LayoutReadsBack(s);
    hide *;
    MeaningsAreCommands(Layout(s));
    LayoutSays(s);
    FixedLinesSay(s);
    OptionalSays("description", s.description);
    OptionalSays("command_user", s.commandUser);
    OptionalSays("directory", s.directory);
    OptionalSays("pidfile", s.pidFile);
    DependBlockSays(s);
  }

  lemma LayoutReadsBack(s: Service)
    requires ServiceOk(s)
    ensures Tokens(Rendered(s)) == Some(Meanings(Layout(s)))
  {
    hide ReadAll, Meanings, Join, Texts, LineOk;
    LayoutOk(s);
    ReadLines(Layout(s));
  }

  lemma {:induction false} MeaningIn(lines: seq<Line>, name: string, value: string)
    requires Assign(name, value) in lines
    ensures Word(name + "=" + value) in Meanings(lines)
    decreases |lines|
  {
    var n := |lines| - 1;
    var init, last := lines[..n], lines[n];
    assert lines == init + [last];
    if last == Assign(name, value) {
      assert Word(name + "=" + value) in Meaning(last);
    } else {
      MeaningIn(init, name, value);
    }
  }

  /** The argument list survives both levels: reading the script gives one assignment to command_args, and
      reading the assigned text gives exactly the arguments. */
  lemma CommandArgsReadBack(s: Service) returns (argsText: string)
    requires ServiceOk(s) && s.commandArgs != []
    ensures Tokens(Rendered(s)).Some? && Word("command_args=" + argsText) in Tokens(Rendered(s)).value
    ensures Tokens(argsText) == Some(Words(s.commandArgs))
  {
    hide ReadAll, Meanings, Words;
    LayoutReadsBack(s);
    argsText := QuotedList(s.commandArgs);
    assert Assign("command_args", argsText) in Layout(s);
    MeaningIn(Layout(s), "command_args", argsText);
    assert "command_args" + "=" == "command_args=";
    ReadQuotedList([], s.commandArgs);
    assert [] + Words(s.commandArgs) == Words(s.commandArgs);
  }
}

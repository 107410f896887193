/** The nftables table body: its validation, its rendering inside the owned table, and why the wrapper stays
    closed. A text is a sequence of bytes; every rule here is about ASCII. */
module Nftables {
  import opened Model

  /** What the lexical rules see of a text: braces, identifiers, and NUL bytes outside comments and strings. */
  datatype Token = Open | Close | Name(word: string) | Nul

  datatype Mode = Plain | Slash | InWord(word: string) | LineComment | BlockComment | Star | Quoted(double: bool, escaped: bool)

  datatype Lexer = Lexer(mode: Mode, tokens: seq<Token>)

  predicate IdentifierStart(c: char)
  {
    c == '_' || 'A' <= c <= 'Z' || 'a' <= c <= 'z'
  }

  predicate IdentifierPart(c: char)
  {
    IdentifierStart(c) || '0' <= c <= '9' || c == '-'
  }

  function Normal(tokens: seq<Token>, c: char): Lexer
  {
    if c == '\0' then Lexer(Plain, tokens + [Nul])
    else if c == '#' then Lexer(LineComment, tokens)
    else if c == '/' then Lexer(Slash, tokens)
    else if c == '\'' || c == '"' then Lexer(Quoted(c == '"', false), tokens)
    else if c == '{' then Lexer(Plain, tokens + [Open])
    else if c == '}' then Lexer(Plain, tokens + [Close])
    else if IdentifierStart(c) then Lexer(InWord([c]), tokens)
    else Lexer(Plain, tokens)
  }

  /** One byte of the lexical rules. */
  function Feed(l: Lexer, c: char): Lexer
  {
    match l.mode
    case Plain => Normal(l.tokens, c)
    case Slash => if c == '*' then l.(mode := BlockComment) else Normal(l.tokens, c)
    case InWord(word) => if IdentifierPart(c) then l.(mode := InWord(word + [c])) else Normal(l.tokens + [Name(word)], c)
    case LineComment => if c == '\n' then l.(mode := Plain) else l
    case BlockComment => if c == '*' then l.(mode := Star) else l
    case Star => if c == '/' then l.(mode := Plain) else if c == '*' then l else l.(mode := BlockComment)
    case Quoted(double, escaped) =>
      if escaped then l.(mode := Quoted(double, false))
      else if c == '\\' then l.(mode := Quoted(double, true))
      else if c == (if double then '"' else '\'') then l.(mode := Plain)
      else l
  }

  function ScanFrom(l: Lexer, text: string): Lexer
  {
    if text == "" then l else Feed(ScanFrom(l, text[..|text| - 1]), text[|text| - 1])
  }

  function Scan(text: string): Lexer
  {
    ScanFrom(Lexer(Plain, []), text)
  }

  /** The tokens, counting a word that the end of the text delimits. */
  function Settled(l: Lexer): seq<Token>
  {
    if l.mode.InWord? then l.tokens + [Name(l.mode.word)] else l.tokens
  }

  /** A comment or a string is left open. */
  predicate Dangling(mode: Mode)
  {
    mode.BlockComment? || mode.Star? || mode.Quoted?
  }

  datatype BodyError =
    | NulByte
    | ClosesWrapper
    | Directive(word: string)
    | TopLevelCommand(word: string)
    | OpenComment
    | OpenString
    | Unbalanced

  function LowerChar(c: char): char
  {
    if 'A' <= c <= 'Z' then c - 'A' + 'a' else c
  }

  function Lower(word: string): string
  {
    seq(|word|, i requires 0 <= i < |word| => LowerChar(word[i]))
  }

  predicate Mutates(word: string)
  {
    word in {"add", "delete", "destroy", "export", "flush", "import", "insert", "list", "monitor", "rename", "replace", "reset"}
  }

  function JudgeOne(depth: nat, token: Token): Result<nat, BodyError>
  {
    match token
    case Open => Ok(depth + 1)
    case Close => if depth == 0 then Err(ClosesWrapper) else Ok(depth - 1)
    case Nul => Err(NulByte)
    case Name(word) =>
      var lower := Lower(word);
      if lower == "include" || lower == "table" then Err(Directive(lower))
      else if depth == 0 && Mutates(lower) then Err(TopLevelCommand(lower))
      else Ok(depth)
  }

  /** The depth after the tokens, or the first thing a table body must not hold. */
  function Judge(tokens: seq<Token>): Result<nat, BodyError>
  {
    if tokens == [] then Ok(0)
    else
      var before := Judge(tokens[..|tokens| - 1]);
      if before.Err? then before else JudgeOne(before.value, tokens[|tokens| - 1])
  }

  /** What validateNftablesTableBody decides. */
  function Verdict(body: string): Option<BodyError>
  {
    var l := Scan(body);
    var judged := Judge(Settled(l));
    if judged.Err? then Some(judged.error)
    else if l.mode.BlockComment? || l.mode.Star? then Some(OpenComment)
    else if l.mode.Quoted? then Some(OpenString)
    else if judged.value != 0 then Some(Unbalanced)
    else None
  }

  lemma {:induction false} ScanAppend(l: Lexer, a: string, b: string)
    ensures ScanFrom(l, a + b) == ScanFrom(ScanFrom(l, a), b)
    decreases |b|
  {
    if b == "" {
      assert a + b == a;
    } else {
      assert (a + b)[..|a + b| - 1] == a + b[..|b| - 1];
      ScanAppend(l, a, b[..|b| - 1]);
    }
  }

  lemma ScanOne(l: Lexer, c: char)
    ensures ScanFrom(l, [c]) == Feed(l, c)
  {
    assert [c][..0] == "";
  }

  /** The tokens of a longer text extend those of a shorter one. */
  lemma {:induction false} ScanGrows(l: Lexer, text: string)
    ensures l.tokens <= ScanFrom(l, text).tokens
    decreases |text|
  {
    if text != "" {
      ScanGrows(l, text[..|text| - 1]);
    }
  }

  lemma {:induction false} JudgeKeepsError(a: seq<Token>, b: seq<Token>)
    requires a <= b && Judge(a).Err?
    ensures Judge(b) == Judge(a)
    decreases |b|
  {
    if a == b {
    } else {
      assert a <= b[..|b| - 1];
      JudgeKeepsError(a, b[..|b| - 1]);
    }
  }

  lemma JudgePush(tokens: seq<Token>, token: Token)
    requires Judge(tokens).Ok?
    ensures Judge(tokens + [token]) == JudgeOne(Judge(tokens).value, token)
  {
    assert (tokens + [token])[..|tokens|] == tokens;
  }

  /** What the validator's loop knows after index bytes: its state byte, its escape flag and its depth. */
  predicate Tracks(content: string, index: nat, state: char, escaped: bool, depth: nat)
    requires index <= |content|
  {
    var l := Scan(content[..index]);
    && Judge(Settled(l)) == Ok(depth)
    && (escaped ==> state == '\'' || state == '"')
    && (if state == '\0' then
          || l.mode.Plain?
          || (l.mode.Slash? && (index == |content| || content[index] != '*'))
          || (l.mode.InWord? && (index == |content| || !IdentifierPart(content[index])))
        else if state == '#' then l.mode.LineComment?
        else if state == '*' then l.mode.BlockComment? || (l.mode.Star? && (index == |content| || content[index] != '/'))
        else (state == '\'' || state == '"') && l.mode == Quoted(state == '"', escaped))
  }

  lemma ScanNext(content: string, index: nat)
    requires index < |content|
    ensures Scan(content[..index + 1]) == Feed(Scan(content[..index]), content[index])
  {
    assert content[..index + 1][..index] == content[..index];
  }

  /** A plain byte is read from the settled tokens. */
  lemma NormalNext(content: string, index: nat, depth: nat)
    requires index < |content| && Tracks(content, index, '\0', false, depth)
    ensures Scan(content[..index + 1]) == Normal(Settled(Scan(content[..index])), content[index])
  {
    ScanNext(content, index);
  }

  lemma Rejected(content: string, index: nat, error: BodyError)
    requires index <= |content|
    requires Judge(Scan(content[..index]).tokens) == Err(error)
    ensures Verdict(content) == Some(error)
  {
    hide Judge;
    var l := Scan(content[..index]);
    assert content == content[..index] + content[index..];
    ScanAppend(Lexer(Plain, []), content[..index], content[index..]);
    ScanGrows(l, content[index..]);
    var all := Scan(content);
    assert all.tokens <= Settled(all);
    JudgeKeepsError(l.tokens, Settled(all));
  }

  /** A word delimited at index is judged, whether or not more text follows. */
  lemma RejectedWord(content: string, index: nat, error: BodyError)
    requires index <= |content| && Scan(content[..index]).mode.InWord?
    requires index == |content| || !IdentifierPart(content[index])
    requires Judge(Settled(Scan(content[..index]))) == Err(error)
    ensures Verdict(content) == Some(error)
  {
    if index == |content| {
      assert content[..index] == content;
    } else {
      ScanNext(content, index);
      var settled := Settled(Scan(content[..index]));
      assert settled <= Scan(content[..index + 1]).tokens;
      JudgeKeepsError(settled, Scan(content[..index + 1]).tokens);
      Rejected(content, index + 1, error);
    }
  }

  /** validateNftablesTableBody. */
  method ValidateTableBody(content: string) returns (error: Option<BodyError>)
    ensures error == Verdict(content)
  {
    hide *;
    var depth: nat := 0;
    var state := '\0';
    var escaped := false;
    var index := 0;
    StartTracks(content);
    while index < |content|
      invariant 0 <= index <= |content|
      invariant Tracks(content, index, state, escaped, depth)
    {
      var ch := content[index];
      if state == '#' {
        LineNext(content, index, depth);
        if ch == '\n' {
          state := '\0';
        }
        index := index + 1;
        continue;
      }
      if state == '*' {
        BlockNext(content, index, depth);
        if ch == '*' && index + 1 < |content| && content[index + 1] == '/' {
          state := '\0';
          index := index + 2;
          continue;
        }
        index := index + 1;
        continue;
      }
      if state == '\'' || state == '"' {
        QuoteNext(content, index, state, escaped, depth);
        if escaped {
          escaped := false;
          index := index + 1;
          continue;
        }
        if ch == '\\' {
          escaped := true;
          index := index + 1;
          continue;
        }
        if ch == state {
          state := '\0';
        }
        index := index + 1;
        continue;
      }
      StateIsPlain(content, index, state, escaped, depth);
      PlainNext(content, index, depth);
      if ch == '\0' {
        return Some(NulByte);
      }
      if ch == '#' {
        state := '#';
        index := index + 1;
        continue;
      }
      if ch == '/' && index + 1 < |content| && content[index + 1] == '*' {
        state := '*';
        index := index + 2;
        continue;
      }
      if ch == '\'' || ch == '"' {
        state := ch;
        index := index + 1;
        continue;
      }
      if ch == '{' {
        depth := depth + 1;
        index := index + 1;
        continue;
      }
      if ch == '}' {
        if depth == 0 {
          return Some(ClosesWrapper);
        }
        depth := depth - 1;
        index := index + 1;
        continue;
      }
      if IdentifierStart(ch) {
        var start := index;
        WordStart(content, index, depth);
        index := index + 1;
        while index < |content| && IdentifierPart(content[index])
          invariant start < index <= |content|
          invariant Scan(content[..index]) == Lexer(InWord(content[start..index]), Settled(Scan(content[..start])))
        {
          WordNext(content, start, index);
          index := index + 1;
        }
        WordEnd(content, start, index, depth);
        var word := Lower(content[start..index]);
        if word == "include" || word == "table" {
          return Some(Directive(word));
        }
        if depth == 0 && Mutates(word) {
          return Some(TopLevelCommand(word));
        }
        continue;
      }
      index := index + 1;
    }
    EndTracks(content, state, escaped, depth);
    if state == '*' {
      return Some(OpenComment);
    }
    if state == '\'' || state == '"' {
      return Some(OpenString);
    }
    if depth != 0 {
      return Some(Unbalanced);
    }
    return None;
  }

  lemma StartTracks(content: string)
    ensures Tracks(content, 0, '\0', false, 0)
  {
  }

  lemma LineNext(content: string, index: nat, depth: nat)
    requires index < |content|
    ensures forall escaped :: Tracks(content, index, '#', escaped, depth) ==>
              Tracks(content, index + 1, if content[index] == '\n' then '\0' else '#', escaped, depth)
  {
    hide Judge;
    ScanNext(content, index);
  }

  lemma BlockNext(content: string, index: nat, depth: nat)
    requires index < |content|
    ensures forall escaped :: Tracks(content, index, '*', escaped, depth) ==>
              if content[index] == '*' && index + 1 < |content| && content[index + 1] == '/'
              then Tracks(content, index + 2, '\0', escaped, depth)
              else Tracks(content, index + 1, '*', escaped, depth)
  {
    hide Judge;
    ScanNext(content, index);
    if index + 1 < |content| {
      ScanNext(content, index + 1);
    }
  }

  lemma QuoteNext(content: string, index: nat, state: char, escaped: bool, depth: nat)
    requires index < |content| && (state == '\'' || state == '"') && Tracks(content, index, state, escaped, depth)
    ensures var ch := content[index];
            if escaped then Tracks(content, index + 1, state, false, depth)
            else if ch == '\\' then Tracks(content, index + 1, state, true, depth)
            else if ch == state then Tracks(content, index + 1, '\0', false, depth)
            else Tracks(content, index + 1, state, false, depth)
  {
    hide Judge;
    ScanNext(content, index);
  }

  lemma StateIsPlain(content: string, index: nat, state: char, escaped: bool, depth: nat)
    requires index <= |content| && Tracks(content, index, state, escaped, depth)
    ensures state in {'\0', '#', '*', '\'', '"'}
    ensures state == '\0' ==> !escaped
  {
  }

  /** Every plain byte that does not start a word. */
  lemma PlainNext(content: string, index: nat, depth: nat)
    requires index < |content| && Tracks(content, index, '\0', false, depth)
    ensures content[index] == '\0' ==> Verdict(content) == Some(NulByte)
    ensures content[index] == '}' && depth == 0 ==> Verdict(content) == Some(ClosesWrapper)
    ensures content[index] == '#' ==> Tracks(content, index + 1, '#', false, depth)
    ensures content[index] == '/' && index + 1 < |content| && content[index + 1] == '*' ==> Tracks(content, index + 2, '*', false, depth)
    ensures content[index] in {'\'', '"'} ==> Tracks(content, index + 1, content[index], false, depth)
    ensures content[index] == '{' ==> Tracks(content, index + 1, '\0', false, depth + 1)
    ensures content[index] == '}' && depth > 0 ==> Tracks(content, index + 1, '\0', false, depth - 1)
    ensures content[index] !in {'\0', '}', '#', '\'', '"', '{'} && !IdentifierStart(content[index]) &&
            !(content[index] == '/' && index + 1 < |content| && content[index + 1] == '*') ==>
              Tracks(content, index + 1, '\0', false, depth)
  {
    hide Judge;
    var ch, settled := content[index], Settled(Scan(content[..index]));
    NormalNext(content, index, depth);
    JudgePush(settled, Open);
    JudgePush(settled, Close);
    JudgePush(settled, Nul);
    if ch == '\0' {
      Rejected(content, index + 1, NulByte);
    }
    if ch == '}' && depth == 0 {
      Rejected(content, index + 1, ClosesWrapper);
    }
    if index + 1 < |content| {
      ScanNext(content, index + 1);
    }
  }

  lemma WordStart(content: string, index: nat, depth: nat)
    requires index < |content| && Tracks(content, index, '\0', false, depth) && IdentifierStart(content[index])
    ensures Scan(content[..index + 1]) == Lexer(InWord(content[index..index + 1]), Settled(Scan(content[..index])))
  {
    NormalNext(content, index, depth);
    assert content[index..index + 1] == [content[index]];
  }

  lemma WordNext(content: string, start: nat, index: nat)
    requires start < index < |content| && IdentifierPart(content[index])
    requires Scan(content[..index]) == Lexer(InWord(content[start..index]), Settled(Scan(content[..start])))
    ensures Scan(content[..index + 1]) == Lexer(InWord(content[start..index + 1]), Settled(Scan(content[..start])))
  {
    ScanNext(content, index);
    assert content[start..index + 1] == content[start..index] + [content[index]];
  }

  lemma WordEnd(content: string, start: nat, index: nat, depth: nat)
    requires start < index <= |content| && (index == |content| || !IdentifierPart(content[index]))
    requires Tracks(content, start, '\0', false, depth)
    requires Scan(content[..index]) == Lexer(InWord(content[start..index]), Settled(Scan(content[..start])))
    ensures var word := Lower(content[start..index]);
            if word == "include" || word == "table" then Verdict(content) == Some(Directive(word))
            else if depth == 0 && Mutates(word) then Verdict(content) == Some(TopLevelCommand(word))
            else Tracks(content, index, '\0', false, depth)
  {
    hide Judge, Lower, Verdict, ScanFrom, Mutates;
    var token := Name(content[start..index]);
    JudgePush(Settled(Scan(content[..start])), token);
    var judged := JudgeOne(depth, token);
    if judged.Err? {
      RejectedWord(content, index, judged.error);
    }
  }

  lemma EndTracks(content: string, state: char, escaped: bool, depth: nat)
    requires Tracks(content, |content|, state, escaped, depth)
    ensures Verdict(content) ==
            if state == '*' then Some(OpenComment)
            else if state == '\'' || state == '"' then Some(OpenString)
            else if depth != 0 then Some(Unbalanced)
            else None
  {
    assert content[..|content|] == content;
  }
}

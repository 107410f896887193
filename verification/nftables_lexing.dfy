/** The lexical rules and the verdict on a table body, said of the text itself: what hides braces and words, what is a
    word, and which bodies are accepted. */
module NftablesLexing {
  import opened Model
  import opened Nftables
  import opened NftablesPersistence

  // ---- words ----

  /** A word is read as long as it lasts: letters, digits, underscores and hyphens, but it starts with neither a digit nor
      a hyphen. It is one token, exactly when the next byte cannot continue it. */
  lemma WordIsOneToken(tokens: seq<Token>, word: string, next: char)
    requires word != "" && !('0' <= word[0] <= '9') && word[0] != '-'
    requires forall k :: 0 <= k < |word| ==>
               'a' <= word[k] <= 'z' || 'A' <= word[k] <= 'Z' || '0' <= word[k] <= '9' || word[k] == '_' || word[k] == '-'
    ensures var l := ScanFrom(Lexer(Plain, tokens), word + [next]);
            if 'a' <= next <= 'z' || 'A' <= next <= 'Z' || '0' <= next <= '9' || next == '_' || next == '-'
            then l == Lexer(InWord(word + [next]), tokens)
            else l == ScanFrom(Lexer(Plain, tokens + [Name(word)]), [next])
  {
    hide Normal, ScanFrom;
    assert Identifier(word);
    ScanAppend(Lexer(Plain, tokens), word, [next]);
    ScanIdentifier(tokens, word);
    ScanOne(Lexer(InWord(word), tokens), next);
    ScanOne(Lexer(Plain, tokens + [Name(word)]), next);
  }

  /** Words are compared without regard to the case of ASCII letters. */
  lemma LowerIs(word: string, lower: string)
    ensures Lower(word) == lower <==>
            && |word| == |lower|
            && forall k :: 0 <= k < |word| ==>
                 if 'A' <= word[k] <= 'Z' then lower[k] as int == word[k] as int + 32 else lower[k] == word[k]
  {
  }

  // ---- what hides text ----

  /** A comment to the end of its line holds no tokens. */
  lemma LineCommentIsNothing(tokens: seq<Token>, text: string)
    requires '\n' !in text
    ensures ScanFrom(Lexer(Plain, tokens), "#" + text + "\n") == Lexer(Plain, tokens)
  {
    hide ScanFrom;
    ScanAppend(Lexer(Plain, tokens), "#" + text, "\n");
    ScanAppend(Lexer(Plain, tokens), "#", text);
    ScanOne(Lexer(Plain, tokens), '#');
    ScanHeaderComment(Lexer(LineComment, tokens), text);
    ScanOne(Lexer(LineComment, tokens), '\n');
  }

  lemma {:induction false} InsideBlock(tokens: seq<Token>, text: string)
    requires forall i :: 0 <= i < |text| - 1 ==> !(text[i] == '*' && text[i + 1] == '/')
    ensures ScanFrom(Lexer(BlockComment, tokens), text) ==
            Lexer(if text != "" && text[|text| - 1] == '*' then Star else BlockComment, tokens)
    decreases |text|
  {
    if text != "" {
      var n := |text| - 1;
      InsideBlock(tokens, text[..n]);
      assert n > 0 ==> !(text[n - 1] == '*' && text[n] == '/');
    }
  }

  /** A block comment ends at its first closing mark, and holds no tokens. */
  lemma BlockCommentIsNothing(tokens: seq<Token>, text: string)
    requires forall i :: 0 <= i < |text| - 1 ==> !(text[i] == '*' && text[i + 1] == '/')
    ensures ScanFrom(Lexer(Plain, tokens), "/" + "*" + text + "*" + "/") == Lexer(Plain, tokens)
  {
    hide ScanFrom;
    var l := Lexer(Plain, tokens);
    ScanAppend(l, "/" + "*" + text + "*", "/");
    ScanAppend(l, "/" + "*" + text, "*");
    ScanAppend(l, "/" + "*", text);
    ScanAppend(l, "/", "*");
    ScanOne(l, '/');
    ScanOne(Lexer(Slash, tokens), '*');
    InsideBlock(tokens, text);
    ScanOne(ScanFrom(Lexer(BlockComment, tokens), text), '*');
    ScanOne(Lexer(Star, tokens), '/');
  }

  /** The inside of a string: a backslash takes the next byte along, and the quotation mark does not occur otherwise. */
  predicate WellQuoted(text: string, mark: char)
  {
    text == ""
    || (text[0] == '\\' && |text| >= 2 && WellQuoted(text[2..], mark))
    || (text[0] != '\\' && text[0] != mark && WellQuoted(text[1..], mark))
  }

  lemma {:induction false} InsideString(tokens: seq<Token>, text: string, double: bool)
    requires WellQuoted(text, if double then '"' else '\'')
    ensures ScanFrom(Lexer(Quoted(double, false), tokens), text) == Lexer(Quoted(double, false), tokens)
    decreases |text|
  {
    hide ScanFrom;
    var l := Lexer(Quoted(double, false), tokens);
    if text == "" {
      ScanNothing(l);
    } else if text[0] == '\\' {
      assert text == [text[0]] + [text[1]] + text[2..];
      ScanAppend(l, [text[0]] + [text[1]], text[2..]);
      ScanAppend(l, [text[0]], [text[1]]);
      ScanOne(l, text[0]);
      ScanOne(Lexer(Quoted(double, true), tokens), text[1]);
      InsideString(tokens, text[2..], double);
    } else {
      assert text == [text[0]] + text[1..];
      ScanAppend(l, [text[0]], text[1..]);
      ScanOne(l, text[0]);
      InsideString(tokens, text[1..], double);
    }
  }

  lemma ScanNothing(l: Lexer)
    ensures ScanFrom(l, "") == l
  {
  }

  /** A string ends at its first quotation mark that no backslash precedes, and holds no tokens. */
  lemma StringIsNothing(tokens: seq<Token>, text: string, double: bool)
    requires WellQuoted(text, if double then '"' else '\'')
    ensures var mark := if double then '"' else '\'';
            ScanFrom(Lexer(Plain, tokens), [mark] + text + [mark]) == Lexer(Plain, tokens)
  {
    hide ScanFrom, WellQuoted;
    var mark, l := if double then '"' else '\'', Lexer(Plain, tokens);
    ScanAppend(l, [mark] + text, [mark]);
    ScanAppend(l, [mark], text);
    ScanOne(l, mark);
    InsideString(tokens, text, double);
    ScanOne(Lexer(Quoted(double, false), tokens), mark);
  }

  /** Of all other bytes, braces and NUL are tokens of their own, and the rest is passed over. */
  lemma OtherBytes(tokens: seq<Token>, c: char)
    requires !('a' <= c <= 'z') && !('A' <= c <= 'Z') && c !in {'_', '#', '/', '\'', '"'}
    ensures ScanFrom(Lexer(Plain, tokens), [c]) ==
            Lexer(Plain, tokens + if c == '{' then [Open] else if c == '}' then [Close] else if c == '\0' then [Nul] else [])
  {
    hide ScanFrom;
    ScanOne(Lexer(Plain, tokens), c);
    assert tokens + [] == tokens;
  }

  // ---- the verdict ----

  predicate IsDirective(word: string)
  {
    word == "include" || word == "table"
  }

  predicate IsRulesetCommand(word: string)
  {
    || word == "add" || word == "delete" || word == "destroy" || word == "export" || word == "flush" || word == "import"
    || word == "insert" || word == "list" || word == "monitor" || word == "rename" || word == "replace" || word == "reset"
  }

  /** Nothing is wrong with the k-th token where it stands. */
  predicate Harmless(tokens: seq<Token>, k: nat)
    requires k < |tokens|
  {
    match tokens[k]
    case Open => true
    case Close => Depth(tokens[..k]) > 0
    case Nul => false
    case Name(word) =>
      !IsDirective(Lower(word)) && (Depth(tokens[..k]) == 0 ==> !IsRulesetCommand(Lower(word)))
  }

  ghost predicate HarmlessUpTo(tokens: seq<Token>, n: nat)
    requires n <= |tokens|
  {
    forall k :: 0 <= k < n ==> Harmless(tokens, k)
  }

  /** The error that a token gives rise to. */
  predicate Provokes(tokens: seq<Token>, k: nat, error: BodyError)
    requires k < |tokens|
  {
    match error
    case NulByte => tokens[k] == Nul
    case ClosesWrapper => tokens[k] == Close && Depth(tokens[..k]) == 0
    case Directive(word) => tokens[k].Name? && word == Lower(tokens[k].word) && IsDirective(word)
    case TopLevelCommand(word) =>
      && tokens[k].Name? && word == Lower(tokens[k].word) && Depth(tokens[..k]) == 0 && IsRulesetCommand(word)
    case _ => false
  }

  lemma {:induction false} JudgedExactly(tokens: seq<Token>)
    ensures Judge(tokens).Ok? <==> HarmlessUpTo(tokens, |tokens|)
    ensures Judge(tokens).Ok? ==> Depth(tokens) == Judge(tokens).value
    ensures Judge(tokens).Err? ==>
              exists k :: 0 <= k < |tokens| && HarmlessUpTo(tokens, k) && Provokes(tokens, k, Judge(tokens).error)
    decreases |tokens|
  {
    if tokens != [] {
      var n := |tokens| - 1;
      JudgedExactly(tokens[..n]);
      ShorterHarmless(tokens, n);
      hide Harmless, Provokes, Lower;
      if Judge(tokens[..n]).Err? {
        var k :| 0 <= k < n && HarmlessUpTo(tokens[..n], k) && Provokes(tokens[..n], k, Judge(tokens).error);
        ShorterProvokes(tokens, n, k, Judge(tokens).error);
        assert HarmlessUpTo(tokens, k);
      } else {
        JudgedLast(tokens);
      }
    }
  }

  lemma ShorterHarmless(tokens: seq<Token>, n: nat)
    requires n <= |tokens|
    ensures forall k :: 0 <= k < n ==> (Harmless(tokens[..n], k) <==> Harmless(tokens, k))
  {
    forall k | 0 <= k < n ensures Harmless(tokens[..n], k) <==> Harmless(tokens, k) {
      assert tokens[..n][..k] == tokens[..k];
    }
  }

  lemma ShorterProvokes(tokens: seq<Token>, n: nat, k: nat, error: BodyError)
    requires k < n <= |tokens| && Provokes(tokens[..n], k, error)
    ensures Provokes(tokens, k, error)
  {
    assert tokens[..n][..k] == tokens[..k];
  }

  lemma JudgedLast(tokens: seq<Token>)
    requires tokens != [] && Judge(tokens[..|tokens| - 1]).Ok?
    requires Depth(tokens[..|tokens| - 1]) == Judge(tokens[..|tokens| - 1]).value
    ensures var n := |tokens| - 1;
            && (Judge(tokens).Ok? <==> Harmless(tokens, n))
            && (Judge(tokens).Ok? ==> Depth(tokens) == Judge(tokens).value)
            && (Judge(tokens).Err? ==> Provokes(tokens, n, Judge(tokens).error))
  {
    var n := |tokens| - 1;
    LastUnfolds(tokens);
    hide *;
    JudgedHere(tokens, n, Judge(tokens[..n]).value);
  }

  lemma LastUnfolds(tokens: seq<Token>)
    requires tokens != [] && Judge(tokens[..|tokens| - 1]).Ok?
    ensures var n := |tokens| - 1;
            && Judge(tokens) == JudgeOne(Judge(tokens[..n]).value, tokens[n])
            && Depth(tokens) == Depth(tokens[..n]) + (match tokens[n] case Open => 1 case Close => -1 case _ => 0)
  {
    hide JudgeOne;
  }

  lemma JudgedHere(tokens: seq<Token>, n: nat, depth: nat)
    requires n < |tokens| && Depth(tokens[..n]) == depth
    ensures var judged := JudgeOne(depth, tokens[n]);
            && (judged.Ok? <==> Harmless(tokens, n))
            && (judged.Ok? ==> judged.value == depth + (match tokens[n] case Open => 1 case Close => -1 case _ => 0))
            && (judged.Err? ==> Provokes(tokens, n, judged.error))
  {
    hide Depth, Lower, IsDirective, IsRulesetCommand;
    if tokens[n].Name? {
      NameJudged(depth, tokens[n].word);
      hide JudgeOne;
    }
  }

  lemma NameJudged(depth: nat, word: string)
    ensures var judged, lower := JudgeOne(depth, Name(word)), Lower(word);
            if IsDirective(lower) then judged == Err(Directive(lower))
            else if depth == 0 && IsRulesetCommand(lower) then judged == Err(TopLevelCommand(lower))
            else judged == Ok(depth)
  {
    hide Lower;
  }

  /** The verdict: a body is accepted exactly when each of its tokens is harmless, no comment or string is left open and
      the braces match. Otherwise the error is that of the first token that is not, or, if all are, what is left open. */
  lemma VerdictExactly(body: string)
    ensures var tokens, mode := Settled(Scan(body)), Scan(body).mode;
            match Verdict(body)
            case None => HarmlessUpTo(tokens, |tokens|) && !Dangling(mode) && Depth(tokens) == 0
            case Some(OpenComment) => HarmlessUpTo(tokens, |tokens|) && (mode.BlockComment? || mode.Star?)
            case Some(OpenString) => HarmlessUpTo(tokens, |tokens|) && mode.Quoted?
            case Some(Unbalanced) => HarmlessUpTo(tokens, |tokens|) && !Dangling(mode) && Depth(tokens) != 0
            case Some(error) => exists k :: 0 <= k < |tokens| && HarmlessUpTo(tokens, k) && Provokes(tokens, k, error)
  {
    hide ScanFrom, Judge, HarmlessUpTo, Depth;
    var tokens := Settled(Scan(body));
    JudgedExactly(tokens);
    if Judge(tokens).Err? {
      NotLeftOpen(tokens, Judge(tokens).error);
    }
  }

  lemma NotLeftOpen(tokens: seq<Token>, error: BodyError)
    requires exists k :: 0 <= k < |tokens| && HarmlessUpTo(tokens, k) && Provokes(tokens, k, error)
    ensures !error.OpenComment? && !error.OpenString? && !error.Unbalanced?
  {
  }
}

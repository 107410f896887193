/** The rendered nftables file, and why an accepted body cannot leave its table. */
module NftablesPersistence {
  import opened Nftables

  /** strings.TrimRight(body, "\n"). */
  function TrimNewlines(body: string): string
  {
    if body != "" && body[|body| - 1] == '\n' then TrimNewlines(body[..|body| - 1]) else body
  }

  /** strings.ReplaceAll(text, "\n", "\n\t"). */
  function Indent(text: string): string
  {
    if text == "" then ""
    else
      var n := |text| - 1;
      Indent(text[..n]) + if text[n] == '\n' then "\n\t" else [text[n]]
  }

  const NOTICE: string := " Managed by AlpineForm." + " Manual changes are repaired."

  const HEADER: string := "#" + NOTICE + "\n"

  /** Up to and including the wrapper's opening brace. */
  function Opening(family: string, name: string): string
  {
    HEADER + "table " + family + " " + name + " {"
  }

  /** renderNftablesPersistence. */
  function Rendered(family: string, name: string, body: string): string
  {
    Opening(family, name) + "\n" + "\t" + Indent(TrimNewlines(body)) + "\n" + "}" + "\n"
  }

  predicate Identifier(word: string)
  {
    word != "" && IdentifierStart(word[0]) && forall k :: 0 <= k < |word| ==> IdentifierPart(word[k])
  }

  /** The file, as text: a notice, the table's heading, the body's lines each after a tab, and the closing brace. */
  lemma RenderedText(family: string, name: string, body: string)
    ensures Rendered(family, name, body) ==
            "#" + (" Managed by AlpineForm." + " Manual changes are repaired.") + "\n"
            + "table " + family + " " + name + " {" + "\n"
            + "\t" + Indent(TrimNewlines(body)) + "\n" + "}" + "\n"
  {
    hide Indent, TrimNewlines;
  }

  lemma {:induction false} IndentAppend(a: string, b: string)
    ensures Indent(a + b) == Indent(a) + Indent(b)
    decreases |b|
  {
    if b == "" {
      assert a + b == a;
    } else {
      var n := |b| - 1;
      IndentAppend(a, b[..n]);
      assert (a + b)[..|a + b| - 1] == a + b[..n];
    }
  }

  lemma {:induction false} IndentLine(line: string)
    requires '\n' !in line
    ensures Indent(line) == line
    decreases |line|
  {
    if line != "" {
      assert line == line[..|line| - 1] + [line[|line| - 1]];
      IndentLine(line[..|line| - 1]);
    }
  }

  /** Every newline is followed by a tab, and nothing else changes. */
  lemma IndentLines(line: string, rest: string)
    requires '\n' !in line
    ensures Indent(line) == line && Indent(line + "\n" + rest) == line + "\n\t" + Indent(rest)
  {
    IndentLine(line);
    assert Indent("\n") == "\n\t" by { assert "\n"[..0] == ""; }
    hide Indent;
    IndentAppend(line + "\n", rest);
    IndentAppend(line, "\n");
  }

  /** Trimming takes the newlines off the end, all of them. */
  lemma {:induction false} TrimmedExactly(body: string) returns (n: nat)
    ensures n <= |body| && TrimNewlines(body) == body[..n] && (n > 0 ==> body[n - 1] != '\n')
    ensures forall k :: n <= k < |body| ==> body[k] == '\n'
    decreases |body|
  {
    if body != "" && body[|body| - 1] == '\n' {
      n := TrimmedExactly(body[..|body| - 1]);
      assert body[..|body| - 1][..n] == body[..n];
    } else {
      n := |body|;
      assert body[..n] == body;
    }
  }

  // ---- Scanning the rendered text ----

  /** A tab after a newline changes nothing, in whatever comment, string or word the newline stands. */
  lemma TabIsNothing(l: Lexer)
    ensures Feed(Feed(l, '\n'), '\t') == Feed(l, '\n')
  {
  }

  lemma {:induction false} ScanIndented(l: Lexer, text: string)
    ensures ScanFrom(l, Indent(text)) == ScanFrom(l, text)
    decreases |text|
  {
    hide Feed;
    if text != "" {
      var n := |text| - 1;
      ScanIndented(l, text[..n]);
      var before := ScanFrom(l, text[..n]);
      if text[n] == '\n' {
        ScanAppend(l, Indent(text[..n]), "\n\t");
        assert "\n\t" == "\n" + "\t";
        ScanAppend(before, "\n", "\t");
        ScanOne(before, '\n');
        ScanOne(Feed(before, '\n'), '\t');
        TabIsNothing(before);
      } else {
        ScanAppend(l, Indent(text[..n]), [text[n]]);
        ScanOne(before, text[n]);
      }
    }
  }

  /** So do further newlines after one newline. */
  lemma {:induction false} ScanTrimmed(l: Lexer, body: string)
    ensures ScanFrom(l, TrimNewlines(body) + "\n") == ScanFrom(l, body + "\n")
    decreases |body|
  {
    hide Feed;
    if body != "" && body[|body| - 1] == '\n' {
      var init := body[..|body| - 1];
      ScanTrimmed(l, init);
      assert body == init + "\n";
      ScanAppend(l, body, "\n");
      ScanAppend(l, init, "\n");
      ScanOne(ScanFrom(l, init), '\n');
      ScanOne(ScanFrom(l, body), '\n');
      OneNewline(ScanFrom(l, init));
    }
  }

  lemma OneNewline(l: Lexer)
    ensures Feed(Feed(l, '\n'), '\n') == Feed(l, '\n')
  {
  }

  lemma NewlineSettles(l: Lexer)
    ensures !Dangling(l.mode) ==> Feed(l, '\n') == Lexer(Plain, Settled(l))
    ensures Dangling(l.mode) ==> Feed(l, '\n').tokens == l.tokens && Dangling(Feed(l, '\n').mode)
    ensures Dangling(l.mode) && !l.mode.Quoted? ==> Feed(l, '\n').mode == BlockComment
    ensures l.mode.Quoted? ==> Feed(l, '\n').mode == Quoted(l.mode.double, false)
  {
  }

  lemma {:induction false} ScanHeaderComment(l: Lexer, text: string)
    requires l.mode == LineComment && '\n' !in text
    ensures ScanFrom(l, text) == l
    decreases |text|
  {
    if text != "" {
      assert text == text[..|text| - 1] + [text[|text| - 1]];
      ScanHeaderComment(l, text[..|text| - 1]);
    }
  }

  lemma ScanHeader()
    ensures Scan(HEADER) == Lexer(Plain, [])
  {
    var rest := NOTICE;
    assert '\n' !in " Managed by AlpineForm.";
    assert '\n' !in " Manual changes are repaired.";
    ScanAppend(Lexer(Plain, []), "#" + rest, "\n");
    ScanAppend(Lexer(Plain, []), "#", rest);
    ScanOne(Lexer(Plain, []), '#');
    ScanHeaderComment(Lexer(LineComment, []), rest);
    ScanOne(Lexer(LineComment, []), '\n');
  }

  lemma {:induction false} ScanIdentifier(tokens: seq<Token>, word: string)
    requires Identifier(word)
    ensures ScanFrom(Lexer(Plain, tokens), word) == Lexer(InWord(word), tokens)
    decreases |word|
  {
    var n := |word| - 1;
    var l := Lexer(Plain, tokens);
    assert word == word[..n] + [word[n]];
    if n == 0 {
      ScanOne(l, word[0]);
    } else {
      ScanIdentifier(tokens, word[..n]);
      ScanAppend(l, word[..n], [word[n]]);
      ScanOne(Lexer(InWord(word[..n]), tokens), word[n]);
    }
  }

  /** A word and the blank after it. */
  lemma ScanWord(tokens: seq<Token>, word: string)
    requires Identifier(word)
    ensures ScanFrom(Lexer(Plain, tokens), word + " ") == Lexer(Plain, tokens + [Name(word)])
  {
    ScanAppend(Lexer(Plain, tokens), word, " ");
    ScanIdentifier(tokens, word);
    ScanOne(Lexer(InWord(word), tokens), ' ');
  }

  function Heading(family: string, name: string): seq<Token>
  {
    [Name("table"), Name(family), Name(name)]
  }

  lemma ScanHeading(family: string, name: string)
    requires Identifier(family) && Identifier(name)
    ensures Scan(HEADER + "table " + family + " " + name + " ") == Lexer(Plain, Heading(family, name))
  {
    hide ScanFrom, Identifier;
    var start := Lexer(Plain, []);
    assert Identifier("table") by { TableIsIdentifier(); }
    var text := HEADER + ("table" + " ") + (family + " ") + (name + " ");
    assert HEADER + "table " + family + " " + name + " " == text;
    ScanAppend(start, HEADER + ("table" + " ") + (family + " "), name + " ");
    ScanAppend(start, HEADER + ("table" + " "), family + " ");
    ScanAppend(start, HEADER, "table" + " ");
    ScanHeader();
    ScanWord([], "table");
    ScanWord([] + [Name("table")], family);
    ScanWord([] + [Name("table")] + [Name(family)], name);
    assert [] + [Name("table")] + [Name(family)] + [Name(name)] == Heading(family, name);
  }

  lemma TableIsIdentifier()
    ensures Identifier("table")
  {
  }

  lemma ScanOpening(family: string, name: string)
    requires Identifier(family) && Identifier(name)
    ensures Scan(Opening(family, name)) == Lexer(Plain, Heading(family, name) + [Open])
  {
    hide ScanFrom;
    var text := HEADER + "table " + family + " " + name + " ";
    assert Opening(family, name) == text + "{";
    ScanAppend(Lexer(Plain, []), text, "{");
    ScanHeading(family, name);
    ScanOne(Lexer(Plain, Heading(family, name)), '{');
  }

  /** The scanner never looks at earlier tokens. */
  lemma {:induction false} ScanShift(earlier: seq<Token>, l: Lexer, text: string)
    ensures ScanFrom(Lexer(l.mode, earlier + l.tokens), text)
         == Lexer(ScanFrom(l, text).mode, earlier + ScanFrom(l, text).tokens)
    decreases |text|
  {
    if text != "" {
      var n := |text| - 1;
      ScanShift(earlier, l, text[..n]);
      FeedShift(earlier, ScanFrom(l, text[..n]), text[n]);
    }
  }

  lemma FeedShift(earlier: seq<Token>, l: Lexer, c: char)
    ensures Feed(Lexer(l.mode, earlier + l.tokens), c) == Lexer(Feed(l, c).mode, earlier + Feed(l, c).tokens)
  {
    assert forall t :: earlier + l.tokens + [t] == earlier + (l.tokens + [t]);
    assert forall t, u :: earlier + l.tokens + [t] + [u] == earlier + (l.tokens + [t] + [u]);
  }

  /** Up to the newline before the closing brace, the rendered file scans as its heading and then the body. */
  lemma ScanInside(family: string, name: string, body: string)
    requires Identifier(family) && Identifier(name)
    ensures var l := Feed(Scan(body), '\n');
            Scan(Opening(family, name) + "\n" + "\t" + Indent(TrimNewlines(body)) + "\n")
            == Lexer(l.mode, Heading(family, name) + [Open] + l.tokens)
  {
    hide ScanFrom, Indent, TrimNewlines, Opening, Feed;
    var start := Lexer(Plain, []);
    var earlier := Heading(family, name) + [Open];
    var inner, trimmed := Lexer(Plain, earlier), TrimNewlines(body);
    ScanStarted(family, name);
    var shown := Opening(family, name) + "\n" + "\t";
    ScanAppend(start, shown + Indent(trimmed), "\n");
    ScanAppend(start, shown, Indent(trimmed));
    ScanIndented(inner, trimmed);
    ScanAppend(inner, trimmed, "\n");
    ScanTrimmed(inner, body);
    assert earlier + [] == earlier;
    ScanShift(earlier, start, body + "\n");
    ScanAppend(start, body, "\n");
    ScanOne(Scan(body), '\n');
  }

  lemma ScanStarted(family: string, name: string)
    requires Identifier(family) && Identifier(name)
    ensures Scan(Opening(family, name) + "\n" + "\t") == Lexer(Plain, Heading(family, name) + [Open])
  {
    hide ScanFrom, Opening;
    var start := Lexer(Plain, []);
    ScanAppend(start, Opening(family, name) + "\n", "\t");
    ScanAppend(start, Opening(family, name), "\n");
    ScanOpening(family, name);
    ScanOne(Scan(Opening(family, name)), '\n');
    ScanOne(Scan(Opening(family, name)), '\t');
  }

  /** The rendered file reads as one table that holds exactly what the body reads as. */
  lemma RenderedReadsAsTable(family: string, name: string, body: string)
    requires Identifier(family) && Identifier(name) && !Dangling(Scan(body).mode)
    ensures Scan(Rendered(family, name, body))
         == Lexer(Plain, Heading(family, name) + [Open] + Settled(Scan(body)) + [Close])
  {
    hide ScanFrom, Indent, TrimNewlines, Opening;
    var start := Lexer(Plain, []);
    var inside := Opening(family, name) + "\n" + "\t" + Indent(TrimNewlines(body)) + "\n";
    ScanInside(family, name, body);
    NewlineSettles(Scan(body));
    ScanAppend(start, inside + "}", "\n");
    ScanAppend(start, inside, "}");
    ScanOne(Scan(inside), '}');
    ScanOne(Scan(inside + "}"), '\n');
  }

  // ---- Depth ----

  /** Braces opened less braces closed. */
  function Depth(tokens: seq<Token>): int
  {
    if tokens == [] then 0
    else Depth(tokens[..|tokens| - 1]) + (match tokens[|tokens| - 1] case Open => 1 case Close => -1 case _ => 0)
  }

  function DepthAt(text: string, k: nat): int
    requires k <= |text|
  {
    Depth(Scan(text[..k]).tokens)
  }

  lemma {:induction false} DepthAppend(a: seq<Token>, b: seq<Token>)
    ensures Depth(a + b) == Depth(a) + Depth(b)
    decreases |b|
  {
    if b == [] {
      assert a + b == a;
    } else {
      assert (a + b)[..|a + b| - 1] == a + b[..|b| - 1];
      DepthAppend(a, b[..|b| - 1]);
    }
  }

  lemma DepthHeading(family: string, name: string)
    ensures Depth(Heading(family, name)) == 0 && Depth(Heading(family, name) + [Open]) == 1
  {
    DepthAppend([Name("table"), Name(family)], [Name(name)]);
    DepthAppend([Name("table")], [Name(family)]);
    assert Heading(family, name) == [Name("table"), Name(family)] + [Name(name)];
    assert [Name("table"), Name(family)] == [Name("table")] + [Name(family)];
    DepthAppend(Heading(family, name), [Open]);
  }

  /** No part of the body's tokens closes more than it opened, all braces match, and nothing is left open. */
  predicate NeverEscapes(body: string)
  {
    var tokens := Settled(Scan(body));
    (forall n :: 0 <= n <= |tokens| ==> Depth(tokens[..n]) >= 0) && Depth(tokens) == 0 && !Dangling(Scan(body).mode)
  }

  /** From the wrapper's opening brace on, the file is inside the table, until its last brace closes it. */
  predicate WrapperHolds(family: string, name: string, body: string)
  {
    var text := Rendered(family, name, body);
    var brace := |text| - 2;
    && |Opening(family, name)| <= brace
    && (forall k :: |Opening(family, name)| <= k <= brace ==> DepthAt(text, k) >= 1)
    && DepthAt(text, brace + 1) == 0
    && DepthAt(text, |text|) == 0
  }

  function Inside(family: string, name: string, body: string): string
  {
    Opening(family, name) + "\n" + "\t" + Indent(TrimNewlines(body)) + "\n"
  }

  /** The rendered text is its opening, the indented body, and the closing brace on a line of its own. */
  lemma RenderedParts(family: string, name: string, body: string)
    ensures var text, inside := Rendered(family, name, body), Inside(family, name, body);
            && |text| == |inside| + 2 && |Opening(family, name)| <= |inside|
            && text[..|inside|] == inside && text[..|inside| + 1] == inside + "}" && text[..|text|] == inside + "}" + "\n"
            && inside[..|Opening(family, name)|] == Opening(family, name)
  {
    var o, inner := Opening(family, name), Indent(TrimNewlines(body));
    hide *;
    RenderedConcatenated(family, name, body);
    Slices(o, "\n" + "\t" + inner + "\n");
    assert Inside(family, name, body) == o + ("\n" + "\t" + inner + "\n");
  }

  lemma RenderedConcatenated(family: string, name: string, body: string)
    ensures Rendered(family, name, body) == Inside(family, name, body) + "}" + "\n"
    ensures Inside(family, name, body) == Opening(family, name) + "\n" + "\t" + Indent(TrimNewlines(body)) + "\n"
  {
  }

  lemma Slices(a: string, b: string)
    ensures var text := a + b + "}" + "\n";
            && |text| == |a + b| + 2 && text[..|a + b|] == a + b && text[..|a + b| + 1] == a + b + "}" && text[..|text|] == text
            && (a + b)[..|a|] == a
  {
  }

  /** Between the opening and a later point, the tokens only grow. */
  lemma TokensBetween(text: string, i: nat, j: nat)
    requires i <= j <= |text|
    ensures Scan(text[..i]).tokens <= Scan(text[..j]).tokens
  {
    assert text[..j] == text[..i] + text[i..j];
    ScanAppend(Lexer(Plain, []), text[..i], text[i..j]);
    ScanGrows(Scan(text[..i]), text[i..j]);
  }

  /** What the last brace and newline do. */
  lemma ScanClosing(family: string, name: string, body: string)
    requires Identifier(family) && Identifier(name)
    ensures var h, inside := Heading(family, name) + [Open], Inside(family, name, body);
            if Dangling(Scan(body).mode)
            then Scan(inside).tokens == h + Scan(body).tokens && Scan(inside + "}").tokens == h + Scan(body).tokens
            else Scan(inside).tokens == h + Settled(Scan(body)) && Scan(inside + "}").tokens == h + Settled(Scan(body)) + [Close]
                 && Scan(inside + "}" + "\n").tokens == h + Settled(Scan(body)) + [Close]
  {
    hide ScanFrom, Inside;
    var start, inside := Lexer(Plain, []), Inside(family, name, body);
    ScanInside(family, name, body);
    RenderedConcatenated(family, name, body);
    NewlineSettles(Scan(body));
    ScanAppend(start, inside + "}", "\n");
    ScanAppend(start, inside, "}");
    ScanOne(Scan(inside), '}');
    ScanOne(Scan(inside + "}"), '\n');
  }

  lemma DepthInside(family: string, name: string, tokens: seq<Token>)
    ensures Depth(Heading(family, name) + [Open] + tokens) == 1 + Depth(tokens)
    ensures Depth(Heading(family, name) + [Open] + tokens + [Close]) == Depth(tokens)
  {
    hide Depth;
    DepthHeading(family, name);
    DepthAppend(Heading(family, name) + [Open], tokens);
    DepthAppend(Heading(family, name) + [Open] + tokens, [Close]);
    DepthClose();
  }

  lemma DepthClose()
    ensures Depth([Close]) == -1
  {
    assert [Close][..0] == [];
  }

  lemma PrefixInside(h: seq<Token>, tokens: seq<Token>, part: seq<Token>)
    requires h <= part <= h + tokens
    ensures part == h + tokens[..|part| - |h|]
  {
    assert part == (h + tokens)[..|part|];
  }

  lemma StaysInside(family: string, name: string, body: string, k: nat)
    requires Identifier(family) && Identifier(name) && NeverEscapes(body)
    requires |Opening(family, name)| <= k <= |Inside(family, name, body)|
    ensures k <= |Rendered(family, name, body)| && DepthAt(Rendered(family, name, body), k) >= 1
  {
    hide Rendered, Scan, Depth, Heading, Inside, Opening;
    var text, inside, h := Rendered(family, name, body), Inside(family, name, body), Heading(family, name) + [Open];
    RenderedParts(family, name, body);
    ScanClosing(family, name, body);
    ScanOpening(family, name);
    TokensBetween(text, |Opening(family, name)|, k);
    TokensBetween(text, k, |inside|);
    assert text[..|Opening(family, name)|] == inside[..|Opening(family, name)|];
    var part := Scan(text[..k]).tokens;
    PrefixInside(h, Settled(Scan(body)), part);
    DepthInside(family, name, Settled(Scan(body))[..|part| - |h|]);
  }

  lemma FeedAdds(l: Lexer, c: char)
    ensures var t := Feed(l, c).tokens;
            || t == l.tokens
            || (exists x :: t == l.tokens + [x])
            || (exists w, x :: t == l.tokens + [Name(w)] + [x])
  {
  }

  lemma DepthName(tokens: seq<Token>, word: string)
    ensures Depth(tokens + [Name(word)]) == Depth(tokens)
  {
    assert (tokens + [Name(word)])[..|tokens|] == tokens;
  }

  /** Every stage of the tokens is reached, in depth, at some position of the text. */
  lemma {:induction false} TokenPosition(l: Lexer, text: string, part: seq<Token>) returns (k: nat)
    requires l.tokens <= part <= ScanFrom(l, text).tokens
    ensures k <= |text| && Depth(ScanFrom(l, text[..k]).tokens) == Depth(part)
    decreases |text|
  {
    hide Depth, Feed;
    if part == ScanFrom(l, text).tokens {
      assert text[..|text|] == text;
      return |text|;
    }
    var init := text[..|text| - 1];
    var before := ScanFrom(l, init);
    if part <= before.tokens {
      k := TokenPosition(l, init, part);
      assert init[..k] == text[..k];
      return k;
    }
    k := |text| - 1;
    FeedAdds(before, text[k]);
    ScanGrows(l, init);
    ShortOfLast(l, before.tokens, Feed(before, text[k]).tokens, part);
  }

  lemma ShortOfLast(l: Lexer, before: seq<Token>, all: seq<Token>, part: seq<Token>)
    requires part <= all && part != all && !(part <= before)
    requires all == before || (exists x :: all == before + [x]) || (exists w, x :: all == before + [Name(w)] + [x])
    ensures Depth(part) == Depth(before)
  {
    PrefixOrder(part, before, all);
    if w, x :| all == before + [Name(w)] + [x] {
      assert part == all[..|part|];
      assert part == before + [Name(w)];
      DepthName(before, w);
    }
  }

  lemma PrefixOrder(a: seq<Token>, b: seq<Token>, all: seq<Token>)
    requires a <= all && b <= all
    ensures |a| <= |b| ==> a <= b
  {
  }

  lemma EscapesShow(family: string, name: string, body: string, n: nat)
    requires Identifier(family) && Identifier(name) && !Dangling(Scan(body).mode)
    requires WrapperHolds(family, name, body) && n <= |Settled(Scan(body))|
    ensures Depth(Settled(Scan(body))[..n]) >= 0
  {
    hide Rendered, Depth, Heading, Inside, Opening, ScanFrom;
    var text, inside, o := Rendered(family, name, body), Inside(family, name, body), Opening(family, name);
    var tokens, h := Settled(Scan(body)), Heading(family, name) + [Open];
    RenderedParts(family, name, body);
    ScanClosing(family, name, body);
    ScanOpening(family, name);
    assert inside == o + inside[|o|..];
    ScanAppend(Lexer(Plain, []), o, inside[|o|..]);
    var k := TokenPosition(Scan(o), inside[|o|..], h + tokens[..n]);
    ScanAppend(Lexer(Plain, []), o, inside[|o|..][..k]);
    assert o + inside[|o|..][..k] == inside[..|o| + k] == text[..|o| + k];
    assert DepthAt(text, |o| + k) >= 1;
    DepthInside(family, name, tokens[..n]);
  }

  /** The wrapper holds for exactly the bodies that never escape it. */
  lemma WrapperHoldsIff(family: string, name: string, body: string)
    requires Identifier(family) && Identifier(name)
    ensures WrapperHolds(family, name, body) <==> NeverEscapes(body)
  {
    hide Rendered, Depth, Heading, Inside, Opening, ScanFrom;
    var text, inside := Rendered(family, name, body), Inside(family, name, body);
    RenderedParts(family, name, body);
    ScanClosing(family, name, body);
    DepthInside(family, name, Settled(Scan(body)));
    if NeverEscapes(body) {
      forall k | |Opening(family, name)| <= k <= |inside| ensures DepthAt(text, k) >= 1 {
        StaysInside(family, name, body, k);
      }
    }
    if WrapperHolds(family, name, body) {
      assert DepthAt(text, |inside|) >= 1;
      forall n | 0 <= n <= |Settled(Scan(body))| ensures Depth(Settled(Scan(body))[..n]) >= 0 {
        EscapesShow(family, name, body, n);
      }
    }
  }

  lemma {:induction false} JudgedDepth(tokens: seq<Token>)
    requires Judge(tokens).Ok?
    ensures Depth(tokens) == Judge(tokens).value
    decreases |tokens|
  {
    if tokens != [] {
      JudgedDepth(tokens[..|tokens| - 1]);
    }
  }

  /** Every accepted body stays inside its table, whatever comments, strings and newlines it ends with. */
  lemma AcceptedStaysInside(family: string, name: string, body: string)
    requires Identifier(family) && Identifier(name) && Verdict(body).None?
    ensures WrapperHolds(family, name, body)
  {
    hide Judge, Depth, ScanFrom, Rendered;
    var tokens := Settled(Scan(body));
    forall n | 0 <= n <= |tokens| ensures Depth(tokens[..n]) >= 0 {
      if Judge(tokens[..n]).Err? {
        JudgeKeepsError(tokens[..n], tokens);
      }
      JudgedDepth(tokens[..n]);
    }
    JudgedDepth(tokens);
    WrapperHoldsIff(family, name, body);
  }

  lemma MutatesAre(word: string)
    ensures Mutates(word) <==> word in {"add", "delete", "destroy", "export", "flush", "import", "insert", "list", "monitor",
                                        "rename", "replace", "reset"}
  {
  }

  /** And the file declares one table of that family and name, includes nothing, and changes no other table. */
  lemma AcceptedHoldsNoDirective(family: string, name: string, body: string, k: nat)
    requires Identifier(family) && Identifier(name) && Verdict(body).None?
    requires k < |Scan(Rendered(family, name, body)).tokens|
    ensures var tokens := Scan(Rendered(family, name, body)).tokens;
            && |tokens| > 4 && tokens[..4] == [Name("table"), Name(family), Name(name), Open]
            && (k >= 4 && tokens[k].Name? ==> Lower(tokens[k].word) != "include" && Lower(tokens[k].word) != "table")
            && (k >= 4 && tokens[k].Name? && Depth(tokens[..k]) == 1 ==>
                  Lower(tokens[k].word) !in {"add", "delete", "destroy", "export", "flush", "import", "insert", "list", "monitor",
                                             "rename", "replace", "reset"})
            && !tokens[k].Nul?
  {
    hide Depth, ScanFrom, Rendered, Lower, Mutates;
    RenderedReadsAsTable(family, name, body);
    if Scan(Rendered(family, name, body)).tokens[k].Name? {
      MutatesAre(Lower(Scan(Rendered(family, name, body)).tokens[k].word));
    }
    var tokens, own, h := Scan(Rendered(family, name, body)).tokens, Settled(Scan(body)), Heading(family, name) + [Open];
    if 4 <= k < |tokens| - 1 {
      var n := k - 4;
      assert tokens[..k] == h + own[..n] && tokens[k] == own[n];
      assert own[..n + 1][..n] == own[..n] && own[..n + 1][n] == own[n];
      if Judge(own[..n + 1]).Err? {
        JudgeKeepsError(own[..n + 1], own);
      }
      JudgedDepth(own[..n]);
      DepthInside(family, name, own[..n]);
    }
  }
}

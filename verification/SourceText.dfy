// The check of a primitive's source from its characters (src/DavC310TargetRecipe.cpp:2174-2319), and texts
// that the one-pass scan misreads.
module SourceText {
  import opened Primitives
  import opened ReturnTokens
  import opened ConditionalReturns
  import opened SourceBody
  import opened BodyText
  import opened PhaseAgreement
  import opened PhaseExactness

  ghost predicate Accepted(target: Target, items: Option<seq<Item>>)
    requires target.Valid()
  {
    items.Some? && WellFormed(Statement(target), items.value) && NeverEmpty(items.value)
  }

  // What the text is, by the translation phases, leaves at least one return in every configuration and
  // nothing else.
  ghost predicate AlwaysReturns(target: Target, source: string)
    requires target.Valid()
  {
    && Phased(source, true).Some?
    && forall conditions :: |conditions| == |Phased(source, true).value| ==>
                              LeavesReturns(target, Phased(source, true).value, conditions)
  }

  // A source is accepted exactly when the scan gets through it and the machine accepts what it finds.  That is
  // what the phases find exactly when the text is regular, as far as it is in step with its lines; every
  // configuration of the text then returns the primitive.
  method CheckSource(target: Target, source: string) returns (accepted: bool)
    requires target.Valid()
    ensures accepted <==> Accepted(target, Lex(source, true))
    ensures accepted && Regular(source, true) ==> AlwaysReturns(target, source)
    ensures accepted && InStep(source, true) ==> (Regular(source, true) <==> Lex(source, true) == Phased(source, true))
  {
    var items := LexBody(source);
    if items.None? {
      return false;
    }
    accepted := CompleteSourcePrimitiveBody(target, items.value);
    SourceIsExact(source);
  }

  lemma SourceIsExact(source: string)
    ensures Regular(source, true) ==> Lex(source, true) == Phased(source, true)
    ensures Lex(source, true).Some? && InStep(source, true) ==>
              (Regular(source, true) <==> Lex(source, true) == Phased(source, true))
  {
    if Regular(source, true) {
      OnePassIsPhased(source, true);
    }
    if Lex(source, true).Some? && InStep(source, true) {
      OnePassIsExact(source, true);
    }
  }

  // ----- Texts written from tokens --------------------------------------------------------------

  ghost predicate Name(name: string) {
    && name != "" && IdentifierStart(name[0]) && !HeaderTest(name)
    && forall i :: 0 <= i < |name| ==> IdentifierPart(name[i])
  }

  predicate Symbol(c: char) {
    !IdentifierStart(c) && !Horizontal(c) && c != '\n' && c != '#' && !Quote(c)
  }

  ghost predicate Written(token: Token) {
    Name(token) || (|token| == 1 && Symbol(token[0]))
  }

  ghost predicate Spellable(tokens: seq<Token>) {
    forall i :: 0 <= i < |tokens| ==> Written(tokens[i])
  }

  // Each token with a blank behind it.
  function Spelled(tokens: seq<Token>): string {
    if tokens == [] then "" else tokens[0] + (" " + Spelled(tokens[1..]))
  }

  function Words(tokens: seq<Token>): (r: seq<Item>)
    ensures |r| == |tokens| && forall i :: 0 <= i < |r| ==> r[i] == Word(tokens[i])
  {
    seq(|tokens|, i requires 0 <= i < |tokens| => Word(tokens[i]))
  }

  // Both the scan and the phases find the items at the front of s, and go on with rest.
  ghost predicate Finds(s: string, blank: bool, items: seq<Item>, rest: string, after: bool) {
    Lex(s, blank) == Prepend(items, Lex(rest, after)) && Phased(s, blank) == Prepend(items, Phased(rest, after))
  }

  lemma FindsBoth(s: string, blank: bool, a: seq<Item>, middle: string, between: bool, b: seq<Item>, rest: string, after: bool)
    requires Finds(s, blank, a, middle, between) && Finds(middle, between, b, rest, after)
    ensures Finds(s, blank, a + b, rest, after)
  {
    PrependBoth(a, b, Lex(rest, after));
    PrependBoth(a, b, Phased(rest, after));
  }

  lemma FindsNothing(s: string, blank: bool, rest: string, after: bool)
    requires Lex(s, blank) == Lex(rest, after) && Phased(s, blank) == Phased(rest, after)
    ensures Finds(s, blank, [], rest, after)
  {
    PrependNothing(Lex(rest, after));
    PrependNothing(Phased(rest, after));
  }

  lemma FindsAfterNothing(s: string, blank: bool, middle: string, between: bool, b: seq<Item>, rest: string, after: bool)
    requires Finds(s, blank, [], middle, between) && Finds(middle, between, b, rest, after)
    ensures Finds(s, blank, b, rest, after)
  {
    FindsBoth(s, blank, [], middle, between, b, rest, after);
    assert [] + b == b;
  }

  lemma FindsFront(s: string, blank: bool, front: Lexeme, rest: string)
    requires s != "" && !Starts(s, '/', '/') && !Starts(s, '/', '*') && !(s[0] == '#' && blank) && Piece(s).Some?
    requires Front(s, blank) == Some(front) && s[front.length..] == rest
    ensures Finds(s, blank, front.items, rest, front.blank)
  {
    Code(s, blank);
  }

  lemma BlankItems(rest: string, blank: bool)
    ensures Finds(" " + rest, blank, [], rest, blank)
  {
    assert (" " + rest)[1..] == rest;
    FindsFront(" " + rest, blank, Lexeme([], 1, blank), rest);
  }

  lemma NewlineItems(rest: string, blank: bool)
    ensures Finds(['\n'] + rest, blank, [], rest, true)
  {
    assert (['\n'] + rest)[1..] == rest;
    FindsFront(['\n'] + rest, blank, Lexeme([], 1, true), rest);
  }

  lemma SymbolIsRead(s: string)
    requires |s| > 1 && Symbol(s[0]) && (s[1] == ' ' || s[1] == '\n')
    ensures !Starts(s, '/', '*') && Piece(s) == Some(1)
  {
    assert NumberLength(s[1..]) == 0;
  }

  lemma NameIsRead(name: string, rest: string, s: string)
    requires Name(name) && rest != "" && (rest[0] == ' ' || rest[0] == '\n') && s == name + rest
    ensures RunLength(s) == |name| && s[..|name|] == name && s[|name|..] == rest && !Unread(s)
  {
    RunThen(name, rest);
  }

  // A token that a blank or a line break follows.
  lemma TokenItems(token: Token, rest: string, blank: bool)
    requires Written(token) && rest != "" && (rest[0] == ' ' || rest[0] == '\n')
    ensures Finds(token + rest, blank, [Word(token)], rest, false)
  {
    var s := token + rest;
    assert s[..|token|] == token && s[|token|..] == rest;
    if Name(token) {
      NameIsRead(token, rest, s);
    } else {
      SymbolIsRead(s);
      assert s[0] == token[0] && [s[0]] == token;
    }
    FindsFront(s, blank, Lexeme([Word(token)], |token|, false), rest);
  }

  lemma TokenThen(token: Token, more: string, blank: bool, words: seq<Item>, rest: string)
    requires Written(token) && Finds(more, false, words, rest, false)
    ensures Finds(token + (" " + more), blank, [Word(token)] + words, rest, false)
  {
    TokenItems(token, " " + more, blank);
    BlankItems(more, false);
    FindsAfterNothing(" " + more, false, more, false, words, rest, false);
    FindsBoth(token + (" " + more), blank, [Word(token)], " " + more, false, words, rest, false);
  }

  lemma Joined(a: string, b: string, c: string, rest: string)
    ensures (a + (b + c)) + rest == a + (b + (c + rest))
  {
  }

  lemma FirstWord(tokens: seq<Token>)
    requires tokens != []
    ensures Words(tokens) == [Word(tokens[0])] + Words(tokens[1..])
  {
  }

  lemma {:induction false} SpelledItems(tokens: seq<Token>, rest: string, blank: bool)
    requires Spellable(tokens) && tokens != []
    ensures Finds(Spelled(tokens) + rest, blank, Words(tokens), rest, false)
    decreases |tokens|
  {
    var more := Spelled(tokens[1..]) + rest;
    if |tokens| == 1 {
      assert more == rest;
      FindsNothing(more, false, rest, false);
    } else {
      SpelledItems(tokens[1..], rest, false);
    }
    TokenThen(tokens[0], more, blank, Words(tokens[1..]), rest);
    Joined(tokens[0], " ", Spelled(tokens[1..]), rest);
    FirstWord(tokens);
  }

  // ----- Comments and directives ----------------------------------------------------------------

  // The end mark does not stand in the text, and the text does not start it.
  ghost predicate Unclosed(c: string) {
    forall i :: 0 <= i < |c| && c[i] == '*' ==> i + 1 < |c| && c[i + 1] != '/'
  }

  lemma {:induction false} CloseAfter(c: string, u: string)
    requires Unclosed(c)
    ensures Close(c + ("*/" + u)) == Some(|c|)
    decreases |c|
  {
    var s := c + ("*/" + u);
    if c == "" {
      assert s == "*/" + u && Starts(s, '*', '/');
    } else {
      assert s[1] == (if |c| > 1 then c[1] else '*');
      assert s[1..] == c[1..] + ("*/" + u);
      CloseAfter(c[1..], u);
    }
  }

  lemma {:induction false} SpelledUnclosed(tokens: seq<Token>)
    requires Spellable(tokens)
    ensures Unclosed(Spelled(tokens))
    decreases |tokens|
  {
    if tokens != [] {
      SpelledUnclosed(tokens[1..]);
      assert Spelled(tokens) == tokens[0] + " " + Spelled(tokens[1..]);
    }
  }

  lemma CommentParts(s: string, inside: string, rest: string)
    requires s == "/*" + (inside + ("*/" + rest))
    ensures Starts(s, '/', '*') && s[2..] == inside + ("*/" + rest) && s[|inside| + 4..] == rest && s[2..|inside| + 2] == inside
  {
  }

  lemma CommentPiece(s: string, inside: string, rest: string)
    requires Unclosed(inside) && s == "/*" + (inside + ("*/" + rest))
    ensures Starts(s, '/', '*') && Piece(s) == Some(|inside| + 4) && s[|inside| + 4..] == rest && s[2..|inside| + 2] == inside
  {
    CloseAfter(inside, rest);
    CommentParts(s, inside, rest);
  }

  lemma CommentLines(s: string, inside: string)
    requires Starts(s, '/', '*') && Piece(s) == Some(|inside| + 4) && s[2..|inside| + 2] == inside
    ensures SeveralLines(s) == ('\n' in inside)
  {
    assert s[2..Piece(s).value - 2] == inside;
  }

  // A block comment and the text behind it.
  lemma CommentItems(s: string, inside: string, rest: string, blank: bool)
    requires Unclosed(inside) && s == "/*" + (inside + ("*/" + rest))
    ensures Lex(s, blank) == Lex(rest, blank || '\n' in inside) && Phased(s, blank) == Phased(rest, blank)
  {
    CommentPiece(s, inside, rest);
    CommentLines(s, inside);
    LexBlock(s, blank, rest);
    PhasedBlock(s, blank, rest);
  }

  // The first k characters stay in their line and are pieces that are read as they stand: no comment opens
  // there, and no literal, identifier or header name goes on behind them.
  ghost predicate Plain(s: string, k: nat)
    requires k <= |s|
    decreases k
  {
    k == 0 || (PlainFirst(s, k) && Plain(s[Piece(s).value..], k - Piece(s).value))
  }

  predicate PlainFirst(s: string, k: nat)
    requires 0 < k <= |s|
  {
    s[0] != '\n' && !Starts(s, '/', '/') && !Starts(s, '/', '*') && Piece(s).Some? && Piece(s).value <= k
  }

  lemma PlainTail(s: string, k: nat, n: nat, tail: string, rest: string)
    requires 0 < k <= |s| && Plain(s, k) && rest == s[k..] && Piece(s) == Some(n) && tail == s[n..]
    ensures n <= k && Plain(tail, k - n) && rest == tail[k - n..] && s[0] != '\n' && !Starts(s, '/', '/')
  {
    DropTwice(s, n, k - n);
  }

  lemma LineLater(s: string, n: nat, tail: string)
    requires s != "" && s[0] != '\n' && !Starts(s, '/', '/') && Piece(s) == Some(n) && tail == s[n..] && LineEnd(tail).Some?
    ensures LineEnd(s).Some? && Rest(s) == Rest(tail)
  {
    DropTwice(s, n, LineEnd(tail).value);
  }

  // A line goes on behind plain text.
  lemma {:induction false} PlainLine(s: string, k: nat, rest: string)
    requires k <= |s| && Plain(s, k) && rest == s[k..] && LineEnd(rest).Some?
    ensures LineEnd(s).Some? && Rest(s) == Rest(rest)
    decreases k
  {
    if k == 0 {
      assert s[0..] == s;
    } else {
      var n := Piece(s).value;
      var tail := s[n..];
      PlainTail(s, k, n, tail, rest);
      PlainLine(tail, k - n, rest);
      LineLater(s, n, tail);
    }
  }

  // A name and the line behind it.
  lemma LineBehind(name: string, d: Directive, line: string, u: string)
    requires Name(name) && Named(name) == Some(d) && u == name + line && (line == "" || !IdentifierPart(line[0]))
    ensures Gap(u) == Some(0) && Behind(u) == line && DirectiveLine(u).Some? && DirectiveLine(u).value.0 == d
  {
    assert u[0] == name[0] && u[0..] == u;
    assert Gap(u) == Some(0);
    RunThen(name, line);
    assert u[|name|..] == line && u[0..|name|] == name;
  }

  lemma LexLine(name: string, d: Directive, line: string, s: string)
    requires Name(name) && Named(name) == Some(d) && s == ['#'] + (name + line) && (line == "" || !IdentifierPart(line[0]))
    ensures Lex(s, true) == Prepend([Line(d)], Lex(AfterLine(line), true))
  {
    assert s[1..] == name + line;
    LineBehind(name, d, line, s[1..]);
    LexDirectiveLine(s);
  }

  lemma PhasedLine(name: string, d: Directive, line: string, s: string)
    requires Name(name) && Named(name) == Some(d) && s == ['#'] + (name + line) && (line == "" || !IdentifierPart(line[0]))
    requires LineEnd(line).Some?
    ensures Phased(s, true) == Prepend([Line(d)], Phased(Rest(line), true))
  {
    assert s[1..] == name + line;
    LineBehind(name, d, line, s[1..]);
    PhasedDirectiveLine(s);
  }

  lemma AfterOneLine(tail: string, rest: string, line: string)
    requires OneLine(tail) && line == tail + (['\n'] + rest)
    ensures AfterLine(line) == rest
  {
    LineThen(tail, ['\n'] + rest);
  }

  // A directive's line without comments.
  lemma DirectiveItems(name: string, d: Directive, tail: string, rest: string, s: string)
    requires Name(name) && Named(name) == Some(d) && OneLine(tail) && (tail == "" || !IdentifierPart(tail[0]))
    requires Plain(tail + (['\n'] + rest), |tail|) && s == ['#'] + (name + (tail + (['\n'] + rest)))
    ensures Finds(s, true, [Line(d)], rest, true)
  {
    var next := ['\n'] + rest;
    var line := tail + next;
    AfterOneLine(tail, rest, line);
    LexLine(name, d, line, s);
    PlainLine(line, |tail|, next);
    assert next[0..] == next;
    PhasedLine(name, d, line, s);
    NewlineItems(rest, true);
    PrependNothing(Phased(rest, true));
  }

  // ----- The machine on one group ---------------------------------------------------------------

  lemma ScanWord(count: Counter, items: seq<Item>, s: Scan, token: Token)
    requires ScanAll(count, items) == Some(s)
    ensures ScanAll(count, items + [Word(token)]) == Some(s.(tokens := s.tokens + [token]))
  {
    assert (items + [Word(token)])[..|items|] == items;
  }

  lemma {:induction false} ScanWords(count: Counter, items: seq<Item>, s: Scan, tokens: seq<Token>)
    requires ScanAll(count, items) == Some(s)
    ensures ScanAll(count, items + Words(tokens)) == Some(s.(tokens := s.tokens + tokens))
    decreases |tokens|
  {
    if tokens == [] {
      assert items + Words(tokens) == items && s.tokens + tokens == s.tokens;
    } else {
      ScanWord(count, items, s, tokens[0]);
      ScanWords(count, items + [Word(tokens[0])], s.(tokens := s.tokens + [tokens[0]]), tokens[1..]);
      WordMoves(items, s.tokens, tokens);
    }
  }

  lemma WordMoves(items: seq<Item>, before: seq<Token>, tokens: seq<Token>)
    requires tokens != []
    ensures (items + [Word(tokens[0])]) + Words(tokens[1..]) == items + Words(tokens)
    ensures (before + [tokens[0]]) + tokens[1..] == before + tokens
  {
    FirstWord(tokens);
  }

  lemma ScanLine(count: Counter, items: seq<Item>, d: Directive)
    requires ScanAll(count, items).Some? && count(ScanAll(count, items).value.tokens).Some?
    ensures
      var s := ScanAll(count, items).value;
      ScanAll(count, items + [Line(d)]) == Enter(d, s.frames, s.minimum + count(s.tokens).value)
  {
    assert (items + [Line(d)])[..|items|] == items;
  }

  function IfElse(a: seq<Token>, b: seq<Token>): seq<Item> {
    [Line(If)] + Words(a) + [Line(Else)] + Words(b) + [Line(Endif)]
  }

  lemma ScanFirst(count: Counter, a: seq<Token>)
    requires count([]) == Some(0)
    ensures ScanAll(count, [Line(If)] + Words(a)) == Some(Scan(a, [Frame(0, None, false)], 0))
  {
    var none: seq<Item> := [];
    ScanLine(count, none, If);
    assert none + [Line(If)] == [Line(If)] && [] + a == a;
    assert [] + [Frame(0, None, false)] == [Frame(0, None, false)];
    ScanWords(count, [Line(If)], Scan([], [Frame(0, None, false)], 0), a);
  }

  lemma EnterElse(m: nat)
    ensures Enter(Else, [Frame(0, None, false)], m) == Some(Scan([], [Frame(0, Some(m), true)], 0))
  {
    var frames := [Frame(0, None, false)];
    assert frames[..0] + [Frame(0, Some(m), true)] == [Frame(0, Some(m), true)];
  }

  lemma ScanElse(count: Counter, first: seq<Item>, a: seq<Token>)
    requires ScanAll(count, first) == Some(Scan(a, [Frame(0, None, false)], 0)) && count(a).Some?
    ensures ScanAll(count, first + [Line(Else)]) == Some(Scan([], [Frame(0, count(a), true)], 0))
  {
    EnterElse(count(a).value);
    ScanLine(count, first, Else);
  }

  lemma ScanMore(count: Counter, items: seq<Item>, s: Scan, b: seq<Token>)
    requires ScanAll(count, items) == Some(s) && s.tokens == []
    ensures ScanAll(count, items + Words(b)) == Some(s.(tokens := b))
  {
    ScanWords(count, items, s, b);
    assert [] + b == b;
  }

  lemma ScanEnd(count: Counter, items: seq<Item>, b: seq<Token>, n: nat)
    requires ScanAll(count, items) == Some(Scan(b, [Frame(0, Some(n), true)], 0)) && count(b).Some?
    ensures ScanAll(count, items + [Line(Endif)]) == Some(Scan([], [], if n < count(b).value then n else count(b).value))
  {
    ScanLine(count, items, Endif);
  }

  lemma IfElseScanned(count: Counter, a: seq<Token>, b: seq<Token>)
    requires count([]) == Some(0) && count(a).Some? && count(b).Some?
    ensures ScanAll(count, IfElse(a, b)) ==
            Some(Scan([], [], if count(a).value < count(b).value then count(a).value else count(b).value))
  {
    var first := [Line(If)] + Words(a);
    var second := first + [Line(Else)];
    ScanFirst(count, a);
    ScanElse(count, first, a);
    ScanMore(count, second, Scan([], [Frame(0, count(a), true)], 0), b);
    ScanEnd(count, second + Words(b), b, count(a).value);
  }

  lemma IfElseMinimum(count: Counter, a: seq<Token>, b: seq<Token>)
    requires count([]) == Some(0) && count(a).Some? && count(b).Some?
    ensures Minimum(count, IfElse(a, b)) ==
            Some(if count(a).value < count(b).value then count(a).value else count(b).value)
  {
    IfElseScanned(count, a, b);
  }

  // A group has no alternative behind #else.
  lemma AfterElse(count: Counter, a: seq<Token>, b: seq<Token>, d: Directive, rest: seq<Item>)
    requires count([]) == Some(0) && (d.Elif? || d.Else?)
    ensures Minimum(count, (([Line(If)] + Words(a) + [Line(Else)] + Words(b)) + [Line(d)]) + rest).None?
  {
    var first := [Line(If)] + Words(a);
    var second := first + [Line(Else)];
    var third := second + Words(b);
    ScanFirst(count, a);
    if count(a).Some? {
      ScanElse(count, first, a);
      ScanMore(count, second, Scan([], [Frame(0, count(a), true)], 0), b);
      if count(b).Some? {
        ScanLine(count, third, d);
      } else {
        LineRefused(count, third, d);
      }
      RefusedBefore(count, third + [Line(d)], rest);
    } else {
      LineRefused(count, first, Else);
      RefusedBefore(count, second, Words(b) + ([Line(d)] + rest));
      assert second + (Words(b) + ([Line(d)] + rest)) == (third + [Line(d)]) + rest;
    }
  }

  // No directive but #if stands outside the groups, and each group is closed.
  lemma OutsideGroups(count: Counter, d: Directive, rest: seq<Item>, a: seq<Token>)
    requires count([]) == Some(0) && !d.If?
    ensures Minimum(count, [Line(d)] + rest).None? && Minimum(count, [Line(If)] + Words(a)).None?
  {
    var none: seq<Item> := [];
    ScanLine(count, none, d);
    assert none + [Line(d)] == [Line(d)];
    RefusedBefore(count, [Line(d)], rest);
    ScanFirst(count, a);
  }

  lemma LineRefused(count: Counter, items: seq<Item>, d: Directive)
    requires ScanAll(count, items).Some? && count(ScanAll(count, items).value.tokens).None?
    ensures ScanAll(count, items + [Line(d)]).None?
  {
    assert (items + [Line(d)])[..|items|] == items;
  }

  lemma RefusedBefore(count: Counter, items: seq<Item>, rest: seq<Item>)
    requires ScanAll(count, items).None?
    ensures Minimum(count, items + rest).None?
  {
    assert (items + rest)[..|items|] == items;
    RejectionStays(count, items + rest, |items|);
  }

  // ----- A comment that starts on the line of #if -----------------------------------------------

  // The names of the three directives, kept apart from their spelling.
  datatype Names = Names(opens: string, other: string, closes: string) {
    ghost predicate Valid() {
      && Name(opens) && Named(opens) == Some(If) && Name(other) && Named(other) == Some(Else)
      && Name(closes) && Named(closes) == Some(Endif)
    }
  }

  // What an #if may test: more than blanks, in one line and behind a blank, and no comment of its own opens.
  ghost predicate Condition(text: string, rest: string) {
    && OneLine(text) && Plain(text + rest, |text|) && text != "" && text[0] == ' '
    && exists i :: 0 <= i < |text| && !Horizontal(text[i])
  }

  function EndLine(names: Names, rest: string): string {
    ['\n'] + (['#'] + (names.closes + ("" + (['\n'] + rest))))
  }

  // #else, the tokens and #endif on lines of their own.
  function Alternative(names: Names, tokens: seq<Token>): string {
    ['#'] + (names.other + ("" + (['\n'] + (Spelled(tokens) + EndLine(names, "")))))
  }

  // The comment that hides the tokens, and #else on the line behind it.
  function Hidden(names: Names, tokens: seq<Token>): string {
    "/*" + (['\n'] + (Spelled(tokens) + ("/* */" + (['\n'] + Alternative(names, tokens)))))
  }

  // The group starts with the tokens in a comment, which starts on the line of #if.
  function Hiding(names: Names, condition: string, tokens: seq<Token>): string {
    ['#'] + (names.opens + (condition + Hidden(names, tokens)))
  }

  lemma NothingFound(blank: bool)
    ensures Lex("", blank) == Some([]) && Phased("", blank) == Some([])
  {
  }

  lemma AllFound(s: string, blank: bool, items: seq<Item>, none: string, after: bool)
    requires Finds(s, blank, items, none, after) && none == ""
    ensures Lex(s, blank) == Some(items) && Phased(s, blank) == Some(items)
  {
    NothingFound(after);
    assert items + [] == items;
  }

  lemma EndLineItems(names: Names, rest: string)
    requires names.Valid()
    ensures Finds(EndLine(names, rest), false, [Line(Endif)], rest, true)
  {
    var line := ['#'] + (names.closes + ("" + (['\n'] + rest)));
    DirectiveItems(names.closes, Endif, "", rest, line);
    NewlineItems(line, false);
    FindsAfterNothing(['\n'] + line, false, line, true, [Line(Endif)], rest, true);
  }

  lemma AlternativeItems(names: Names, tokens: seq<Token>, none: string)
    requires names.Valid() && Spellable(tokens) && tokens != [] && none == ""
    ensures Finds(Alternative(names, tokens), true, [Line(Else)] + (Words(tokens) + [Line(Endif)]), none, true)
  {
    var ending := EndLine(names, none);
    var code := Spelled(tokens) + ending;
    EndLineItems(names, none);
    SpelledItems(tokens, ending, true);
    FindsBoth(code, true, Words(tokens), ending, false, [Line(Endif)], none, true);
    DirectiveItems(names.other, Else, "", code, Alternative(names, tokens));
    FindsBoth(Alternative(names, tokens), true, [Line(Else)], code, true, Words(tokens) + [Line(Endif)], none, true);
  }

  lemma AlternativeFound(names: Names, tokens: seq<Token>)
    requires names.Valid() && Spellable(tokens) && tokens != []
    ensures Lex(Alternative(names, tokens), true) == Some([Line(Else)] + (Words(tokens) + [Line(Endif)]))
    ensures Phased(Alternative(names, tokens), true) == Some([Line(Else)] + (Words(tokens) + [Line(Endif)]))
  {
    var none := "";
    AlternativeItems(names, tokens, none);
    AllFound(Alternative(names, tokens), true, [Line(Else)] + (Words(tokens) + [Line(Endif)]), none, true);
  }

  lemma IfElseParts(a: seq<Token>, b: seq<Token>)
    ensures [Line(If)] + (Words(a) + ([Line(Else)] + (Words(b) + [Line(Endif)]))) == IfElse(a, b)
  {
  }

  lemma LexBlankComment(comment: string, next: string, inside: string)
    requires inside == " " && comment == "/* */" + next
    ensures Lex(comment, false) == Lex(next, false)
  {
    assert comment == "/*" + (inside + ("*/" + next));
    CommentItems(comment, inside, next, false);
  }

  lemma LexNewline(rest: string)
    ensures Lex(['\n'] + rest, false) == Lex(rest, true)
  {
    NewlineItems(rest, false);
    PrependNothing(Lex(rest, true));
  }

  // The scan finds the tokens, and ends its comment in their line.
  lemma LexHidden(names: Names, tokens: seq<Token>, comment: string, next: string)
    requires names.Valid() && Spellable(tokens) && tokens != []
    requires comment == "/* */" + next && next == ['\n'] + Alternative(names, tokens)
    ensures Lex(Spelled(tokens) + comment, true) == Some(Words(tokens) + ([Line(Else)] + (Words(tokens) + [Line(Endif)])))
  {
    SpelledItems(tokens, comment, true);
    LexBlankComment(comment, next, " ");
    LexNewline(Alternative(names, tokens));
    AlternativeFound(names, tokens);
  }

  lemma LexHiding(names: Names, condition: string, tokens: seq<Token>)
    requires names.Valid() && Condition(condition, Hidden(names, tokens)) && Spellable(tokens) && tokens != []
    ensures Lex(Hiding(names, condition, tokens), true) == Some(IfElse(tokens, tokens))
  {
    var next := ['\n'] + Alternative(names, tokens);
    var comment := "/* */" + next;
    var code := Spelled(tokens) + comment;
    var line := condition + Hidden(names, tokens);
    assert line == (condition + "/*") + (['\n'] + code);
    AfterOneLine(condition + "/*", code, line);
    LexLine(names.opens, If, line, Hiding(names, condition, tokens));
    LexHidden(names, tokens, comment, next);
    IfElseParts(tokens, tokens);
  }

  lemma HiddenParts(code: string, next: string)
    ensures "/*" + (['\n'] + (code + ("/* */" + next))) == "/*" + ((['\n'] + (code + "/* ")) + ("*/" + next))
  {
  }

  // The phases do not.
  lemma HiddenLine(names: Names, tokens: seq<Token>, next: string)
    requires Spellable(tokens) && next == ['\n'] + Alternative(names, tokens)
    ensures LineEnd(Hidden(names, tokens)).Some? && Rest(Hidden(names, tokens)) == next
  {
    var inside := ['\n'] + (Spelled(tokens) + "/* ");
    var s := Hidden(names, tokens);
    SpelledUnclosed(tokens);
    HiddenParts(Spelled(tokens), next);
    CommentPiece(s, inside, next);
    LineLater(s, |inside| + 4, next);
  }

  lemma PhasedHiding(names: Names, condition: string, tokens: seq<Token>)
    requires names.Valid() && Condition(condition, Hidden(names, tokens)) && Spellable(tokens) && tokens != []
    ensures Phased(Hiding(names, condition, tokens), true) == Some(IfElse([], tokens))
  {
    var next := ['\n'] + Alternative(names, tokens);
    var line := condition + Hidden(names, tokens);
    HiddenLine(names, tokens, next);
    PlainLine(line, |condition|, Hidden(names, tokens));
    PhasedLine(names.opens, If, line, Hiding(names, condition, tokens));
    NewlineItems(Alternative(names, tokens), true);
    AlternativeFound(names, tokens);
    PrependNothing(Phased(Alternative(names, tokens), true));
    IfElseParts([], tokens);
    var rest := [Line(Else)] + (Words(tokens) + [Line(Endif)]);
    assert Words([]) + rest == rest;
  }

  lemma ReturnCounted(target: Target, tokens: seq<Token>)
    requires target.Valid() && IsReturn(target, tokens)
    ensures Count(target, tokens) == Some(1)
  {
    var statement := Statement(target);
    assert tokens[..|tokens|] == tokens && tokens[|tokens|..] == [];
    assert statement(tokens[..|tokens|]) && Sequence(statement, tokens[|tokens|..], 0);
    ReturnsAreCounted(target, tokens, 1);
  }

  // A minimum of zero is a configuration without a return.
  lemma NoReturn(target: Target, items: seq<Item>)
    requires target.Valid() && Minimum(Matcher(target), items) == Some(0)
    ensures exists conditions :: |conditions| == |items| && !LeavesReturns(target, items, conditions)
  {
    MinimumIsLeast(target, items);
    var conditions :| |conditions| == |items| && Leaves(target, items, conditions, 0);
    forall n | n > 0
      ensures !Sequence(Statement(target), [], n)
    {
    }
    assert !LeavesReturns(target, items, conditions);
  }

  // Whatever an #if tests, and for every return of every primitive that can be spelled: the scan accepts a
  // text in which the return of one alternative is commented out, and one configuration has none.
  lemma Misread(target: Target, names: Names, condition: string, tokens: seq<Token>)
    requires target.Valid() && IsReturn(target, tokens) && Spellable(tokens)
    requires names.Valid() && Condition(condition, Hidden(names, tokens))
    ensures Accepted(target, Lex(Hiding(names, condition, tokens), true))
    ensures Phased(Hiding(names, condition, tokens), true).Some? && !AlwaysReturns(target, Hiding(names, condition, tokens))
  {
    var count, none: seq<Token> := Matcher(target), [];
    ReturnCounted(target, tokens);
    assert count(none) == Some(0);
    LexHiding(names, condition, tokens);
    IfElseMinimum(count, tokens, tokens);
    AcceptedReturns(target, IfElse(tokens, tokens));
    PhasedHiding(names, condition, tokens);
    IfElseMinimum(count, none, tokens);
    NoReturn(target, IfElse(none, tokens));
  }

  // Texts that hide exp's only return behind #if A, and behind a test of a literal that looks like a comment.
  lemma CommentHidesReturn(target: Target, names: Names, condition: string, tokens: seq<Token>)
    requires target == Target(Exp, ["x"]) && tokens == ["return", "exp", "(", "x", ")", ";"]
    requires names == Names("if", "else", "endif") && (condition == " A " || condition == " '//' ")
    ensures Accepted(target, Lex(Hiding(names, condition, tokens), true))
    ensures Phased(Hiding(names, condition, tokens), true).Some? && !AlwaysReturns(target, Hiding(names, condition, tokens))
  {
    SpelledNames(names);
    SpelledReturn(tokens);
    if condition == " A " {
      PlainName(condition, 'A', Hidden(names, tokens));
    } else {
      PlainLiteral(condition, Hidden(names, tokens));
    }
    Misread(target, names, condition, tokens);
  }

  lemma PlainStep(s: string, k: nat, n: nat, tail: string)
    requires 0 < n <= k <= |s| && Piece(s) == Some(n) && s[0] != '\n' && !Starts(s, '/', '/') && !Starts(s, '/', '*')
    requires tail == s[n..] && Plain(tail, k - n)
    ensures Plain(s, k)
  {
  }

  lemma PlainBlank(s: string, k: nat, tail: string)
    requires 0 < k <= |s| && s[0] == ' ' && tail == s[1..] && Plain(tail, k - 1)
    ensures Plain(s, k)
  {
    PlainStep(s, k, 1, tail);
  }

  lemma NameThen(s: string, c: char)
    requires |s| > 1 && s[0] == c && s[1] == ' ' && IdentifierStart(c)
    ensures RunLength(s) == 1 && !Unread(s)
  {
    assert RunLength(s[1..]) == 0;
    assert |s[..1]| == 1;
  }

  lemma PlainName(condition: string, c: char, rest: string)
    requires condition == [' ', c, ' '] && IdentifierStart(c)
    ensures Condition(condition, rest)
  {
    assert condition[1] == c;
    var s := condition + rest;
    PlainBlank(s[2..], 1, s[3..]);
    NameThen(s[1..], c);
    PlainStep(s[1..], 2, 1, s[2..]);
    PlainBlank(s, 3, s[1..]);
  }

  lemma LiteralThen(s: string, c: char)
    requires |s| > 4 && s[0] == '\'' && s[1] == c && s[2] == c && s[3] == '\'' && c != '\\' && c != '\n' && c != '\''
    ensures Piece(s) == Some(4)
  {
    var t := s[1..];
    assert LiteralRest(t[2..], '\'') == 1;
    assert t[1..][1..] == t[2..];
    assert LiteralRest(t[1..], '\'') == 2;
  }

  lemma PlainLiteral(condition: string, rest: string)
    requires condition == " '//' "
    ensures Condition(condition, rest)
  {
    assert condition[1] == '\'';
    var s := condition + rest;
    PlainBlank(s[5..], 1, s[6..]);
    LiteralThen(s[1..], '/');
    PlainStep(s[1..], 5, 4, s[5..]);
    PlainBlank(s, 6, s[1..]);
  }

  lemma SpelledNames(names: Names)
    requires names == Names("if", "else", "endif")
    ensures names.Valid()
  {
  }

  lemma SpelledReturn(tokens: seq<Token>)
    requires tokens == ["return", "exp", "(", "x", ")", ";"]
    ensures Spellable(tokens)
  {
  }
}

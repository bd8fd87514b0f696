// A text in which the translation phases find one alternative where the one-pass scan of a primitive's source
// (src/DavC310TargetRecipe.cpp:2260-2316) finds two: the # of #else stands behind a comment of two lines that
// follows code.
module MergedAlternatives {
  import opened Primitives
  import opened ReturnTokens
  import opened ConditionalReturns
  import opened SourceBody
  import opened BodyText
  import opened PhaseAgreement
  import opened PhaseExactness
  import opened SourceText

  // A group of its own with the tokens.
  function Single(names: Names, condition: string, tokens: seq<Token>): string {
    ['#'] + (names.opens + (condition + (['\n'] + (Spelled(tokens) + EndLine(names, "")))))
  }

  // #else and a second alternative with the tokens.
  function Second(names: Names, tokens: seq<Token>, next: string): string {
    ['#'] + (names.other + (" " + (['\n'] + (Spelled(tokens) + EndLine(names, next)))))
  }

  // The tokens, and the comment that ends on the line of #else.
  function First(names: Names, tokens: seq<Token>, next: string): string {
    Spelled(tokens) + ("/*" + ("\n" + ("*/" + Second(names, tokens, next))))
  }

  function Merging(names: Names, first: string, second: string, tokens: seq<Token>): string {
    ['#'] + (names.opens + (first + (['\n'] + First(names, tokens, Single(names, second, tokens)))))
  }

  ghost predicate Conditions(names: Names, first: string, second: string, tokens: seq<Token>) {
    && Condition(first, ['\n'] + First(names, tokens, Single(names, second, tokens)))
    && Condition(second, ['\n'] + (Spelled(tokens) + EndLine(names, "")))
  }

  function Only(tokens: seq<Token>): seq<Item> {
    [Line(If)] + (Words(tokens) + [Line(Endif)])
  }

  // The first alternative by the phases: # and else are tokens of it.
  function Merged(names: Names, tokens: seq<Token>): seq<Token> {
    tokens + (["#", names.other] + tokens)
  }

  // ----- The items ------------------------------------------------------------------------------

  lemma GroupEnds(names: Names, tokens: seq<Token>, next: string)
    requires names.Valid() && Spellable(tokens) && tokens != []
    ensures Finds(Spelled(tokens) + EndLine(names, next), true, Words(tokens) + [Line(Endif)], next, true)
  {
    var ending := EndLine(names, next);
    EndLineItems(names, next);
    SpelledItems(tokens, ending, true);
    FindsBoth(Spelled(tokens) + ending, true, Words(tokens), ending, false, [Line(Endif)], next, true);
  }

  lemma SingleFound(names: Names, condition: string, tokens: seq<Token>, none: string)
    requires names.Valid() && Spellable(tokens) && tokens != [] && none == ""
    requires Condition(condition, ['\n'] + (Spelled(tokens) + EndLine(names, none)))
    ensures Lex(Single(names, condition, tokens), true) == Some(Only(tokens))
    ensures Phased(Single(names, condition, tokens), true) == Some(Only(tokens))
  {
    var code, s := Spelled(tokens) + EndLine(names, none), Single(names, condition, tokens);
    GroupEnds(names, tokens, none);
    DirectiveItems(names.opens, If, condition, code, s);
    FindsBoth(s, true, [Line(If)], code, true, Words(tokens) + [Line(Endif)], none, true);
    AllFound(s, true, Only(tokens), none, true);
  }

  lemma BlankTail(tail: string, rest: string)
    requires tail == " "
    ensures OneLine(tail) && !IdentifierPart(tail[0]) && Plain(tail + rest, |tail|)
  {
    assert (tail + rest)[1..] == rest;
    PlainBlank(tail + rest, 1, rest);
  }

  // At the start of a line #else is a directive.
  lemma SecondAlternative(names: Names, tokens: seq<Token>, next: string)
    requires names.Valid() && Spellable(tokens) && tokens != []
    ensures Finds(Second(names, tokens, next), true, [Line(Else)] + (Words(tokens) + [Line(Endif)]), next, true)
  {
    var code, s := Spelled(tokens) + EndLine(names, next), Second(names, tokens, next);
    GroupEnds(names, tokens, next);
    BlankTail(" ", ['\n'] + code);
    DirectiveItems(names.other, Else, " ", code, s);
    FindsBoth(s, true, [Line(Else)], code, true, Words(tokens) + [Line(Endif)], next, true);
  }

  lemma HashIsWord(s: string, rest: string)
    requires s == ['#'] + rest
    ensures Finds(s, false, [Word("#")], rest, false)
  {
    assert s[1..] == rest;
    FindsFront(s, false, Lexeme([Word("#")], 1, false), rest);
  }

  // Behind code it is two tokens.
  lemma SecondTokens(names: Names, tokens: seq<Token>, next: string)
    requires names.Valid() && Spellable(tokens) && tokens != []
    ensures
      Finds(Second(names, tokens, next), false, [Word("#")] + ([Word(names.other)] + (Words(tokens) + [Line(Endif)])), next, true)
  {
    var code := Spelled(tokens) + EndLine(names, next);
    var line, items := ['\n'] + code, Words(tokens) + [Line(Endif)];
    GroupEnds(names, tokens, next);
    NewlineItems(code, false);
    FindsAfterNothing(line, false, code, true, items, next, true);
    BlankItems(line, false);
    FindsAfterNothing(" " + line, false, line, false, items, next, true);
    TokenItems(names.other, " " + line, false);
    var rest := names.other + (" " + line);
    FindsBoth(rest, false, [Word(names.other)], " " + line, false, items, next, true);
    HashIsWord(Second(names, tokens, next), rest);
    FindsBoth(Second(names, tokens, next), false, [Word("#")], rest, false, [Word(names.other)] + items, next, true);
  }

  // The scan finds two alternatives.
  lemma LexFirst(names: Names, tokens: seq<Token>, next: string, inside: string)
    requires names.Valid() && Spellable(tokens) && tokens != [] && inside == "\n"
    ensures Lex(First(names, tokens, next), true) ==
            Prepend(Words(tokens) + ([Line(Else)] + (Words(tokens) + [Line(Endif)])), Lex(next, true))
  {
    var comment := "/*" + (inside + ("*/" + Second(names, tokens, next)));
    SpelledItems(tokens, comment, true);
    CommentItems(comment, inside, Second(names, tokens, next), false);
    SecondAlternative(names, tokens, next);
    PrependBoth(Words(tokens), [Line(Else)] + (Words(tokens) + [Line(Endif)]), Lex(next, true));
  }

  lemma MergedWords(names: Names, tokens: seq<Token>)
    ensures Words(Merged(names, tokens)) + [Line(Endif)]
            == Words(tokens) + ([Word("#")] + ([Word(names.other)] + (Words(tokens) + [Line(Endif)])))
  {
  }

  // The phases find one.
  lemma PhasedFirst(names: Names, tokens: seq<Token>, next: string, inside: string)
    requires names.Valid() && Spellable(tokens) && tokens != [] && inside == "\n"
    ensures Phased(First(names, tokens, next), true) == Prepend(Words(Merged(names, tokens)) + [Line(Endif)], Phased(next, true))
  {
    var comment := "/*" + (inside + ("*/" + Second(names, tokens, next)));
    var items := [Word("#")] + ([Word(names.other)] + (Words(tokens) + [Line(Endif)]));
    SpelledItems(tokens, comment, true);
    CommentItems(comment, inside, Second(names, tokens, next), false);
    SecondTokens(names, tokens, next);
    PrependBoth(Words(tokens), items, Phased(next, true));
    MergedWords(names, tokens);
  }

  lemma TwoGroups(first: seq<Item>, second: seq<Item>)
    ensures Prepend([Line(If)], Prepend(first, Some(second))) == Some(([Line(If)] + first) + second)
  {
    assert [Line(If)] + (first + second) == ([Line(If)] + first) + second;
  }

  lemma MergingItems(names: Names, first: string, second: string, tokens: seq<Token>)
    requires names.Valid() && Spellable(tokens) && tokens != [] && Conditions(names, first, second, tokens)
    ensures Lex(Merging(names, first, second, tokens), true) == Some(IfElse(tokens, tokens) + Only(tokens))
    ensures Phased(Merging(names, first, second, tokens), true) == Some(Only(Merged(names, tokens)) + Only(tokens))
  {
    var next := Single(names, second, tokens);
    SingleFound(names, second, tokens, "");
    LexFirst(names, tokens, next, "\n");
    PhasedFirst(names, tokens, next, "\n");
    DirectiveItems(names.opens, If, first, First(names, tokens, next), Merging(names, first, second, tokens));
    TwoGroups(Words(tokens) + ([Line(Else)] + (Words(tokens) + [Line(Endif)])), Only(tokens));
    IfElseParts(tokens, tokens);
    TwoGroups(Words(Merged(names, tokens)) + [Line(Endif)], Only(tokens));
  }

  // ----- The machine ----------------------------------------------------------------------------

  lemma OnlyParts(items: seq<Item>, tokens: seq<Token>)
    ensures items + Only(tokens) == ((items + [Line(If)]) + Words(tokens)) + [Line(Endif)]
  {
  }

  lemma OpenScanned(count: Counter, items: seq<Item>, m: nat, frames: seq<Frame>)
    requires count([]) == Some(0) && ScanAll(count, items) == Some(Scan([], [], m)) && frames == [Frame(m, None, false)]
    ensures ScanAll(count, items + [Line(If)]) == Some(Scan([], frames, 0))
  {
    ScanLine(count, items, If);
    assert [] + frames == frames;
  }

  lemma CloseScanned(count: Counter, run: seq<Item>, m: nat, tokens: seq<Token>, frames: seq<Frame>)
    requires count(tokens).Some? && frames == [Frame(m, None, false)] && ScanAll(count, run) == Some(Scan(tokens, frames, 0))
    ensures ScanAll(count, run + [Line(Endif)]) == Some(Scan([], [], m))
  {
    ScanLine(count, run, Endif);
    assert frames[..0] == [];
  }

  // A group without #else adds nothing.
  lemma OnlyScanned(count: Counter, items: seq<Item>, m: nat, tokens: seq<Token>)
    requires count([]) == Some(0) && count(tokens).Some? && ScanAll(count, items) == Some(Scan([], [], m))
    ensures ScanAll(count, items + Only(tokens)) == Some(Scan([], [], m))
  {
    var frames, start := [Frame(m, None, false)], items + [Line(If)];
    OpenScanned(count, items, m, frames);
    ScanMore(count, start, Scan([], frames, 0), tokens);
    CloseScanned(count, start + Words(tokens), m, tokens, frames);
    OnlyParts(items, tokens);
  }

  lemma MergingMinimum(count: Counter, tokens: seq<Token>, n: nat)
    requires count([]) == Some(0) && count(tokens) == Some(n)
    ensures Minimum(count, IfElse(tokens, tokens) + Only(tokens)) == Some(n)
  {
    IfElseScanned(count, tokens, tokens);
    OnlyScanned(count, IfElse(tokens, tokens), n, tokens);
  }

  // ----- Configurations -------------------------------------------------------------------------

  lemma LineIncluded(items: seq<Item>, conditions: seq<bool>, text: Text, d: Directive, c: bool)
    requires |conditions| == |items| && Preprocess(items, conditions) == Some(text) && Change(d, text.groups, c).Some?
    ensures Preprocess(items + [Line(d)], conditions + [c]) == Some(text.(groups := Change(d, text.groups, c).value))
  {
    assert (items + [Line(d)])[..|items|] == items && (conditions + [c])[..|items|] == conditions;
  }

  lemma WordIncluded(items: seq<Item>, conditions: seq<bool>, text: Text, t: Token)
    requires |conditions| == |items| && Preprocess(items, conditions) == Some(text)
    ensures Preprocess(items + [Word(t)], conditions + [false]) == Some(Append(text, t))
  {
    assert (items + [Word(t)])[..|items|] == items && (conditions + [false])[..|items|] == conditions;
  }

  function Kept(text: Text, tokens: seq<Token>): Text {
    if Active(text.groups) then text.(output := text.output + tokens) else text
  }

  lemma KeptFirst(text: Text, tokens: seq<Token>)
    requires tokens != []
    ensures Kept(Append(text, tokens[0]), tokens[1..]) == Kept(text, tokens)
  {
    assert (text.output + [tokens[0]]) + tokens[1..] == text.output + tokens;
  }

  lemma {:induction false} WordsIncluded(items: seq<Item>, conditions: seq<bool>, text: Text, tokens: seq<Token>)
    returns (all: seq<bool>)
    requires |conditions| == |items| && Preprocess(items, conditions) == Some(text)
    ensures |all| == |items| + |tokens| && Preprocess(items + Words(tokens), all) == Some(Kept(text, tokens))
    decreases |tokens|
  {
    if tokens == [] {
      assert items + Words(tokens) == items && text.output + tokens == text.output;
      all := conditions;
    } else {
      WordIncluded(items, conditions, text, tokens[0]);
      all := WordsIncluded(items + [Word(tokens[0])], conditions + [false], Append(text, tokens[0]), tokens[1..]);
      KeptFirst(text, tokens);
      WordMoves(items, tokens, tokens);
    }
  }

  lemma OpenIncluded(items: seq<Item>, conditions: seq<bool>, output: seq<Token>, group: Group, c: bool)
    requires |conditions| == |items| && Preprocess(items, conditions) == Some(Text([], output)) && group == Group(c, c, false)
    ensures Preprocess(items + [Line(If)], conditions + [c]) == Some(Text([group], output))
  {
    LineIncluded(items, conditions, Text([], output), If, c);
    assert [] + [group] == [group];
  }

  lemma CloseIncluded(items: seq<Item>, conditions: seq<bool>, text: Text, group: Group)
    requires |conditions| == |items| && Preprocess(items, conditions) == Some(text) && text.groups == [group]
    ensures Preprocess(items + [Line(Endif)], conditions + [false]) == Some(Text([], text.output))
  {
    LineIncluded(items, conditions, text, Endif, false);
    assert text.groups[..0] == [];
  }

  lemma KeptIn(group: Group, output: seq<Token>, tokens: seq<Token>)
    ensures Kept(Text([group], output), tokens) == Text([group], if group.active then output + tokens else output)
  {
    assert [group][0] == group;
  }

  // A group without #else keeps its tokens exactly if its condition holds.
  lemma OnlyIncluded(items: seq<Item>, conditions: seq<bool>, output: seq<Token>, tokens: seq<Token>, c: bool)
    returns (all: seq<bool>)
    requires |conditions| == |items| && Preprocess(items, conditions) == Some(Text([], output))
    ensures |all| == |items| + |Only(tokens)|
    ensures Preprocess(items + Only(tokens), all) == Some(Text([], if c then output + tokens else output))
  {
    var group, start := Group(c, c, false), items + [Line(If)];
    OpenIncluded(items, conditions, output, group, c);
    var run := WordsIncluded(start, conditions + [c], Text([group], output), tokens);
    KeptIn(group, output, tokens);
    CloseIncluded(start + Words(tokens), run, Kept(Text([group], output), tokens), group);
    OnlyParts(items, tokens);
    all := run + [false];
  }

  lemma SecondOnly(a: seq<Token>, b: seq<Token>, c: bool) returns (conditions: seq<bool>)
    ensures |conditions| == |Only(a) + Only(b)|
    ensures Preprocess(Only(a) + Only(b), conditions) == Some(Text([], if c then b else []))
  {
    var none: seq<Item>, without: seq<Token> := [], [];
    var first := OnlyIncluded(none, [], without, a, false);
    assert none + Only(a) == Only(a) && without + b == b;
    conditions := OnlyIncluded(Only(a), first, without, b, c);
  }

  // What a configuration that leaves nothing says of the text.
  lemma EmptyConfiguration(target: Target, source: string, items: seq<Item>, conditions: seq<bool>)
    requires target.Valid() && Phased(source, true) == Some(items) && |conditions| == |items|
    requires Preprocess(items, conditions) == Some(Text([], []))
    ensures !AlwaysReturns(target, source)
  {
    forall n | n > 0
      ensures !Sequence(Statement(target), [], n)
    {
    }
    assert !LeavesReturns(target, items, conditions);
  }

  // Whatever the two conditions test, and for every return of every primitive that can be spelled: the scan
  // accepts a text that leaves the return alone in one configuration, and nothing in another.
  lemma AlternativesMerge(target: Target, names: Names, first: string, second: string, tokens: seq<Token>)
    requires target.Valid() && IsReturn(target, tokens) && Spellable(tokens)
    requires names.Valid() && Conditions(names, first, second, tokens)
    ensures Accepted(target, Lex(Merging(names, first, second, tokens), true))
    ensures !AlwaysReturns(target, Merging(names, first, second, tokens))
    ensures
      var items := Phased(Merging(names, first, second, tokens), true);
      items.Some? &&
      exists conditions :: |conditions| == |items.value| && Preprocess(items.value, conditions) == Some(Text([], tokens))
  {
    var count, none: seq<Token> := Matcher(target), [];
    var source, phased := Merging(names, first, second, tokens), Only(Merged(names, tokens)) + Only(tokens);
    ReturnCounted(target, tokens);
    assert count(none) == Some(0);
    MergingItems(names, first, second, tokens);
    MergingMinimum(count, tokens, 1);
    AcceptedReturns(target, IfElse(tokens, tokens) + Only(tokens));
    var compiled := SecondOnly(Merged(names, tokens), tokens, true);
    var empty := SecondOnly(Merged(names, tokens), tokens, false);
    EmptyConfiguration(target, source, phased, empty);
  }

  // With exp's return behind #if A, #else and #if B.
  lemma HashBehindComment(target: Target, names: Names, first: string, second: string, tokens: seq<Token>)
    requires target == Target(Exp, ["x"]) && tokens == ["return", "exp", "(", "x", ")", ";"]
    requires names == Names("if", "else", "endif") && first == " A " && second == " B "
    ensures Accepted(target, Lex(Merging(names, first, second, tokens), true))
    ensures !AlwaysReturns(target, Merging(names, first, second, tokens))
  {
    SpelledNames(names);
    SpelledReturn(tokens);
    PlainName(first, 'A', ['\n'] + First(names, tokens, Single(names, second, tokens)));
    PlainName(second, 'B', ['\n'] + (Spelled(tokens) + EndLine(names, "")));
    AlternativesMerge(target, names, first, second, tokens);
  }
}

// A text that the one-pass scan of a primitive's source (src/DavC310TargetRecipe.cpp:2260-2316) reads out of
// step with its lines: a comment opens for it inside another.
module OutOfStep {
  import opened Primitives
  import opened ConditionalReturns
  import opened BodyText
  import opened PhaseAgreement
  import opened PhaseExactness
  import opened SourceText

  // A directive, a comment behind its condition that ends in the slash of another comment mark, and a word
  // in each of the comments the scan and the phases do not see: /* word /*/ word /* */ on three lines.
  datatype Crossing = Crossing(name: string, condition: string, word: string) {
    ghost predicate Valid() {
      Name(name) && Named(name) == Some(If) && Condition(condition, Comment(First(), Later())) && Name(word)
    }

    function Comment(inside: string, rest: string): string { "/*" + (inside + ("*/" + rest)) }

    // The comment as the scan reads it, and as the phases do.
    function Second(): string { "/\n" + (word + " /* ") }

    function First(): string { "\n" + (word + " /") }

    // Behind the directive's line, and behind where it ends without its comments.
    function Next(): string { word + (" " + Comment(Second(), "")) }

    function Later(): string { ['\n'] + (word + (" " + Comment(" ", ""))) }

    function Line(): string { (condition + "/*") + (['\n'] + Next()) }

    function Text(): string { ['#'] + (name + Line()) }

    lemma Parts()
      ensures Line() == condition + Comment(First(), Later())
    {
    }

    lemma CommentsClose()
      requires Valid()
      ensures Unclosed(First()) && Unclosed(Second()) && Unclosed(" ")
    {
    }
  }

  lemma OnlyComment(comment: string, inside: string, none: string, items: Option<seq<Item>>)
    requires Unclosed(inside) && comment == "/*" + (inside + ("*/" + none)) && none == "" && items == Some([])
    ensures Lex(" " + comment, false) == items && Phased(" " + comment, false) == items
  {
    BlankItems(comment, false);
    PrependNothing(Lex(comment, false));
    PrependNothing(Phased(comment, false));
    CommentItems(comment, inside, none, false);
    NothingFound(false);
    NothingFound(true);
  }

  // A word and a comment on the line.
  lemma WordAndComment(word: string, comment: string, inside: string, none: Option<seq<Item>>)
    requires Name(word) && Unclosed(inside) && comment == "/*" + (inside + ("*/" + "")) && none == Some([])
    ensures Lex(word + (" " + comment), true) == Some([Word(word)]) && Phased(word + (" " + comment), true) == Some([Word(word)])
  {
    TokenItems(word, " " + comment, true);
    OnlyComment(comment, inside, "", none);
    assert [Word(word)] + [] == [Word(word)];
  }

  lemma OneWord(word: string, some: Option<seq<Item>>)
    requires some == Some([Word(word)])
    ensures Prepend([Line(If)], some) == Some([Line(If), Word(word)])
  {
    assert [Line(If)] + [Word(word)] == [Line(If), Word(word)];
  }

  lemma Scanned(c: Crossing, inside: string, none: string)
    requires c.Valid() && inside == c.Second() && none == ""
    ensures Lex(c.Text(), true) == Some([Line(If), Word(c.word)])
  {
    c.CommentsClose();
    WordAndComment(c.word, c.Comment(inside, none), inside, Some([]));
    AfterOneLine(c.condition + "/*", c.Next(), c.Line());
    LexLine(c.name, If, c.Line(), c.Text());
    OneWord(c.word, Lex(c.Next(), true));
  }

  // ----- Where the line ends --------------------------------------------------------------------

  lemma LineEndComment(first: string, later: string, s: string)
    requires s == "/*" + (first + ("*/" + later)) && Unclosed(first) && later != "" && later[0] == '\n'
    ensures LineEnd(s).Some? && Rest(s) == later
  {
    CommentPiece(s, first, later);
    assert later[0..] == later;
    LineLater(s, |first| + 4, later);
  }

  lemma CrossingRest(c: Crossing, line: string, comment: string)
    requires c.Valid() && line == c.Line() && comment == c.Comment(c.First(), c.Later())
    ensures LineEnd(line).Some? && Rest(line) == c.Later()
  {
    c.CommentsClose();
    c.Parts();
    LineEndComment(c.First(), c.Later(), comment);
    assert line[|c.condition|..] == comment;
    PlainLine(line, |c.condition|, comment);
  }

  lemma ReadByPhases(c: Crossing, inside: string, none: string)
    requires c.Valid() && inside == " " && none == ""
    ensures Phased(c.Text(), true) == Some([Line(If), Word(c.word)])
  {
    var code := c.word + (" " + c.Comment(inside, none));
    c.CommentsClose();
    WordAndComment(c.word, c.Comment(inside, none), inside, Some([]));
    CrossingRest(c, c.Line(), c.Comment(c.First(), c.Later()));
    PhasedLine(c.name, If, c.Line(), c.Text());
    NewlineItems(code, true);
    PrependNothing(Phased(code, true));
    OneWord(c.word, Phased(code, true));
  }

  // The scan is in a comment where the line ends.
  lemma UntilComment(comment: string, n: nat, k: nat)
    requires Starts(comment, '/', '*') && Piece(comment) == Some(k) && 0 < n < k && n <= |comment|
    ensures Until(comment, false, n) == None
  {
  }

  lemma UntilFails(s: string, blank: bool, n: nat, front: Lexeme, tail: string)
    requires 0 < front.length <= n <= |s| && Front(s, blank) == Some(front) && tail == s[front.length..]
    requires Until(tail, front.blank, n - front.length).None?
    ensures Until(s, blank, n).None?
  {
  }

  // Behind the word and the blank the scan is in its comment.
  lemma UntilBlank(blank: string, comment: string, k: nat)
    requires blank == " " + comment && Starts(comment, '/', '*') && Piece(comment) == Some(k) && k > 3
    ensures Until(blank, false, 4).None?
  {
    UntilComment(comment, 3, k);
    assert blank[1..] == comment;
    UntilFails(blank, false, 4, Lexeme([], 1, false), comment);
  }

  lemma UntilWord(word: string, blank: string, line: string)
    requires Name(word) && blank != "" && blank[0] == ' ' && line == word + blank && |blank| >= 4 && Until(blank, false, 4).None?
    ensures Until(line, true, |word| + 4).None?
  {
    RunThen(word, blank);
    assert line[..|word|] == word && line[|word|..] == blank;
    UntilFails(line, true, |word| + 4, Lexeme([Word(word)], |word|, false), blank);
  }

  // Past the line break as well.
  lemma UntilCrossing(word: string, comment: string, end: string, k: nat)
    requires Name(word) && end == ['\n'] + (word + (" " + comment)) && Starts(comment, '/', '*') && Piece(comment) == Some(k) && k > 3
    ensures Until(end, true, |word| + 5).None?
  {
    var line, blank := word + (" " + comment), " " + comment;
    UntilBlank(blank, comment, k);
    UntilWord(word, blank, line);
    assert end[1..] == line;
    UntilFails(end, true, |word| + 5, Lexeme([], 1, true), line);
  }

  lemma CrossingEnds(c: Crossing, line: string)
    requires c.Valid() && line == c.Line()
    ensures LineEnd(line) == Some(|c.condition| + |c.word| + 7)
  {
    CrossingRest(c, line, c.Comment(c.First(), c.Later()));
    c.Parts();
    assert |line| - |Rest(line)| == LineEnd(line).value;
  }

  lemma CrossingLine(c: Crossing, line: string)
    requires c.Valid() && line == c.Line()
    ensures LineLength(line) == |c.condition| + 2 && line[|c.condition| + 2..] == ['\n'] + c.Next()
  {
    LineThen(c.condition + "/*", ['\n'] + c.Next());
  }

  lemma Overreads(c: Crossing, line: string, comment: string)
    requires c.Valid() && line == c.Line() && comment == c.Comment(c.Second(), "")
    ensures LineEnd(line).Some? && Overread(line).None?
  {
    c.CommentsClose();
    CommentPiece(comment, c.Second(), "");
    CrossingEnds(c, line);
    CrossingLine(c, line);
    var end, n := OverreadPart(line);
    UntilCrossing(c.word, comment, end, |c.Second()| + 4);
  }

  // Out of step, a text can be read alike by accident: without being regular.
  lemma AlikeByAccident(c: Crossing)
    requires c.Valid()
    ensures Lex(c.Text(), true).Some? && Lex(c.Text(), true) == Phased(c.Text(), true)
    ensures !Regular(c.Text(), true) && !InStep(c.Text(), true)
  {
    Scanned(c, c.Second(), "");
    ReadByPhases(c, " ", "");
    var u := c.name + c.Line();
    assert c.Text()[1..] == u;
    LineBehind(c.name, If, c.Line(), u);
    Overreads(c, c.Line(), c.Comment(c.Second(), ""));
  }
}

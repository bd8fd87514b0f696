// When the scan in one pass finds what the translation phases find (src/DavC310TargetRecipe.cpp:2055-2099 and
// 2260-2316).  They part in two ways: the scan ends a directive at the end of its line even inside a comment,
// and it takes a # for a directive's behind a comment of several lines that follows code.
module PhaseAgreement {
  import opened Primitives
  import opened ConditionalReturns
  import opened BodyText

  function Later(n: nat, k: Option<nat>): Option<nat> {
    match k case None => None case Some(value) => Some(n + value)
  }

  // ----- Comments removed from parts of the text ------------------------------------------------

  lemma OntoOnto(a: string, b: string, rest: Option<string>)
    ensures Onto(a, Onto(b, rest)) == Onto(a + b, rest)
  {
    if rest.Some? {
      assert a + (b + rest.value) == (a + b) + rest.value;
    }
  }

  lemma OntoNothing(rest: Option<string>)
    ensures Onto("", rest) == rest
  {
    if rest.Some? {
      assert "" + rest.value == rest.value;
    }
  }

  lemma DropTwice(s: string, a: nat, b: nat)
    requires a + b <= |s|
    ensures s[a..][b..] == s[a + b..]
  {
  }

  lemma StripFirst(s: string)
    requires s != "" && s[0] != '/' && s[0] != '%' && !IdentifierPart(s[0]) && !Quote(s[0])
    ensures Strip(s) == Onto([s[0]], Strip(s[1..]))
  {
    assert s[..1] == [s[0]];
  }

  lemma StripName(s: string)
    requires s != "" && IdentifierStart(s[0])
    ensures Piece(s) == if Unread(s) then None else Some(RunLength(s))
    ensures Strip(s) == if Unread(s) then None else Onto(s[..RunLength(s)], Strip(s[RunLength(s)..]))
  {
  }

  lemma NamedIsPlain(name: string)
    requires Named(name).Some?
    ensures !RawPrefix(name) && !HeaderTest(name)
  {
    assert name[0] == 'i' || name[0] == 'e';
  }

  // The name of a directive is read.
  lemma NamedIsRead(s: string)
    requires s != "" && IdentifierStart(s[0]) && Named(s[..RunLength(s)]).Some?
    ensures !Unread(s)
  {
    NamedIsPlain(s[..RunLength(s)]);
  }

  ghost predicate AllHorizontal(b: string) {
    forall i :: 0 <= i < |b| ==> Horizontal(b[i])
  }

  // A gap starts with a blank or a comment in one line, and goes on behind it.
  lemma GapFront(s: string) returns (n: nat)
    requires Gap(s).Some? && Gap(s).value > 0
    ensures 0 < n <= Gap(s).value <= |s| && Piece(s) == Some(n) && AllHorizontal(Residue(s, n)) && !Starts(s, '/', '/')
    ensures Gap(s[n..]) == Some(Gap(s).value - n) && Strip(s) == Onto(Residue(s, n), Strip(s[n..]))
  {
    n := if Starts(s, '/', '*') then Close(s[2..]).value + 4 else 1;
  }

  lemma {:induction false} StripGap(s: string, k: nat, rest: string) returns (b: string)
    requires Gap(s) == Some(k) && rest == s[k..]
    ensures AllHorizontal(b) && Strip(s) == Onto(b, Strip(rest))
    decreases |s|
  {
    if k == 0 {
      assert s[0..] == s;
      OntoNothing(Strip(s));
      b := "";
    } else {
      var n := GapFront(s);
      var tail := s[n..];
      DropTwice(s, n, k - n);
      var more := StripGap(tail, k - n, rest);
      OntoOnto(Residue(s, n), more, Strip(rest));
      b := Residue(s, n) + more;
    }
  }

  // The first k characters are blanks and comments in one line.
  ghost predicate GapTo(s: string, k: nat)
    requires k <= |s|
    decreases k
  {
    || k == 0
    || (Horizontal(s[0]) && GapTo(s[1..], k - 1))
    || (InOneLine(s, k) && GapTo(s[Piece(s).value..], k - Piece(s).value))
  }

  // A comment of one line, in the first k characters.
  ghost predicate InOneLine(s: string, k: nat)
    requires s != ""
  {
    Starts(s, '/', '*') && Piece(s).Some? && Piece(s).value <= k && '\n' !in s[..Piece(s).value]
  }

  lemma CommentLine(s: string)
    requires Starts(s, '/', '*') && Piece(s).Some?
    ensures '\n' in s[..Piece(s).value] <==> '\n' in s[2..Piece(s).value - 2]
  {
    var n := Piece(s).value;
    Closed(s[2..]);
    assert s[n - 2..n] == s[2..][n - 4..n - 2];
    BreakInside(s, n);
  }

  lemma BreakInside(s: string, n: nat)
    requires 4 <= n <= |s| && s[0] == '/' && s[1] == '*' && s[n - 2..n] == "*/"
    ensures '\n' in s[..n] <==> '\n' in s[2..n - 2]
  {
    assert s[n - 2] == '*' && s[n - 1] == '/' by {
      assert s[n - 2..n][0] == s[n - 2] && s[n - 2..n][1] == s[n - 1];
    }
    if i :| 0 <= i < n && s[i] == '\n' {
      assert s[2..n - 2][i - 2] == '\n';
    }
    var inner := s[2..n - 2];
    if i :| 0 <= i < |inner| && inner[i] == '\n' {
      assert s[..n][i + 2] == '\n';
    }
  }

  lemma {:induction false} Closed(s: string)
    requires Close(s).Some?
    ensures s[Close(s).value..Close(s).value + 2] == "*/"
    decreases |s|
  {
    if !Starts(s, '*', '/') {
      Closed(s[1..]);
    }
  }

  ghost predicate GapOver(rest: string) {
    rest == "" || (!Horizontal(rest[0]) && !Starts(rest, '/', '*'))
  }

  lemma BlankGap(s: string, tail: string, k: nat)
    requires s != "" && Horizontal(s[0]) && tail == s[1..] && 0 < k <= |s|
    ensures Gap(s) == Some(k) <==> Gap(tail) == Some(k - 1)
    ensures GapTo(s, k) <==> GapTo(tail, k - 1)
  {
  }

  lemma CommentGap(s: string, n: nat, tail: string, k: nat)
    requires Starts(s, '/', '*') && Piece(s) == Some(n) && tail == s[n..] && k <= |s|
    ensures Gap(s) == Some(k) <==> k >= n && '\n' !in s[2..n - 2] && Gap(tail) == Some(k - n)
    ensures GapTo(s, k) <==> k == 0 || (k >= n && '\n' !in s[2..n - 2] && GapTo(tail, k - n))
  {
    CommentLine(s);
  }

  lemma EmptyGap(s: string, k: nat)
    requires GapOver(s) && k <= |s|
    ensures Gap(s) == Some(k) <==> k == 0
    ensures GapTo(s, k) <==> k == 0
  {
  }

  lemma OpenGap(s: string, k: nat)
    requires Starts(s, '/', '*') && Piece(s).None? && k <= |s|
    ensures Gap(s).None? && (GapTo(s, k) <==> k == 0)
  {
  }

  // The gap is all such characters there are, and there is none if they lead to another comment.
  lemma {:induction false} GapIsExact(s: string, k: nat, rest: string)
    requires k <= |s| && rest == s[k..]
    ensures Gap(s) == Some(k) <==> GapTo(s, k) && GapOver(rest)
    decreases |s|, 1
  {
    assert s[0..] == s;
    if GapOver(s) {
      EmptyGap(s, k);
    } else if Horizontal(s[0]) {
      if k > 0 {
        DropTwice(s, 1, k - 1);
        GapIsExact(s[1..], k - 1, rest);
        BlankGap(s, s[1..], k);
      }
    } else if Piece(s).None? {
      OpenGap(s, k);
    } else {
      CommentStep(s, Piece(s).value, k, rest);
    }
  }

  lemma {:induction false} CommentStep(s: string, n: nat, k: nat, rest: string)
    requires Starts(s, '/', '*') && Piece(s) == Some(n) && k <= |s| && rest == s[k..]
    ensures Gap(s) == Some(k) <==> GapTo(s, k) && GapOver(rest)
    decreases |s|, 0
  {
    CommentGap(s, n, s[n..], k);
    if k >= n {
      DropTwice(s, n, k - n);
      GapIsExact(s[n..], k - n, rest);
    } else if k == 0 {
      assert s[0..] == s;
    }
  }

  // ----- The end of a line without its comments -------------------------------------------------

  lemma {:induction false} LineShort(s: string, n: nat)
    requires n <= |s|
    ensures LineLength(s) <= n + LineLength(s[n..])
    decreases n
  {
    if n == 0 {
      assert s[0..] == s;
    } else {
      LineShort(s[1..], n - 1);
      DropTwice(s, 1, n - 1);
    }
  }

  // Where the line ends once comments are removed: behind each comment that opens in it.
  function LineEnd(s: string): (k: Option<nat>)
    ensures k.Some? ==> k.value <= |s|
    decreases |s|
  {
    if s == "" || s[0] == '\n' then Some(0)
    else if Starts(s, '/', '/') then Some(2 + LineLength(s[2..]))
    else match Piece(s) case None => None case Some(n) => Later(n, LineEnd(s[n..]))
  }

  // What stands behind the line.
  function Rest(s: string): string
    requires LineEnd(s).Some?
  {
    s[LineEnd(s).value..]
  }

  ghost predicate OneLine(x: string) {
    forall i :: 0 <= i < |x| ==> x[i] != '\n'
  }

  ghost predicate Break(s: string) {
    s == "" || s[0] == '\n'
  }

  lemma {:induction false} LiteralInLine(s: string, quote: char)
    requires quote != '\n'
    ensures OneLine(s[..LiteralRest(s, quote)])
    decreases |s|
  {
    if s != "" && s[0] != '\n' && s[0] != quote {
      var n := if s[0] == '\\' && |s| > 1 && s[1] != '\n' then 2 else 1;
      LiteralInLine(s[n..], quote);
      assert s[..LiteralRest(s, quote)] == s[..n] + s[n..][..LiteralRest(s[n..], quote)];
    }
  }

  lemma RunInLine(s: string)
    ensures OneLine(s[..RunLength(s)])
  {
    forall i | 0 <= i < RunLength(s)
      ensures IdentifierPart(s[..RunLength(s)][i])
    {
      RunIsIdentifier(s, i);
    }
  }

  // What is left of a piece stays in its line.
  lemma PieceInLine(s: string, n: nat)
    requires s != "" && s[0] != '\n' && Piece(s) == Some(n)
    ensures OneLine(Residue(s, n))
  {
    if !Starts(s, '/', '*') {
      if Quote(s[0]) {
        LiteralInLine(s[1..], s[0]);
        assert s[..n] == [s[0]] + s[1..][..n - 1];
      } else if IdentifierStart(s[0]) {
        RunInLine(s);
      }
    }
  }

  // The line goes on behind its first piece.
  lemma LineStep(s: string, n: nat, tail: string)
    requires s != "" && s[0] != '\n' && !Starts(s, '/', '/') && LineEnd(s).Some? && Piece(s) == Some(n) && tail == s[n..]
    ensures LineEnd(tail).Some? && Rest(s) == Rest(tail) && Strip(s) == Onto(Residue(s, n), Strip(tail))
  {
    DropTwice(s, n, LineEnd(tail).value);
  }

  lemma LineLast(s: string)
    requires s == "" || s[0] == '\n' || Starts(s, '/', '/')
    ensures LineEnd(s).Some? && Break(Rest(s)) && Strip(s) == Strip(Rest(s))
  {
  }

  lemma {:induction false} StripLine(s: string) returns (x: string)
    requires LineEnd(s).Some?
    ensures OneLine(x) && Strip(s) == Onto(x, Strip(Rest(s))) && Break(Rest(s))
    decreases |s|
  {
    if s == "" || s[0] == '\n' || Starts(s, '/', '/') {
      LineLast(s);
      x := "";
      OntoNothing(Strip(Rest(s)));
    } else {
      var n := Piece(s).value;
      LineStep(s, n, s[n..]);
      PieceInLine(s, n);
      var more := StripLine(s[n..]);
      OntoOnto(Residue(s, n), more, Strip(Rest(s[n..])));
      x := Residue(s, n) + more;
    }
  }

  lemma {:induction false} LineWithin(s: string)
    requires LineEnd(s).Some?
    ensures LineLength(s) <= LineEnd(s).value
    decreases |s|
  {
    if s != "" && s[0] != '\n' {
      if Starts(s, '/', '/') {
        LineShort(s, 2);
      } else {
        LineShort(s, Piece(s).value);
        LineWithin(s[Piece(s).value..]);
      }
    }
  }

  // A line that does not end has a piece that is not read.
  lemma {:induction false} LineEnds(s: string)
    requires Strip(s).Some?
    ensures LineEnd(s).Some?
    decreases |s|
  {
    if s != "" && s[0] != '\n' && !Starts(s, '/', '/') {
      LineEnds(s[Piece(s).value..]);
    }
  }

  // ----- Reading what is left -------------------------------------------------------------------

  // A text starts as it does with its comments removed, unless it starts with one.
  lemma StrippedFirst(s: string)
    requires Strip(s).Some?
    ensures
      var t := Strip(s).value;
      if s == "" then t == ""
      else if Starts(s, '/', '/') then t == "" || t[0] == '\n'
      else if Starts(s, '/', '*') then t != "" && t[0] == ' '
      else t != "" && t[0] == s[0]
  {
    if Starts(s, '/', '/') {
      var rest := s[2 + LineLength(s[2..])..];
      if rest != "" {
        assert rest[0] == s[2..][LineLength(s[2..])];
      }
    }
  }

  lemma {:induction false} RunThen(word: string, rest: string)
    requires forall i :: 0 <= i < |word| ==> IdentifierPart(word[i])
    requires rest == "" || !IdentifierPart(rest[0])
    ensures RunLength(word + rest) == |word|
    decreases |word|
  {
    if word == "" {
      assert word + rest == rest;
    } else {
      RunThen(word[1..], rest);
      assert (word + rest)[1..] == word[1..] + rest;
    }
  }

  lemma {:induction false} RunIsIdentifier(s: string, i: nat)
    requires i < RunLength(s)
    ensures IdentifierPart(s[i])
    decreases i
  {
    if i > 0 {
      RunIsIdentifier(s[1..], i - 1);
    }
  }

  lemma {:induction false} RunEnds(s: string)
    ensures s[RunLength(s)..] == "" || !IdentifierPart(s[RunLength(s)])
  {
    if s != "" && IdentifierPart(s[0]) {
      RunEnds(s[1..]);
    }
  }

  // An identifier is the same with comments removed behind it.
  lemma StrippedRun(s: string)
    requires Strip(s).Some? && s != "" && IdentifierStart(s[0])
    ensures Strip(s[RunLength(s)..]).Some?
    ensures
      var k, t := RunLength(s), Strip(s).value;
      t == s[..k] + Strip(s[k..]).value && RunLength(t) == k && t[..k] == s[..k] && t[k..] == Strip(s[k..]).value
  {
    var k := RunLength(s);
    StripName(s);
    RunEnds(s);
    StrippedFirst(s[k..]);
    forall i | 0 <= i < k
      ensures IdentifierPart(s[..k][i])
    {
      RunIsIdentifier(s, i);
    }
    RunThen(s[..k], Strip(s[k..]).value);
  }

  lemma {:induction false} BlanksThen(b: string, w: string)
    requires AllHorizontal(b) && (w == "" || !Horizontal(w[0]))
    ensures Blanks(b + w) == |b|
    decreases |b|
  {
    if b == "" {
      assert b + w == w;
    } else {
      BlanksThen(b[1..], w);
      assert (b + w)[1..] == b[1..] + w;
    }
  }

  lemma {:induction false} LineThen(x: string, rest: string)
    requires OneLine(x) && (rest == "" || rest[0] == '\n')
    ensures LineLength(x + rest) == |x|
    decreases |x|
  {
    if x == "" {
      assert x + rest == rest;
    } else {
      LineThen(x[1..], rest);
      assert (x + rest)[1..] == x[1..] + rest;
    }
  }

  lemma {:induction false} GapEnds(s: string)
    requires Gap(s).Some?
    ensures
      var rest := s[Gap(s).value..];
      rest == "" || (!Horizontal(rest[0]) && !Starts(rest, '/', '*'))
    decreases |s|
  {
    if Gap(s).value == 0 {
      assert s[0..] == s;
    } else {
      var n := GapFront(s);
      GapEnds(s[n..]);
      DropTwice(s, n, Gap(s).value - n);
    }
  }

  // ----- A directive's line ---------------------------------------------------------------------

  // What stands behind the directive's name.
  function Behind(s: string): (r: string)
    requires Gap(s).Some?
    ensures |r| <= |s|
  {
    var rest := s[Gap(s).value..];
    rest[RunLength(rest)..]
  }

  function AfterLine(s: string): string {
    if LineLength(s) < |s| then s[LineLength(s) + 1..] else ""
  }

  lemma AfterLineAt(s: string, k: nat, v: string, l: nat, end: nat)
    requires k <= |s| && v == s[k..] && l == LineLength(v) && end == (if k + l < |s| then k + l + 1 else k + l)
    ensures s[end..] == AfterLine(v)
  {
    if l < |v| {
      DropTwice(s, k, l + 1);
    }
  }

  lemma NextLineIs(s: string, g: nat)
    requires g <= |s|
    ensures s[NextLine(s, g)..] == AfterLine(s[g..][RunLength(s[g..])..])
  {
    var r := RunLength(s[g..]);
    DropTwice(s, g, r);
    AfterLineAt(s, g + r, s[g + r..], LineLength(s[g + r..]), NextLine(s, g));
  }

  // Behind the gap the text is the same with comments removed; the gap becomes blanks.
  lemma GapAgrees(s: string)
    requires Gap(s).Some? && Strip(s).Some?
    ensures
      var t := Strip(s).value;
      Strip(s[Gap(s).value..]) == Some(t[Blanks(t)..])
  {
    var rest := s[Gap(s).value..];
    var b := StripGap(s, Gap(s).value, rest);
    var w := Strip(rest).value;
    GapEnds(s);
    StrippedFirst(rest);
    BlanksThen(b, w);
    assert (b + w)[|b|..] == w;
  }

  lemma HeadAgrees(s: string, g: nat, t: string, b: nat)
    requires g <= |s| && b <= |t| && Strip(s[g..]) == Some(t[b..])
    requires g == |s| || !Starts(s[g..], '/', '*')
    ensures (g < |s| && IdentifierStart(s[g])) <==> (b < |t| && IdentifierStart(t[b]))
  {
    StrippedFirst(s[g..]);
  }

  lemma NameIs(s: string, g: nat, rest: string)
    requires g <= |s| && rest == s[g..]
    ensures NameAt(s, g) == rest[..RunLength(rest)]
  {
    assert s[g..g + RunLength(rest)] == rest[..RunLength(rest)];
  }

  lemma RunAgrees(u: string, v: string)
    requires u != "" && IdentifierStart(u[0]) && Strip(u) == Some(v)
    ensures v[..RunLength(v)] == u[..RunLength(u)]
  {
    StrippedRun(u);
  }

  lemma NameAgrees(s: string, u: string, g: nat, t: string, v: string, b: nat)
    requires g <= |s| && u == s[g..] && b <= |t| && v == t[b..]
    requires u != "" && IdentifierStart(u[0]) && Strip(u) == Some(v)
    ensures NameAt(t, b) == NameAt(s, g)
  {
    NameIs(s, g, u);
    NameIs(t, b, v);
    RunAgrees(u, v);
  }

  // The next line, once comments are removed, is behind the line's end without them.
  lemma LineEndAgrees(s: string, t: string)
    requires Strip(s) == Some(t)
    ensures LineEnd(s).Some? && Strip(Rest(s)).Some?
    ensures AfterLine(t) == (var rest := Strip(Rest(s)).value; if rest == "" then "" else rest[1..])
    ensures Strip(Rest(s)).value == "" || Strip(Rest(s)).value[0] == '\n'
  {
    LineEnds(s);
    var x := StripLine(s);
    StrippedFirst(Rest(s));
    var rest := Strip(Rest(s)).value;
    assert t == x + rest;
    LineThen(x, rest);
    assert rest != "" ==> t[|x| + 1..] == rest[1..];
  }

  // The first line break of a text does not say anything.
  lemma ReadBreak(w: string, blank: bool)
    requires w == "" || w[0] == '\n'
    ensures Read(w, blank) == Read(if w == "" then "" else w[1..], true)
  {
    if w != "" {
      PrependNothing(Read(w[1..], true));
    }
  }

  lemma NextLineAgrees(s: string, g: nat, t: string, b: nat)
    requires g < |s| && IdentifierStart(s[g]) && b <= |t| && Strip(s[g..]) == Some(t[b..])
    ensures
      var after := s[g..][RunLength(s[g..])..];
      LineEnd(after).Some? && Read(t[NextLine(t, b)..], true) == Phased(Rest(after), true)
  {
    StrippedRun(s[g..]);
    NextLineIs(t, b);
    var after := s[g..][RunLength(s[g..])..];
    LineEndAgrees(after, t[b..][RunLength(t[b..])..]);
    ReadBreak(Strip(Rest(after)).value, true);
  }

  // Phase 4, on the text without its comments, finds the same directive as the scan, and goes on where the
  // line ends without them.
  lemma DirectiveAgrees(s: string)
    requires Gap(s).Some? && Strip(s).Some?
    ensures
      var t := Strip(s).value;
      var here, there := DirectiveLine(s), DirectiveAt(t, Blanks(t));
      if here.None? then there.None?
      else && there.Some? && there.value.0 == here.value.0
           && LineEnd(Behind(s)).Some? && Read(t[there.value.1..], true) == Phased(Rest(Behind(s)), true)
  {
    var g, t := Gap(s).value, Strip(s).value;
    GapAgrees(s);
    GapEnds(s);
    HeadAgrees(s, g, t, Blanks(t));
    if g < |s| && IdentifierStart(s[g]) {
      NameAgrees(s, s[g..], g, t, t[Blanks(t)..], Blanks(t));
      NextLineAgrees(s, g, t, Blanks(t));
    }
  }

  // The directive the scan finds is the one of phase 4, unless a comment of several lines stands in front of
  // its name; the scan goes on in the next line, and phase 4 where the line ends without its comments.
  method ConditionalDirective(s: string) returns (r: Option<(Directive, nat)>)
    ensures r == DirectiveLine(s)
    ensures Gap(s).Some? && Strip(s).Some? ==>
              var t := Strip(s).value;
              var there := DirectiveAt(t, Blanks(t));
              if r.None? then there.None?
              else && there.Some? && there.value.0 == r.value.0 && s[r.value.1..] == AfterLine(Behind(s))
                   && LineEnd(Behind(s)).Some? && Read(t[there.value.1..], true) == Phased(Rest(Behind(s)), true)
  {
    var gap := SkipGap(s);
    if gap.None? {
      return None;
    }
    NextLineIs(s, gap.value);
    if Strip(s).Some? {
      DirectiveAgrees(s);
    }
    return DirectiveAt(s, gap.value);
  }
}

// For which texts the scan of a primitive's source in one pass finds what the translation phases find
// (src/DavC310TargetRecipe.cpp:2055-2099 and 2260-2316).
module PhaseExactness {
  import opened Primitives
  import opened ConditionalReturns
  import opened BodyText
  import opened PhaseAgreement

  // ----- What the scan and the phases do not agree on -------------------------------------------

  predicate SeveralLines(s: string)
    requires Starts(s, '/', '*') && Piece(s).Some?
  {
    '\n' in s[2..Piece(s).value - 2]
  }

  // Where the next character is that is neither blank nor in a comment, if it is a # on the same line once
  // comments are removed.
  function HashNext(s: string): (k: Option<nat>)
    ensures k.Some? ==> k.value < |s|
    decreases |s|
  {
    if s == "" then None
    else if s[0] == '#' then Some(0)
    else if !Horizontal(s[0]) && !Starts(s, '/', '*') then None
    else match Piece(s) case None => None case Some(n) => Later(n, HashNext(s[n..]))
  }

  // The items that the scan finds in the first n characters; None when it fails there or goes past them.
  function Until(s: string, blank: bool, n: nat): Option<seq<Item>>
    requires n <= |s|
    decreases n
  {
    if n == 0 then Some([])
    else match Front(s, blank)
      case None => None
      case Some(front) =>
        if front.length > n then None else Prepend(front.items, Until(s[front.length..], front.blank, n - front.length))
  }

  // What the scan finds between the end of a line and where it ends once comments are removed.
  function Overread(s: string): Option<seq<Item>>
    requires LineEnd(s).Some?
  {
    LineWithin(s);
    Until(s[LineLength(s)..], true, LineEnd(s).value - LineLength(s))
  }

  // A comment of several lines behind code has no # behind it on its last line, and the comments that go on
  // behind a directive's line hide nothing from the phases that the scan finds.
  predicate Regular(s: string, blank: bool)
    decreases |s|
  {
    if s == "" then true
    else if Starts(s, '/', '/') then Regular(s[2 + LineLength(s[2..])..], blank)
    else if Starts(s, '/', '*') then
      Piece(s).Some? ==>
        var tail := s[Piece(s).value..];
        (SeveralLines(s) && !blank ==> HashNext(tail).None?) && Regular(tail, blank)
    else if s[0] == '#' && blank then
      && Gap(s[1..]).Some?
      && (DirectiveLine(s[1..]).Some? ==>
            var line := Behind(s[1..]);
            LineEnd(line).Some? && Overread(line) == Some([]) && Regular(Rest(line), true))
    else
      var front := Front(s, blank);
      Piece(s).Some? && (front.Some? ==> Regular(s[front.value.length..], front.value.blank))
  }

  // The scan never goes past the end of a directive's line in a comment that opens inside another.
  predicate InStep(s: string, blank: bool)
    decreases |s|, 0
  {
    if s == "" then true
    else if Starts(s, '/', '/') then InStep(s[2 + LineLength(s[2..])..], blank)
    else if Starts(s, '/', '*') then
      Piece(s).Some? ==>
        var tail := s[Piece(s).value..];
        if SeveralLines(s) && !blank && HashNext(tail).Some? then LineInStep(tail[HashNext(tail).value + 1..])
        else InStep(tail, blank)
    else if s[0] == '#' && blank then LineInStep(s[1..])
    else
      var front := Front(s, blank);
      front.Some? ==> InStep(s[front.value.length..], front.value.blank)
  }

  predicate LineInStep(s: string)
    decreases |s|, 1
  {
    Gap(s).Some? && LineEnd(Behind(s)).Some? ==> Overread(Behind(s)).Some? && InStep(Rest(Behind(s)), true)
  }

  // ----- One step of the scan and of the phases -------------------------------------------------

  lemma LineComment(s: string, blank: bool)
    requires Starts(s, '/', '/')
    ensures
      var tail := s[2 + LineLength(s[2..])..];
      Lex(s, blank) == Lex(tail, blank) && Phased(s, blank) == Phased(tail, blank)
  {
    PrependNothing(Lex(s[2 + LineLength(s[2..])..], blank));
  }

  lemma ReadBlank(t: string, blank: bool)
    ensures Read(" " + t, blank) == Read(t, blank)
  {
    assert (" " + t)[1..] == t;
    PrependNothing(Read(t, blank));
  }

  lemma BlockFront(s: string, blank: bool, n: nat)
    requires Starts(s, '/', '*') && Piece(s) == Some(n)
    ensures Front(s, blank) == Some(Lexeme([], n, blank || SeveralLines(s)))
  {
  }

  lemma LexBlock(s: string, blank: bool, tail: string)
    requires Starts(s, '/', '*') && Piece(s).Some? && tail == s[Piece(s).value..]
    ensures Lex(s, blank) == Lex(tail, blank || SeveralLines(s))
  {
    BlockFront(s, blank, Piece(s).value);
    PrependNothing(Lex(tail, blank || SeveralLines(s)));
  }

  lemma PhasedBlock(s: string, blank: bool, tail: string)
    requires Starts(s, '/', '*') && Piece(s).Some? && tail == s[Piece(s).value..]
    ensures Phased(s, blank) == Phased(tail, blank)
  {
    if Strip(tail).Some? {
      ReadBlank(Strip(tail).value, blank);
    }
  }

  lemma BlockComment(s: string, blank: bool)
    requires Starts(s, '/', '*')
    ensures Piece(s).None? ==> Lex(s, blank) == None && Phased(s, blank) == None
    ensures Piece(s).Some? ==>
              var tail := s[Piece(s).value..];
              Lex(s, blank) == Lex(tail, blank || SeveralLines(s)) && Phased(s, blank) == Phased(tail, blank)
  {
    if Piece(s).Some? {
      LexBlock(s, blank, s[Piece(s).value..]);
      PhasedBlock(s, blank, s[Piece(s).value..]);
    }
  }

  lemma ReadFirst(c: char, u: string, blank: bool)
    ensures
      var front := ReadFront([c] + u, blank);
      front.Some? && front.value.length == 1 ==> Read([c] + u, blank) == Prepend(front.value.items, Read(u, front.value.blank))
  {
    assert ([c] + u)[1..] == u;
  }

  lemma Character(s: string, blank: bool)
    requires s != "" && !Starts(s, '/', '/') && !Starts(s, '/', '*') && Piece(s).Some?
    requires !(s[0] == '#' && blank) && !IdentifierStart(s[0])
    ensures
      var front := Front(s, blank);
      Phased(s, blank) == if front.None? then None else Prepend(front.value.items, Phased(s[1..], front.value.blank))
  {
    if Quote(s[0]) {
      if Strip(s).Some? {
        StrippedFirst(s);
      }
    } else {
      assert s[..1] == [s[0]];
      if Strip(s[1..]).Some? {
        ReadFirst(s[0], Strip(s[1..]).value, blank);
      }
    }
  }

  lemma ReadRun(t: string, k: nat, blank: bool)
    requires t != "" && IdentifierStart(t[0]) && RunLength(t) == k
    ensures Read(t, blank) == Prepend([Word(t[..k])], Read(t[k..], false))
  {
  }

  lemma Identifier(s: string, blank: bool)
    requires s != "" && IdentifierStart(s[0]) && !Unread(s)
    ensures Phased(s, blank) == Prepend([Word(s[..RunLength(s)])], Phased(s[RunLength(s)..], false))
  {
    StripName(s);
    if Strip(s).Some? {
      StrippedRun(s);
      StrippedFirst(s);
      ReadRun(Strip(s).value, RunLength(s), blank);
    }
  }

  // Where neither a comment nor a directive starts, the two find the same and go on behind it.
  lemma Code(s: string, blank: bool)
    requires s != "" && !Starts(s, '/', '/') && !Starts(s, '/', '*') && !(s[0] == '#' && blank) && Piece(s).Some?
    ensures
      var front := Front(s, blank);
      Phased(s, blank) ==
      if front.None? then None else Prepend(front.value.items, Phased(s[front.value.length..], front.value.blank))
  {
    if IdentifierStart(s[0]) {
      StripName(s);
      Identifier(s, blank);
    } else {
      Character(s, blank);
    }
  }

  // ----- A directive's line ---------------------------------------------------------------------

  lemma UntilFront(s: string, blank: bool, n: nat, front: Lexeme, tail: string)
    requires 0 < n <= |s| && Until(s, blank, n).Some? && Front(s, blank) == Some(front) && tail == s[front.length..]
    ensures front.length <= n && Until(tail, front.blank, n - front.length).Some?
    ensures Until(s, blank, n).value == front.items + Until(tail, front.blank, n - front.length).value
    ensures Lex(s, blank) == Prepend(front.items, Lex(tail, front.blank)) && tail[n - front.length..] == s[n..]
  {
    DropTwice(s, front.length, n - front.length);
  }

  lemma {:induction false} LexUntil(s: string, blank: bool, n: nat) returns (after: bool)
    requires n <= |s| && Until(s, blank, n).Some?
    ensures Lex(s, blank) == Prepend(Until(s, blank, n).value, Lex(s[n..], after))
    decreases n
  {
    if n == 0 {
      assert s[0..] == s;
      PrependNothing(Lex(s, blank));
      after := blank;
    } else {
      var front := Front(s, blank).value;
      var tail := s[front.length..];
      UntilFront(s, blank, n, front, tail);
      after := LexUntil(tail, front.blank, n - front.length);
      PrependBoth(front.items, Until(tail, front.blank, n - front.length).value, Lex(s[n..], after));
    }
  }

  lemma PrependBoth(a: seq<Item>, b: seq<Item>, more: Option<seq<Item>>)
    ensures Prepend(a, Prepend(b, more)) == Prepend(a + b, more)
  {
    if more.Some? {
      assert a + (b + more.value) == (a + b) + more.value;
    }
  }

  lemma LexBreak(s: string, next: string, blank: bool)
    requires Break(s) && next == if s == "" then "" else s[1..]
    ensures Lex(s, blank) == Lex(next, true)
  {
    if s != "" {
      PrependNothing(Lex(next, true));
    }
  }

  lemma BreakClears(s: string, blank: bool)
    requires Break(s)
    ensures Lex(s, blank) == Lex(s, true)
  {
    var next := if s == "" then "" else s[1..];
    LexBreak(s, next, blank);
    LexBreak(s, next, true);
  }

  lemma AfterLineIs(line: string, end: string)
    requires end == line[LineLength(line)..]
    ensures Break(end) && AfterLine(line) == if end == "" then "" else end[1..]
  {
    if end != "" {
      DropTwice(line, LineLength(line), 1);
    }
  }

  lemma RestBreaks(line: string)
    requires LineEnd(line).Some?
    ensures Break(Rest(line))
  {
    var x := StripLine(line);
  }

  lemma OverreadPart(line: string) returns (end: string, n: nat)
    requires LineEnd(line).Some?
    ensures end == line[LineLength(line)..] && n == LineEnd(line).value - LineLength(line) && n <= |end|
    ensures Overread(line) == Until(end, true, n)
    ensures Rest(line) == end[n..] && Break(Rest(line))
  {
    LineWithin(line);
    var l := LineLength(line);
    end, n := line[l..], LineEnd(line).value - l;
    DropTwice(line, l, n);
    RestBreaks(line);
  }

  // The scan goes on in the next line, and finds there what is overread first.
  lemma LexOverread(line: string)
    requires LineEnd(line).Some? && Overread(line).Some?
    ensures Lex(AfterLine(line), true) == Prepend(Overread(line).value, Lex(Rest(line), true))
  {
    var end, n := OverreadPart(line);
    var after := LexUntil(end, true, n);
    BreakClears(Rest(line), after);
    AfterLineIs(line, end);
    LexBreak(end, AfterLine(line), true);
  }

  lemma FrontOfHash(s: string, u: string, here: Option<(Directive, nat)>)
    requires s != "" && s[0] == '#' && s[1..] == u && here == DirectiveLine(u)
    ensures Front(s, true) == match here case None => None case Some((d, k)) => Some(Lexeme([Line(d)], 1 + k, true))
  {
  }

  // A # and the text behind it, as the scan reads them at the start of a line.
  lemma LexHash(s: string, u: string, d: Directive, k: nat, rest: string)
    requires s != "" && s[0] == '#' && s[1..] == u && DirectiveLine(u) == Some((d, k)) && u[k..] == rest
    ensures Lex(s, true) == Prepend([Line(d)], Lex(rest, true))
  {
    FrontOfHash(s, u, DirectiveLine(u));
    DropTwice(s, 1, k);
  }

  lemma LexDirectiveLine(s: string)
    requires s != "" && s[0] == '#'
    ensures
      var line := DirectiveLine(s[1..]);
      Lex(s, true) == if line.None? then None else Prepend([Line(line.value.0)], Lex(AfterLine(Behind(s[1..])), true))
  {
    var u := s[1..];
    FrontOfHash(s, u, DirectiveLine(u));
    if DirectiveLine(u).Some? {
      NextLineIs(u, Gap(u).value);
      LexHash(s, u, DirectiveLine(u).value.0, DirectiveLine(u).value.1, AfterLine(Behind(u)));
    }
  }

  lemma LexDirectiveItems(s: string)
    requires s != "" && s[0] == '#' && DirectiveLine(s[1..]).Some?
    requires LineEnd(Behind(s[1..])).Some? && Overread(Behind(s[1..])).Some?
    ensures
      var line := Behind(s[1..]);
      Lex(s, true) == Prepend([Line(DirectiveLine(s[1..]).value.0)], Prepend(Overread(line).value, Lex(Rest(line), true)))
  {
    LexDirectiveLine(s);
    LexOverread(Behind(s[1..]));
  }

  lemma DirectiveNamed(s: string, g: nat, rest: string)
    requires g <= |s| && rest == s[g..] && DirectiveAt(s, g).Some?
    ensures rest != "" && IdentifierStart(rest[0]) && Named(rest[..RunLength(rest)]).Some?
  {
    NameIs(s, g, rest);
  }

  lemma DirectiveIsRead(s: string, rest: string)
    requires DirectiveLine(s).Some? && rest == s[Gap(s).value..]
    ensures rest != "" && IdentifierStart(rest[0]) && !Unread(rest)
  {
    DirectiveNamed(s, Gap(s).value, rest);
    NamedIsRead(rest);
  }

  // The text behind #, without its comments: up to the line's end, and from there.
  lemma StripDirective(s: string) returns (x: string)
    requires DirectiveLine(s).Some? && LineEnd(Behind(s)).Some?
    ensures OneLine(x) && Strip(s) == Onto(x, Strip(Rest(Behind(s)))) && Break(Rest(Behind(s)))
  {
    var rest := s[Gap(s).value..];
    var name := rest[..RunLength(rest)];
    var b := StripGap(s, Gap(s).value, rest);
    var y := StripLine(Behind(s));
    DirectiveIsRead(s, rest);
    StripName(rest);
    RunInLine(rest);
    OntoOnto(name, y, Strip(Rest(Behind(s))));
    OntoOnto(b, name + y, Strip(Rest(Behind(s))));
    x := b + (name + y);
  }

  lemma PhasedDirectiveLine(s: string)
    requires s != "" && s[0] == '#' && Gap(s[1..]).Some?
    ensures DirectiveLine(s[1..]).None? ==> Phased(s, true) == None
    ensures DirectiveLine(s[1..]).Some? && LineEnd(Behind(s[1..])).Some? ==>
              Phased(s, true) == Prepend([Line(DirectiveLine(s[1..]).value.0)], Phased(Rest(Behind(s[1..])), true))
    ensures LineEnd(Behind(s[1..])).None? ==> Phased(s, true) == None
  {
    var u := s[1..];
    StripFirst(s);
    if Strip(u).Some? {
      DirectiveAgrees(u);
      ReadDirective(Strip(u).value);
    } else if DirectiveLine(u).Some? && LineEnd(Behind(u)).Some? {
      var x := StripDirective(u);
    }
  }

  lemma ReadHash(s: string, t: string, line: Option<(Directive, nat)>)
    requires s != "" && s[0] == '#' && s[1..] == t && line == DirectiveAt(t, Blanks(t))
    ensures ReadFront(s, true) == match line case None => None case Some((d, k)) => Some(Lexeme([Line(d)], 1 + k, true))
  {
  }

  lemma ReadDirective(t: string)
    ensures
      var line := DirectiveAt(t, Blanks(t));
      Read(['#'] + t, true) == if line.None? then None else Prepend([Line(line.value.0)], Read(t[line.value.1..], true))
  {
    var s, line := ['#'] + t, DirectiveAt(t, Blanks(t));
    ReadHash(s, t, line);
    if line.Some? {
      DropTwice(s, 1, line.value.1);
    }
  }

  // ----- Regular texts --------------------------------------------------------------------------

  // Whether the line is still blank matters to the scan only if a # comes next.
  lemma {:induction false} BlankMatters(s: string)
    requires HashNext(s).None?
    ensures Lex(s, true) == Lex(s, false)
    decreases |s|
  {
    if s != "" && Starts(s, '/', '*') {
      BlockComment(s, true);
      BlockComment(s, false);
      if Piece(s).Some? && !SeveralLines(s) {
        BlankMatters(s[Piece(s).value..]);
      }
    } else if s != "" && Horizontal(s[0]) {
      BlankMatters(s[1..]);
    } else if Starts(s, '/', '/') {
      LineComment(s, true);
      LineComment(s, false);
      LineCommentEnds(s);
      BreakClears(s[2 + LineLength(s[2..])..], false);
    }
  }

  lemma LineCommentEnds(s: string)
    requires Starts(s, '/', '/')
    ensures Break(s[2 + LineLength(s[2..])..])
  {
    DropTwice(s, 2, LineLength(s[2..]));
  }

  lemma DirectiveIsPhased(s: string)
    requires s != "" && s[0] == '#' && Regular(s, true)
    requires DirectiveLine(s[1..]).Some? ==> Lex(Rest(Behind(s[1..])), true) == Phased(Rest(Behind(s[1..])), true)
    ensures Lex(s, true) == Phased(s, true)
  {
    PhasedDirectiveLine(s);
    if DirectiveLine(s[1..]).Some? {
      LexDirectiveItems(s);
      PrependNothing(Lex(Rest(Behind(s[1..])), true));
    } else {
      LexDirectiveLine(s);
    }
  }

  // In a regular text the scan in one pass finds the items of phase 3 followed by phase 4.
  lemma {:induction false} OnePassIsPhased(s: string, blank: bool)
    requires Regular(s, blank)
    ensures Lex(s, blank) == Phased(s, blank)
    decreases |s|
  {
    if s == "" {
    } else if Starts(s, '/', '/') {
      LineComment(s, blank);
      OnePassIsPhased(s[2 + LineLength(s[2..])..], blank);
    } else if Starts(s, '/', '*') {
      BlockComment(s, blank);
      if Piece(s).Some? {
        var tail := s[Piece(s).value..];
        OnePassIsPhased(tail, blank);
        if SeveralLines(s) && !blank {
          BlankMatters(tail);
        }
      }
    } else if s[0] == '#' && blank {
      if DirectiveLine(s[1..]).Some? {
        OnePassIsPhased(Rest(Behind(s[1..])), true);
      }
      DirectiveIsPhased(s);
    } else {
      Code(s, blank);
      var front := Front(s, blank);
      if front.Some? {
        OnePassIsPhased(s[front.value.length..], front.value.blank);
      }
    }
  }

  // ----- Other texts ----------------------------------------------------------------------------

  // The number of directives.
  function Lines(items: seq<Item>): nat {
    if items == [] then 0 else Lines(items[1..]) + if items[0].Line? then 1 else 0
  }

  lemma {:induction false} LinesConcat(a: seq<Item>, b: seq<Item>)
    ensures Lines(a + b) == Lines(a) + Lines(b)
    decreases |a|
  {
    if a == [] {
      assert a + b == b;
    } else {
      LinesConcat(a[1..], b);
      assert (a + b)[1..] == a[1..] + b;
    }
  }

  // More directives, or as many and more items.
  predicate Exceeds(a: seq<Item>, b: seq<Item>) {
    Lines(a) > Lines(b) || (Lines(a) == Lines(b) && |a| > |b|)
  }

  lemma ExceedsBehind(items: seq<Item>, a: seq<Item>, b: seq<Item>)
    requires Exceeds(a, b)
    ensures Exceeds(items + a, items + b)
  {
    LinesConcat(items, a);
    LinesConcat(items, b);
  }

  lemma ExceedsMore(items: seq<Item>, a: seq<Item>, b: seq<Item>)
    requires Exceeds(a, b) || (a == b && items != [])
    ensures Exceeds(items + a, b)
  {
    LinesConcat(items, a);
  }

  lemma BeforeHash(s: string, tail: string)
    requires s != "" && (Horizontal(s[0]) || Starts(s, '/', '*')) && Piece(s).Some? && tail == s[Piece(s).value..]
    ensures Lex(s, true) == Lex(tail, true) && Phased(s, false) == Phased(tail, false)
  {
    if Starts(s, '/', '*') {
      BlockComment(s, true);
      BlockComment(s, false);
    } else {
      Code(s, false);
      PrependNothing(Lex(tail, true));
      PrependNothing(Phased(tail, false));
    }
  }

  lemma HashStep(s: string, tail: string, k: nat)
    requires HashNext(s) == Some(k) && s[0] != '#' && Piece(s).Some? ==> tail == s[Piece(s).value..]
    requires HashNext(s) == Some(k) && s[0] != '#'
    ensures Piece(s).Some? && (Horizontal(s[0]) || Starts(s, '/', '*'))
    ensures Piece(s).value <= k && HashNext(tail) == Some(k - Piece(s).value) && tail[k - Piece(s).value..] == s[k..]
  {
    DropTwice(s, Piece(s).value, k - Piece(s).value);
  }

  // Up to a # that comes next, nothing is found.
  lemma {:induction false} ToHash(s: string, hash: string)
    requires HashNext(s).Some? && hash == s[HashNext(s).value..]
    ensures hash[0] == '#' && Lex(s, true) == Lex(hash, true) && Phased(s, false) == Phased(hash, false)
    decreases |s|
  {
    if s[0] == '#' {
      assert s[0..] == s;
    } else {
      var tail := s[Piece(s).value..];
      HashStep(s, tail, HashNext(s).value);
      BeforeHash(s, tail);
      ToHash(tail, hash);
    }
  }

  // The rest of a line that is not blank has no directive.
  lemma {:induction false} ReadLine(x: string, rest: string)
    requires OneLine(x) && Break(rest) && Read(x + rest, false).Some?
    ensures Read(rest, true).Some? && Lines(Read(x + rest, false).value) == Lines(Read(rest, true).value)
    decreases |x|
  {
    if x == "" {
      assert x + rest == rest;
      var next := if rest == "" then "" else rest[1..];
      ReadBreak(rest, false);
      ReadBreak(rest, true);
    } else {
      var t := x + rest;
      var front := ReadFront(t, false).value;
      ReadWithin(x, rest);
      assert t[front.length..] == x[front.length..] + rest;
      ReadLine(x[front.length..], rest);
      LinesConcat(front.items, Read(t[front.length..], false).value);
    }
  }

  lemma ReadWithin(x: string, rest: string)
    requires x != "" && OneLine(x) && Break(rest) && ReadFront(x + rest, false).Some?
    ensures
      var front := ReadFront(x + rest, false).value;
      front.length <= |x| && !front.blank && Lines(front.items) == 0
  {
    RunWithin(x, rest);
  }

  lemma {:induction false} RunWithin(x: string, rest: string)
    requires Break(rest)
    ensures RunLength(x + rest) <= |x|
    decreases |x|
  {
    if x == "" {
      assert x + rest == rest;
    } else {
      RunWithin(x[1..], rest);
      assert (x + rest)[1..] == x[1..] + rest;
    }
  }

  lemma PhasedAsWord(s: string, u: string)
    requires s != "" && s[0] == '#' && u == s[1..] && Phased(s, false).Some?
    ensures Phased(u, false).Some? && Lines(Phased(s, false).value) == Lines(Phased(u, false).value)
  {
    Code(s, false);
    LinesConcat([Word("#")], Phased(u, false).value);
  }

  // Behind code, the rest of a directive's line is words.
  lemma LineOfWords(u: string, rest: string)
    requires DirectiveLine(u).Some? && LineEnd(Behind(u)).Some? && rest == Rest(Behind(u)) && Phased(u, false).Some?
    ensures Phased(rest, true).Some? && Lines(Phased(u, false).value) == Lines(Phased(rest, true).value)
  {
    var x := StripDirective(u);
    StrippedFirst(rest);
    ReadLine(x, Strip(rest).value);
  }

  lemma PhasedHash(s: string, u: string, rest: string)
    requires s != "" && s[0] == '#' && u == s[1..] && Phased(s, false).Some?
    requires DirectiveLine(u).Some? && LineEnd(Behind(u)).Some? && rest == Rest(Behind(u))
    ensures Phased(rest, true).Some? && Lines(Phased(s, false).value) == Lines(Phased(rest, true).value)
  {
    PhasedAsWord(s, u);
    LineOfWords(u, rest);
  }

  // Behind code the phases take a # and the rest of its line for words, and the scan for a directive.
  lemma HashBehindCode(s: string, rest: string)
    requires s != "" && s[0] == '#' && Lex(s, true).Some? && Phased(s, false).Some? && LineInStep(s[1..])
    requires Gap(s[1..]).Some? && LineEnd(Behind(s[1..])).Some? && rest == Rest(Behind(s[1..]))
    requires Lex(rest, true).Some? && Phased(rest, true).Some? ==>
               Lines(Lex(rest, true).value) >= Lines(Phased(rest, true).value)
    ensures Exceeds(Lex(s, true).value, Phased(s, false).value)
  {
    LexDirectiveLine(s);
    PhasedHash(s, s[1..], rest);
    LexDirectiveItems(s);
    var line := [Line(DirectiveLine(s[1..]).value.0)];
    LinesConcat(Overread(Behind(s[1..])).value, Lex(rest, true).value);
    LinesConcat(line, Overread(Behind(s[1..])).value + Lex(rest, true).value);
  }

  // More than the phases find, or the same: the same in regular texts.
  ghost predicate Compared(s: string, blank: bool) {
    Lex(s, blank).Some? && Phased(s, blank).Some? ==>
      if Regular(s, blank) then Lex(s, blank) == Phased(s, blank) else Exceeds(Lex(s, blank).value, Phased(s, blank).value)
  }

  // Behind a # as well, a text without open comments has a line that ends.
  lemma PhasedLineEnds(s: string)
    requires s != "" && s[0] == '#' && DirectiveLine(s[1..]).Some? && Strip(s).Some?
    ensures LineEnd(Behind(s[1..])).Some?
  {
    var rest := s[1..][Gap(s[1..]).value..];
    StripFirst(s);
    var b := StripGap(s[1..], Gap(s[1..]).value, rest);
    DirectiveIsRead(s[1..], rest);
    StripName(rest);
    LineEnds(Behind(s[1..]));
  }

  lemma HashCompared(hash: string)
    requires hash != "" && hash[0] == '#' && Lex(hash, true).Some? && Phased(hash, false).Some? && LineInStep(hash[1..])
    requires Gap(hash[1..]).Some? && LineEnd(Behind(hash[1..])).Some? ==> Compared(Rest(Behind(hash[1..])), true)
    ensures Exceeds(Lex(hash, true).value, Phased(hash, false).value)
  {
    LexDirectiveLine(hash);
    PhasedLineEnds(hash);
    HashBehindCode(hash, Rest(Behind(hash[1..])));
  }

  lemma CommentCompared(s: string, tail: string, hash: string)
    requires Starts(s, '/', '*') && Piece(s).Some? && tail == s[Piece(s).value..] && SeveralLines(s)
    requires HashNext(tail).Some? && hash == tail[HashNext(tail).value..] && LineInStep(hash[1..])
    requires Gap(hash[1..]).Some? && LineEnd(Behind(hash[1..])).Some? ==> Compared(Rest(Behind(hash[1..])), true)
    ensures Compared(s, false)
  {
    BlockComment(s, false);
    ToHash(tail, hash);
    if Lex(s, false).Some? && Phased(s, false).Some? {
      HashCompared(hash);
    }
  }

  lemma DirectiveCompared(s: string)
    requires s != "" && s[0] == '#' && LineInStep(s[1..])
    requires
      Gap(s[1..]).Some? && LineEnd(Behind(s[1..])).Some? ==> Compared(Rest(Behind(s[1..])), true)
    ensures Compared(s, true)
  {
    LexDirectiveLine(s);
    if DirectiveLine(s[1..]).Some? && Lex(s, true).Some? && Phased(s, true).Some? {
      var line, here := Behind(s[1..]), [Line(DirectiveLine(s[1..]).value.0)];
      PhasedDirectiveLine(s);
      PhasedLineEnds(s);
      LexDirectiveItems(s);
      var found, more, phased := Overread(line).value, Lex(Rest(line), true).value, Phased(Rest(line), true).value;
      if Regular(s, true) {
        DirectiveIsPhased(s);
      } else {
        assert found != [] || !Regular(Rest(line), true);
        ExceedsMore(found, more, phased);
        ExceedsBehind(here, found + more, phased);
      }
    }
  }

  lemma CodeCompared(s: string, blank: bool)
    requires s != "" && !Starts(s, '/', '/') && !Starts(s, '/', '*') && !(s[0] == '#' && blank)
    requires Front(s, blank).Some? ==> Compared(s[Front(s, blank).value.length..], Front(s, blank).value.blank)
    ensures Compared(s, blank)
  {
    var front := Front(s, blank);
    if front.Some? && Lex(s, blank).Some? && Phased(s, blank).Some? {
      Code(s, blank);
      var tail, next := s[front.value.length..], front.value.blank;
      if !Regular(tail, next) {
        ExceedsBehind(front.value.items, Lex(tail, next).value, Phased(tail, next).value);
      }
    }
  }

  // In step with the lines, the scan finds more than the phases in every text that is not regular.
  lemma {:induction false} InStepCompared(s: string, blank: bool)
    requires InStep(s, blank)
    ensures Compared(s, blank)
    decreases |s|, 1
  {
    if s == "" {
    } else if Starts(s, '/', '/') {
      LineComment(s, blank);
      InStepCompared(s[2 + LineLength(s[2..])..], blank);
    } else if Starts(s, '/', '*') {
      BlockInStepCompared(s, blank);
    } else if s[0] == '#' && blank {
      var line := s[1..];
      if Gap(line).Some? && LineEnd(Behind(line)).Some? {
        InStepCompared(Rest(Behind(line)), true);
      }
      DirectiveCompared(s);
    } else {
      var front := Front(s, blank);
      if front.Some? {
        InStepCompared(s[front.value.length..], front.value.blank);
      }
      CodeCompared(s, blank);
    }
  }

  lemma {:induction false} BlockInStepCompared(s: string, blank: bool)
    requires Starts(s, '/', '*') && InStep(s, blank)
    ensures Compared(s, blank)
    decreases |s|, 0
  {
    BlockComment(s, blank);
    if Piece(s).Some? {
      var tail := s[Piece(s).value..];
      if SeveralLines(s) && !blank && HashNext(tail).Some? {
        var hash := tail[HashNext(tail).value..];
        DropTwice(tail, HashNext(tail).value, 1);
        if Gap(hash[1..]).Some? && LineEnd(Behind(hash[1..])).Some? {
          InStepCompared(Rest(Behind(hash[1..])), true);
        }
        CommentCompared(s, tail, hash);
      } else {
        InStepCompared(tail, blank);
        TailCompared(s, tail, blank);
      }
    }
  }

  lemma TailCompared(s: string, tail: string, blank: bool)
    requires Starts(s, '/', '*') && Piece(s).Some? && tail == s[Piece(s).value..]
    requires !(SeveralLines(s) && !blank && HashNext(tail).Some?) && Compared(tail, blank)
    ensures Compared(s, blank)
  {
    BlockComment(s, blank);
    if SeveralLines(s) && !blank {
      BlankMatters(tail);
    }
  }

  // Where the scan gets through a text in step with its lines, it finds what the phases find exactly if the
  // text is regular.
  lemma OnePassIsExact(s: string, blank: bool)
    requires Lex(s, blank).Some? && InStep(s, blank)
    ensures Lex(s, blank) == Phased(s, blank) <==> Regular(s, blank)
  {
    InStepCompared(s, blank);
    if Regular(s, blank) {
      OnePassIsPhased(s, blank);
    }
  }
}

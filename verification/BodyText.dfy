// The characters of a primitive's source body (src/DavC310TargetRecipe.cpp:2002-2011, 2041-2099 and
// 2260-2316), after line splicing: one pass finds comments, conditional directives and tokens.  The
// reference is translation phases 3 and 4 of section 5.2 of ISO/IEC 14882:2017, one after the other.
module BodyText {
  import opened Primitives
  import opened ConditionalReturns

  // ----- Characters -----------------------------------------------------------------------------

  predicate IdentifierStart(c: char) {
    'a' <= c <= 'z' || 'A' <= c <= 'Z' || c == '_'
  }

  predicate IdentifierPart(c: char) {
    IdentifierStart(c) || '0' <= c <= '9'
  }

  predicate Horizontal(c: char) {
    c == ' ' || c == '\t' || c == '\U{0B}' || c == '\U{0C}'
  }

  predicate Quote(c: char) {
    c == '"' || c == '\''
  }

  // Letters, digits and the low line; blank, tabs and form feed; the two quotes, by their ASCII codes.
  lemma CharacterClasses(c: char)
    ensures
      var code := c as int;
      && (IdentifierStart(c) <==> 97 <= code <= 122 || 65 <= code <= 90 || code == 95)
      && (IdentifierPart(c) <==> 97 <= code <= 122 || 65 <= code <= 90 || code == 95 || 48 <= code <= 57)
      && (Horizontal(c) <==> code == 32 || code == 9 || code == 11 || code == 12)
      && (Quote(c) <==> code == 34 || code == 39)
  {
  }

  predicate Starts(s: string, a: char, b: char) {
    |s| > 1 && s[0] == a && s[1] == b
  }

  // The length of the identifier characters at the front.
  function RunLength(s: string): (k: nat)
    ensures k <= |s|
  {
    if s == "" || !IdentifierPart(s[0]) then 0 else 1 + RunLength(s[1..])
  }

  // The length of the rest of the line.
  function LineLength(s: string): (k: nat)
    ensures k <= |s| && (k < |s| ==> s[k] == '\n')
  {
    if s == "" || s[0] == '\n' then 0 else 1 + LineLength(s[1..])
  }

  // Where a block comment's end mark is.
  function Close(s: string): (k: Option<nat>)
    ensures k.Some? ==> k.value + 2 <= |s|
  {
    if |s| < 2 then None
    else if Starts(s, '*', '/') then Some(0)
    else match Close(s[1..]) case None => None case Some(k) => Some(k + 1)
  }

  function Named(name: string): Option<Directive> {
    if name == "if" || name == "ifdef" || name == "ifndef" then Some(If)
    else if name == "elif" || name == "elifdef" || name == "elifndef" then Some(Elif)
    else if name == "else" then Some(Else)
    else if name == "endif" then Some(Endif)
    else None
  }

  // The directives of conditional inclusion, and no others.
  lemma DirectiveNames(name: string)
    ensures Named(name) == Some(If) <==> name in {"if", "ifdef", "ifndef"}
    ensures Named(name) == Some(Elif) <==> name in {"elif", "elifdef", "elifndef"}
    ensures Named(name) == Some(Else) <==> name == "else"
    ensures Named(name) == Some(Endif) <==> name == "endif"
  {
  }

  function Prepend(items: seq<Item>, more: Option<seq<Item>>): Option<seq<Item>> {
    match more case None => None case Some(rest) => Some(items + rest)
  }

  // ----- One pass -------------------------------------------------------------------------------

  // The blanks and one-line comments between # and the directive's name.
  function Gap(s: string): (k: Option<nat>)
    ensures k.Some? ==> k.value <= |s|
    decreases |s|
  {
    if s != "" && Horizontal(s[0]) then
      match Gap(s[1..]) case None => None case Some(k) => Some(k + 1)
    else if Starts(s, '/', '*') then
      match Close(s[2..])
      case None => None
      case Some(end) =>
        if '\n' in s[2..end + 2] then None
        else match Gap(s[end + 4..]) case None => None case Some(k) => Some(end + 4 + k)
    else Some(0)
  }

  // The directive after a #, and where the next line starts.
  function DirectiveLine(s: string): (r: Option<(Directive, nat)>)
    ensures r.Some? ==> r.value.1 <= |s|
  {
    match Gap(s) case None => None case Some(gap) => DirectiveAt(s, gap)
  }

  function DirectiveAt(s: string, gap: nat): (r: Option<(Directive, nat)>)
    requires gap <= |s|
    ensures r.Some? ==> r.value.1 <= |s|
  {
    if gap == |s| || !IdentifierStart(s[gap]) || Named(NameAt(s, gap)).None? then None
    else Some((Named(NameAt(s, gap)).value, NextLine(s, gap)))
  }

  function NameAt(s: string, gap: nat): string
    requires gap <= |s|
  {
    s[gap..gap + RunLength(s[gap..])]
  }

  // The start of the line after a directive whose name is there.
  function NextLine(s: string, gap: nat): (end: nat)
    requires gap <= |s|
    ensures end <= |s|
  {
    var after := gap + RunLength(s[gap..]);
    var end := after + LineLength(s[after..]);
    if end < |s| then end + 1 else end
  }

  // What is at the front of a text that is not empty: its items, its length, and whether the line is still
  // blank behind it.
  datatype Lexeme = Lexeme(items: seq<Item>, length: nat, blank: bool)

  function Front(s: string, blank: bool): (r: Option<Lexeme>)
    requires s != ""
    ensures r.Some? ==> 0 < r.value.length <= |s|
  {
    var c := s[0];
    if c == '\n' then Some(Lexeme([], 1, true))
    else if Horizontal(c) then Some(Lexeme([], 1, blank))
    else if Starts(s, '/', '/') then Some(Lexeme([], 2 + LineLength(s[2..]), blank))
    else if Starts(s, '/', '*') then
      match Close(s[2..])
      case None => None
      case Some(end) => Some(Lexeme([], end + 4, blank || '\n' in s[2..end + 2]))
    else if c == '#' && blank then
      match DirectiveLine(s[1..])
      case None => None
      case Some((d, end)) => Some(Lexeme([Line(d)], 1 + end, true))
    else if Quote(c) then None
    else if IdentifierStart(c) then
      Some(Lexeme([Word(s[..RunLength(s)])], RunLength(s), false))
    else Some(Lexeme([Word([c])], 1, false))
  }

  function Lex(s: string, blank: bool): Option<seq<Item>>
    decreases |s|
  {
    if s == "" then Some([])
    else match Front(s, blank)
      case None => None
      case Some(front) => Prepend(front.items, Lex(s[front.length..], front.blank))
  }

  method SkipGap(s: string) returns (gap: Option<nat>)
    ensures gap == Gap(s)
  {
    var index, rest := 0, s;
    while true
      invariant index + |rest| == |s|
      invariant Gap(s) == match Gap(rest) case None => None case Some(k) => Some(index + k)
      decreases |rest|
    {
      if rest != "" && Horizontal(rest[0]) {
        index, rest := index + 1, rest[1..];
      } else if Starts(rest, '/', '*') {
        var close := Close(rest[2..]);
        if close.None? || '\n' in rest[2..close.value + 2] {
          return None;
        }
        index, rest := index + 4 + close.value, rest[close.value + 4..];
      } else {
        return Some(index);
      }
    }
  }

  // The scanning loop, up to the tokens and directives it hands on.
  method LexBody(source: string) returns (items: Option<seq<Item>>)
    ensures items == Lex(source, true)
  {
    var index, found: seq<Item>, lineOnlyWhitespace := 0, [], true;
    assert source[0..] == source;
    PrependNothing(Lex(source, true));
    while index < |source|
      invariant index <= |source|
      invariant Lex(source, true) == Prepend(found, Lex(source[index..], lineOnlyWhitespace))
    {
      var rest := source[index..];
      var front := Front(rest, lineOnlyWhitespace);
      if front.None? {
        return None;
      }
      LexStep(rest, lineOnlyWhitespace, found);
      assert rest[front.value.length..] == source[index + front.value.length..];
      found := found + front.value.items;
      index := index + front.value.length;
      lineOnlyWhitespace := front.value.blank;
    }
    assert source[|source|..] == "" && found + [] == found;
    return Some(found);
  }

  lemma PrependNothing(items: Option<seq<Item>>)
    ensures Prepend([], items) == items
  {
    if items.Some? {
      assert [] + items.value == items.value;
    }
  }

  lemma LexStep(s: string, blank: bool, found: seq<Item>)
    requires s != ""
    ensures
      var front := Front(s, blank);
      Prepend(found, Lex(s, blank)) ==
      if front.None? then None else Prepend(found + front.value.items, Lex(s[front.value.length..], front.value.blank))
  {
    var front := Front(s, blank);
    if front.Some? {
      var more := Lex(s[front.value.length..], front.value.blank);
      if more.Some? {
        assert found + (front.value.items + more.value) == (found + front.value.items) + more.value;
      }
    }
  }

  // ----- Phase by phase -------------------------------------------------------------------------

  function Onto(front: string, rest: Option<string>): Option<string> {
    match rest case None => None case Some(t) => Some(front + t)
  }

  // The rest of a literal: up to its quote, over escapes, and no further than its line.
  function LiteralRest(s: string, quote: char): (k: nat)
    ensures k <= |s|
  {
    if s == "" || s[0] == '\n' then 0
    else if s[0] == quote then 1
    else if s[0] == '\\' && |s| > 1 && s[1] != '\n' then 2 + LiteralRest(s[2..], quote)
    else 1 + LiteralRest(s[1..], quote)
  }

  // Blanks and block comments.
  function Space(s: string): (k: nat)
    ensures k <= |s|
    decreases |s|
  {
    if s != "" && Horizontal(s[0]) then 1 + Space(s[1..])
    else if Starts(s, '/', '*') && Close(s[2..]).Some? then
      var n := Close(s[2..]).value + 4;
      n + Space(s[n..])
    else 0
  }

  function HeaderLength(s: string): (k: nat)
    ensures k <= |s|
  {
    if s == "" || s[0] == '\n' || s[0] == '>' then 0 else 1 + HeaderLength(s[1..])
  }

  // A quote or the start of a comment.
  predicate Marked(s: string) {
    exists i :: 0 <= i < |s| && (Quote(s[i]) || Starts(s[i..], '/', '/') || Starts(s[i..], '/', '*'))
  }

  // ( and a header name that is no piece or no literal: <, and a mark up to >, or a quote, and a backslash.
  predicate MarkedHeader(s: string) {
    var paren := s[Space(s)..];
    && paren != "" && paren[0] == '('
    && var name := paren[1..][Space(paren[1..])..];
       || (name != "" && name[0] == '<' && Marked(name[1..][..HeaderLength(name[1..])]))
       || (name != "" && name[0] == '"' && '\\' in name[..LineLength(name)])
  }

  // The length of the preprocessing number at the front, but for what follows a quote.
  function NumberLength(s: string): (k: nat)
    ensures k <= |s|
  {
    if s == "" || !(IdentifierPart(s[0]) || s[0] == '.') then 0
    else if |s| > 1 && (s[0] == 'e' || s[0] == 'E' || s[0] == 'p' || s[0] == 'P') && (s[1] == '+' || s[1] == '-')
    then 2 + NumberLength(s[2..])
    else 1 + NumberLength(s[1..])
  }

  predicate RawPrefix(name: string) {
    name == "R" || name == "LR" || name == "uR" || name == "UR" || name == "u8R"
  }

  predicate HeaderTest(name: string) {
    name == "__has_include" || name == "__has_include_next"
  }

  // What the phases are not modelled for: raw strings, header names with marks in them, numbers that a quote
  // follows, and the digraph for #.
  predicate Unread(s: string)
    requires s != ""
  {
    if IdentifierStart(s[0]) then
      var name, after := s[..RunLength(s)], s[RunLength(s)..];
      (after != "" && after[0] == '"' && RawPrefix(name)) || (HeaderTest(name) && MarkedHeader(after))
    else
      var after := s[NumberLength(s)..];
      Starts(s, '%', ':') || (IdentifierPart(s[0]) && after != "" && Quote(after[0]))
  }

  // The length of the block comment, literal, identifier or character at the front, and what phase 3 leaves.
  function Piece(s: string): (n: Option<nat>)
    requires s != ""
    ensures n.Some? ==> 0 < n.value <= |s|
  {
    if Starts(s, '/', '*') then
      match Close(s[2..]) case None => None case Some(end) => Some(end + 4)
    else if Quote(s[0]) then Some(1 + LiteralRest(s[1..], s[0]))
    else if Unread(s) then None
    else if IdentifierStart(s[0]) then Some(RunLength(s))
    else Some(1)
  }

  function Residue(s: string, n: nat): string
    requires n <= |s|
  {
    if Starts(s, '/', '*') then " " else s[..n]
  }

  // Phase 3: each comment becomes a space, or ends before the end of its line; literals keep theirs.
  function Strip(s: string): Option<string>
    decreases |s|
  {
    if s == "" then Some("")
    else if Starts(s, '/', '/') then Strip(s[2 + LineLength(s[2..])..])
    else match Piece(s) case None => None case Some(n) => Onto(Residue(s, n), Strip(s[n..]))
  }

  function Blanks(t: string): (k: nat)
    ensures k <= |t|
  {
    if t == "" || !Horizontal(t[0]) then 0 else 1 + Blanks(t[1..])
  }

  // Phase 4: directives take a line that starts with #, after blanks; the rest are tokens.
  function ReadFront(t: string, blank: bool): (r: Option<Lexeme>)
    requires t != ""
    ensures r.Some? ==> 0 < r.value.length <= |t|
  {
    var c := t[0];
    if c == '\n' then Some(Lexeme([], 1, true))
    else if Horizontal(c) then Some(Lexeme([], 1, blank))
    else if c == '#' && blank then
      match DirectiveAt(t[1..], Blanks(t[1..]))
      case None => None
      case Some((d, end)) => Some(Lexeme([Line(d)], 1 + end, true))
    else if Quote(c) then None
    else if IdentifierStart(c) then Some(Lexeme([Word(t[..RunLength(t)])], RunLength(t), false))
    else Some(Lexeme([Word([c])], 1, false))
  }

  function Read(t: string, blank: bool): Option<seq<Item>>
    decreases |t|
  {
    if t == "" then Some([])
    else match ReadFront(t, blank)
      case None => None
      case Some(front) => Prepend(front.items, Read(t[front.length..], front.blank))
  }

  function Phased(s: string, blank: bool): Option<seq<Item>> {
    match Strip(s) case None => None case Some(t) => Read(t, blank)
  }
}

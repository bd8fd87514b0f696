// The token matcher exactPrimitiveReturnTokens (src/DavC310TargetRecipe.cpp:2101-2165): a run of tokens is
// a sequence of complete returns of one primitive applied to the function's parameters in order.
module ReturnTokens {
  import opened Primitives

  type Token = string

  // ----- Sequences of statements ----------------------------------------------------------------

  // The tokens are n statements, one after the other.
  ghost predicate Sequence(statement: seq<Token> -> bool, tokens: seq<Token>, n: nat)
    decreases n
  {
    if n == 0 then tokens == []
    else exists k :: 0 < k <= |tokens| && statement(tokens[..k]) && Sequence(statement, tokens[k..], n - 1)
  }

  lemma {:induction false} SequenceConcat(statement: seq<Token> -> bool, a: seq<Token>, n: nat, b: seq<Token>, m: nat)
    requires Sequence(statement, a, n) && Sequence(statement, b, m)
    ensures Sequence(statement, a + b, n + m)
    decreases n
  {
    if n == 0 {
      assert a + b == b;
    } else {
      var k :| 0 < k <= |a| && statement(a[..k]) && Sequence(statement, a[k..], n - 1);
      SequenceConcat(statement, a[k..], n - 1, b, m);
      assert (a + b)[..k] == a[..k] && (a + b)[k..] == a[k..] + b;
    }
  }

  // ----- Primitive returns ----------------------------------------------------------------------

  // The primitive and the parameter names the matcher is asked about.
  datatype Target = Target(kind: Kind, parameters: seq<Token>) {
    ghost predicate Valid() {
      |parameters| == Arity(kind)
    }
  }

  predicate Callee(kind: Kind, token: Token) {
    match kind
    case Exp => token == "exp" || token == "expf" || token == "__expf"
    case Rsqrt => token == "rsqrt" || token == "rsqrtf" || token == "__frsqrt_rn"
    case Divide => token == "__fdividef"
  }

  // One complete return statement of the target.  A division may be spelled as a call or with '/'; a
  // parameter that is itself called __fdividef can only be divided by the call.
  predicate IsReturn(target: Target, s: seq<Token>)
    requires target.Valid()
  {
    var p := target.parameters;
    if target.kind.Divide? then
      || s == ["return", "__fdividef", "(", p[0], ",", p[1], ")", ";"]
      || (s == ["return", p[0], "/", p[1], ";"] && p[0] != "__fdividef")
    else
      |s| == 6 && Callee(target.kind, s[1]) && s == ["return", s[1], "(", p[0], ")", ";"]
  }

  ghost function Statement(target: Target): seq<Token> -> bool
    requires target.Valid()
  {
    s => IsReturn(target, s)
  }

  // The matcher's reading of one statement (lines 2138-2161): its length, or zero when it rejects.
  function Leading(target: Target, rest: seq<Token>): (length: nat)
    requires target.Valid()
    ensures length <= |rest|
    ensures length > 0 ==> IsReturn(target, rest[..length])
    ensures forall k :: 0 < k <= |rest| && IsReturn(target, rest[..k]) ==> k == length
  {
    var p := target.parameters;
    if target.kind.Divide? then
      if |rest| > 1 && rest[1] == "__fdividef" then
        if |rest| >= 8 && rest[..8] == ["return", "__fdividef", "(", p[0], ",", p[1], ")", ";"] then 8 else 0
      else if |rest| >= 5 && rest[..5] == ["return", p[0], "/", p[1], ";"] then
        assert rest[1] == rest[..5][1];
        5
      else 0
    else if |rest| >= 6 && Callee(target.kind, rest[1]) && rest[..6] == ["return", rest[1], "(", p[0], ")", ";"] then 6
    else 0
  }

  // The number of returns the tokens are, when they are returns.
  function Count(target: Target, tokens: seq<Token>): Option<nat>
    requires target.Valid()
    decreases |tokens|
  {
    if tokens == [] then Some(0)
    else
      var length := Leading(target, tokens);
      if length == 0 then None
      else match Count(target, tokens[length..])
        case None => None
        case Some(n) => Some(n + 1)
  }

  lemma {:induction false} CountedAreReturns(target: Target, tokens: seq<Token>)
    requires target.Valid() && Count(target, tokens).Some?
    ensures Sequence(Statement(target), tokens, Count(target, tokens).value)
    decreases |tokens|
  {
    if tokens != [] {
      var length := Leading(target, tokens);
      CountedAreReturns(target, tokens[length..]);
      assert Statement(target)(tokens[..length]);
    }
  }

  lemma {:induction false} ReturnsAreCounted(target: Target, tokens: seq<Token>, n: nat)
    requires target.Valid() && Sequence(Statement(target), tokens, n)
    ensures Count(target, tokens) == Some(n)
    decreases n
  {
    if n > 0 {
      var statement := Statement(target);
      var k :| 0 < k <= |tokens| && statement(tokens[..k]) && Sequence(statement, tokens[k..], n - 1);
      assert k == Leading(target, tokens);
      ReturnsAreCounted(target, tokens[k..], n - 1);
    }
  }

  // The count is that of the only way to read the tokens as returns, and is missing when there is none.
  lemma CountIsExact(target: Target, tokens: seq<Token>)
    requires target.Valid()
    ensures Count(target, tokens).Some? ==> Sequence(Statement(target), tokens, Count(target, tokens).value)
    ensures forall n: nat :: Sequence(Statement(target), tokens, n) ==> Count(target, tokens) == Some(n)
  {
    if Count(target, tokens).Some? {
      CountedAreReturns(target, tokens);
    }
    forall n: nat | Sequence(Statement(target), tokens, n)
      ensures Count(target, tokens) == Some(n)
    {
      ReturnsAreCounted(target, tokens, n);
    }
  }

  // The matcher's loop (lines 2137-2164).
  method CountReturns(target: Target, tokens: seq<Token>) returns (count: Option<nat>)
    requires target.Valid()
    ensures count == Count(target, tokens)
    ensures count.Some? ==> Sequence(Statement(target), tokens, count.value)
    ensures forall n: nat :: Sequence(Statement(target), tokens, n) ==> count == Some(n)
  {
    CountIsExact(target, tokens);
    var rest, n := tokens, 0;
    while |rest| > 0
      invariant Count(target, tokens) ==
                match Count(target, rest) case None => None case Some(more) => Some(n + more)
      decreases |rest|
    {
      var length := Leading(target, rest);
      if length == 0 {
        return None;
      }
      rest, n := rest[length..], n + 1;
    }
    return Some(n);
  }
}

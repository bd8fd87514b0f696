// The scan for helper symbols in a text (src/DeviceAggregateInlining.cpp:148-153).
module SymbolScan {
  import opened Primitives

  predicate Identifier(c: char) {
    'a' <= c <= 'z' || 'A' <= c <= 'Z' || '0' <= c <= '9' || c == '_' || c == '$'
  }

  // The letters and digits of ASCII, the low line and the dollar sign, by their codes.
  lemma IdentifierCharacters(c: char)
    ensures
      var code := c as int;
      Identifier(c) <==> 97 <= code <= 122 || 65 <= code <= 90 || 48 <= code <= 57 || code == 95 || code == 36
  {
  }

  predicate MatchAt(text: string, symbol: string, i: nat) {
    i + |symbol| <= |text| && text[i..i + |symbol|] == symbol
  }

  // No identifier character touches the match on either side.
  predicate Alone(text: string, symbol: string, i: nat)
    requires MatchAt(text, symbol, i)
  {
    && (i == 0 || !Identifier(text[i - 1]))
    && (i + |symbol| == |text| || !Identifier(text[i + |symbol|]))
  }

  ghost predicate OccursWhole(text: string, symbol: string) {
    exists i: nat :: MatchAt(text, symbol, i) && Alone(text, symbol, i)
  }

  // The first match at or after a position.
  function Find(text: string, symbol: string, at: nat): (found: Option<nat>)
    ensures found.Some? ==> found.value >= at && MatchAt(text, symbol, found.value)
    ensures forall i :: at <= i < (if found.Some? then found.value else |text| + 1) ==> !MatchAt(text, symbol, i)
    decreases |text| - at
  {
    if at + |symbol| > |text| then None
    else if MatchAt(text, symbol, at) then Some(at)
    else Find(text, symbol, at + 1)
  }

  // Whether a symbol is reported absent by a scan that starts at a position and goes on after the whole of
  // each match it rejects.
  predicate Absent(text: string, symbol: string, at: nat)
    requires symbol != ""
    decreases |text| - at
  {
    match Find(text, symbol, at)
    case None => true
    case Some(i) => !Alone(text, symbol, i) && Absent(text, symbol, i + |symbol|)
  }

  // ----- When skipping is safe ------------------------------------------------------------------

  // The symbol can follow itself k characters on, there preceded by a character that is not an identifier's.
  predicate Overlaps(symbol: string, k: nat) {
    0 < k < |symbol| && symbol[k..] == symbol[..|symbol| - k] && !Identifier(symbol[k - 1])
  }

  predicate Skippable(symbol: string) {
    forall k: nat :: k < |symbol| ==> !Overlaps(symbol, k)
  }

  lemma IdentifiersAreSkippable(symbol: string)
    requires forall c <- symbol :: Identifier(c)
    ensures Skippable(symbol)
  {
    forall k: nat | k < |symbol|
      ensures !Overlaps(symbol, k)
    {
      assert k > 0 ==> symbol[k - 1] in symbol;
    }
  }

  // Two matches less than a symbol apart make it overlap itself, preceded by the same character.
  lemma MatchesOverlap(text: string, symbol: string, i: nat, j: nat)
    requires MatchAt(text, symbol, i) && MatchAt(text, symbol, j) && i < j < i + |symbol|
    requires !Identifier(text[j - 1])
    ensures Overlaps(symbol, j - i)
  {
    var k, n := j - i, |symbol|;
    forall l | 0 <= l < n - k
      ensures symbol[k..][l] == symbol[..n - k][l]
    {
      assert text[i..i + n][k + l] == text[j + l] == text[j..j + n][l];
    }
    assert text[i..i + n][k - 1] == text[j - 1];
  }

  lemma {:induction false} AbsentIsExact(text: string, symbol: string, at: nat)
    requires symbol != "" && Skippable(symbol)
    requires forall j: nat :: j < at && MatchAt(text, symbol, j) ==> !Alone(text, symbol, j)
    ensures Absent(text, symbol, at) <==> !OccursWhole(text, symbol)
    decreases |text| - at
  {
    var found := Find(text, symbol, at);
    if found.Some? && !Alone(text, symbol, found.value) {
      var i := found.value;
      forall j: nat | j < i + |symbol| && MatchAt(text, symbol, j)
        ensures !Alone(text, symbol, j)
      {
        if i < j && !Identifier(text[j - 1]) {
          MatchesOverlap(text, symbol, i, j);
        }
      }
      AbsentIsExact(text, symbol, i + |symbol|);
    }
  }

  // A text in which the scan passes over a whole occurrence: a rejected match that runs into it.
  function Overlapping(symbol: string, k: nat): string
    requires 0 < k < |symbol|
  {
    "a" + symbol + symbol[|symbol| - k..]
  }

  lemma OverlappingText(symbol: string, k: nat)
    requires Overlaps(symbol, k)
    ensures
      var text := Overlapping(symbol, k);
      MatchAt(text, symbol, 1) && MatchAt(text, symbol, 1 + k) && Alone(text, symbol, 1 + k) && !MatchAt(text, symbol, 0)
  {
    var text, n := Overlapping(symbol, k), |symbol|;
    assert text[1..1 + n] == symbol;
    forall l | 0 <= l < n
      ensures text[1 + k + l] == symbol[l]
    {
      if l < n - k {
        assert text[1 + k + l] == symbol[k..][l] == symbol[..n - k][l];
      } else {
        assert text[1 + k + l] == symbol[n - k..][l - (n - k)];
      }
    }
    assert text[1 + k..1 + k + n] == symbol;
    assert text[k] == symbol[k - 1];
    if MatchAt(text, symbol, 0) {
      AllSame(text, symbol, k - 1);
    }
  }

  lemma {:induction false} AllSame(text: string, symbol: string, l: nat)
    requires MatchAt(text, symbol, 0) && MatchAt(text, symbol, 1) && text[0] == 'a' && l < |symbol|
    ensures symbol[l] == 'a'
    decreases l
  {
    assert text[..|symbol|][l] == text[l];
    if l > 0 {
      AllSame(text, symbol, l - 1);
      assert text[1..1 + |symbol|][l - 1] == text[l];
    }
  }

  lemma SkipMisses(symbol: string, k: nat)
    requires Overlaps(symbol, k)
    ensures Absent(Overlapping(symbol, k), symbol, 0) && OccursWhole(Overlapping(symbol, k), symbol)
  {
    var text := Overlapping(symbol, k);
    OverlappingText(symbol, k);
    assert Find(text, symbol, 0) == Some(1);
    assert Identifier(text[0]) && !Alone(text, symbol, 1);
    assert Find(text, symbol, 1 + |symbol|) == None;
  }

  // The scan is right about a symbol in every text exactly when the symbol does not overlap itself after a
  // character that is not an identifier's.
  lemma ScanIsExact(symbol: string)
    requires symbol != ""
    ensures (forall text :: Absent(text, symbol, 0) <==> !OccursWhole(text, symbol)) <==> Skippable(symbol)
  {
    if Skippable(symbol) {
      forall text
        ensures Absent(text, symbol, 0) <==> !OccursWhole(text, symbol)
      {
        AbsentIsExact(text, symbol, 0);
      }
    } else {
      var k: nat :| k < |symbol| && Overlaps(symbol, k);
      SkipMisses(symbol, k);
    }
  }

  // ----- The scan -------------------------------------------------------------------------------

  method ScanSymbol(text: string, symbol: string) returns (absent: bool)
    requires symbol != ""
    ensures absent == Absent(text, symbol, 0)
  {
    var at := 0;
    var found := Find(text, symbol, at);
    while found.Some?
      invariant found == Find(text, symbol, at) && Absent(text, symbol, 0) == Absent(text, symbol, at)
      decreases |text| - at
    {
      var i, end := found.value, found.value + |symbol|;
      if (i == 0 || !Identifier(text[i - 1])) && (end == |text| || !Identifier(text[end])) {
        return false;
      }
      at := end;
      found := Find(text, symbol, at);
    }
    return true;
  }

  method SymbolsDisjoint(text: string, helperSymbols: set<string>) returns (disjoint: bool)
    requires "" !in helperSymbols
    ensures disjoint <==> forall symbol :: symbol in helperSymbols ==> Absent(text, symbol, 0)
    ensures (forall symbol :: symbol in helperSymbols ==> Skippable(symbol)) ==>
              (disjoint <==> forall symbol :: symbol in helperSymbols ==> !OccursWhole(text, symbol))
  {
    forall symbol | symbol in helperSymbols && Skippable(symbol)
      ensures Absent(text, symbol, 0) <==> !OccursWhole(text, symbol)
    {
      AbsentIsExact(text, symbol, 0);
    }
    var left := helperSymbols;
    while left != {}
      invariant left <= helperSymbols
      invariant forall symbol :: symbol in helperSymbols && symbol !in left ==> Absent(text, symbol, 0)
      decreases |left|
    {
      var symbol :| symbol in left;
      var absent := ScanSymbol(text, symbol);
      if !absent {
        return false;
      }
      left := left - {symbol};
    }
    return true;
  }
}

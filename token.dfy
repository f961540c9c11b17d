/** Model of token.c: splitting an input line into tokens the way strtok does. */
module Token {
  import opened Opt

  /** MAX_NUM_TOKENS in token.h */
  const MaxNumTokens := 1000

  /** The delimiter set handed to strtok: space, comma and tab. */
  predicate IsDelimiter(c: char) {
    c == ' ' || c == ',' || c == '\t'
  }

  /** Scan(s) == (closed, pending): the tokens already ended by a delimiter, and the run of
      non-delimiters at the end of s that has not been ended yet. */
  function Scan(s: string): (seq<string>, string)
  {
    if s == [] then ([], [])
    else
      var (closed, pending) := Scan(s[..|s| - 1]);
      var c := s[|s| - 1];
      if IsDelimiter(c) then
        (if pending == [] then closed else closed + [pending], [])
      else
        (closed, pending + [c])
  }

  /** The tokens strtok returns for s, in order. */
  function Tokens(s: string): seq<string> {
    var (closed, pending) := Scan(s);
    if pending == [] then closed else closed + [pending]
  }

  /** The characters of s that are not delimiters, in order. */
  function NonDelimiters(s: string): string {
    if s == [] then []
    else NonDelimiters(s[..|s| - 1]) + (if IsDelimiter(s[|s| - 1]) then [] else [s[|s| - 1]])
  }

  /** Concatenation of a list of strings. */
  function Flatten(ts: seq<string>): string {
    if ts == [] then [] else Flatten(ts[..|ts| - 1]) + ts[|ts| - 1]
  }

  predicate WellFormedToken(t: string) {
    t != [] && forall c :: c in t ==> !IsDelimiter(c)
  }

  lemma {:induction false} ScanFacts(s: string)
    ensures forall t :: t in Scan(s).0 ==> WellFormedToken(t)
    ensures forall c :: c in Scan(s).1 ==> !IsDelimiter(c)
    ensures Flatten(Scan(s).0) + Scan(s).1 == NonDelimiters(s)
  {
    if s != [] {
      var s' := s[..|s| - 1];
      var c := s[|s| - 1];
      ScanFacts(s');
      var (closed, pending) := Scan(s');
      if IsDelimiter(c) {
        if pending != [] {
          assert (closed + [pending])[..|closed|] == closed;
          assert Flatten(closed + [pending]) == Flatten(closed) + pending;
        }
      } else {
        assert Flatten(closed) + (pending + [c]) == (Flatten(closed) + pending) + [c];
      }
    }
  }

  /** Every token is non-empty and holds no delimiter: runs of delimiters never produce empty tokens. */
  lemma TokensWellFormed(s: string)
    ensures forall t :: t in Tokens(s) ==> WellFormedToken(t)
  {
    ScanFacts(s);
  }

  /** The tokens, concatenated in order, are exactly the non-delimiter characters of the input. */
  lemma TokensConcatenate(s: string)
    ensures Flatten(Tokens(s)) == NonDelimiters(s)
  {
    ScanFacts(s);
    var (closed, pending) := Scan(s);
    if pending != [] {
      assert (closed + [pending])[..|closed|] == closed;
    }
  }

  lemma {:induction false} NonDelimitersEmpty(s: string)
    ensures NonDelimiters(s) == [] <==> forall c :: c in s ==> IsDelimiter(c)
  {
    if s != [] {
      NonDelimitersEmpty(s[..|s| - 1]);
      assert s == s[..|s| - 1] + [s[|s| - 1]];
    }
  }

  lemma {:induction false} FlattenEmpty(ts: seq<string>)
    requires forall t :: t in ts ==> t != []
    ensures Flatten(ts) == [] <==> ts == []
  {
    if ts != [] {
      assert ts[|ts| - 1] in ts;
    }
  }

  /** An empty input, or one made only of delimiters, yields no token, and only such inputs do. */
  lemma NoTokensIffOnlyDelimiters(s: string)
    ensures Tokens(s) == [] <==> forall c :: c in s ==> IsDelimiter(c)
  {
    TokensWellFormed(s);
    TokensConcatenate(s);
    FlattenEmpty(Tokens(s));
    NonDelimitersEmpty(s);
  }

  /** The tokens closed while scanning a prefix are a prefix of the tokens of the whole input. */
  lemma {:induction false} ClosedIsPrefix(s: string, i: nat)
    requires i <= |s|
    ensures Scan(s[..i]).0 <= Tokens(s)
    decreases |s| - i
  {
    if i == |s| {
      assert s[..i] == s;
    } else {
      ClosedIsPrefix(s, i + 1);
      assert s[..i + 1][..i] == s[..i];
    }
  }

  /** One character of the strtok loop: a delimiter ends the pending token, if any, which is
      then the next token of the whole input; any other character extends it. */
  lemma ScanChar(s: string, i: nat, n: nat, tok: string)
    requires i < |s| && n <= |Tokens(s)| && Scan(s[..i]) == (Tokens(s)[..n], tok)
    ensures IsDelimiter(s[i]) && tok != [] ==>
              n < |Tokens(s)| && Tokens(s)[n] == tok && Scan(s[..i + 1]) == (Tokens(s)[..n + 1], [])
    ensures IsDelimiter(s[i]) && tok == [] ==> Scan(s[..i + 1]) == (Tokens(s)[..n], [])
    ensures !IsDelimiter(s[i]) ==> Scan(s[..i + 1]) == (Tokens(s)[..n], tok + [s[i]])
  {
    ClosedIsPrefix(s, i + 1);
    assert s[..i + 1][..i] == s[..i];
    var closed' := Scan(s[..i + 1]).0;
    if IsDelimiter(s[i]) && tok != [] {
      assert closed' == Tokens(s)[..n] + [tok];
      assert Tokens(s)[n] == closed'[n] == tok;
      assert closed' == Tokens(s)[..n + 1];
    }
  }

  /** initialiseToken: every one of the MAX_NUM_TOKENS slots becomes NULL. */
  method InitialiseToken(token: array<Option<string>>)
    requires token.Length >= MaxNumTokens
    modifies token
    ensures forall j :: 0 <= j < MaxNumTokens ==> token[j] == None
    ensures forall j :: MaxNumTokens <= j < token.Length ==> token[j] == old(token[j])
  {
    for i := 0 to MaxNumTokens
      invariant forall j :: 0 <= j < i ==> token[j] == None
      invariant forall j :: MaxNumTokens <= j < token.Length ==> token[j] == old(token[j])
    {
      token[i] := None;
    }
  }

  /** tokeniseWhiteSpace: the strtok loop stores each token in the next slot; the count is
      returned, or -1 once it exceeds MAX_NUM_TOKENS. The slots are written before that bound
      is checked, so the buffer must hold every token. The input is a C string, so it holds
      no NUL character. */
  method TokeniseWhiteSpace(input: string, token: array<Option<string>>) returns (r: int)
    requires '\0' !in input
    requires |Tokens(input)| <= token.Length
    modifies token
    ensures r == if |Tokens(input)| > MaxNumTokens then -1 else |Tokens(input)|
    ensures forall j :: 0 <= j < |Tokens(input)| ==> token[j] == Some(Tokens(input)[j])
    ensures forall j :: |Tokens(input)| <= j < token.Length ==> token[j] == old(token[j])
  {
    var nTokens := 0;
    var tok: string := [];
    var i := 0;
    while i < |input|
      invariant 0 <= i <= |input|
      invariant nTokens <= |Tokens(input)|
      invariant Scan(input[..i]) == (Tokens(input)[..nTokens], tok)
      invariant forall j :: 0 <= j < nTokens ==> token[j] == Some(Tokens(input)[j])
      invariant forall j :: nTokens <= j < token.Length ==> token[j] == old(token[j])
    {
      ScanChar(input, i, nTokens, tok);
      if IsDelimiter(input[i]) {
        if tok != [] {
          token[nTokens] := Some(tok);
          nTokens := nTokens + 1;
        }
        tok := [];
      } else {
        tok := tok + [input[i]];
      }
      i := i + 1;
    }
    assert input[..i] == input;
    if tok != [] {
      token[nTokens] := Some(tok);
      nTokens := nTokens + 1;
    }
    if nTokens > MaxNumTokens {
      return -1;
    }
    return nTokens;
  }
}

/** getNextJsonArrayValue: the atoms of a printed nested array, one at a time. */
module JsonTokeniser {
  import opened Text

  const NUL: char := '\0'

  /** The character a C string shows at position i: its own, or the terminating NUL. */
  function At(s: string, i: nat): char
    requires i <= |s|
  {
    if i == |s| then NUL else s[i]
  }

  predicate IsDelimiter(c: char) {
    c == ',' || c == '[' || c == ']'
  }

  predicate IsSkipped(c: char) {
    IsDelimiter(c) || c == ' '
  }

  /** The first character at or after i that is not skipped; the NUL at the end stops as well. */
  function SkipDelimiters(s: string, i: nat): (j: nat)
    requires i <= |s|
    ensures i <= j <= |s| && !IsSkipped(At(s, j))
    decreases |s| - i
  {
    if IsSkipped(At(s, i)) then SkipDelimiters(s, i + 1) else i
  }

  /** The first delimiter at or after i, or |s|. */
  function TokenEnd(s: string, i: nat): (j: nat)
    requires i <= |s|
    ensures i <= j <= |s| && (j < |s| ==> IsDelimiter(s[j]))
    decreases |s| - i
  {
    if i == |s| || IsDelimiter(s[i]) then i else TokenEnd(s, i + 1)
  }

  /** Does a call at position i find a token? */
  predicate HasToken(s: string, i: nat)
    requires i <= |s|
  {
    var j := SkipDelimiters(s, i);
    At(s, j) != NUL && TokenEnd(s, j + 1) < |s|
  }

  /** Everything the driving loop reads from position i on. */
  function TokensFrom(s: string, i: nat): seq<string>
    requires i <= |s|
    decreases |s| - i
  {
    if !HasToken(s, i) then []
    else
      var j := SkipDelimiters(s, i);
      var e := TokenEnd(s, j + 1);
      [Slice(s, j, e)] + TokensFrom(s, e + 1)
  }

  /** One call. The cursor moves past the token's delimiter, never past cend. */
  method GetNextJsonArrayValue(msg: string, cptr0: nat) returns (found: bool, token: string, cptr: nat)
    requires cptr0 <= |msg|
    ensures found <==> HasToken(msg, cptr0)
    ensures found ==> cptr0 < cptr <= |msg| && TokensFrom(msg, cptr0) == [token] + TokensFrom(msg, cptr)
    ensures !found ==> TokensFrom(msg, cptr0) == []
  {
    var cend := |msg|;
    token := "";
    cptr := cptr0;
    // skip delims
    while At(msg, cptr) != NUL && IsSkipped(At(msg, cptr))
      invariant cptr0 <= cptr <= cend
      invariant SkipDelimiters(msg, cptr0) == SkipDelimiters(msg, cptr)
      decreases cend - cptr
    {
      cptr := cptr + 1;
    }
    if At(msg, cptr) == NUL {
      return false, token, cptr;
    }
    var begin := cptr;
    cptr := cptr + 1;
    while cptr <= cend && !IsDelimiter(At(msg, cptr))
      invariant begin < cptr <= cend + 1
      invariant cptr <= cend ==> TokenEnd(msg, begin + 1) == TokenEnd(msg, cptr)
      invariant cptr > cend ==> TokenEnd(msg, begin + 1) == cend
      decreases cend + 1 - cptr
    {
      cptr := cptr + 1;
    }
    if cptr <= cend {
      token := Slice(msg, begin, cptr);
      cptr := cptr + 1;
      return true, token, cptr;
    }
    return false, token, cptr;
  }

  /** The driving loop. */
  method AllTokens(msg: string) returns (tokens: seq<string>)
    ensures tokens == TokensFrom(msg, 0)
  {
    tokens := [];
    var cptr := 0;
    var found, token, next := GetNextJsonArrayValue(msg, cptr);
    while found
      invariant cptr <= |msg|
      invariant tokens + TokensFrom(msg, cptr) == TokensFrom(msg, 0)
      invariant found <==> HasToken(msg, cptr)
      invariant found ==> cptr < next <= |msg| && TokensFrom(msg, cptr) == [token] + TokensFrom(msg, next)
      decreases |msg| - cptr
    {
      Assoc(tokens, [token], TokensFrom(msg, next));
      tokens := tokens + [token];
      cptr := next;
      found, token, next := GetNextJsonArrayValue(msg, cptr);
    }
    Unit(tokens);
  }

  // ---------- printed nested arrays ----------

  datatype Json = Atom(text: string) | Array(items: seq<Json>)

  /** Elements are separated by a comma and `pad` (any number of spaces). */
  function Print(t: Json, pad: string): string
    decreases t, 0
  {
    match t
    case Atom(text) => text
    case Array(items) => ['['] + PrintItems(items, pad) + [']']
  }

  function PrintItems(items: seq<Json>, pad: string): string
    decreases items, 1
  {
    if items == [] then ""
    else if |items| == 1 then Print(items[0], pad)
    else Print(items[0], pad) + ([','] + pad) + PrintItems(items[1..], pad)
  }

  function Flatten(t: Json): seq<string>
    decreases t, 0
  {
    match t
    case Atom(text) => [text]
    case Array(items) => FlattenItems(items)
  }

  function FlattenItems(items: seq<Json>): seq<string>
    decreases items, 1
  {
    if items == [] then [] else Flatten(items[0]) + FlattenItems(items[1..])
  }

  /** An atom the tokeniser can tell from its surroundings. */
  ghost predicate ValidAtom(text: string) {
    && text != "" && text[0] != ' '
    && forall i :: 0 <= i < |text| ==> !IsDelimiter(text[i]) && text[i] != NUL
  }

  ghost predicate ValidTree(t: Json)
    decreases t
  {
    match t
    case Atom(text) => ValidAtom(text)
    case Array(items) => forall i :: 0 <= i < |items| ==> ValidTree(items[i])
  }

  ghost predicate Spaces(pad: string) {
    forall i :: 0 <= i < |pad| ==> pad[i] == ' '
  }

  // ---------- stepping over pieces of the text ----------

  /** The text p stands at position i. */
  predicate Stands(s: string, i: nat, p: string) {
    i + |p| <= |s| && Slice(s, i, i + |p|) == p
  }

  lemma StandsApart(s: string, i: nat, p: string, q: string)
    requires Stands(s, i, p + q)
    ensures Stands(s, i, p) && Stands(s, i + |p|, q)
  {
    var k := i + |p|;
    SliceSplit(s, i, k, k + |q|);
    Unappend(Slice(s, i, k), Slice(s, k, k + |q|), p, q);
  }

  lemma StandsChar(s: string, i: nat, c: char)
    requires Stands(s, i, [c])
    ensures s[i] == c
  {
    assert Slice(s, i, i + 1) == "" + [s[i]];
    assert Slice(s, i, i + 1)[0] == [c][0];
  }

  lemma SkipOne(s: string, i: nat)
    requires i < |s| && IsSkipped(s[i])
    ensures TokensFrom(s, i) == TokensFrom(s, i + 1)
  {
  }

  lemma {:induction false} SkipSpaces(s: string, i: nat, pad: string)
    requires Stands(s, i, pad) && Spaces(pad)
    ensures TokensFrom(s, i) == TokensFrom(s, i + |pad|)
    decreases |pad|
  {
    if pad != "" {
      var rest := pad[1..];
      assert pad == [' '] + rest;
      StandsApart(s, i, [' '], rest);
      StandsChar(s, i, ' ');
      SkipOne(s, i);
      SkipSpaces(s, i + 1, rest);
    }
  }

  lemma {:induction false} TokenEndIs(s: string, i: nat, e: nat)
    requires i <= e < |s| && IsDelimiter(s[e])
    requires forall j :: i <= j < e ==> !IsDelimiter(s[j])
    ensures TokenEnd(s, i) == e
    decreases e - i
  {
    if i < e {
      TokenEndIs(s, i + 1, e);
    }
  }

  /** A valid atom in front of a delimiter is the next token. */
  lemma AtomToken(s: string, i: nat, text: string)
    requires Stands(s, i, text) && ValidAtom(text)
    requires i + |text| < |s| && IsDelimiter(s[i + |text|])
    ensures TokensFrom(s, i) == [text] + TokensFrom(s, i + |text|)
  {
    var e := i + |text|;
    SliceIs(s, i, e);
    assert forall j :: 0 <= j < |text| ==> s[i + j] == text[j];
    assert forall j :: i <= j < e ==> s[j] == text[j - i];
    assert s[i] == text[0];
    TokenEndIs(s, i + 1, e);
    SkipOne(s, e);
  }

  /** The comma and the spaces between two pieces are stepped over. */
  lemma SkipSeparator(s: string, k: nat, pad: string)
    requires Stands(s, k, [','] + pad) && Spaces(pad)
    ensures k < |s| && IsDelimiter(s[k])
    ensures TokensFrom(s, k) == TokensFrom(s, k + 1 + |pad|)
  {
    StandsApart(s, k, [','], pad);
    StandsChar(s, k, ',');
    SkipOne(s, k);
    SkipSpaces(s, k + 1, pad);
  }

  lemma SeparatedTokens(s: string, i: nat, first: string, pad: string, rest: string) returns (j: nat)
    requires Stands(s, i, first + ([','] + pad) + rest) && Spaces(pad)
    ensures j == i + |first| + 1 + |pad| && Stands(s, i, first) && Stands(s, j, rest)
    ensures i + |first| < |s| && IsDelimiter(s[i + |first|])
    ensures TokensFrom(s, i + |first|) == TokensFrom(s, j)
  {
    var separator := [','] + pad;
    j := i + |first| + 1 + |pad|;
    StandsApart(s, i, first + separator, rest);
    StandsApart(s, i, first, separator);
    SkipSeparator(s, i + |first|, pad);
  }

  // ---------- the law ----------

  lemma {:induction false} TreeTokens(s: string, i: nat, t: Json, pad: string, p: string)
    requires p == Print(t, pad) && Stands(s, i, p) && ValidTree(t) && Spaces(pad)
    requires t.Atom? ==> i + |p| < |s| && IsDelimiter(s[i + |p|])
    ensures TokensFrom(s, i) == Flatten(t) + TokensFrom(s, i + |p|)
    decreases t, 0
  {
    match t
    case Atom(text) => AtomToken(s, i, text);
    case Array(items) =>
      var inner := PrintItems(items, pad);
      BracketedTokens(s, i, inner);
      ItemsTokens(s, i + 1, items, pad, inner);
  }

  lemma BracketedTokens(s: string, i: nat, inner: string)
    requires Stands(s, i, ['['] + inner + [']'])
    ensures Stands(s, i + 1, inner) && i + 1 + |inner| < |s| && IsDelimiter(s[i + 1 + |inner|])
    ensures TokensFrom(s, i) == TokensFrom(s, i + 1)
    ensures TokensFrom(s, i + 1 + |inner|) == TokensFrom(s, i + 1 + |inner| + 1)
  {
    StandsApart(s, i, ['['] + inner, [']']);
    StandsApart(s, i, ['['], inner);
    StandsChar(s, i, '[');
    StandsChar(s, i + 1 + |inner|, ']');
    SkipOne(s, i);
    SkipOne(s, i + 1 + |inner|);
  }

  lemma {:induction false} ItemsTokens(s: string, i: nat, items: seq<Json>, pad: string, p: string)
    requires p == PrintItems(items, pad) && Stands(s, i, p) && Spaces(pad)
    requires forall k :: 0 <= k < |items| ==> ValidTree(items[k])
    requires i + |p| < |s| && IsDelimiter(s[i + |p|])
    ensures TokensFrom(s, i) == FlattenItems(items) + TokensFrom(s, i + |p|)
    decreases items, 1
  {
    if items == [] {
      Unit(TokensFrom(s, i));
    } else if |items| == 1 {
      TreeTokens(s, i, items[0], pad, p);
      assert items[1..] == [];
      Unit(Flatten(items[0]));
    } else {
      var first, rest := Print(items[0], pad), PrintItems(items[1..], pad);
      var j := SeparatedTokens(s, i, first, pad, rest);
      TreeTokens(s, i, items[0], pad, first);
      ItemsTokens(s, j, items[1..], pad, rest);
      Assoc(Flatten(items[0]), FlattenItems(items[1..]), TokensFrom(s, i + |p|));
    }
  }

  /** Tokenising a printed array yields its atoms from left to right, and nothing else. */
  lemma ArrayLaw(t: Json, pad: string)
    requires t.Array? && ValidTree(t) && Spaces(pad)
    ensures TokensFrom(Print(t, pad), 0) == Flatten(t)
  {
    var s := Print(t, pad);
    SliceIs(s, 0, |s|);
    assert s[0..|s|] == s;
    TreeTokens(s, 0, t, pad, s);
    Unit(Flatten(t));
  }

  /** An atom that is not inside an array is not reported at all: no delimiter ends it. */
  lemma BareAtom(text: string, pad: string)
    requires ValidAtom(text)
    ensures TokensFrom(Print(Atom(text), pad), 0) == []
  {
    NoDelimiter(text, 1);
  }

  lemma {:induction false} NoDelimiter(s: string, i: nat)
    requires i <= |s| && forall j :: i <= j < |s| ==> !IsDelimiter(s[j])
    ensures TokenEnd(s, i) == |s|
    decreases |s| - i
  {
    if i < |s| {
      NoDelimiter(s, i + 1);
    }
  }

  /** Spaces in front of a token are skipped, others belong to it; a NUL ends the text where a token is
      due, but not inside one. */
  lemma SpacesAndNul()
    ensures TokensFrom("[ a b ,", 0) == ["a b "] && TokensFrom("[\0a,", 0) == [] && TokensFrom("[a\0b,", 0) == ["a\0b"]
  {
    Token("[ a b ,", 0, 2, 6);
    Token("[a\0b,", 0, 1, 4);
    SliceIs("[ a b ,", 2, 6);
    SliceIs("[a\0b,", 1, 4);
    assert "[ a b ,"[2..6] == "a b " && "[a\0b,"[1..4] == "a\0b";
    assert SkipDelimiters("[\0a,", 0) == SkipDelimiters("[\0a,", 1) == 1;
  }

  /** One token from j to e, and nothing behind it. */
  lemma Token(s: string, i: nat, j: nat, e: nat)
    requires i <= j < e == |s| - 1 && (forall k :: i <= k < j ==> IsSkipped(s[k]))
    requires !IsSkipped(s[j]) && s[j] != NUL && IsDelimiter(s[e]) && forall k :: j < k < e ==> !IsDelimiter(s[k])
    ensures TokensFrom(s, i) == [Slice(s, j, e)]
  {
    SkipTo(s, i, j);
    TokenTo(s, j + 1, e);
    assert TokensFrom(s, e + 1) == [];
  }

  lemma {:induction false} SkipTo(s: string, i: nat, j: nat)
    requires i <= j < |s| && (forall k :: i <= k < j ==> IsSkipped(s[k])) && !IsSkipped(s[j])
    ensures SkipDelimiters(s, i) == j
    decreases j - i
  {
    if i < j {
      SkipTo(s, i + 1, j);
    }
  }

  lemma {:induction false} TokenTo(s: string, i: nat, e: nat)
    requires i <= e < |s| && IsDelimiter(s[e]) && forall k :: i <= k < e ==> !IsDelimiter(s[k])
    ensures TokenEnd(s, i) == e
    decreases e - i
  {
    if i < e {
      TokenTo(s, i + 1, e);
    }
  }
}

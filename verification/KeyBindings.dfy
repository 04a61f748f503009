/** Parsing a key binding such as "Ctrl+Alt+T" into modifiers and a key (`src/action.c`). */
module KeyBindings {

  /** A modifier mask, as the set of its bits; or-ing masks is union. */
  type Mask = set<nat>

  /** The name tables of the input library.  `keysym` gives the upper-case key for a name, 0
      when there is no such key.  Neither table knows the empty name. */
  datatype Names = Names(modifiers: map<string, Mask>, keysym: string -> nat) {
    predicate Valid() {
      "" !in modifiers && keysym("") == 0
    }

    predicate IsModifier(token: string) {
      token in modifiers
    }

    /** A token that names a key and not a modifier. */
    predicate IsKey(token: string) {
      token !in modifiers && keysym(token) != 0
    }
  }

  /** Values of the output parameters and of the success flag while parsing. */
  datatype Combo = Combo(modifiers: Mask, key: nat, ok: bool)

  // ---------- The code, token by token ----------

  ghost predicate NoPlus(s: string, from: nat, to: nat)
    requires to <= |s|
  {
    forall i :: from <= i < to ==> s[i] != '+'
  }

  /** First '+' at or after `i`, or the end of the string. */
  function TokenEnd(s: string, i: nat): (e: nat)
    requires i <= |s|
    ensures i <= e <= |s| && NoPlus(s, i, e)
    ensures e < |s| ==> s[e] == '+'
    decreases |s| - i
  {
    if i == |s| || s[i] == '+' then i else TokenEnd(s, i + 1)
  }

  /** Tokens between '+' signs, from position `start`.  A trailing '+' does not start another
      token. */
  function TokensFrom(s: string, start: nat): seq<string>
    requires start <= |s|
    decreases |s| - start
  {
    if start == |s| then []
    else
      var e := TokenEnd(s, start);
      if e == |s| then [s[start..e]] else [s[start..e]] + TokensFrom(s, e + 1)
  }

  function Tokens(s: string): seq<string> {
    TokensFrom(s, 0)
  }

  lemma TokenEndIs(s: string, start: nat, e: nat)
    requires start <= e <= |s| && NoPlus(s, start, e) && (e < |s| ==> s[e] == '+')
    ensures TokenEnd(s, start) == e
  {
  }

  function TakeToken(names: Names, c: Combo, token: string): Combo {
    if names.IsModifier(token) then c.(modifiers := c.modifiers + names.modifiers[token])
    else if c.key == 0 then c.(key := names.keysym(token))
    else c.(ok := false)
  }

  function TakeAll(names: Names, c: Combo, tokens: seq<string>): Combo
    decreases |tokens|
  {
    if tokens == [] then c else TakeAll(names, TakeToken(names, c, tokens[0]), tokens[1..])
  }

  function Parsed(names: Names, s: string): Combo {
    var c := TakeAll(names, Combo({}, 0, true), Tokens(s));
    c.(ok := c.ok && c.key != 0)
  }

  /** Scans to the next '+' or the end. */
  method FindTokenEnd(s: string, start: nat) returns (end: nat)
    requires start <= |s|
    ensures start <= end <= |s|
    ensures end == TokenEnd(s, start)
  {
    end := start;
    while end < |s| && s[end] != '+'
      invariant start <= end <= |s| && NoPlus(s, start, end)
    {
      end := end + 1;
    }
    TokenEndIs(s, start, end);
  }

  /** Tokenizing and taking in one pass, as the loop does. */
  function TakeFrom(names: Names, c: Combo, s: string, start: nat): Combo
    requires start <= |s|
    decreases |s| - start
  {
    if start == |s| then c
    else
      var e := TokenEnd(s, start);
      var next := TakeToken(names, c, s[start..e]);
      if e == |s| then next else TakeFrom(names, next, s, e + 1)
  }

  lemma TakeFirst(names: Names, c: Combo, token: string, rest: seq<string>)
    ensures TakeAll(names, c, [token] + rest) == TakeAll(names, TakeToken(names, c, token), rest)
    ensures TakeAll(names, c, [token]) == TakeToken(names, c, token)
  {
    assert ([token] + rest)[1..] == rest && [token][1..] == [];
  }

  lemma {:induction false} TakeFromIsTakeAll(names: Names, c: Combo, s: string, start: nat)
    requires start <= |s|
    ensures TakeFrom(names, c, s, start) == TakeAll(names, c, TokensFrom(s, start))
    decreases |s| - start
  {
    if start < |s| {
      var e := TokenEnd(s, start);
      var token := s[start..e];
      if e == |s| {
        TakeFirst(names, c, token, []);
      } else {
        TakeFirst(names, c, token, TokensFrom(s, e + 1));
        TakeFromIsTakeAll(names, TakeToken(names, c, token), s, e + 1);
      }
    }
  }

  /** The tokenizer: terminates on every string. */
  method Parse(names: Names, s: string) returns (ok: bool, modifiers: Mask, key: nat)
    ensures Combo(modifiers, key, ok) == Parsed(names, s)
  {
    key, modifiers := 0, {};
    var rv := true;
    var start := 0;
    while start < |s|
      invariant start <= |s|
      invariant TakeFrom(names, Combo(modifiers, key, rv), s, start) == TakeFrom(names, Combo({}, 0, true), s, 0)
    {
      var end := FindTokenEnd(s, start);
      var token := s[start..end];
      start := end;
      if token in names.modifiers {
        modifiers := modifiers + names.modifiers[token];
      } else if key == 0 {
        key := names.keysym(token);
      } else {
        rv := false;
      }
      if start == |s| {
        break;
      }
      start := start + 1;
    }
    TakeFromIsTakeAll(names, Combo({}, 0, true), s, 0);
    ok := rv && key != 0;
  }

  // ---------- Joining and splitting ----------

  function Join(tokens: seq<string>): string {
    if tokens == [] then ""
    else if |tokens| == 1 then tokens[0]
    else tokens[0] + "+" + Join(tokens[1..])
  }

  ghost predicate PlusFree(tokens: seq<string>) {
    forall i :: 0 <= i < |tokens| ==> NoPlus(tokens[i], 0, |tokens[i]|)
  }

  /** The first token of a joined list ends where it should. */
  lemma JoinedHead(prefix: string, tokens: seq<string>)
    requires PlusFree(tokens) && tokens != []
    ensures var s, e := prefix + Join(tokens), |prefix| + |tokens[0]|;
            && e <= |s|
            && TokenEnd(s, |prefix|) == e
            && s[|prefix|..e] == tokens[0]
            && (e == |s| <==> |tokens| == 1)
  {
    var s, head := prefix + Join(tokens), tokens[0];
    var e := |prefix| + |head|;
    assert NoPlus(head, 0, |head|);
    assert forall i :: 0 <= i < |head| ==> s[|prefix| + i] == Join(tokens)[i] == head[i];
    forall i | |prefix| <= i < e
      ensures s[i] != '+'
    {
      assert s[|prefix| + (i - |prefix|)] == head[i - |prefix|];
    }
    TokenEndIs(s, |prefix|, e);
  }

  lemma JoinedTail(prefix: string, tokens: seq<string>)
    requires |tokens| > 1
    ensures prefix + Join(tokens) == prefix + tokens[0] + "+" + Join(tokens[1..])
  {
  }

  /** Splitting undoes joining, for tokens without '+' of which the last is not empty. */
  lemma {:induction false} SplitJoin(prefix: string, tokens: seq<string>)
    requires PlusFree(tokens) && (tokens != [] ==> tokens[|tokens| - 1] != "")
    ensures TokensFrom(prefix + Join(tokens), |prefix|) == tokens
    decreases |tokens|
  {
    if tokens != [] {
      JoinedHead(prefix, tokens);
      assert tokens == [tokens[0]] + tokens[1..];
      if |tokens| > 1 {
        JoinedTail(prefix, tokens);
        SplitJoin(prefix + tokens[0] + "+", tokens[1..]);
      }
    }
  }

  lemma JoinCons(token: string, rest: seq<string>)
    ensures Join([token] + rest) == if rest == [] then token else token + "+" + Join(rest)
  {
    assert ([token] + rest)[1..] == rest;
  }

  lemma CutAt(s: string, start: nat, e: nat, end: nat)
    requires start <= e < end <= |s| && s[e] == '+'
    ensures s[start..e] + "+" + s[e + 1..end] == s[start..end]
  {
  }

  /** The string from `start`, without a plus sign at its end. */
  function Trimmed(s: string, start: nat): string
    requires start <= |s|
  {
    if start < |s| && s[|s| - 1] == '+' then s[start..|s| - 1] else s[start..]
  }

  lemma TokensStep(s: string, start: nat)
    requires start < |s|
    ensures var e := TokenEnd(s, start);
            TokensFrom(s, start) == [s[start..e]] + if e == |s| then [] else TokensFrom(s, e + 1)
  {
  }

  /** Joining undoes splitting, but for a trailing plus sign. */
  lemma {:induction false} JoinSplit(s: string, start: nat)
    requires start <= |s|
    ensures Join(TokensFrom(s, start)) == Trimmed(s, start)
    ensures TokensFrom(s, start) == [] <==> start == |s|
    decreases |s| - start
  {
    if start < |s| {
      var e := TokenEnd(s, start);
      TokensStep(s, start);
      if e < |s| {
        JoinSplit(s, e + 1);
        JoinStep(s, start, e, TokensFrom(s, e + 1));
      } else {
        LastToken(s, start);
      }
    }
  }

  lemma JoinStep(s: string, start: nat, e: nat, rest: seq<string>)
    requires start <= e < |s| && s[e] == '+'
    requires Join(rest) == Trimmed(s, e + 1) && (rest == [] <==> e + 1 == |s|)
    ensures Join([s[start..e]] + rest) == Trimmed(s, start)
  {
    JoinCons(s[start..e], rest);
    TrimmedCut(s, start, e);
  }

  lemma LastToken(s: string, start: nat)
    requires start < |s| && NoPlus(s, start, |s|)
    ensures Trimmed(s, start) == s[start..|s|] == Join([s[start..|s|]] + [])
  {
  }

  /** Tokens have no plus signs. */
  lemma {:induction false} SplitPlusFree(s: string, start: nat)
    requires start <= |s|
    ensures PlusFree(TokensFrom(s, start))
    decreases |s| - start
  {
    if start < |s| {
      var e := TokenEnd(s, start);
      TokensStep(s, start);
      TokenPlusFree(s, start, e);
      if e < |s| {
        SplitPlusFree(s, e + 1);
      }
    }
  }

  lemma TrimmedCut(s: string, start: nat, e: nat)
    requires start <= e < |s| && s[e] == '+'
    ensures Trimmed(s, start) == if e + 1 == |s| then s[start..e] else s[start..e] + "+" + Trimmed(s, e + 1)
  {
    if e + 1 < |s| {
      CutAt(s, start, e, if s[|s| - 1] == '+' then |s| - 1 else |s|);
    }
  }

  lemma TokenPlusFree(s: string, start: nat, e: nat)
    requires start <= e <= |s| && NoPlus(s, start, e)
    ensures NoPlus(s[start..e], 0, e - start)
  {
  }

  // ---------- What parses ----------

  /** Union of the modifiers among the tokens. */
  function Union(names: Names, tokens: seq<string>): Mask {
    if tokens == [] then {}
    else (if tokens[0] in names.modifiers then names.modifiers[tokens[0]] else {}) + Union(names, tokens[1..])
  }

  ghost predicate AllModifiers(names: Names, tokens: seq<string>, from: nat) {
    forall i :: from <= i < |tokens| ==> names.IsModifier(tokens[i])
  }

  lemma AllModifiersTail(names: Names, tokens: seq<string>, from: nat)
    requires tokens != []
    ensures AllModifiers(names, tokens[1..], from) <==> AllModifiers(names, tokens, from + 1)
  {
    assert forall i :: 0 < i < |tokens| ==> tokens[i] == tokens[1..][i - 1];
  }

  /** Once a key is known the rest must be modifiers. */
  lemma {:induction false} AfterKey(names: Names, c: Combo, tokens: seq<string>)
    requires c.key != 0
    ensures TakeAll(names, c, tokens) ==
            Combo(c.modifiers + Union(names, tokens), c.key, c.ok && AllModifiers(names, tokens, 0))
    decreases |tokens|
  {
    if tokens != [] {
      AfterKey(names, TakeToken(names, c, tokens[0]), tokens[1..]);
      AllModifiersTail(names, tokens, 0);
    }
  }

  /** `k` is the first token that names a key, and only modifiers follow it. */
  ghost predicate KeyAt(names: Names, tokens: seq<string>, k: nat) {
    && k < |tokens|
    && names.IsKey(tokens[k])
    && (forall i :: 0 <= i < k ==> !names.IsKey(tokens[i]))
    && AllModifiers(names, tokens, k + 1)
  }

  lemma {:induction false} BeforeKey(names: Names, c: Combo, tokens: seq<string>, k: nat)
    requires c.key == 0 && k <= |tokens|
    requires forall i :: 0 <= i < k ==> !names.IsKey(tokens[i])
    requires k < |tokens| ==> names.IsKey(tokens[k])
    ensures var r := TakeAll(names, c, tokens);
            && r.modifiers == c.modifiers + Union(names, tokens)
            && r.key == (if k < |tokens| then names.keysym(tokens[k]) else 0)
            && (k < |tokens| ==> (r.ok <==> c.ok && AllModifiers(names, tokens, k + 1)))
    decreases |tokens|
  {
    if tokens != [] {
      var rest, next := tokens[1..], TakeToken(names, c, tokens[0]);
      AllModifiersTail(names, tokens, k);
      if k == 0 {
        AfterKey(names, next, rest);
      } else {
        assert names.IsModifier(tokens[0]) || names.keysym(tokens[0]) == 0;
        BeforeKey(names, next, rest, k - 1);
      }
    }
  }

  /** Least position of a key name, or the number of tokens. */
  function FirstKey(names: Names, tokens: seq<string>): (k: nat)
    ensures k <= |tokens|
    ensures k < |tokens| ==> names.IsKey(tokens[k])
    ensures forall i :: 0 <= i < k ==> !names.IsKey(tokens[i])
  {
    if tokens == [] || names.IsKey(tokens[0]) then 0
    else
      var k := FirstKey(names, tokens[1..]);
      assert forall i :: 0 < i <= k ==> tokens[i] == tokens[1..][i - 1] || i == |tokens|;
      k + 1
  }

  lemma KeyAtParses(names: Names, s: string, k: nat)
    requires KeyAt(names, Tokens(s), k)
    ensures Parsed(names, s) == Combo(Union(names, Tokens(s)), names.keysym(Tokens(s)[k]), true)
  {
    BeforeKey(names, Combo({}, 0, true), Tokens(s), k);
  }

  /** Every string: parsing succeeds exactly when some token names a key and only modifiers
      follow the first such token.  Unknown names are tolerated before the key only. */
  lemma ParsesIff(names: Names, s: string)
    ensures Parsed(names, s).ok <==> KeyAt(names, Tokens(s), FirstKey(names, Tokens(s)))
    ensures Parsed(names, s).modifiers == Union(names, Tokens(s))
    ensures var k := FirstKey(names, Tokens(s));
            Parsed(names, s).key == if k < |Tokens(s)| then names.keysym(Tokens(s)[k]) else 0
  {
    BeforeKey(names, Combo({}, 0, true), Tokens(s), FirstKey(names, Tokens(s)));
  }

  /** Modifier names and exactly one key name, joined by '+' in any order, parse to the union
      of the modifiers and that key. */
  lemma {:induction false} CombinationParses(names: Names, tokens: seq<string>, k: nat)
    requires names.Valid() && PlusFree(tokens) && k < |tokens| && names.IsKey(tokens[k])
    requires forall i :: 0 <= i < |tokens| && i != k ==> names.IsModifier(tokens[i])
    ensures Parsed(names, Join(tokens)) == Combo(Union(names, tokens), names.keysym(tokens[k]), true)
  {
    SplitJoin("", tokens);
    assert "" + Join(tokens) == Join(tokens);
    KeyAtParses(names, Join(tokens), k);
  }

  /** A second key, or an unknown name, after a recognised key makes parsing fail. */
  lemma NonModifierAfterKeyFails(names: Names, s: string, i: nat, j: nat)
    requires i < j < |Tokens(s)|
    requires names.IsKey(Tokens(s)[i]) && !names.IsModifier(Tokens(s)[j])
    ensures !Parsed(names, s).ok
  {
    ParsesIff(names, s);
  }

  /** The union has exactly the bits of the modifiers present; so their order and repetition
      do not matter. */
  lemma {:induction false} UnionBits(names: Names, tokens: seq<string>, bit: nat)
    ensures bit in Union(names, tokens) <==>
            exists token :: token in tokens && names.IsModifier(token) && bit in names.modifiers[token]
  {
    if tokens != [] {
      UnionBits(names, tokens[1..], bit);
      assert forall token :: token in tokens <==> token == tokens[0] || token in tokens[1..];
    }
  }
}

/**
  Template substitution: one ReplaceAll per declared token, in the random order of a Go map
  (identity_subs.go, normalize.go).

  The reference is a single left-to-right pass that replaces every "{name}" at once. The code agrees
  with it, in every order, on flat text when no value opens a brace it does not close and no value
  contains another declared token.
 */
module Templates {
  import opened Strings

  /** name -> value; the token of a name is the name in braces. */
  type Subs = map<string, string>

  function Token(name: string): string {
    ['{'] + name + ['}']
  }

  predicate BraceFree(s: string) {
    '{' !in s && '}' !in s
  }

  /** No brace opens before the previous one closes; open says whether one is open at the start. */
  predicate Flat(s: string, open: bool) {
    s == [] || (if s[0] == '{' then !open && Flat(s[1..], true) else Flat(s[1..], open && s[0] != '}'))
  }

  /** Flat, and every brace that opens closes. */
  predicate Balanced(s: string, open: bool) {
    if s == [] then !open
    else if s[0] == '{' then !open && Balanced(s[1..], true)
    else Balanced(s[1..], open && s[0] != '}')
  }

  /** All declared tokens replaced in one simultaneous left-to-right pass. */
  function Pass(s: string, subs: Subs): string {
    if s == [] then []
    else if s[0] == '{' then
      var n := IndexOf(s[1..], '}');
      if n < |s| - 1 && s[1..][..n] in subs then subs[s[1..][..n]] + Pass(s[1..][n + 1..], subs)
      else [s[0]] + Pass(s[1..], subs)
    else [s[0]] + Pass(s[1..], subs)
  }

  /** Names are brace-free and every value is balanced. */
  ghost predicate WellFormed(subs: Subs) {
    forall n :: n in subs ==> BraceFree(n) && Balanced(subs[n], false)
  }

  /** No value contains the token of another declared name, unless that token stands for itself. */
  ghost predicate Independent(subs: Subs) {
    forall n, m :: n in subs && m in subs && n != m ==> Free(subs[n], Token(m)) || subs[m] == Token(m)
  }

  /** The declared names in some order, each once. */
  ghost predicate IsOrder(order: seq<string>, subs: Subs) {
    && (forall i, j :: 0 <= i < j < |order| ==> order[i] != order[j])
    && forall n :: n in order <==> n in subs
  }

  /** One ReplaceAll per name, in the given order. */
  function InOrder(s: string, subs: Subs, order: seq<string>): string
    requires forall n <- order :: n in subs
  {
    if order == [] then s
    else
      var n := order[|order| - 1];
      ReplaceAll(InOrder(s, subs, order[..|order| - 1]), Token(n), subs[n])
  }

  // ---- scanning facts ---------------------------------------------------------------------------

  lemma {:induction false} BalancedCloses(w: string)
    requires Balanced(w, true)
    ensures IndexOf(w, '}') < |w|
  {
    if w[0] != '}' {
      BalancedCloses(w[1..]);
    }
  }

  /** Flat text after an opening brace: a brace-free name, then either the closing brace or the end. */
  lemma {:induction false} FlatName(w: string)
    requires Flat(w, true)
    ensures var n := IndexOf(w, '}');
            '{' !in w[..n] && (n < |w| ==> Flat(w[n + 1..], false))
  {
    if w != [] && w[0] != '}' {
      FlatName(w[1..]);
      var n := IndexOf(w, '}');
      assert w[..n] == [w[0]] + w[1..][..n - 1];
      if n < |w| {
        assert w[n + 1..] == w[1..][n..];
      }
    }
  }

  lemma {:induction false} PassCopies(w: string, rest: string, subs: Subs)
    requires '{' !in w
    ensures Pass(w + rest, subs) == w + Pass(rest, subs)
  {
    if w == [] {
      assert w + rest == rest;
    } else {
      assert (w + rest)[1..] == w[1..] + rest;
      PassCopies(w[1..], rest, subs);
    }
  }

  /** A token of a brace-free name starts a text only if that text's first name is the name. */
  lemma TokenAtStart(name: string, s: string)
    requires BraceFree(name) && s != [] && s[0] == '{'
    ensures Token(name) <= s <==> IndexOf(s[1..], '}') < |s| - 1 && s[1..][..IndexOf(s[1..], '}')] == name
  {
    var w, tok := s[1..], Token(name);
    var n := IndexOf(w, '}');
    if tok <= s {
      assert s == tok + s[|tok|..];
      assert w == name + ['}'] + s[|tok|..];
      IndexOfFirst(name, '}', s[|tok|..]);
    }
    if n < |w| && w[..n] == name {
      assert s == ['{'] + w;
      assert w[..n + 1] == name + ['}'];
      assert s[..|tok|] == tok;
    }
  }

  /** A balanced prefix without the token is copied: no occurrence can straddle its end. */
  lemma {:induction false} ReplaceCopiesBalanced(v: string, open: bool, rest: string, name: string, val: string)
    requires BraceFree(name) && Balanced(v, open) && Free(v, Token(name))
    ensures ReplaceAll(v + rest, Token(name), val) == v + ReplaceAll(rest, Token(name), val)
  {
    if v == [] {
      assert v + rest == rest;
    } else {
      hide IndexOf;
      assert (v + rest)[1..] == v[1..] + rest;
      ReplaceCopiesBalanced(v[1..], if v[0] == '{' then true else open && v[0] != '}', rest, name, val);
      if v[0] == '{' {
        BalancedCloses(v[1..]);
        SameFirstName(v[1..], rest);
        TokenAtStart(name, v);
        TokenAtStart(name, v + rest);
      }
      hide Free, Balanced;
    }
  }

  lemma SameFirstName(w: string, rest: string)
    requires IndexOf(w, '}') < |w|
    ensures IndexOf(w + rest, '}') == IndexOf(w, '}')
    ensures (w + rest)[..IndexOf(w, '}')] == w[..IndexOf(w, '}')]
  {
    var n := IndexOf(w, '}');
    assert (w + rest)[n] == w[n] && forall k :: 0 <= k < n ==> (w + rest)[k] == w[k];
  }

  lemma SkipBrace(s: string, tok: string, val: string)
    requires s != [] && tok != [] && !(tok <= s)
    ensures ReplaceAll(s, tok, val) == [s[0]] + ReplaceAll(s[1..], tok, val)
  {
  }

  /** How a scan sees a brace group followed by more text. */
  lemma GroupShape(first: string, tail: string)
    requires '}' !in first
    ensures var s := Token(first) + tail;
            && s != [] && s[0] == '{' && s[1..] == first + ['}'] + tail
            && IndexOf(s[1..], '}') == |first| && s[1..][..|first|] == first && s[1..][|first| + 1..] == tail
  {
    var s := Token(first) + tail;
    assert s[1..] == first + ['}'] + tail;
    IndexOfFirst(first, '}', tail);
  }

  lemma GroupAssoc(first: string, tail: string)
    ensures ['{'] + (first + ['}'] + tail) == Token(first) + tail
  {
  }

  /** A brace group with another name is copied. */
  lemma GroupStays(first: string, tail: string, name: string, val: string)
    requires BraceFree(first) && BraceFree(name) && first != name
    ensures ReplaceAll(Token(first) + tail, Token(name), val) == Token(first) + ReplaceAll(tail, Token(name), val)
  {
    GroupShape(first, tail);
    TokenAtStart(name, Token(first) + tail);
    SkipBrace(Token(first) + tail, Token(name), val);
    ReplaceCopies(first + ['}'], tail, Token(name), val);
    GroupAssoc(first, ReplaceAll(tail, Token(name), val));
  }

  lemma PassGroup(first: string, rest: string, subs: Subs)
    requires BraceFree(first)
    ensures Pass(Token(first) + rest, subs) == (if first in subs then subs[first] else Token(first)) + Pass(rest, subs)
  {
    GroupShape(first, rest);
    PassCopies(first + ['}'], rest, subs);
    GroupAssoc(first, Pass(rest, subs));
  }

  // ---- one more token ---------------------------------------------------------------------------

  /** How the pass goes on after a first character that starts no replaced token. */
  lemma PassGoesOn(s: string, subs: Subs)
    requires s != []
    requires s[0] == '{' ==> var n := IndexOf(s[1..], '}'); n == |s| - 1 || s[1..][..n] !in subs
    ensures Pass(s, subs) == [s[0]] + Pass(s[1..], subs)
  {
    hide IndexOf;
  }

  /** Replacing one more token in the partly substituted text is one more name in the pass. */
  lemma {:induction false} ReplaceIsPass(s: string, done: Subs, name: string, val: string)
    requires Flat(s, false) && WellFormed(done) && BraceFree(name) && name !in done
    requires forall n :: n in done ==> Free(done[n], Token(name))
    ensures ReplaceAll(Pass(s, done), Token(name), val) == Pass(s, done[name := val])
    decreases |s|
  {
    hide Pass, ReplaceAll, Free, IndexOf, Flat, Balanced, BraceFree;
    if s != [] {
      var w := s[1..];
      var n := IndexOf(w, '}');
      FlatParts(s);
      if s[0] != '{' {
        ReplaceIsPass(w, done, name, val);
        PassGoesOn(s, done);
        PassGoesOn(s, done[name := val]);
        NoBraceCopied(s[0], Pass(w, done), name, val);
      } else if n == |w| {
        UnclosedStays(w, done, name, val);
        UnclosedStays(w, done[name := val], name, val);
      } else {
        ReplaceIsPass(w[n + 1..], done, name, val);
        TokenStep(w[..n], w[n + 1..], done, name, val);
      }
    } else {
      NothingStays(done, name, val);
      NothingStays(done[name := val], name, val);
    }
  }

  lemma NothingStays(subs: Subs, name: string, val: string)
    ensures Pass([], subs) == [] && ReplaceAll([], Token(name), val) == []
  {
  }

  lemma NoBraceCopied(c: char, rest: string, name: string, val: string)
    requires c != '{'
    ensures ReplaceAll([c] + rest, Token(name), val) == [c] + ReplaceAll(rest, Token(name), val)
  {
    ReplaceCopies([c], rest, Token(name), val);
  }

  /** What flat text starts with, and that the rest is flat again. */
  lemma FlatParts(s: string)
    requires s != [] && Flat(s, false)
    ensures var w, n := s[1..], IndexOf(s[1..], '}');
            if s[0] != '{' then Flat(w, false)
            else if n == |w| then BraceFree(w) && s == ['{'] + w
            else BraceFree(w[..n]) && Flat(w[n + 1..], false) && s == Token(w[..n]) + w[n + 1..]
  {
    if s[0] == '{' {
      FlatName(s[1..]);
      hide Flat, IndexOf;
      var w, n := s[1..], IndexOf(s[1..], '}');
      assert s == ['{'] + w;
      if n == |w| {
        assert w[..n] == w;
      } else {
        Regrouping(w, n);
      }
    }
  }

  lemma Regrouping(w: string, n: nat)
    requires n < |w| && w[n] == '}'
    ensures ['{'] + w == Token(w[..n]) + w[n + 1..]
  {
    assert w == w[..n] + ['}'] + w[n + 1..];
  }

  /** An unclosed brace at the end is left alone by the pass and by every replacement. */
  lemma UnclosedStays(w: string, subs: Subs, name: string, val: string)
    requires BraceFree(w) && BraceFree(name)
    ensures var s := ['{'] + w; Pass(s, subs) == s && ReplaceAll(s, Token(name), val) == s
  {
    var s := ['{'] + w;
    assert s[1..] == w && w + [] == w && IndexOf(w, '}') == |w|;
    PassGoesOn(s, subs);
    PassCopies(w, [], subs);
    assert Pass([], subs) == [] && ReplaceAll([], Token(name), val) == [];
    hide Pass, ReplaceAll;
    TokenAtStart(name, s);
    SkipBrace(s, Token(name), val);
    ReplaceCopies(w, [], Token(name), val);
  }

  lemma TokenStep(first: string, rest: string, done: Subs, name: string, val: string)
    requires BraceFree(first) && WellFormed(done) && BraceFree(name) && name !in done
    requires forall n :: n in done ==> Free(done[n], Token(name))
    requires ReplaceAll(Pass(rest, done), Token(name), val) == Pass(rest, done[name := val])
    ensures ReplaceAll(Pass(Token(first) + rest, done), Token(name), val) ==
              Pass(Token(first) + rest, done[name := val])
  {
    hide Pass;
    var tail := Pass(rest, done);
    PassGroup(first, rest, done);
    PassGroup(first, rest, done[name := val]);
    if first in done {
      ReplaceCopiesBalanced(done[first], false, tail, name, val);
    } else if first == name {
      assert (Token(name) + tail)[|Token(name)|..] == tail;
    } else {
      GroupStays(first, tail, name, val);
    }
  }

  lemma {:induction false} ReplaceSelf(s: string, tok: string)
    requires tok != []
    ensures ReplaceAll(s, tok, tok) == s
  {
    if s != [] {
      ReplaceSelf(if tok <= s then s[|tok|..] else s[1..], tok);
    }
  }

  /** A name that stands for its own token adds nothing to the pass. */
  lemma {:induction false} PassSelf(s: string, done: Subs, name: string)
    requires Flat(s, false) && BraceFree(name) && name !in done
    ensures Pass(s, done[name := Token(name)]) == Pass(s, done)
    decreases |s|
  {
    var more := done[name := Token(name)];
    if s != [] {
      if s[0] != '{' {
        PassSelf(s[1..], done, name);
      } else {
        var w := s[1..];
        var n := IndexOf(w, '}');
        FlatName(w);
        if n == |w| {
          assert w == w + [] == w[..n];
          PassCopies(w, [], done);
          PassCopies(w, [], more);
        } else {
          hide Pass, Flat;
          PassSelf(w[n + 1..], done, name);
          assert BraceFree(w[..n]) && s == Token(w[..n]) + w[n + 1..];
          PassGroup(w[..n], w[n + 1..], done);
          PassGroup(w[..n], w[n + 1..], more);
        }
      }
    }
  }

  /** One more declared token, whichever it is. */
  lemma NextToken(s: string, subs: Subs, done: Subs, name: string)
    requires Flat(s, false) && WellFormed(subs) && Independent(subs) && name in subs && name !in done
    requires forall n :: n in done ==> n in subs && subs[n] == done[n]
    ensures ReplaceAll(Pass(s, done), Token(name), subs[name]) == Pass(s, done[name := subs[name]])
  {
    hide Pass, Flat, ReplaceAll, Free, Balanced;
    if subs[name] == Token(name) {
      ReplaceSelf(Pass(s, done), Token(name));
      PassSelf(s, done, name);
    } else {
      assert WellFormed(done);
      ReplaceIsPass(s, done, name, subs[name]);
    }
  }

  lemma {:induction false} PassNothing(s: string)
    ensures Pass(s, map[]) == s
  {
    if s != [] {
      PassNothing(s[1..]);
    }
  }

  // ---- the code ---------------------------------------------------------------------------------

  /**
    resolveTemplateVars and the identity rewrite: one ReplaceAll per token in any order. On flat
    text with well-formed, independent values every order gives the simultaneous pass.
   */
  method Substitute(text: string, subs: Subs) returns (s: string)
    ensures exists order :: IsOrder(order, subs) && s == InOrder(text, subs, order)
    ensures Flat(text, false) && WellFormed(subs) && Independent(subs) ==> s == Pass(text, subs)
  {
    hide ReplaceAll, Pass, Flat, WellFormed, Independent;
    s := text;
    var rest := subs.Keys;
    ghost var order: seq<string> := [];
    while rest != {}
      invariant rest <= subs.Keys
      invariant forall i, j :: 0 <= i < j < |order| ==> order[i] != order[j]
      invariant forall n :: n in order <==> n in subs && n !in rest
      invariant s == InOrder(text, subs, order)
      decreases rest
    {
      var name :| name in rest;
      s := ReplaceAll(s, Token(name), subs[name]);
      assert (order + [name])[..|order|] == order;
      order := order + [name];
      rest := rest - {name};
    }
    assert IsOrder(order, subs);
    if Flat(text, false) && WellFormed(subs) && Independent(subs) {
      OrderGivesPass(text, subs, order);
    }
  }

  function Restricted(subs: Subs, names: seq<string>): Subs {
    map n | n in subs && n in names :: subs[n]
  }

  lemma {:induction false} InOrderIsPass(s: string, subs: Subs, order: seq<string>)
    requires Flat(s, false) && WellFormed(subs) && Independent(subs)
    requires (forall n <- order :: n in subs) && forall i, j :: 0 <= i < j < |order| ==> order[i] != order[j]
    ensures InOrder(s, subs, order) == Pass(s, Restricted(subs, order))
  {
    if order == [] {
      PassNothing(s);
      assert Restricted(subs, order) == map[];
    } else {
      hide Pass, Flat, WellFormed, Independent, ReplaceAll;
      var front, name := order[..|order| - 1], order[|order| - 1];
      InOrderIsPass(s, subs, front);
      NextToken(s, subs, Restricted(subs, front), name);
      assert Restricted(subs, front)[name := subs[name]] == Restricted(subs, order);
    }
  }

  lemma OrderGivesPass(s: string, subs: Subs, order: seq<string>)
    requires Flat(s, false) && WellFormed(subs) && Independent(subs) && IsOrder(order, subs)
    ensures InOrder(s, subs, order) == Pass(s, subs)
  {
    InOrderIsPass(s, subs, order);
    assert Restricted(subs, order) == subs;
  }

  // ---- nothing declared remains -----------------------------------------------------------------

  lemma {:induction false} FreeConcat(v: string, open: bool, rest: string, name: string)
    requires BraceFree(name) && Balanced(v, open) && Free(v, Token(name)) && Free(rest, Token(name))
    ensures Free(v + rest, Token(name))
  {
    if v == [] {
      assert v + rest == rest;
    } else {
      assert (v + rest)[1..] == v[1..] + rest && (v + rest)[0] == v[0] && Token(name)[0] == '{';
      FreeConcat(v[1..], if v[0] == '{' then true else open && v[0] != '}', rest, name);
      if v[0] == '{' {
        BalancedCloses(v[1..]);
        SameFirstName(v[1..], rest);
        TokenAtStart(name, v);
        TokenAtStart(name, v + rest);
      }
    }
  }

  lemma {:induction false} FreeCopies(w: string, rest: string, name: string)
    requires '{' !in w && Free(rest, Token(name))
    ensures Free(w + rest, Token(name))
  {
    if w == [] {
      assert w + rest == rest;
    } else {
      assert (w + rest)[1..] == w[1..] + rest && (w + rest)[0] == w[0] && Token(name)[0] == '{';
      FreeCopies(w[1..], rest, name);
    }
  }

  /** A brace group whose name is not the token's adds no occurrence. */
  lemma FreeGroup(first: string, tail: string, name: string)
    requires BraceFree(first) && BraceFree(name) && first != name && Free(tail, Token(name))
    ensures Free(Token(first) + tail, Token(name))
  {
    GroupShape(first, tail);
    FreeCopies(first + ['}'], tail, name);
    TokenAtStart(name, Token(first) + tail);
  }

  lemma FreeUnclosed(w: string, name: string)
    requires BraceFree(w) && BraceFree(name)
    ensures Free(['{'] + w, Token(name))
  {
    var s := ['{'] + w;
    assert s[1..] == w;
    FreeMeansNoOccurrence(w, Token(name));
    NoBraceIsFree(w, Token(name));
    TokenAtStart(name, s);
  }

  lemma NoBraceIsFree(w: string, tok: string)
    requires tok != [] && tok[0] !in w
    ensures Free(w, tok)
  {
  }

  /** After the pass no declared token is left anywhere, provided no value contains one. */
  lemma {:induction false} NoTokenRemains(s: string, subs: Subs, name: string)
    requires Flat(s, false) && WellFormed(subs) && name in subs
    requires forall n :: n in subs ==> Free(subs[n], Token(name))
    ensures Free(Pass(s, subs), Token(name))
    decreases |s|
  {
    if s != [] {
      if s[0] != '{' {
        NoTokenRemains(s[1..], subs, name);
        FreeCopies([s[0]], Pass(s[1..], subs), name);
      } else {
        var w := s[1..];
        var n := IndexOf(w, '}');
        FlatName(w);
        var first := w[..n];
        assert BraceFree(first);
        if n == |w| {
          assert w == w + [] == first;
          PassCopies(w, [], subs);
          FreeUnclosed(w, name);
        } else {
          hide Pass, Flat;
          NoTokenRemains(w[n + 1..], subs, name);
          assert s == Token(first) + w[n + 1..];
          NoTokenInGroup(first, w[n + 1..], subs, name);
        }
      }
    }
  }

  lemma NoTokenInGroup(first: string, rest: string, subs: Subs, name: string)
    requires BraceFree(first) && WellFormed(subs) && name in subs && Free(Pass(rest, subs), Token(name))
    requires forall n :: n in subs ==> Free(subs[n], Token(name))
    ensures Free(Pass(Token(first) + rest, subs), Token(name))
  {
    PassGroup(first, rest, subs);
    if first in subs {
      FreeConcat(subs[first], false, Pass(rest, subs), name);
    } else {
      FreeGroup(first, Pass(rest, subs), name);
    }
  }

  // ---- where the claim fails --------------------------------------------------------------------

  lemma TokenBecomes(name: string, val: string)
    ensures ReplaceAll(Token(name), Token(name), val) == val
  {
    assert Token(name)[|Token(name)|..] == [];
    assert ReplaceAll([], Token(name), val) == [];
  }

  lemma OtherTokenStays(name: string, other: string, val: string)
    requires BraceFree(name) && BraceFree(other) && name != other
    ensures ReplaceAll(Token(name), Token(other), val) == Token(name)
  {
    GroupStays(name, [], other, val);
    assert Token(name) + [] == Token(name);
  }

  lemma {:induction false} ReplaceChanges(s: string, tok: string, val: string)
    requires tok != [] && !Free(s, tok) && val != tok
    ensures ReplaceAll(s, tok, val) != s
    ensures |val| > |tok| ==> |ReplaceAll(s, tok, val)| > |s|
    ensures |val| < |tok| ==> |ReplaceAll(s, tok, val)| < |s|
  {
    if tok <= s {
      var rest := s[|tok|..];
      ReplaceLength(rest, tok, val);
      assert s == tok + rest;
      if |val| == |tok| {
        assert ReplaceAll(s, tok, val)[..|tok|] == val && s[..|tok|] == tok;
      }
    } else {
      ReplaceChanges(s[1..], tok, val);
      assert ReplaceAll(s, tok, val)[1..] == ReplaceAll(s[1..], tok, val);
    }
  }

  lemma {:induction false} ReplaceLength(s: string, tok: string, val: string)
    requires tok != []
    ensures |val| >= |tok| ==> |ReplaceAll(s, tok, val)| >= |s|
    ensures |val| <= |tok| ==> |ReplaceAll(s, tok, val)| <= |s|
  {
    if s != [] {
      ReplaceLength(if tok <= s then s[|tok|..] else s[1..], tok, val);
    }
  }

  function Both(s: string, a: string, va: string, b: string, vb: string): string {
    ReplaceAll(ReplaceAll(s, Token(a), va), Token(b), vb)
  }

  /**
    Exactly when two tokens may be replaced in either order on every flat text: neither value
    contains the other's token, unless that token is declared as itself.
   */
  lemma SwapExactly(a: string, va: string, b: string, vb: string)
    requires BraceFree(a) && BraceFree(b) && a != b && Balanced(va, false) && Balanced(vb, false)
    ensures (forall s :: Flat(s, false) ==> Both(s, a, va, b, vb) == Both(s, b, vb, a, va))
            <==> (Free(va, Token(b)) || vb == Token(b)) && (Free(vb, Token(a)) || va == Token(a))
  {
    if (Free(va, Token(b)) || vb == Token(b)) && (Free(vb, Token(a)) || va == Token(a)) {
      forall s | Flat(s, false) ensures Both(s, a, va, b, vb) == Both(s, b, vb, a, va) {
        EitherOrder(s, a, va, b, vb);
      }
    } else if Free(va, Token(b)) || vb == Token(b) {
      OneOrderDiffers(b, vb, a, va);
    } else {
      OneOrderDiffers(a, va, b, vb);
    }
  }

  lemma EitherOrder(s: string, a: string, va: string, b: string, vb: string)
    requires BraceFree(a) && BraceFree(b) && a != b && Balanced(va, false) && Balanced(vb, false) && Flat(s, false)
    requires (Free(va, Token(b)) || vb == Token(b)) && (Free(vb, Token(a)) || va == Token(a))
    ensures Both(s, a, va, b, vb) == Both(s, b, vb, a, va)
  {
    if vb == Token(b) {
      ReplaceSelf(ReplaceAll(s, Token(a), va), Token(b));
      ReplaceSelf(s, Token(b));
    } else if va == Token(a) {
      ReplaceSelf(ReplaceAll(s, Token(b), vb), Token(a));
      ReplaceSelf(s, Token(a));
    } else {
      PassNothing(s);
      ReplaceIsPass(s, map[], a, va);
      ReplaceIsPass(s, map[], b, vb);
      ReplaceIsPass(s, map[a := va], b, vb);
      ReplaceIsPass(s, map[b := vb], a, va);
      assert map[][a := va] == map[a := va] && map[][b := vb] == map[b := vb];
      assert map[a := va][b := vb] == map[b := vb][a := va];
    }
  }

  /** A value holding another declared token: the text "{a}" tells the two orders apart. */
  lemma OneOrderDiffers(a: string, va: string, b: string, vb: string)
    requires BraceFree(a) && BraceFree(b) && a != b && !Free(va, Token(b)) && vb != Token(b)
    ensures Flat(Token(a), false)
    ensures Both(Token(a), a, va, b, vb) != Both(Token(a), b, vb, a, va)
  {
    TokenBecomes(a, va);
    OtherTokenStays(a, b, vb);
    ReplaceChanges(va, Token(b), vb);
    TokenIsFlat(a);
  }

  lemma TokenIsFlat(a: string)
    requires BraceFree(a)
    ensures Flat(Token(a), false)
  {
    assert Token(a)[1..] == a + ['}'];
    NameIsFlat(a);
  }

  lemma {:induction false} NameIsFlat(a: string)
    requires BraceFree(a)
    ensures Flat(a + ['}'], true)
  {
    if a != [] {
      assert (a + ['}'])[1..] == a[1..] + ['}'];
      NameIsFlat(a[1..]);
    } else {
      assert (a + ['}'])[1..] == [];
    }
  }

  /** Whatever else is declared leaves the token of an unprocessed name alone. */
  lemma {:induction false} OthersLeaveToken(subs: Subs, order: seq<string>, name: string)
    requires WellFormed(subs) && BraceFree(name) && (forall n <- order :: n in subs) && name !in order
    ensures InOrder(Token(name), subs, order) == Token(name)
  {
    if order != [] {
      var last := order[|order| - 1];
      OthersLeaveToken(subs, order[..|order| - 1], name);
      OtherTokenStays(name, last, subs[last]);
    }
  }

  /** Any set of names can be listed. */
  lemma {:induction false} SomeListing(names: set<string>) returns (order: seq<string>)
    ensures forall i, j :: 0 <= i < j < |order| ==> order[i] != order[j]
    ensures forall n :: n in order <==> n in names
    decreases names
  {
    if names == {} {
      order := [];
    } else {
      var n :| n in names;
      order := SomeListing(names - {n});
      order := order + [n];
    }
  }

  /** Every order of the replacements gives the same result on this text. */
  ghost predicate OrdersAgree(subs: Subs, s: string) {
    forall o, p :: IsOrder(o, subs) && IsOrder(p, subs) ==> InOrder(s, subs, o) == InOrder(s, subs, p)
  }

  /** A value that holds another declared token: the text "{n}" tells two orders apart. */
  lemma ViolationShows(subs: Subs, n: string, m: string)
    requires WellFormed(subs) && n in subs && m in subs && n != m && !Free(subs[n], Token(m)) && subs[m] != Token(m)
    ensures Flat(Token(n), false) && !OrdersAgree(subs, Token(n))
  {
    hide Free, Balanced, ReplaceAll, Flat, InOrder;
    var others := SomeListing(subs.Keys - {n, m});
    var o, p := others + [n, m], others + [m, n];
    ListedIsOrder(subs, others, n, m);
    ListedIsOrder(subs, others, m, n);
    hide IsOrder;
    OthersLeaveToken(subs, others, n);
    LastTwo(Token(n), subs, others, n, m);
    LastTwo(Token(n), subs, others, m, n);
    OneOrderDiffers(n, subs[n], m, subs[m]);
    assert IsOrder(o, subs) && IsOrder(p, subs) && InOrder(Token(n), subs, o) != InOrder(Token(n), subs, p);
  }

  lemma ListedIsOrder(subs: Subs, others: seq<string>, a: string, b: string)
    requires a in subs && b in subs && a != b && forall n :: n in others <==> n in subs && n !in {a, b}
    requires forall i, j :: 0 <= i < j < |others| ==> others[i] != others[j]
    ensures IsOrder(others + [a, b], subs)
  {
    var order := others + [a, b];
    assert forall n :: n in order <==> n in others || n in {a, b};
    assert forall i :: 0 <= i < |others| ==> order[i] == others[i] && order[i] in others;
  }

  lemma LastTwo(s: string, subs: Subs, others: seq<string>, a: string, b: string)
    requires (forall n <- others :: n in subs) && a in subs && b in subs
    ensures InOrder(s, subs, others + [a, b]) == Both(InOrder(s, subs, others), a, subs[a], b, subs[b])
  {
    var all := others + [a, b];
    assert all[..|all| - 1] == others + [a] && (others + [a])[..|others|] == others;
  }

  /**
    The random order of a map of any size makes no difference on any flat text exactly if no value
    contains another declared token, self-declared tokens excepted.
   */
  lemma OrderIrrelevantExactly(subs: Subs)
    requires WellFormed(subs)
    ensures (forall s :: Flat(s, false) ==> OrdersAgree(subs, s)) <==> Independent(subs)
  {
    if Independent(subs) {
      forall s | Flat(s, false) ensures OrdersAgree(subs, s) {
        forall o, p | IsOrder(o, subs) && IsOrder(p, subs) ensures InOrder(s, subs, o) == InOrder(s, subs, p) {
          OrderGivesPass(s, subs, o);
          OrderGivesPass(s, subs, p);
        }
      }
    } else {
      var n, m :| n in subs && m in subs && n != m && !Free(subs[n], Token(m)) && subs[m] != Token(m);
      ViolationShows(subs, n, m);
    }
  }

  /** The text "{x{b}y}". */
  function Nested(x: string, b: string, y: string): string {
    ['{'] + (x + (Token(b) + (y + ['}'])))
  }

  lemma NestedStart(x: string, b: string, y: string, name: string)
    requires BraceFree(x) && BraceFree(b) && BraceFree(name)
    ensures !(Token(name) <= Nested(x, b, y))
  {
    var s, outer, tail := Nested(x, b, y), x + (['{'] + b), y + ['}'];
    assert s[1..] == outer + ['}'] + tail;
    IndexOfFirst(outer, '}', tail);
    assert s[1..][..|outer|] == outer && outer[|x|] == '{';
    TokenAtStart(name, s);
  }

  lemma InnerFirst(x: string, b: string, vb: string, y: string)
    requires BraceFree(x) && BraceFree(b) && BraceFree(y)
    ensures ReplaceAll(Nested(x, b, y), Token(b), vb) == Token(x + vb + y)
  {
    hide ReplaceAll;
    var tail := y + ['}'];
    var mid := Token(b) + tail;
    NestedStart(x, b, y, b);
    SkipBrace(Nested(x, b, y), Token(b), vb);
    assert Nested(x, b, y)[1..] == x + mid;
    ReplaceCopies(x, mid, Token(b), vb);
    AppendPlain(b, tail, vb);
    assert ['{'] + (x + (vb + tail)) == Token(x + vb + y);
  }

  lemma OuterFirst(x: string, b: string, y: string, a: string, va: string)
    requires BraceFree(x) && BraceFree(b) && BraceFree(y) && BraceFree(a) && a != b
    ensures ReplaceAll(Nested(x, b, y), Token(a), va) == Nested(x, b, y)
  {
    assert ReplaceAll([], Token(a), va) == [];
    hide ReplaceAll;
    var tail := y + ['}'];
    var mid := Token(b) + tail;
    NestedStart(x, b, y, a);
    SkipBrace(Nested(x, b, y), Token(a), va);
    assert Nested(x, b, y)[1..] == x + mid;
    ReplaceCopies(x, mid, Token(a), va);
    GroupStays(b, tail, a, va);
    ReplaceCopies(tail, [], Token(a), va);
    assert tail + [] == tail && ['{'] + (x + mid) == Nested(x, b, y);
  }

  /**
    Nested text: a token inside another's braces can complete it. With x + vb + y the name a, the text
    "{x{b}y}" gives a's value in one order and leaves a's token in the other, even for brace-free values.
   */
  lemma NestedTextDependsOnOrder(x: string, b: string, vb: string, y: string, va: string)
    requires BraceFree(x) && BraceFree(b) && BraceFree(vb) && BraceFree(y) && x + vb + y != b
    ensures Both(Nested(x, b, y), b, vb, x + vb + y, va) == va
    ensures Both(Nested(x, b, y), x + vb + y, va, b, vb) == Token(x + vb + y)
  {
    InnerFirst(x, b, vb, y);
    TokenBecomes(x + vb + y, va);
    OuterFirst(x, b, y, x + vb + y, va);
  }

  /**
    An unbalanced value: "{u" followed by text "w}" becomes the token of u + w, which one order
    replaces and the other leaves.
   */
  lemma UnbalancedValueDependsOnOrder(a: string, u: string, w: string, vb: string)
    requires BraceFree(a) && BraceFree(u) && BraceFree(w) && a != u + w
    ensures var s := Token(a) + (w + ['}']);
            Both(s, a, ['{'] + u, u + w, vb) == vb && Both(s, u + w, vb, a, ['{'] + u) == Token(u + w)
  {
    var b, tail := u + w, w + ['}'];
    AppendPlain(a, tail, ['{'] + u);
    assert ['{'] + u + tail == Token(b);
    TokenBecomes(b, vb);
    GroupStays(a, tail, b, vb);
    ReplaceCopies(tail, [], Token(b), vb);
    assert tail + [] == tail;
  }

  lemma AppendPlain(a: string, tail: string, va: string)
    requires '{' !in tail
    ensures ReplaceAll(Token(a) + tail, Token(a), va) == va + tail
  {
    assert (Token(a) + tail)[|Token(a)|..] == tail;
    ReplaceCopies(tail, [], Token(a), va);
    assert tail + [] == tail;
  }

  lemma {:induction false} ShortIsFree(s: string, tok: string)
    requires |s| < |tok|
    ensures Free(s, tok)
  {
    if s != [] {
      ShortIsFree(s[1..], tok);
    }
  }

  /** The load-time guard ("{var:" must not occur in a value) does not rule the unbalanced case out. */
  lemma GuardAllowsUnbalanced(x: string, w: string, vb: string)
    requires BraceFree(x) && BraceFree(w) && "var:" + x != "var" + w
    ensures Free("{var", "{var:")
    ensures var s := Token("var:" + x) + (w + ['}']);
            Both(s, "var:" + x, "{var", "var" + w, vb) == vb &&
              Both(s, "var" + w, vb, "var:" + x, "{var") == Token("var" + w)
  {
    ShortIsFree("{var", "{var:");
    UnbalancedValueDependsOnOrder("var:" + x, "var", w, vb);
    assert ['{'] + "var" == "{var";
  }

  /** On balanced values of variables the guard is enough: it makes them independent. */
  lemma {:induction false} GuardMakesIndependent(v: string, name: string)
    requires Free(v, "{var:")
    ensures Free(v, Token("var:" + name))
  {
    assert Token("var:" + name) == "{var:" + (name + ['}']);
    assert Token("var:" + name) <= v ==> "{var:" <= v;
    if v != [] {
      GuardMakesIndependent(v[1..], name);
    }
  }
}

/**
  Template substitution on arbitrary text, nested braces included: for which maps the random order of
  the replacements makes no difference on any text at all (identity_subs.go, normalize.go).
 */
module NestedTemplates {
  import opened Strings
  import opened Templates

  /** Names and values without braces. */
  ghost predicate Plain(subs: Subs) {
    forall n :: n in subs ==> BraceFree(n) && BraceFree(subs[n])
  }

  /** No value occurs inside another declared name, so no replacement can complete another token. */
  ghost predicate NoCompletion(subs: Subs) {
    forall a, b :: a in subs && b in subs && a != b ==> Free(a, subs[b])
  }

  // ---- no completion: every order is the simultaneous pass --------------------------------------

  lemma {:induction false} FreeSuffix(s: string, tok: string)
    requires s != [] && Free(s, tok)
    ensures Free(s[1..], tok) && !(tok <= s)
  {
  }

  /**
    After the pass the rest of a token, u and its closing brace, starts a text exactly if it did so
    before: a replaced value would have to lie inside u.
   */
  lemma {:induction false} PassKeepsTokenEnd(t: string, done: Subs, u: string)
    requires Plain(done) && BraceFree(u) && forall n :: n in done ==> Free(u, done[n])
    ensures u + ['}'] <= Pass(t, done) <==> u + ['}'] <= t
    decreases |t|
  {
    var tok := u + ['}'];
    if t != [] {
      var n := IndexOf(t[1..], '}');
      if t[0] == '{' && n < |t| - 1 && t[1..][..n] in done {
        ValueIsNoTokenEnd(done[t[1..][..n]], Pass(t[1..][n + 1..], done), u);
        assert tok[0] != '{';
      } else if t[0] == '{' {
        assert tok[0] != '{';
      } else if u == [] {
        assert tok == ['}'];
      } else {
        assert tok[1..] == u[1..] + ['}'] && tok == [u[0]] + tok[1..];
        PassKeepsTokenEnd(t[1..], done, u[1..]);
        SameStart(t[0], Pass(t[1..], done), tok);
        SameStart(t[0], t[1..], tok);
        assert t == [t[0]] + t[1..];
      }
    }
  }

  lemma SameStart(c: char, rest: string, tok: string)
    requires tok != []
    ensures tok <= [c] + rest <==> tok[0] == c && tok[1..] <= rest
  {
    var all := [c] + rest;
    if tok <= all {
      assert rest[..|tok| - 1] == all[1..][..|tok| - 1] == all[..|tok|][1..] == tok[1..];
    }
    if tok[0] == c && tok[1..] <= rest {
      assert all == tok + rest[|tok| - 1..];
    }
  }

  lemma TokenEndOverValue(v: string, rest: string, u: string)
    requires u + ['}'] <= v + rest
    ensures v <= u || '}' in v
  {
    var tok, all := u + ['}'], v + rest;
    assert forall i :: 0 <= i < |tok| ==> all[i] == tok[i];
    if |v| <= |u| {
      assert forall i :: 0 <= i < |v| ==> v[i] == all[i] == tok[i] == u[i];
    } else {
      assert v[|u|] == all[|u|] == '}';
    }
  }

  /** A brace-free value that does not occur in u does not start with u and a brace, nor end inside u. */
  lemma ValueIsNoTokenEnd(v: string, rest: string, u: string)
    requires BraceFree(v) && Free(u, v)
    ensures !(u + ['}'] <= v + rest)
  {
    if u + ['}'] <= v + rest {
      TokenEndOverValue(v, rest, u);
    }
  }

  lemma EndMeansName(w: string, name: string)
    requires BraceFree(name)
    ensures name + ['}'] <= w <==> IndexOf(w, '}') < |w| && w[..IndexOf(w, '}')] == name
  {
    hide IndexOf;
    var s := ['{'] + w;
    assert s[1..] == w && Token(name)[1..] == name + ['}'];
    TokenAtStart(name, s);
    SameStart('{', w, Token(name));
  }

  /** How the pass goes on at a replaced token. */
  lemma PassReplaces(s: string, subs: Subs, n: nat)
    requires s != [] && s[0] == '{' && n == IndexOf(s[1..], '}') < |s| - 1 && s[1..][..n] in subs
    ensures Pass(s, subs) == subs[s[1..][..n]] + Pass(s[1..][n + 1..], subs)
  {
    hide IndexOf;
  }

  /** One more token on any text is one more name in the pass. */
  lemma {:induction false} ReplaceIsPassAnywhere(s: string, done: Subs, name: string, val: string)
    requires Plain(done) && BraceFree(name) && name !in done && forall n :: n in done ==> Free(name, done[n])
    ensures ReplaceAll(Pass(s, done), Token(name), val) == Pass(s, done[name := val])
    decreases |s|
  {
    if s != [] {
      var more := done[name := val];
      var w := s[1..];
      var n := IndexOf(w, '}');
      hide Pass, Free, ReplaceAll, IndexOf;
      if s[0] != '{' {
        ReplaceIsPassAnywhere(w, done, name, val);
        PassGoesOn(s, done);
        PassGoesOn(s, more);
        ReplaceCopies([s[0]], Pass(w, done), Token(name), val);
      } else if n < |w| && w[..n] in done {
        ReplaceIsPassAnywhere(w[n + 1..], done, name, val);
        PassReplaces(s, done, n);
        PassReplaces(s, more, n);
        ReplaceCopies(done[w[..n]], Pass(w[n + 1..], done), Token(name), val);
      } else if n < |w| && w[..n] == name {
        ReplaceIsPassAnywhere(w[n + 1..], done, name, val);
        assert s == Token(name) + w[n + 1..];
        TokenHere(s, w[n + 1..], done, name, val);
      } else {
        ReplaceIsPassAnywhere(w, done, name, val);
        PassGoesOn(s, done);
        PassGoesOn(s, more);
        EndMeansName(w, name);
        OtherBrace(w, done, name, val);
      }
    }
  }

  /** The token itself starts the text: the pass so far has left it, and it is replaced. */
  lemma TokenHere(s: string, rest: string, done: Subs, name: string, val: string)
    requires BraceFree(name) && name !in done && s == Token(name) + rest
    requires ReplaceAll(Pass(rest, done), Token(name), val) == Pass(rest, done[name := val])
    ensures ReplaceAll(Pass(s, done), Token(name), val) == Pass(s, done[name := val])
  {
    hide Pass;
    PassGroup(name, rest, done);
    PassGroup(name, rest, done[name := val]);
    assert (Token(name) + Pass(rest, done))[|Token(name)|..] == Pass(rest, done);
  }

  /** A brace that starts neither a replaced token nor this one is copied. */
  lemma OtherBrace(w: string, done: Subs, name: string, val: string)
    requires Plain(done) && BraceFree(name) && forall n :: n in done ==> Free(name, done[n])
    requires !(name + ['}'] <= w)
    ensures ReplaceAll(['{'] + Pass(w, done), Token(name), val) == ['{'] + ReplaceAll(Pass(w, done), Token(name), val)
  {
    var s := ['{'] + Pass(w, done);
    PassKeepsTokenEnd(w, done, name);
    assert Token(name) == ['{'] + (name + ['}']);
    SameStart('{', Pass(w, done), Token(name));
    assert Token(name)[1..] == name + ['}'] && s[1..] == Pass(w, done);
    SkipBrace(s, Token(name), val);
  }

  lemma {:induction false} InOrderIsPassAnywhere(s: string, subs: Subs, order: seq<string>)
    requires Plain(subs) && NoCompletion(subs)
    requires (forall n <- order :: n in subs) && forall i, j :: 0 <= i < j < |order| ==> order[i] != order[j]
    ensures InOrder(s, subs, order) == Pass(s, Restricted(subs, order))
  {
    if order == [] {
      PassNothing(s);
      assert Restricted(subs, order) == map[];
    } else {
      hide Pass, ReplaceAll, Free, Plain, NoCompletion, Restricted;
      var front, name := order[..|order| - 1], order[|order| - 1];
      assert order == front + [name] && name !in front;
      InOrderIsPassAnywhere(s, subs, front);
      NextFits(subs, front, name);
      ReplaceIsPassAnywhere(s, Restricted(subs, front), name, subs[name]);
    }
  }

  lemma NextFits(subs: Subs, front: seq<string>, name: string)
    requires Plain(subs) && NoCompletion(subs) && name in subs && name !in front
    ensures var done := Restricted(subs, front);
            && Plain(done) && BraceFree(name) && name !in done && (forall n :: n in done ==> Free(name, done[n]))
            && done[name := subs[name]] == Restricted(subs, front + [name])
  {
    hide Free, BraceFree;
    assert forall n :: n in front + [name] <==> n in front || n == name;
  }

  // ---- completion: two orders differ on a nested text -------------------------------------------

  lemma {:induction false} OthersLeaveNested(subs: Subs, order: seq<string>, x: string, b: string, y: string)
    requires Plain(subs) && BraceFree(x) && BraceFree(b) && BraceFree(y) && (forall n <- order :: n in subs) &&
               b !in order
    ensures InOrder(Nested(x, b, y), subs, order) == Nested(x, b, y)
  {
    if order != [] {
      hide ReplaceAll, Nested;
      var last := order[|order| - 1];
      OthersLeaveNested(subs, order[..|order| - 1], x, b, y);
      OuterFirst(x, b, y, last, subs[last]);
    }
  }

  lemma {:induction false} Occurrence(s: string, tok: string) returns (x: string, y: string)
    requires !Free(s, tok)
    ensures s == x + tok + y
  {
    if tok <= s {
      x, y := [], s[|tok|..];
    } else {
      x, y := Occurrence(s[1..], tok);
      x := [s[0]] + x;
    }
  }

  lemma PartsAreBraceFree(x: string, v: string, y: string)
    requires BraceFree(x + v + y)
    ensures BraceFree(x) && BraceFree(y)
  {
    var s := x + v + y;
    assert forall i :: 0 <= i < |x| ==> s[i] == x[i];
    assert forall i :: 0 <= i < |y| ==> s[|x| + |v| + i] == y[i];
  }

  /** If b's value occurs inside the name a, some nested text tells two orders apart. */
  lemma CompletionShows(subs: Subs, a: string, b: string) returns (s: string)
    requires Plain(subs) && a in subs && b in subs && a != b && !Free(a, subs[b])
    ensures !OrdersAgree(subs, s)
  {
    hide ReplaceAll, InOrder, IsOrder, Free;
    var x, y := Occurrence(a, subs[b]);
    PartsAreBraceFree(x, subs[b], y);
    s := Nested(x, b, y);
    var others := SomeListing(subs.Keys - {a, b});
    var o, p := others + [b, a], others + [a, b];
    ListedIsOrder(subs, others, b, a);
    ListedIsOrder(subs, others, a, b);
    OthersLeaveNested(subs, others, x, b, y);
    LastTwo(s, subs, others, b, a);
    LastTwo(s, subs, others, a, b);
    NestedTextDependsOnOrder(x, b, subs[b], y, subs[a]);
    assert subs[a] != Token(a) by {
      assert Token(a)[0] == '{';
    }
    assert IsOrder(o, subs) && IsOrder(p, subs) && InOrder(s, subs, o) != InOrder(s, subs, p);
  }

  /**
    With brace-free names and values, the random order makes no difference on any text whatever, nested
    braces included, exactly if no value occurs inside another declared name.
   */
  lemma NestedOrderIrrelevantExactly(subs: Subs)
    requires Plain(subs)
    ensures (forall s :: OrdersAgree(subs, s)) <==> NoCompletion(subs)
  {
    if NoCompletion(subs) {
      forall s ensures OrdersAgree(subs, s) {
        forall o, p | IsOrder(o, subs) && IsOrder(p, subs) ensures InOrder(s, subs, o) == InOrder(s, subs, p) {
          InOrderIsPassAnywhere(s, subs, o);
          InOrderIsPassAnywhere(s, subs, p);
          assert Restricted(subs, o) == subs == Restricted(subs, p);
        }
      }
    } else {
      var a, b :| a in subs && b in subs && a != b && !Free(a, subs[b]);
      var s := CompletionShows(subs, a, b);
    }
  }
}

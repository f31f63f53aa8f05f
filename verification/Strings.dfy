/** The string operations the configuration code leans on: IndexByte, Contains and ReplaceAll. */
module Strings {
  /** strings.IndexByte, with |s| for "not found". */
  function IndexOf(s: string, c: char): (i: nat)
    ensures i <= |s| && (i < |s| ==> s[i] == c) && forall k :: 0 <= k < i ==> s[k] != c
  {
    if s == [] || s[0] == c then 0 else 1 + IndexOf(s[1..], c)
  }

  lemma IndexOfFirst(a: string, c: char, b: string)
    requires c !in a
    ensures IndexOf(a + [c] + b, c) == |a|
  {
    assert (a + [c] + b)[|a|] == c;
    assert forall k :: 0 <= k < |a| ==> (a + [c] + b)[k] == a[k];
  }

  /** tok occurs nowhere in s. */
  predicate Free(s: string, tok: string) {
    !(tok <= s) && (s != [] ==> Free(s[1..], tok))
  }

  lemma {:induction false} FreeMeansNoOccurrence(s: string, tok: string)
    ensures Free(s, tok) <==> forall i :: 0 <= i <= |s| ==> !(tok <= s[i..])
  {
    assert s[0..] == s;
    if s != [] {
      FreeMeansNoOccurrence(s[1..], tok);
      assert forall i :: 1 <= i <= |s| ==> s[i..] == s[1..][i - 1..];
      assert forall i :: 0 <= i <= |s[1..]| ==> s[1..][i..] == s[i + 1..];
    }
  }

  /** strings.ReplaceAll: non-overlapping occurrences from the left. */
  function ReplaceAll(s: string, tok: string, val: string): string
    requires tok != []
  {
    if s == [] then []
    else if tok <= s then val + ReplaceAll(s[|tok|..], tok, val)
    else [s[0]] + ReplaceAll(s[1..], tok, val)
  }

  lemma {:induction false} ReplaceNothing(s: string, tok: string, val: string)
    requires tok != [] && Free(s, tok)
    ensures ReplaceAll(s, tok, val) == s
  {
    if s != [] {
      ReplaceNothing(s[1..], tok, val);
    }
  }

  /** A prefix without the token's first character is copied. */
  lemma {:induction false} ReplaceCopies(w: string, rest: string, tok: string, val: string)
    requires tok != [] && tok[0] !in w
    ensures ReplaceAll(w + rest, tok, val) == w + ReplaceAll(rest, tok, val)
  {
    if w == [] {
      assert w + rest == rest;
    } else {
      assert (w + rest)[1..] == w[1..] + rest;
      ReplaceCopies(w[1..], rest, tok, val);
    }
  }
}

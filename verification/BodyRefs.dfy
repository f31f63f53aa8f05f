/**
  The embed scan over a stencil body: {name} tokens in order, with {{ as a literal escape (stencil.go).
 */
module BodyRefs {
  import opened Strings

  /** unicode.IsSpace */
  predicate IsSpace(c: char) {
    || c in {'\t', '\n', '\U{000B}', '\U{000C}', '\r', ' ', '\U{0085}', '\U{00A0}', '\U{1680}'}
    || '\U{2000}' <= c <= '\U{200A}'
    || c in {'\U{2028}', '\U{2029}', '\U{202F}', '\U{205F}', '\U{3000}'}
  }

  /** strings.TrimSpace */
  function Trim(s: string): string {
    if s == [] then []
    else if IsSpace(s[0]) then Trim(s[1..])
    else if IsSpace(s[|s| - 1]) then Trim(s[..|s| - 1])
    else s
  }

  predicate AllSpace(s: string) {
    forall i :: 0 <= i < |s| ==> IsSpace(s[i])
  }

  /** Trimming takes spaces off both ends and nothing else, and leaves none there. */
  lemma {:induction false} TrimExactly(s: string) returns (a: string, b: string)
    ensures s == a + Trim(s) + b && AllSpace(a) && AllSpace(b)
    ensures Trim(s) != [] ==> !IsSpace(Trim(s)[0]) && !IsSpace(Trim(s)[|Trim(s)| - 1])
    decreases |s|
  {
    hide IsSpace;
    a, b := [], [];
    if s != [] && IsSpace(s[0]) {
      a, b := TrimExactly(s[1..]);
      assert Trim(s) == Trim(s[1..]) && s == [s[0]] + s[1..];
      hide Trim;
      MoreAround(s[0], a, Trim(s[1..]), b);
      a := [s[0]] + a;
    } else if s != [] && IsSpace(s[|s| - 1]) {
      var front, c := s[..|s| - 1], s[|s| - 1];
      a, b := TrimExactly(front);
      assert Trim(s) == Trim(front) && s == front + [c];
      hide Trim;
      MoreAround(c, a, Trim(front), b);
      b := b + [c];
    } else {
      assert Trim(s) == s && [] + s + [] == s;
    }
  }

  lemma MoreAround(c: char, a: string, t: string, b: string)
    ensures [c] + (a + t + b) == ([c] + a) + t + b && (a + t + b) + [c] == a + t + (b + [c])
  {
  }

  function NameOf(raw: string): seq<string> {
    if Trim(raw) == [] then [] else [Trim(raw)]
  }

  function Refs(s: string): seq<string>
    decreases |s|, 1
  {
    var open := IndexOf(s, '{');
    if open == |s| then [] else RefsAt(s[open..])
  }

  /** The refs of a text from an opening brace on. */
  function RefsAt(t: string): seq<string>
    requires t != [] && t[0] == '{'
    decreases |t|, 0
  {
    if "{{" <= t then Refs(t[2..])
    else
      var close := IndexOf(t, '}');
      if close == |t| then [] else NameOf(t[1..close]) + Refs(t[close + 1..])
  }

  lemma Regroup(a: seq<string>, b: seq<string>, c: seq<string>)
    ensures a + (b + c) == (a + b) + c
  {
  }

  /** BodyRefs: the scan over a shrinking string; every round consumes at least one character. */
  method Scan(body: string) returns (refs: seq<string>)
    ensures refs == Refs(body)
  {
    hide Trim, IndexOf;
    refs := [];
    var s := body;
    while true
      invariant refs + Refs(s) == Refs(body)
      decreases |s|
    {
      var open := IndexOf(s, '{');
      if open == |s| {
        return;
      }
      var rest := s[open..];
      if "{{" <= rest {
        s := rest[2..];
        continue;
      }
      var close := IndexOf(rest, '}');
      if close == |rest| {
        return;
      }
      var name := Trim(rest[1..close]);
      Regroup(refs, NameOf(rest[1..close]), Refs(rest[close + 1..]));
      if name != "" {
        refs := refs + [name];
      } else {
        assert refs + [] == refs;
      }
      s := rest[close + 1..];
    }
  }

  // ---- what the scan means ----------------------------------------------------------------------

  datatype Segment = Text(text: string) | Escape | Embed(raw: string)

  function Rendered(seg: Segment): string {
    match seg
    case Text(t) => t
    case Escape => "{{"
    case Embed(raw) => ['{'] + raw + ['}']
  }

  function Render(segs: seq<Segment>): string {
    if segs == [] then [] else Rendered(segs[0]) + Render(segs[1..])
  }

  predicate WellFormed(seg: Segment) {
    match seg
    case Text(t) => '{' !in t
    case Escape => true
    case Embed(raw) => '}' !in raw && !("{" <= raw)
  }

  function Names(segs: seq<Segment>): seq<string> {
    if segs == [] then [] else (if segs[0].Embed? then NameOf(segs[0].raw) else []) + Names(segs[1..])
  }

  /** An unfinished end: empty, or a brace that is neither doubled nor ever closed. */
  predicate IsTail(tail: string) {
    tail == [] || (tail[0] == '{' && !("{{" <= tail) && '}' !in tail)
  }

  lemma {:induction false} ScanSkipsText(t: string, rest: string)
    requires '{' !in t
    ensures Refs(t + rest) == Refs(rest)
  {
    hide IndexOf, RefsAt;
    FirstBrace(t, rest);
    var n := IndexOf(rest, '{');
    if n < |rest| {
      assert (t + rest)[|t| + n..] == rest[n..];
    }
  }

  lemma FirstBrace(t: string, rest: string)
    requires '{' !in t
    ensures IndexOf(t + rest, '{') == |t| + IndexOf(rest, '{')
  {
    var n, m := IndexOf(rest, '{'), IndexOf(t + rest, '{');
    assert n < |rest| ==> (t + rest)[|t| + n] == rest[n];
    assert m < |t + rest| ==> (t + rest)[m] == '{';
    assert forall k :: 0 <= k < |t| ==> (t + rest)[k] == t[k];
    assert forall k :: |t| <= k < |t + rest| ==> (t + rest)[k] == rest[k - |t|];
  }

  lemma ScanEmbed(raw: string, rest: string)
    requires '}' !in raw && !("{" <= raw)
    ensures Refs(['{'] + raw + ['}'] + rest) == NameOf(raw) + Refs(rest)
  {
    var s := ['{'] + raw + ['}'] + rest;
    assert IndexOf(s, '{') == 0 && s[0..] == s;
    assert s[1..] == raw + ['}'] + rest;
    assert !("{{" <= s) by {
      assert s[1] == (raw + ['}'])[0];
    }
    IndexOfFirst(['{'] + raw, '}', rest);
    assert s[1..|raw| + 1] == raw && s[|raw| + 2..] == rest;
  }

  lemma ScanEscape(rest: string)
    ensures Refs("{{" + rest) == Refs(rest)
  {
    var s := "{{" + rest;
    assert IndexOf(s, '{') == 0 && s[0..] == s && s[2..] == rest;
  }

  lemma ScanTail(tail: string)
    requires IsTail(tail)
    ensures Refs(tail) == []
  {
    if tail != [] {
      assert IndexOf(tail, '{') == 0 && tail[0..] == tail;
    }
  }

  /** The scan of any segmented body is the embedded names in order: text and escapes add nothing. */
  lemma {:induction false} ScanOfRendering(segs: seq<Segment>, tail: string)
    requires AllWellFormed(segs) && IsTail(tail)
    ensures Refs(Render(segs) + tail) == Names(segs)
  {
    if segs == [] {
      assert [] + tail == tail;
      ScanTail(tail);
    } else {
      var rest := Render(segs[1..]) + tail;
      ScanOfRendering(segs[1..], tail);
      assert Render(segs) + tail == Rendered(segs[0]) + rest;
      match segs[0]
      case Text(t) => ScanSkipsText(t, rest);
      case Escape => ScanEscape(rest);
      case Embed(raw) => ScanEmbed(raw, rest);
    }
  }

  lemma RenderTwo(a: Segment, b: Segment, more: seq<Segment>)
    ensures Render([a, b] + more) == Rendered(a) + (Rendered(b) + Render(more))
  {
    assert ([a, b] + more)[1..] == [b] + more && ([b] + more)[1..] == more;
  }

  predicate AllWellFormed(segs: seq<Segment>) {
    forall i :: 0 <= i < |segs| ==> WellFormed(segs[i])
  }

  /** The escape or embed at the start of rest, and its length; None for an unfinished end. */
  function NextGroup(rest: string): (r: (Segment, nat))
    requires rest != [] && rest[0] == '{'
    ensures r.1 <= |rest| && (r.1 == 0 ==> IsTail(rest))
    ensures r.1 > 0 ==> WellFormed(r.0) && rest == Rendered(r.0) + rest[r.1..]
  {
    if "{{" <= rest then (Escape, 2)
    else
      var c := IndexOf(rest, '}');
      assert c < |rest| && "{" <= rest[1..c] ==> "{{" <= rest;
      if c == |rest| then (Escape, 0) else (Embed(rest[1..c]), c + 1)
  }

  /** The segments of a body and its unfinished end. */
  function Parse(s: string): (r: (seq<Segment>, string))
    decreases |s|
  {
    var n := IndexOf(s, '{');
    if n == |s| then ([Text(s)], "")
    else
      var (group, used) := NextGroup(s[n..]);
      if used == 0 then ([Text(s[..n])], s[n..])
      else
        var (more, tail) := Parse(s[n..][used..]);
        ([Text(s[..n]), group] + more, tail)
  }

  lemma {:induction false} ParseWellFormed(s: string)
    ensures AllWellFormed(Parse(s).0) && IsTail(Parse(s).1)
    decreases |s|
  {
    hide WellFormed, IsTail, NextGroup, IndexOf;
    var n := IndexOf(s, '{');
    TextSegment(s[..n]);
    if n < |s| && NextGroup(s[n..]).1 > 0 {
      ParseWellFormed(s[n..][NextGroup(s[n..]).1..]);
    } else if n == |s| {
      assert s[..n] == s;
      EmptyTail();
    }
  }

  lemma EmptyTail()
    ensures IsTail("")
  {
  }

  lemma TextSegment(t: string)
    requires '{' !in t
    ensures WellFormed(Text(t)) && Render([Text(t)]) == t
  {
    assert t + [] == t;
  }

  /** Every body is the rendering of its segments, up to an unfinished end. */
  lemma {:induction false} ParseRenders(s: string)
    ensures s == Render(Parse(s).0) + Parse(s).1
    decreases |s|
  {
    hide Render, Rendered, WellFormed, IsTail;
    var n := IndexOf(s, '{');
    TextSegment(s[..n]);
    TextRenders(s[..n]);
    if n < |s| {
      var t, rest := s[..n], s[n..];
      var (group, used) := NextGroup(rest);
      assert s == t + rest;
      if used > 0 {
        ParseRenders(rest[used..]);
        Reassemble(t, group, Parse(rest[used..]).0, Parse(rest[used..]).1);
      }
    } else {
      assert s[..n] == s && s + "" == s;
    }
  }

  lemma Reassemble(t: string, group: Segment, more: seq<Segment>, tail: string)
    ensures Render([Text(t), group] + more) + tail == t + (Rendered(group) + (Render(more) + tail))
  {
    RenderTwo(Text(t), group, more);
  }

  lemma TextRenders(t: string)
    ensures Rendered(Text(t)) == t
  {
  }

  /** What the scan of any body returns: the names embedded in its segments, in order. */
  lemma ScanIsParse(s: string)
    ensures Refs(s) == Names(Parse(s).0)
  {
    ParseWellFormed(s);
    ParseRenders(s);
    ScanOfRendering(Parse(s).0, Parse(s).1);
  }
}

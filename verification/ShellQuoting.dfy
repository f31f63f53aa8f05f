/**
  Rendering an argv as a POSIX sh command string: shellJoin of build.go quotes only when needed,
  shellJoin of ansible/backend.go always quotes. The reference is the Shell Command Language of
  POSIX.1-2017: token recognition (section 2.3), quoting by backslash and single quotes (sections
  2.2.1 and 2.2.2), reserved words (section 2.4) and assignment words (section 2.10.2, rule 7).
 */
module ShellQuoting {
  import opened Wrappers
  import opened Strings

  // ---- the shell --------------------------------------------------------------------------------

  /** A word after quote removal, and how many of its leading characters were not quoted. */
  datatype Token = Token(text: string, bare: nat)

  /** Unquoted characters that make the command something else than a list of plain words. */
  const SPECIAL := "|&;<>()$`\"*?[#~\n"

  /**
    Splits a command into words and removes quotes. word is the word in progress, quoted whether a
    single quote is open. None: an unterminated quote, or an unquoted special character.
   */
  function Lex(s: string, word: Option<Token>, quoted: bool): Option<seq<Token>> {
    var w := if word.Some? then word.value else Token("", 0);
    if s == [] then
      if quoted then None else Some(if word.Some? then [w] else [])
    else if quoted then
      if s[0] == '\'' then Lex(s[1..], Some(w), false)
      else Lex(s[1..], Some(Token(w.text + [s[0]], w.bare)), true)
    else if s[0] == '\'' then Lex(s[1..], Some(w), true)
    else if s[0] == '\\' then
      if |s| == 1 then None
      else if s[1] == '\n' then Lex(s[2..], word, false)
      else Lex(s[2..], Some(Token(w.text + [s[1]], w.bare)), false)
    else if s[0] == ' ' || s[0] == '\t' then
      match Lex(s[1..], None, false)
      case None => None
      case Some(more) => Some((if word.Some? then [w] else []) + more)
    else if s[0] in SPECIAL then None
    else Lex(s[1..], Some(Token(w.text + [s[0]], if w.bare == |w.text| then w.bare + 1 else w.bare)), false)
  }

  function Tokens(s: string): Option<seq<Token>> {
    Lex(s, None, false)
  }

  function Texts(ts: seq<Token>): seq<string> {
    if ts == [] then [] else [ts[0].text] + Texts(ts[1..])
  }

  /** The words of a command, quotes removed. */
  function Words(s: string): Option<seq<string>> {
    match Tokens(s)
    case None => None
    case Some(ts) => Some(Texts(ts))
  }

  const RESERVED :=
    {"!", "{", "}", "case", "do", "done", "elif", "else", "esac", "fi", "for", "if", "in", "then", "until", "while"}

  predicate IsName(s: string) {
    s != [] && !('0' <= s[0] <= '9') && forall i :: 0 <= i < |s| ==>
      'a' <= s[i] <= 'z' || 'A' <= s[i] <= 'Z' || '0' <= s[i] <= '9' || s[i] == '_'
  }

  /** The word has the form name=..., up to the given number of characters. */
  predicate AssignmentShape(text: string, bare: nat) {
    var i := IndexOf(text, '=');
    i < |text| && i < bare && IsName(text[..i])
  }

  /** What a simple command runs: None if it starts with a reserved word or is only assignments. */
  function Argv(ts: seq<Token>): Option<seq<string>> {
    if ts == [] then Some([])
    else if ts[0].bare == |ts[0].text| && ts[0].text in RESERVED then None
    else if AssignmentShape(ts[0].text, ts[0].bare) then None
    else Some(Texts(ts))
  }

  // ---- the code ---------------------------------------------------------------------------------

  const ESCAPED := "'\\''"

  function Enclosed(p: string): string {
    "'" + ReplaceAll(p, "'", ESCAPED) + "'"
  }

  const NEEDS_QUOTES := " \t\n'\"\\$`&|;<>(){}[]*?~#!"

  /** A non-empty part build.go leaves as it is. */
  predicate Plain(p: string) {
    p != "" && forall i :: 0 <= i < |p| ==> p[i] !in NEEDS_QUOTES
  }

  function QuotedIfNeeded(p: string): string {
    if Plain(p) then p else Enclosed(p)
  }

  function Joined(words: seq<string>): string {
    if words == [] then "" else if |words| == 1 then words[0] else words[0] + " " + Joined(words[1..])
  }

  function AllEnclosed(parts: seq<string>): (r: seq<string>)
    ensures |r| == |parts|
  {
    if parts == [] then [] else [Enclosed(parts[0])] + AllEnclosed(parts[1..])
  }

  function AllQuotedIfNeeded(parts: seq<string>): (r: seq<string>)
    ensures |r| == |parts|
  {
    if parts == [] then [] else [QuotedIfNeeded(parts[0])] + AllQuotedIfNeeded(parts[1..])
  }

  /** shellJoin of build.go. */
  method ShellJoin(parts: seq<string>) returns (cmd: string)
    ensures cmd == Joined(AllQuotedIfNeeded(parts))
  {
    hide Joined, Plain, ReplaceAll;
    var quoted: seq<string> := [];
    assert parts[0..] == parts;
    for i := 0 to |parts|
      invariant |quoted| == i && quoted + AllQuotedIfNeeded(parts[i..]) == AllQuotedIfNeeded(parts)
    {
      assert parts[i..][0] == parts[i] && parts[i..][1..] == parts[i + 1..];
      if Plain(parts[i]) {
        quoted := quoted + [parts[i]];
        continue;
      }
      quoted := quoted + ["'" + ReplaceAll(parts[i], "'", ESCAPED) + "'"];
    }
    assert quoted == AllQuotedIfNeeded(parts);
    cmd := Joined(quoted);
  }

  /** shellJoin of ansible/backend.go. */
  method ShellJoinAlways(argv: seq<string>) returns (cmd: string)
    ensures cmd == Joined(AllEnclosed(argv))
  {
    hide Joined, ReplaceAll;
    var quoted: seq<string> := [];
    assert argv[0..] == argv;
    for i := 0 to |argv|
      invariant |quoted| == i && quoted + AllEnclosed(argv[i..]) == AllEnclosed(argv)
    {
      assert argv[i..][0] == argv[i] && argv[i..][1..] == argv[i + 1..];
      quoted := quoted + ["'" + ReplaceAll(argv[i], "'", ESCAPED) + "'"];
    }
    assert quoted == AllEnclosed(argv);
    cmd := Joined(quoted);
  }

  /** Only a part that needs it is quoted: an empty one, or one with a character the shell gives a meaning. */
  lemma QuotedOnlyIfNeeded(p: string)
    ensures QuotedIfNeeded(p) ==
            if p != "" && forall c <- p :: c !in " \t\n'\"\\$`&|;<>(){}[]*?~#!" then p
            else "'" + ReplaceAll(p, "'", "'\\''") + "'"
  {
    hide ReplaceAll;
    assert Plain(p) <==> p != "" && forall c <- p :: c !in NEEDS_QUOTES;
  }

  // ---- one word ---------------------------------------------------------------------------------

  /** Inside quotes, the escaped text and the closing quote read back as the text itself. */
  lemma {:induction false} LexEscaped(p: string, w: Token, rest: string)
    ensures Lex(ReplaceAll(p, "'", ESCAPED) + ("'" + rest), Some(w), true) ==
              Lex(rest, Some(Token(w.text + p, w.bare)), false)
  {
    var body := ReplaceAll(p, "'", ESCAPED);
    if p == [] {
      assert body + ("'" + rest) == "'" + rest && ("'" + rest)[1..] == rest && w.text + p == w.text;
    } else {
      var tail := ReplaceAll(p[1..], "'", ESCAPED) + ("'" + rest);
      var next := Token(w.text + [p[0]], w.bare);
      LexEscaped(p[1..], next, rest);
      assert next.text + p[1..] == w.text + p;
      if p[0] == '\'' {
        assert "'" <= p;
        assert body + ("'" + rest) == ESCAPED + tail;
        LexEscape(w, tail);
      } else {
        assert !("'" <= p);
        assert body + ("'" + rest) == [p[0]] + tail && ([p[0]] + tail)[1..] == tail;
      }
    }
  }

  lemma LexEscape(w: Token, tail: string)
    ensures Lex(ESCAPED + tail, Some(w), true) == Lex(tail, Some(Token(w.text + "'", w.bare)), true)
  {
    var s := ESCAPED + tail;
    var s1, s3 := "\\''" + tail, "'" + tail;
    assert s[0] == '\'' && s[1..] == s1;
    assert s1[0] == '\\' && s1[1] == '\'' && s1[2..] == s3;
    assert s3[0] == '\'' && s3[1..] == tail;
    assert Lex(s, Some(w), true) == Lex(s1, Some(w), false);
    assert Lex(s1, Some(w), false) == Lex(s3, Some(Token(w.text + "'", w.bare)), false);
  }

  lemma LexEnclosed(p: string, rest: string)
    ensures Lex(Enclosed(p) + rest, None, false) == Lex(rest, Some(Token(p, 0)), false)
  {
    var body := ReplaceAll(p, "'", ESCAPED) + ("'" + rest);
    assert Enclosed(p) + rest == "'" + body && ("'" + body)[1..] == body;
    LexEscaped(p, Token("", 0), rest);
    assert "" + p == p;
  }

  /** Unquoted plain characters read as themselves. */
  lemma {:induction false} LexPlain(p: string, w: Token, rest: string)
    requires w.bare == |w.text| && forall i :: 0 <= i < |p| ==> p[i] !in NEEDS_QUOTES
    ensures Lex(p + rest, Some(w), false) == Lex(rest, Some(Token(w.text + p, |w.text| + |p|)), false)
  {
    if p == [] {
      assert p + rest == rest && w.text + p == w.text;
    } else {
      var next := Token(w.text + [p[0]], w.bare + 1);
      assert (p + rest)[1..] == p[1..] + rest && next.text + p[1..] == w.text + p;
      PlainIsNotSpecial(p[0]);
      LexPlain(p[1..], next, rest);
    }
  }

  lemma PlainIsNotSpecial(c: char)
    requires c !in NEEDS_QUOTES
    ensures c !in SPECIAL && c !in {'\'', '\\', ' ', '\t'}
  {
    forall i | 0 <= i < |SPECIAL| ensures SPECIAL[i] in NEEDS_QUOTES {
      SpecialNeedsQuotes(i);
    }
    assert NEEDS_QUOTES[0] == ' ' && NEEDS_QUOTES[1] == '\t' && NEEDS_QUOTES[3] == '\'' && NEEDS_QUOTES[5] == '\\';
  }

  lemma SpecialNeedsQuotes(i: nat)
    requires i < |SPECIAL|
    ensures SPECIAL[i] in NEEDS_QUOTES
  {
    var where := [9, 8, 10, 11, 12, 13, 14, 6, 7, 4, 19, 20, 17, 22, 21, 2];
    assert SPECIAL[i] == NEEDS_QUOTES[where[i]];
  }

  /** What one rendered part reads back as. */
  function TokenOf(p: string): Token {
    Token(p, if Plain(p) then |p| else 0)
  }

  lemma LexQuoted(p: string, rest: string)
    ensures Lex(QuotedIfNeeded(p) + rest, None, false) == Lex(rest, Some(TokenOf(p)), false)
  {
    if Plain(p) {
      PlainIsNotSpecial(p[0]);
      assert (p + rest)[1..] == p[1..] + rest && [p[0]] + p[1..] == p && "" + [p[0]] == [p[0]];
      LexPlain(p[1..], Token([p[0]], 1), rest);
      assert Lex(p + rest, None, false) == Lex((p + rest)[1..], Some(Token([p[0]], 1)), false);
    } else {
      LexEnclosed(p, rest);
    }
  }

  // ---- whole commands ---------------------------------------------------------------------------

  function TokensOf(parts: seq<string>): seq<Token> {
    if parts == [] then [] else [TokenOf(parts[0])] + TokensOf(parts[1..])
  }

  function QuotedTokens(parts: seq<string>): seq<Token> {
    if parts == [] then [] else [Token(parts[0], 0)] + QuotedTokens(parts[1..])
  }

  lemma LexSeparator(w: Token, rest: string)
    ensures Lex(" " + rest, Some(w), false) ==
            match Lex(rest, None, false) case None => None case Some(more) => Some([w] + more)
  {
    assert (" " + rest)[1..] == rest;
  }

  lemma {:induction false} JoinedTokens(parts: seq<string>)
    ensures Tokens(Joined(AllQuotedIfNeeded(parts))) == Some(TokensOf(parts))
  {
    if parts != [] {
      var q := AllQuotedIfNeeded(parts);
      assert q[1..] == AllQuotedIfNeeded(parts[1..]);
      JoinedTokens(parts[1..]);
      if |parts| == 1 {
        assert q[0] + "" == q[0] == Joined(q) && parts[1..] == [];
        LexQuoted(parts[0], "");
        assert TokensOf(parts) == [TokenOf(parts[0])];
      } else {
        assert Joined(q) == q[0] + (" " + Joined(q[1..]));
        LexQuoted(parts[0], " " + Joined(q[1..]));
        LexSeparator(TokenOf(parts[0]), Joined(q[1..]));
      }
    }
  }

  lemma {:induction false} EnclosedTokens(parts: seq<string>)
    ensures Tokens(Joined(AllEnclosed(parts))) == Some(QuotedTokens(parts))
  {
    if parts != [] {
      var q := AllEnclosed(parts);
      assert q[1..] == AllEnclosed(parts[1..]);
      EnclosedTokens(parts[1..]);
      if |parts| == 1 {
        assert q[0] + "" == q[0] == Joined(q) && parts[1..] == [];
        LexEnclosed(parts[0], "");
        assert QuotedTokens(parts) == [Token(parts[0], 0)];
      } else {
        assert Joined(q) == q[0] + (" " + Joined(q[1..]));
        LexEnclosed(parts[0], " " + Joined(q[1..]));
        LexSeparator(Token(parts[0], 0), Joined(q[1..]));
      }
    }
  }

  lemma {:induction false} TokenTexts(parts: seq<string>)
    ensures Texts(TokensOf(parts)) == parts && Texts(QuotedTokens(parts)) == parts
  {
    if parts != [] {
      TokenTexts(parts[1..]);
      assert TokensOf(parts)[1..] == TokensOf(parts[1..]) && QuotedTokens(parts)[1..] == QuotedTokens(parts[1..]);
    }
  }

  /** Both renderings split back into exactly the original argv, whatever the parts contain. */
  lemma JoinRoundTrip(parts: seq<string>)
    ensures Words(Joined(AllQuotedIfNeeded(parts))) == Some(parts)
    ensures Words(Joined(AllEnclosed(parts))) == Some(parts)
  {
    JoinedTokens(parts);
    EnclosedTokens(parts);
    TokenTexts(parts);
  }

  /** The always-quoting form always runs its argv: a quoted first word is never syntax. */
  lemma AlwaysQuotedRuns(argv: seq<string>)
    ensures Tokens(Joined(AllEnclosed(argv))).Some? && Argv(Tokens(Joined(AllEnclosed(argv))).value) == Some(argv)
  {
    hide Lex, Joined, AllEnclosed, IsName, Texts;
    EnclosedTokens(argv);
    TokenTexts(argv);
    assert argv != [] ==> "" !in RESERVED;
  }

  /**
    The sparing form runs its argv exactly when the first part is not left bare as a reserved word or
    as an assignment: build.go does not quote '='.
   */
  lemma SparinglyQuotedRunsExactly(parts: seq<string>)
    ensures Tokens(Joined(AllQuotedIfNeeded(parts))).Some?
    ensures Argv(Tokens(Joined(AllQuotedIfNeeded(parts))).value) == Some(parts) <==>
            parts == [] || !Plain(parts[0]) || !(parts[0] in RESERVED || AssignmentShape(parts[0], |parts[0]|))
  {
    hide Lex, Joined, AllQuotedIfNeeded, IsName, Texts;
    JoinedTokens(parts);
    TokenTexts(parts);
    if parts != [] {
      FirstWordSyntax(parts[0]);
    }
  }

  lemma FirstWordSyntax(p: string)
    ensures var t := TokenOf(p);
            (t.bare == |t.text| && t.text in RESERVED) || AssignmentShape(t.text, t.bare)
            <==> Plain(p) && (p in RESERVED || AssignmentShape(p, |p|))
  {
    hide IsName;
    assert "" !in RESERVED;
  }
}

/** The Sieve scripts of backend/internal/api/webmail_rules.go, read back by a lexer for the part of RFC 5228 that
    they use: identifiers, tags, quoted strings, punctuation, white space and hash comments. */
module SieveRules {
  import opened Options

  // ---------------------------------------------------------------------------------------------
  // Printing
  // ---------------------------------------------------------------------------------------------

  /** strings.ReplaceAll with a one-character pattern. */
  function ReplaceAll(s: string, c: char, with: string): string {
    if s == "" then "" else (if s[0] == c then with else [s[0]]) + ReplaceAll(s[1..], c, with)
  }

  /** Two passes: backslashes first, then quotes. */
  function SieveQuote(s: string): string {
    "\"" + ReplaceAll(ReplaceAll(s, '\\', "\\\\"), '"', "\\\"") + "\""
  }

  datatype RuleMeta = RuleMeta(field: string, value: string, folder: string)

  const RULE_META_PREFIX: string := "# mailfold-rule: "

  function FieldHeader(field: string): string {
    if field == "from" then "from"
    else if field == "to" then "to"
    else if field == "subject" then "subject"
    else ""
  }

  /** The script for a rule whose metadata marshals to `meta`. */
  function SieveRuleScript(meta: string, rule: RuleMeta): string {
    RULE_META_PREFIX + (meta + ("\r\n" + ("require [\"fileinto\"];\r\n" + ("if header :contains "
    + (SieveQuote(FieldHeader(rule.field)) + (" " + (SieveQuote(rule.value) + (" {\r\n    " + ("fileinto "
    + (SieveQuote(rule.folder) + ";\r\n}\r\n"))))))))))
  }

  // ---------------------------------------------------------------------------------------------
  // Reading the metadata back
  // ---------------------------------------------------------------------------------------------

  /** strings.Cut at the first line feed, keeping what comes before it. */
  function FirstLine(s: string): string {
    if s == "" || s[0] == '\n' then "" else [s[0]] + FirstLine(s[1..])
  }

  function TrimCR(s: string): string {
    if s != "" && s[|s| - 1] == '\r' then s[..|s| - 1] else s
  }

  function ParseRuleMeta(script: string, unmarshal: string -> Option<RuleMeta>): Option<RuleMeta> {
    var line := TrimCR(FirstLine(script));
    if RULE_META_PREFIX <= line then unmarshal(line[|RULE_META_PREFIX|..]) else None
  }

  // ---------------------------------------------------------------------------------------------
  // Lexing
  // ---------------------------------------------------------------------------------------------

  datatype Token = Ident(name: string) | Tag(name: string) | Str(text: string) | Punct(c: char) | Bad

  predicate IsSpace(c: char) { c == ' ' || c == '\t' || c == '\r' || c == '\n' }

  predicate IsWord(c: char) { 'a' <= c <= 'z' || 'A' <= c <= 'Z' || '0' <= c <= '9' || c == '_' }

  predicate IsPunct(c: char) { c in "[]{}(),;" }

  function WordLength(s: string): (n: nat)
    ensures n <= |s|
  {
    if s == "" || !IsWord(s[0]) then 0 else 1 + WordLength(s[1..])
  }

  datatype Quoted = Unterminated | Quoted(text: string, rest: string)

  /** One more character, read by the lexer. */
  function Preceded(c: char, q: Quoted): Quoted {
    match q
    case Unterminated => Unterminated
    case Quoted(text, rest) => Quoted([c] + text, rest)
  }

  /** The inside of a quoted string (section 2.4.2): a backslash takes the next character literally. */
  function LexQuoted(s: string): (q: Quoted)
    ensures q.Quoted? ==> |q.rest| < |s|
  {
    if s == "" then Unterminated
    else if s[0] == '"' then Quoted("", s[1..])
    else if s[0] == '\\' then
      if |s| == 1 then Unterminated
      else
        Preceded(s[1], LexQuoted(s[2..]))
    else Preceded(s[0], LexQuoted(s[1..]))
  }

  function SkipLine(s: string): (rest: string)
    ensures |rest| <= |s|
  {
    if s == "" then "" else if s[0] == '\n' then s[1..] else SkipLine(s[1..])
  }

  function Lex(s: string): seq<Token>
    decreases |s|
  {
    if s == "" then []
    else if IsSpace(s[0]) then Lex(s[1..])
    else if s[0] == '#' then Lex(SkipLine(s[1..]))
    else if IsPunct(s[0]) then [Punct(s[0])] + Lex(s[1..])
    else if s[0] == '"' then
      match LexQuoted(s[1..])
      case Unterminated => [Bad]
      case Quoted(text, rest) => [Str(text)] + Lex(rest)
    else if s[0] == ':' then
      var n := WordLength(s[1..]);
      if n == 0 then [Bad] else [Tag(s[1..n + 1])] + Lex(s[n + 1..])
    else
      var n := WordLength(s);
      if n == 0 then [Bad] else [Ident(s[..n])] + Lex(s[n..])
  }

  /** The one test and action a rule amounts to. */
  datatype Rule = Rule(header: string, value: string, folder: string)

  /** require ["fileinto"]; if header :contains <header> <value> { fileinto <folder>; } */
  function RuleTokens(r: Rule): seq<Token> {
    [Ident("require"), Punct('['), Str("fileinto"), Punct(']'), Punct(';'),
     Ident("if"), Ident("header"), Tag("contains"), Str(r.header), Str(r.value), Punct('{'),
     Ident("fileinto"), Str(r.folder), Punct(';'), Punct('}')]
  }

  // ---------------------------------------------------------------------------------------------
  // Quoting
  // ---------------------------------------------------------------------------------------------

  /** Both characters that need it, escaped in one pass. */
  function Escape(s: string): string {
    if s == "" then ""
    else (if s[0] == '\\' then "\\\\" else if s[0] == '"' then "\\\"" else [s[0]]) + Escape(s[1..])
  }

  lemma {:induction false} ReplaceConcat(s: string, t: string, c: char, with: string)
    ensures ReplaceAll(s + t, c, with) == ReplaceAll(s, c, with) + ReplaceAll(t, c, with)
  {
    if s == "" {
      assert s + t == t;
    } else {
      assert (s + t)[1..] == s[1..] + t;
      ReplaceConcat(s[1..], t, c, with);
    }
  }

  /** The second pass never touches what the first one wrote. */
  lemma {:induction false} TwoPassesAreOne(s: string)
    ensures ReplaceAll(ReplaceAll(s, '\\', "\\\\"), '"', "\\\"") == Escape(s)
  {
    if s != "" {
      var head := if s[0] == '\\' then "\\\\" else [s[0]];
      ReplaceConcat(head, ReplaceAll(s[1..], '\\', "\\\\"), '"', "\\\"");
      assert head[1..] == if s[0] == '\\' then "\\" else "";
      assert s[0] == '\\' ==> head[1..][1..] == "";
      TwoPassesAreOne(s[1..]);
    }
  }

  lemma LexEscapedChar(c: char, tail: string)
    ensures LexQuoted(['\\', c] + tail) == Preceded(c, LexQuoted(tail))
  {
    assert (['\\', c] + tail)[2..] == tail;
  }

  lemma LexPlainChar(c: char, tail: string)
    requires c != '\\' && c != '"'
    ensures LexQuoted([c] + tail) == Preceded(c, LexQuoted(tail))
  {
    assert ([c] + tail)[1..] == tail;
  }

  lemma LexFirst(s: string, q: string)
    requires s != ""
    ensures LexQuoted(Escape(s) + q) == Preceded(s[0], LexQuoted(Escape(s[1..]) + q))
  {
    var tail := Escape(s[1..]) + q;
    if s[0] == '\\' || s[0] == '"' {
      assert Escape(s) + q == ['\\', s[0]] + tail;
      hide LexQuoted, Escape;
      LexEscapedChar(s[0], tail);
    } else {
      assert Escape(s) + q == [s[0]] + tail;
      hide LexQuoted, Escape;
      LexPlainChar(s[0], tail);
    }
  }

  lemma {:induction false} LexEscaped(s: string, rest: string)
    ensures LexQuoted(Escape(s) + (['"'] + rest)) == Quoted(s, rest)
  {
    var q := ['"'] + rest;
    if s == "" {
      assert Escape(s) + q == q && q[1..] == rest;
    } else {
      hide Escape, LexQuoted;
      var tail := Escape(s[1..]) + q;
      LexEscaped(s[1..], rest);
      LexFirst(s, q);
      assert s == [s[0]] + s[1..];
    }
  }

  /** A quoted string ends where it was meant to end, whatever it holds and whatever follows. */
  lemma QuotingIsSelfDelimiting(s: string, rest: string)
    ensures |SieveQuote(s)| > 0 && SieveQuote(s)[0] == '"'
    ensures LexQuoted((SieveQuote(s) + rest)[1..]) == Quoted(s, rest)
    ensures Lex(SieveQuote(s) + rest) == [Str(s)] + Lex(rest)
  {
    hide SieveQuote, Escape, ReplaceAll, Lex, LexQuoted;
    QuotedForm(s);
    var inside := Escape(s) + (['"'] + rest);
    assert SieveQuote(s) + rest == ['"'] + inside;
    LexEscaped(s, rest);
    assert (['"'] + inside)[1..] == inside;
    LexString(inside);
  }

  lemma QuotedForm(s: string)
    ensures SieveQuote(s) == ['"'] + (Escape(s) + ['"'])
  {
    TwoPassesAreOne(s);
    hide Escape, ReplaceAll;
    assert "\"" == ['"'];
  }

  lemma LexString(inside: string)
    requires LexQuoted(inside).Quoted?
    ensures Lex(['"'] + inside) == [Str(LexQuoted(inside).text)] + Lex(LexQuoted(inside).rest)
  {
    hide LexQuoted;
    assert (['"'] + inside)[1..] == inside;
  }

  // ---------------------------------------------------------------------------------------------
  // The script, piece by piece
  // ---------------------------------------------------------------------------------------------

  lemma LexSpace(c: char, rest: string)
    requires IsSpace(c)
    ensures Lex([c] + rest) == Lex(rest)
  {
    assert ([c] + rest)[1..] == rest;
  }

  lemma LexPunct(c: char, rest: string)
    requires IsPunct(c)
    ensures Lex([c] + rest) == [Punct(c)] + Lex(rest)
  {
    assert ([c] + rest)[1..] == rest;
  }

  ghost predicate Word(w: string) {
    w != "" && forall k :: 0 <= k < |w| ==> IsWord(w[k])
  }

  lemma {:induction false} WordEnds(w: string, rest: string)
    requires forall k :: 0 <= k < |w| ==> IsWord(w[k])
    requires rest == "" || !IsWord(rest[0])
    ensures WordLength(w + rest) == |w|
  {
    if w == "" {
      assert w + rest == rest;
    } else {
      assert (w + rest)[1..] == w[1..] + rest;
      WordEnds(w[1..], rest);
    }
  }

  lemma LexWord(w: string, rest: string)
    requires Word(w) && (rest == "" || !IsWord(rest[0]))
    ensures Lex(w + rest) == [Ident(w)] + Lex(rest)
  {
    hide WordLength, LexQuoted, SkipLine;
    var t := w + rest;
    WordEnds(w, rest);
    assert t[0] == w[0] && IsWord(w[0]);
    assert t[..|w|] == w && t[|w|..] == rest;
  }

  lemma LexTag(w: string, rest: string)
    requires Word(w) && (rest == "" || !IsWord(rest[0]))
    ensures Lex([':'] + (w + rest)) == [Tag(w)] + Lex(rest)
  {
    hide WordLength, LexQuoted, SkipLine;
    var t := [':'] + (w + rest);
    WordEnds(w, rest);
    assert t[1..] == w + rest && t[1..|w| + 1] == w && t[|w| + 1..] == rest;
  }

  lemma {:induction false} LineSkipped(text: string, rest: string)
    requires '\n' !in text
    ensures SkipLine(text + (['\n'] + rest)) == rest
    ensures FirstLine(text + (['\n'] + rest)) == text
  {
    var t := text + (['\n'] + rest);
    if text == "" {
      assert t == ['\n'] + rest && t[1..] == rest;
    } else {
      assert t[1..] == text[1..] + (['\n'] + rest);
      assert text == [text[0]] + text[1..];
      LineSkipped(text[1..], rest);
    }
  }

  lemma {:induction false} NothingToEscape(s: string)
    requires '\\' !in s && '"' !in s
    ensures Escape(s) == s
  {
    if s != "" {
      assert s == [s[0]] + s[1..];
      NothingToEscape(s[1..]);
    }
  }

  lemma LexHash(body: string)
    ensures Lex(['#'] + body) == Lex(SkipLine(body))
  {
    assert (['#'] + body)[1..] == body;
  }

  lemma LexHashLine(text: string, rest: string)
    requires '\n' !in text
    ensures Lex((['#'] + text) + (['\n'] + rest)) == Lex(rest)
    ensures FirstLine((['#'] + text) + (['\n'] + rest)) == ['#'] + text
  {
    hide Lex;
    var body := text + (['\n'] + rest);
    assert (['#'] + text) + (['\n'] + rest) == ['#'] + body;
    LexHash(body);
    LineSkipped(text, rest);
    LineSkipped(['#'] + text, rest);
  }

  lemma LexComment(meta: string, rest: string)
    requires '\n' !in meta
    ensures Lex(RULE_META_PREFIX + (meta + ("\r\n" + rest))) == Lex(rest)
    ensures FirstLine(RULE_META_PREFIX + (meta + ("\r\n" + rest))) == RULE_META_PREFIX + meta + "\r"
  {
    hide Lex, FirstLine;
    var line := RULE_META_PREFIX + meta + "\r";
    var text := line[1..];
    assert line == ['#'] + text;
    assert '\n' !in line;
    assert RULE_META_PREFIX + (meta + ("\r\n" + rest)) == line + (['\n'] + rest);
    LexHashLine(text, rest);
  }

  lemma PlainQuote(s: string)
    requires '\\' !in s && '"' !in s
    ensures SieveQuote(s) == "\"" + s + "\""
  {
    TwoPassesAreOne(s);
    NothingToEscape(s);
  }

  lemma LexRequire(rest: string)
    ensures Lex("require [\"fileinto\"];\r\n" + rest)
         == [Ident("require"), Punct('['), Str("fileinto"), Punct(']'), Punct(';')] + Lex(rest)
  {
    hide Lex, SieveQuote;
    var list := "[\"fileinto\"];\r\n" + rest;
    LexWord("require", " " + list);
    LexSpace(' ', list);
    assert "require [\"fileinto\"];\r\n" + rest == "require" + (" " + list);
    LexList(rest);
  }

  /** The name of the extension, quoted in the source as it stands. */
  lemma LexFileinto(rest: string)
    ensures Lex("\"fileinto\"" + rest) == [Str("fileinto")] + Lex(rest)
  {
    hide Lex, SieveQuote, LexQuoted;
    PlainQuote("fileinto");
    QuotingIsSelfDelimiting("fileinto", rest);
    assert "\"fileinto\"" == "\"" + "fileinto" + "\"";
  }

  lemma LexLineEnd(rest: string)
    ensures Lex(";\r\n" + rest) == [Punct(';')] + Lex(rest)
  {
    hide Lex;
    var t := "\n" + rest;
    LexPunct(';', "\r" + t);
    LexSpace('\r', t);
    LexSpace('\n', rest);
    assert ";\r\n" + rest == ";" + ("\r" + t);
  }

  lemma LexList(rest: string)
    ensures Lex("[\"fileinto\"];\r\n" + rest)
         == [Punct('['), Str("fileinto"), Punct(']'), Punct(';')] + Lex(rest)
  {
    hide Lex, SieveQuote;
    var t3 := ";\r\n" + rest;
    var t2 := "]" + t3;
    var t1 := "\"fileinto\"" + t2;
    LexPunct('[', t1);
    LexFileinto(t2);
    LexPunct(']', t3);
    LexLineEnd(rest);
    assert "[\"fileinto\"];\r\n" + rest == "[" + t1;
  }

  lemma LexTest(rest: string)
    ensures Lex("if header :contains " + rest) == [Ident("if"), Ident("header"), Tag("contains")] + Lex(rest)
  {
    hide Lex;
    var t2 := ":" + ("contains" + (" " + rest));
    var t1 := "header" + (" " + t2);
    LexWord("if", " " + t1);
    LexSpace(' ', t1);
    LexWord("header", " " + t2);
    LexSpace(' ', t2);
    LexTag("contains", " " + rest);
    LexSpace(' ', rest);
    assert "if header :contains " + rest == "if" + (" " + t1);
  }

  lemma LexOpen(rest: string)
    ensures Lex(" {\r\n    " + rest) == [Punct('{')] + Lex(rest)
  {
    hide Lex;
    var t4 := " " + rest;
    var t3 := " " + t4;
    var t2 := " " + t3;
    var t1 := " " + t2;
    var t0 := "\n" + t1;
    LexSpace(' ', "{" + ("\r" + t0));
    LexPunct('{', "\r" + t0);
    LexSpace('\r', t0);
    LexSpace('\n', t1);
    LexSpace(' ', t2);
    LexSpace(' ', t3);
    LexSpace(' ', t4);
    LexSpace(' ', rest);
    assert " {\r\n    " + rest == " " + ("{" + ("\r" + t0));
  }

  lemma LexAction(rest: string)
    ensures Lex("fileinto " + rest) == [Ident("fileinto")] + Lex(rest)
  {
    hide Lex;
    LexWord("fileinto", " " + rest);
    LexSpace(' ', rest);
    assert "fileinto " + rest == "fileinto" + (" " + rest);
  }

  lemma LexClose()
    ensures Lex(";\r\n}\r\n") == [Punct(';'), Punct('}')]
  {
    LexPunct(';', "\r\n}\r\n");
    LexSpace('\r', "\n}\r\n");
    LexSpace('\n', "}\r\n");
    LexPunct('}', "\r\n");
    LexSpace('\r', "\n");
    LexSpace('\n', "");
    assert ";\r\n}\r\n" == ";" + "\r\n}\r\n" && "\r\n}\r\n" == "\r" + "\n}\r\n" && "\n}\r\n" == "\n" + "}\r\n";
    assert "}\r\n" == "}" + "\r\n" && "\r\n" == "\r" + "\n" && "\n" == "\n" + "";
  }

  /** The three fields name the headers they test. */
  lemma HeaderIsTheField(field: string)
    ensures field in {"from", "to", "subject"} ==> FieldHeader(field) == field
  {
  }

  /** The script of a rule lexes to that one rule, whatever the value and the folder hold, provided the metadata
      comment stays on its line. */
  lemma ScriptIsTheRule(meta: string, rule: RuleMeta)
    requires '\n' !in meta
    ensures Lex(SieveRuleScript(meta, rule)) == RuleTokens(Rule(FieldHeader(rule.field), rule.value, rule.folder))
    ensures rule.field in {"from", "to", "subject"} ==>
              Lex(SieveRuleScript(meta, rule)) == RuleTokens(Rule(rule.field, rule.value, rule.folder))
  {
    HeaderIsTheField(rule.field);
    hide Lex, SieveQuote, FieldHeader;
    var t8 := ";\r\n}\r\n";
    var t7 := SieveQuote(rule.folder) + t8;
    var t6 := "fileinto " + t7;
    var t5 := " {\r\n    " + t6;
    var t4 := SieveQuote(rule.value) + t5;
    var t3 := " " + t4;
    var t2 := SieveQuote(FieldHeader(rule.field)) + t3;
    var t1 := "if header :contains " + t2;
    var t0 := "require [\"fileinto\"];\r\n" + t1;
    LexComment(meta, t0);
    LexRequire(t1);
    LexTest(t2);
    QuotingIsSelfDelimiting(FieldHeader(rule.field), t3);
    LexSpace(' ', t4);
    QuotingIsSelfDelimiting(rule.value, t5);
    LexOpen(t6);
    LexAction(t7);
    QuotingIsSelfDelimiting(rule.folder, t8);
    LexClose();
    assert SieveRuleScript(meta, rule) == RULE_META_PREFIX + (meta + ("\r\n" + t0));
  }

  /** The metadata read back from a script is the rule it was printed from. */
  lemma MetaRoundTrip(meta: string, rule: RuleMeta, unmarshal: string -> Option<RuleMeta>)
    requires '\n' !in meta && unmarshal(meta) == Some(rule)
    ensures ParseRuleMeta(SieveRuleScript(meta, rule), unmarshal) == Some(rule)
    ensures "# mailfold-rule: " + meta + "\r\n" <= SieveRuleScript(meta, rule)
  {
    hide Lex, SieveQuote, FieldHeader, FirstLine;
    var rest := ScriptAfterMeta(meta, rule);
    LexComment(meta, rest);
    WithoutCR(meta);
  }

  lemma ScriptAfterMeta(meta: string, rule: RuleMeta) returns (rest: string)
    ensures SieveRuleScript(meta, rule) == RULE_META_PREFIX + (meta + ("\r\n" + rest))
    ensures "# mailfold-rule: " + meta + "\r\n" <= SieveRuleScript(meta, rule)
  {
    hide SieveQuote, FieldHeader;
    var script := SieveRuleScript(meta, rule);
    rest := script[|RULE_META_PREFIX| + |meta| + 2..];
    assert script == RULE_META_PREFIX + (meta + ("\r\n" + rest));
    assert script == (RULE_META_PREFIX + meta + "\r\n") + rest;
  }

  lemma WithoutCR(meta: string)
    ensures TrimCR(RULE_META_PREFIX + meta + "\r") == RULE_META_PREFIX + meta
    ensures RULE_META_PREFIX <= RULE_META_PREFIX + meta
    ensures (RULE_META_PREFIX + meta)[|RULE_META_PREFIX|..] == meta
  {
  }

  /** A script whose first line is another comment, or none, is no rule. */
  lemma OtherScriptsAreNoRules(line: string, rest: string, unmarshal: string -> Option<RuleMeta>)
    requires '\n' !in line && !("# mailfold-rule: " <= TrimCR(line))
    ensures ParseRuleMeta(line + "\n" + rest, unmarshal) == None
  {
    LineSkipped(line, rest);
    assert line + "\n" + rest == line + (['\n'] + rest);
  }
}

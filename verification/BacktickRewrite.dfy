/** backticks_to_double_quotes: MariaDB identifiers in backticks become DuckDB identifiers in
    double quotes.  The text is seen as a list of tokens; the rewrite requotes some of them. */
module BacktickRewrite {
  import opened Common
  import opened SqlRegions

  /** Quoted text is a name: the content between the quotes, with doubled quotes undoubled. */
  datatype Token = Plain(c: char) | Remark(text: string) | Name(quote: char, content: string) | Open(text: string)

  function Double(name: string, q: char): string {
    if name == [] then [] else (if name[0] == q then [q, q] else [name[0]]) + Double(name[1..], q)
  }

  function Undouble(body: string, q: char): string {
    if body == [] then []
    else if body[0] == q && |body| > 1 && body[1] == q then [q] + Undouble(body[2..], q)
    else [body[0]] + Undouble(body[1..], q)
  }

  function Quote(name: string, q: char): string {
    [q] + Double(name, q) + [q]
  }

  function Text(t: Token): string {
    match t
    case Plain(c) => [c]
    case Remark(text) => text
    case Name(q, content) => Quote(content, q)
    case Open(text) => text
  }

  function HeadLen(s: string): (n: nat)
    requires s != []
    ensures 1 <= n <= |s|
  {
    var p := Scan(s, false);
    if p.kind.NoRegion? then 1 else p.len
  }

  /** The first token of a text. */
  function Head(s: string): Token
    requires s != []
  {
    var p := Scan(s, false);
    match p.kind
    case NoRegion => Plain(s[0])
    case Comment => Remark(s[..p.len])
    case Unterminated => Open(s)
    case Quoted => if p.len < 2 then Open(s) else Name(s[0], Undouble(s[1..p.len - 1], s[0]))
  }

  function Tail(s: string): string
    requires s != []
  {
    s[HeadLen(s)..]
  }

  function Lex(s: string): seq<Token>
    decreases |s|
  {
    if s == [] then [] else [Head(s)] + Lex(Tail(s))
  }

  function Requoted(t: Token): Token {
    if t.Name? && t.quote == '`' then Name('"', t.content) else t
  }

  function RequoteAll(ts: seq<Token>): seq<Token> {
    if ts == [] then [] else [Requoted(ts[0])] + RequoteAll(ts[1..])
  }

  function Print(ts: seq<Token>): string {
    if ts == [] then [] else Text(ts[0]) + Print(ts[1..])
  }

  /** What the rewrite produces. */
  function Rewrite(s: string): string
    decreases |s|
  {
    if s == [] then [] else Text(Requoted(Head(s))) + Rewrite(Tail(s))
  }

  // ----- names and their quoted form -----

  lemma {:induction false} UndoubleDouble(name: string, q: char)
    ensures Undouble(Double(name, q), q) == name
  {
    if name != [] {
      UndoubleDouble(name[1..], q);
      var d := Double(name[1..], q);
      if name[0] == q {
        assert ([q, q] + d)[2..] == d;
      } else {
        assert ([name[0]] + d)[1..] == d;
      }
    }
  }

  lemma BodyStep(s: string, q: char)
    ensures s != [] && s[0] != q ==> BodyLen(s, q, false) == Shift(1, BodyLen(s[1..], q, false))
    ensures |s| > 1 && s[0] == q && s[1] == q ==> BodyLen(s, q, false) == Shift(2, BodyLen(s[2..], q, false))
    ensures s != [] && s[0] == q && (|s| > 1 ==> s[1] != q) ==> BodyLen(s, q, false) == Some(1)
  {
  }

  /** A scan goes through a doubled name, whatever follows it. */
  lemma {:induction false} BodyOfDouble(name: string, q: char, tail: string)
    ensures BodyLen(Double(name, q) + tail, q, false) == Shift(|Double(name, q)|, BodyLen(tail, q, false))
  {
    if name == [] {
      assert Double(name, q) + tail == tail;
    } else {
      BodyOfDouble(name[1..], q, tail);
      var d, c := Double(name[1..], q), if name[0] == q then [q, q] else [name[0]];
      assert Double(name, q) == c + d;
      hide BodyLen, Double;
      assert Double(name, q) + tail == c + (d + tail);
      BodyStep(c + (d + tail), q);
      assert (c + (d + tail))[|c|..] == d + tail;
    }
  }

  /** Every terminated body is a doubled name: quoted text has one name and one spelling. */
  lemma {:induction false} BodyIsDouble(s: string, q: char)
    requires BodyLen(s, q, false).Some?
    ensures var body := s[..BodyLen(s, q, false).value - 1];
            && Double(Undouble(body, q), q) == body
            && s[BodyLen(s, q, false).value - 1] == q
    decreases |s|
  {
    assert s != [];
    hide BodyLen;
    BodyStep(s, q);
    var n := BodyLen(s, q, false).value;
    var body := s[..n - 1];
    if s[0] != q {
      BodyIsDouble(s[1..], q);
      assert s[1..][..n - 2] == body[1..];
    } else if |s| > 1 && s[1] == q {
      BodyIsDouble(s[2..], q);
      assert s[2..][..n - 3] == body[2..];
      assert body == [q, q] + body[2..];
      assert ([q] + Undouble(body[2..], q))[1..] == Undouble(body[2..], q);
    }
  }

  lemma QuotedHead(s: string)
    requires s != [] && Scan(s, false).kind.Quoted?
    ensures var n := Scan(s, false).len;
            && 2 <= n && IsQuote(s[0]) && Quote(Undouble(s[1..n - 1], s[0]), s[0]) == s[..n]
            && (n < |s| ==> s[n] != s[0])
  {
    hide BodyLen, LineLen, ClosingLen, Undouble, Double;
    var n, body := Scan(s, false).len, s[1..];
    assert Scan(s, false) == Closed(Quoted, 1, BodyLen(body, s[0], false), s);
    hide Scan;
    BodyIsDouble(body, s[0]);
    QuotedEnd(body, s[0]);
    assert body[..n - 2] == s[1..n - 1];
    assert s[..n] == [s[0]] + s[1..n - 1] + [s[n - 1]];
  }

  lemma HeadText(s: string)
    requires s != []
    ensures Text(Head(s)) == s[..HeadLen(s)] && s == Text(Head(s)) + Tail(s)
    ensures Head(s).Name? ==> IsQuote(Head(s).quote) && s[0] == Head(s).quote
                              && (Tail(s) != [] ==> Tail(s)[0] != s[0])
  {
    if Scan(s, false).kind.Quoted? { QuotedHead(s); }
    else if Scan(s, false).kind.Unterminated? {
      assert Scan(s, false).len == |s| by { hide BodyLen, ClosingLen, LineLen; }
    }
    hide Scan, Undouble, Quote;
  }

  lemma {:induction false} QuotedEnd(s: string, q: char)
    requires BodyLen(s, q, false).Some?
    ensures var n := BodyLen(s, q, false).value; n < |s| ==> s[n] != q
    decreases |s|
  {
    if s[0] != q { QuotedEnd(s[1..], q); }
    else if |s| > 1 && s[1] == q { QuotedEnd(s[2..], q); }
  }

  /** Lexing loses nothing. */
  lemma {:induction false} PrintLex(s: string)
    ensures Print(Lex(s)) == s
    decreases |s|
  {
    if s != [] {
      HeadText(s);
      PrintLex(Tail(s));
      assert Lex(s)[1..] == Lex(Tail(s));
    }
  }

  lemma {:induction false} RewriteIsRequote(s: string)
    ensures Rewrite(s) == Print(RequoteAll(Lex(s)))
    decreases |s|
  {
    if s != [] {
      RewriteIsRequote(Tail(s));
      assert Lex(s)[1..] == Lex(Tail(s));
      assert RequoteAll(Lex(s))[1..] == RequoteAll(Lex(Tail(s)));
    }
  }

  // ----- which token a text starts with, when its tail changes -----

  lemma ScanOfQuoted(q: char, s: string)
    requires IsQuote(q)
    ensures Scan([q] + s, false) == Closed(Quoted, 1, BodyLen(s, q, false), [q] + s)
  {
    assert ([q] + s)[1..] == s;
  }

  /** How far a quoted name is scanned: to its closing quote, unless the same quote follows. */
  lemma ScanOfName(q: char, name: string, rest: string)
    requires IsQuote(q)
    ensures var s, n := Quote(name, q) + rest, |Quote(name, q)|;
            if rest != [] && rest[0] == q then Scan(s, false).len > n
            else Scan(s, false) == Piece(Quoted, n)
  {
    var d := Double(name, q);
    var body := d + ([q] + rest);
    assert Quote(name, q) + rest == [q] + body;
    ScanOfQuoted(q, body);
    BodyOfDouble(name, q, [q] + rest);
    BodyStep([q] + rest, q);
    hide BodyLen, Scan, Double;
  }

  /** A quoted name is the first token exactly when its quote does not follow it. */
  lemma HeadOfName(q: char, name: string, rest: string)
    requires IsQuote(q)
    ensures var s := Quote(name, q) + rest;
            if rest != [] && rest[0] == q then Head(s) != Name(q, name) && HeadLen(s) > |Quote(name, q)|
            else Head(s) == Name(q, name) && HeadLen(s) == |Quote(name, q)| && Tail(s) == rest
  {
    var s, n := Quote(name, q) + rest, |Quote(name, q)|;
    ScanOfName(q, name, rest);
    if rest != [] && rest[0] == q {
      HeadText(s);
      hide Scan, Double;
    } else {
      assert s[1..n - 1] == Double(name, q);
      UndoubleDouble(name, q);
      hide Scan, Double, Undouble;
    }
  }

  /** Two adjacent double-quoted names read as one. */
  lemma QuotesMerge(a: string, b: string, q: char)
    ensures Quote(a, q) + Quote(b, q) == Quote(a + [q] + b, q)
  {
    DoubleAppend(a, [q] + b, q);
    assert a + [q] + b == a + ([q] + b);
    assert ([q] + b)[1..] == b;
    assert Double([q] + b, q) == [q, q] + Double(b, q);
  }

  lemma {:induction false} DoubleAppend(a: string, b: string, q: char)
    ensures Double(a + b, q) == Double(a, q) + Double(b, q)
  {
    if a == [] {
      assert a + b == b;
    } else {
      DoubleAppend(a[1..], b, q);
      var c := if a[0] == q then [q, q] else [a[0]];
      assert (a + b)[1..] == a[1..] + b;
      assert Double(a, q) == c + Double(a[1..], q) && Double(a + b, q) == c + Double(a[1..] + b, q);
      hide Double;
      Assoc(c, Double(a[1..], q), Double(b, q));
    }
  }

  lemma {:induction false} LineLenOfPrefix(s: string, rest: string)
    requires LineLen(s) == |s| && s != [] && s[|s| - 1] != '\n' ==> rest == []
    requires s == [] ==> rest == []
    ensures LineLen(s[..LineLen(s)] + rest) == LineLen(s)
  {
    if s == [] {
    } else if s[0] == '\n' {
    } else {
      var n := LineLen(s[1..]);
      LineLenOfPrefix(s[1..], rest);
      assert (s[..n + 1] + rest)[1..] == s[1..][..n] + rest;
    }
  }

  lemma {:induction false} ClosingLenOfPrefix(s: string, rest: string)
    requires ClosingLen(s).Some?
    ensures ClosingLen(s[..ClosingLen(s).value] + rest) == ClosingLen(s)
  {
    if s[0] == '*' && s[1] == '/' {
    } else {
      var n := ClosingLen(s[1..]).value;
      ClosingLenOfPrefix(s[1..], rest);
      assert (s[..n + 1] + rest)[1..] == s[1..][..n] + rest;
    }
  }

  lemma ScanOfBlockComment(s: string, rest: string)
    requires StartsBlockComment(s) && Scan(s, false).kind.Comment?
    ensures Scan(s[..Scan(s, false).len] + rest, false) == Scan(s, false)
  {
    hide ClosingLen;
    var n := Scan(s, false).len;
    ClosingLenOfPrefix(s[2..], rest);
    assert (s[..n] + rest)[2..] == s[2..][..n - 2] + rest;
  }

  lemma ScanOfLineComment(s: string, rest: string)
    requires (s != [] && s[0] == '#') || StartsDashComment(s)
    requires Scan(s, false).len == |s| ==> rest == []
    ensures Scan(s[..Scan(s, false).len] + rest, false) == Scan(s, false)
  {
    var m, n := if s[0] == '#' then 1 else 2, Scan(s, false).len;
    var s1 := s[..n] + rest;
    LineLenOfPrefix(s[m..], rest);
    hide LineLen;
    assert s[..n][m..] == s[m..][..n - m];
    assert s1[m..] == s[m..][..n - m] + rest;
    if n == |s| {
      assert s1 == s;
    }
  }

  /** A comment stays the first token, when nothing follows it now that nothing followed before. */
  lemma HeadOfRemark(s: string, rest: string)
    requires s != [] && Head(s).Remark? && (Tail(s) == [] ==> rest == [])
    ensures var s1 := Text(Head(s)) + rest;
            Head(s1) == Head(s) && HeadLen(s1) == HeadLen(s) && Tail(s1) == rest
  {
    if StartsBlockComment(s) {
      ScanOfBlockComment(s, rest);
    } else {
      ScanOfLineComment(s, rest);
    }
    hide Scan;
    var n := HeadLen(s);
    assert (s[..n] + rest)[..n] == s[..n];
  }

  // ----- the first token of a rewritten text -----

  predicate IsBacktickName(t: Token) { t.Name? && t.quote == '`' }
  predicate IsDoubleQuotedName(t: Token) { t.Name? && t.quote == '"' }

  /** The rewrite changes a first character only from a backtick to a double quote. */
  lemma RewriteStart(s: string)
    requires s != []
    ensures Rewrite(s) != []
    ensures Rewrite(s)[0] == if IsBacktickName(Head(s)) then '"' else s[0]
  {
    HeadText(s);
    hide Scan;
    assert Text(Requoted(Head(s))) != [];
  }

  lemma RewriteAfterDash(s: string)
    requires |s| > 1 && s[0] == '-'
    ensures |Rewrite(s)| > 1 && (Rewrite(s)[1] == s[1] || (s[1] == '`' && Rewrite(s)[1] == '"'))
  {
    HeadText(s);
    hide BodyLen, LineLen, ClosingLen;
    if Head(s).Plain? {
      RewriteStart(s[1..]);
      assert Rewrite(s) == ['-'] + Rewrite(s[1..]);
    } else {
      assert Head(s).Remark? && HeadLen(s) >= 2;
    }
  }

  /** A plain first character stays plain when what follows looks alike. */
  lemma PlainStart(s: string, s1: string)
    requires s != [] && Scan(s, false).kind.NoRegion?
    requires |s1| > 0 && s1[0] == s[0] && (|s1| > 1 <==> |s| > 1) && (|s1| > 1 && s1[1] == '*' ==> s[1] == '*')
    requires |s1| > 1 && s1[1] == '-' ==>
               s[1] == '-' && (|s1| > 2 <==> |s| > 2) && (|s1| > 2 && IsSpace(s1[2]) ==> IsSpace(s[2]))
    ensures Scan(s1, false).kind.NoRegion?
  {
    hide BodyLen, LineLen, ClosingLen;
  }

  lemma HeadOfPlain(s: string)
    requires s != [] && Head(s).Plain?
    ensures Rewrite(s) == [s[0]] + Rewrite(Tail(s))
    ensures Head(Rewrite(s)) == Head(s) && Tail(Rewrite(s)) == Rewrite(Tail(s))
  {
    var rest := s[1..];
    var r := Rewrite(rest);
    assert Rewrite(s) == [s[0]] + r;
    hide Rewrite, Scan;
    if rest != [] { RewriteStart(rest); }
    if |rest| > 1 && rest[0] == '-' { RewriteAfterDash(rest); }
    if |rest| == 1 && rest[0] == '-' { assert Rewrite(rest) == rest by { RewriteOne(rest); } }
    PlainStart(s, [s[0]] + r);
  }

  lemma RewriteOne(s: string)
    requires s == "-"
    ensures Rewrite(s) == s
  {
  }

  /** A requoted name and the token after it would run together. */
  predicate Touching(a: Token, b: Token) {
    || (IsBacktickName(a) && Text(b) != [] && Text(b)[0] == '"')
    || (IsDoubleQuotedName(a) && IsBacktickName(b))
  }

  predicate TouchesTail(s: string)
    requires s != []
  {
    Tail(s) != [] && Touching(Head(s), Head(Tail(s)))
  }

  lemma HeadOfRewrittenName(s: string)
    requires s != [] && Head(s).Name?
    ensures var out, t := Rewrite(s), Requoted(Head(s));
            && out == Text(t) + Rewrite(Tail(s))
            && if TouchesTail(s) then Head(out) != t else Head(out) == t && Tail(out) == Rewrite(Tail(s))
    ensures TouchesTail(s) ==> Rewrite(Tail(s))[0] == '"' && IsDoubleQuotedName(Requoted(Head(s)))
  {
    HeadText(s);
    var t, rest := Requoted(Head(s)), Tail(s);
    HeadOfName(t.quote, t.content, Rewrite(rest));
    if rest != [] {
      RewriteStart(rest);
      HeadText(rest);
    }
  }

  /** The first token of the rewritten text is the first token requoted, unless names run together. */
  lemma HeadOfRewrite(s: string)
    requires s != []
    ensures var out, t := Rewrite(s), Requoted(Head(s));
            && out == Text(t) + Rewrite(Tail(s)) && out != []
            && if TouchesTail(s) then Head(out) != t else Head(out) == t && Tail(out) == Rewrite(Tail(s))
  {
    HeadText(s);
    RewriteStart(s);
    match Head(s)
    case Plain(_) => HeadOfPlain(s);
    case Remark(_) =>
      if Tail(s) != [] { RewriteStart(Tail(s)); }
      HeadOfRemark(s, Rewrite(Tail(s)));
    case Name(_, _) => HeadOfRewrittenName(s);
    case Open(_) => assert Rewrite(s) == s;
  }

  predicate NoTouch(ts: seq<Token>) {
    |ts| < 2 || (!Touching(ts[0], ts[1]) && NoTouch(ts[1..]))
  }

  lemma NoTouchStep(s: string)
    requires s != []
    ensures NoTouch(Lex(s)) <==> !TouchesTail(s) && NoTouch(Lex(Tail(s)))
  {
    assert Lex(s)[1..] == Lex(Tail(s));
  }

  /** Scanning the rewritten text again gives the same tokens, each backtick name now in double
      quotes with the same content and all else unchanged, exactly when no backtick name
      directly touches double-quoted text. */
  lemma {:induction false} RescanGivesRequotedTokens(s: string)
    ensures Lex(Rewrite(s)) == RequoteAll(Lex(s)) <==> NoTouch(Lex(s))
    decreases |s|
  {
    if s != [] {
      RescanGivesRequotedTokens(Tail(s));
      HeadOfRewrite(s);
      NoTouchStep(s);
      var out := Rewrite(s);
      assert Lex(s)[1..] == Lex(Tail(s)) && Lex(s)[0] == Head(s);
      assert Lex(out)[0] == Head(out) && Lex(out)[1..] == Lex(Tail(out));
      assert RequoteAll(Lex(s))[0] == Requoted(Head(s)) && RequoteAll(Lex(s))[1..] == RequoteAll(Lex(Tail(s)));
      hide Lex, RequoteAll, NoTouch, TouchesTail, Rewrite;
      if !TouchesTail(s) {
        assert Lex(out) == [Head(out)] + Lex(out)[1..] by { assert |Lex(out)| > 0; }
      }
    }
  }

  // ----- idempotence -----

  lemma RewriteOfOpen(s: string)
    requires s != [] && Head(s).Open?
    ensures Rewrite(s) == s && Tail(s) == []
  {
    HeadText(s);
    hide Scan;
  }

  /** A double-quoted name in front of an unterminated one is unterminated too. */
  lemma OpenUnderName(name: string, s: string)
    requires s != [] && s[0] == '"' && Head(s).Open?
    ensures Head(Quote(name, '"') + s).Open?
  {
    var q, d := '"', Double(name, '"');
    assert s == [q] + s[1..];
    ScanOfQuoted(q, s[1..]);
    assert BodyLen(s[1..], q, false) == None;
    var body := d + ([q, q] + s[1..]);
    assert Quote(name, q) + s == [q] + body;
    ScanOfQuoted(q, body);
    BodyOfDouble(name, q, [q, q] + s[1..]);
    BodyStep([q, q] + s[1..], q);
    assert ([q, q] + s[1..])[2..] == s[1..];
    hide Scan, BodyLen;
  }

  lemma Assoc(a: string, b: string, c: string)
    ensures (a + b) + c == a + (b + c)
  {
  }

  lemma QuoteStartsRegion(s: string)
    requires s != [] && IsQuote(s[0])
    ensures Head(s).Name? || Head(s).Open?
  {
    hide BodyLen;
  }

  lemma MergeBefore(a: string, b: string, rest: string)
    ensures Quote(a, '"') + (Quote(b, '"') + rest) == Quote(a + ['"'] + b, '"') + rest
  {
    QuotesMerge(a, b, '"');
    Assoc(Quote(a, '"'), Quote(b, '"'), rest);
  }

  /** Rewritten text that starts with a double quote starts with a name or is unterminated. */
  lemma QuoteStartsRewrite(s: string)
    requires s != [] && Rewrite(s) != [] && Rewrite(s)[0] == '"'
    ensures var t := Requoted(Head(s));
            if t.Name? then t.quote == '"' && Rewrite(s) == Quote(t.content, '"') + Rewrite(Tail(s))
            else s[0] == '"' && Head(s).Open?
  {
    HeadText(s);
    RewriteStart(s);
    if s[0] == '"' { QuoteStartsRegion(s); }
    hide Scan, Double;
  }

  /** Double-quoted text that the rewrite has already produced is left alone, also when names
      before and after it run together. */
  lemma {:induction false} RewriteUnderName(name: string, s: string)
    ensures Rewrite(Quote(name, '"') + Rewrite(s)) == Quote(name, '"') + Rewrite(s)
    decreases |s|, 1
  {
    var r := Rewrite(s);
    var x := Quote(name, '"') + r;
    if s != [] { RewriteStart(s); }
    if s == [] || r[0] != '"' {
      HeadOfName('"', name, r);
      RewriteIdempotent(s);
    } else {
      QuoteStartsRewrite(s);
      hide Scan, Quote, Rewrite, Tail;
      var t := Requoted(Head(s));
      if t.Name? {
        MergeBefore(name, t.content, Rewrite(Tail(s)));
        RewriteUnderName(name + ['"'] + t.content, Tail(s));
      } else {
        RewriteOfOpen(s);
        OpenUnderName(name, s);
        RewriteOfOpen(x);
      }
    }
  }

  /** On every text, rewriting twice is rewriting once. */
  lemma {:induction false} RewriteIdempotent(s: string)
    ensures Rewrite(Rewrite(s)) == Rewrite(s)
    decreases |s|, 0
  {
    if s != [] {
      HeadOfRewrite(s);
      var t := Requoted(Head(s));
      if IsDoubleQuotedName(t) {
        RewriteUnderName(t.content, Tail(s));
      } else {
        RewriteIdempotent(Tail(s));
      }
    }
  }

  // ----- the code -----

  function RewriteFrom(sql: string, i: nat): string
    requires i <= |sql|
  {
    Rewrite(sql[i..])
  }

  lemma RequoteStep(c: char, name: string)
    ensures Double([c] + name, '"') == (if c == '"' then ['"', '"'] else [c]) + Double(name, '"')
  {
    assert ([c] + name)[1..] == name;
  }

  /** What is left to write of a backtick identifier from index `i` on. */
  function RequotedFrom(sql: string, i: nat, end: nat): string
    requires i < end <= |sql|
  {
    Double(Undouble(sql[i..end - 1], '`'), '"')
  }

  lemma RequotedAt(sql: string, i: nat, end: nat)
    requires i < end <= |sql|
    ensures RequotedFrom(sql, i, end)
         == if i + 1 == end then []
            else if sql[i] == '`' && i + 2 < end && sql[i + 1] == '`' then ['`'] + RequotedFrom(sql, i + 2, end)
            else (if sql[i] == '"' then ['"', '"'] else [sql[i]]) + RequotedFrom(sql, i + 1, end)
  {
    var rest := sql[i..end - 1];
    if i + 1 < end {
      assert rest[1..] == sql[i + 1..end - 1];
      RequoteStep(sql[i], Undouble(rest[1..], '`'));
      if sql[i] == '`' && i + 2 < end && sql[i + 1] == '`' {
        assert rest[2..] == sql[i + 2..end - 1];
        RequoteStep('`', Undouble(rest[2..], '`'));
      }
    }
  }

  /** The loop over a backtick identifier: undouble backticks, double double quotes. */
  method RequoteBody(sql: string, start: nat, end: nat) returns (out: string)
    requires start + 2 <= end <= |sql|
    ensures out == Quote(Undouble(sql[start + 1..end - 1], '`'), '"')
  {
    var i := start + 1;
    out := "\"";
    ghost var want := out + RequotedFrom(sql, i, end);
    while i + 1 < end
      invariant start + 1 <= i <= end - 1
      invariant want == out + RequotedFrom(sql, i, end)
    {
      hide *;
      RequotedAt(sql, i, end);
      var d := sql[i];
      if d == '`' && i + 2 < end && sql[i + 1] == '`' {
        Assoc(out, ['`'], RequotedFrom(sql, i + 2, end));
        out := out + ['`'];
        i := i + 2;
        continue;
      }
      var piece := if d == '"' then ['"', '"'] else [d];
      Assoc(out, piece, RequotedFrom(sql, i + 1, end));
      out := out + piece;
      i := i + 1;
    }
    RequotedAt(sql, i, end);
    out := out + ['"'];
  }

  /** The first token at index `i`, rewritten. */
  function ImageAt(sql: string, i: nat): string
    requires i < |sql|
  {
    Text(Requoted(Head(sql[i..])))
  }

  lemma RewriteAt(sql: string, i: nat)
    requires i < |sql|
    ensures var p := ScanAt(sql, i, false);
            RewriteFrom(sql, i) == ImageAt(sql, i) + RewriteFrom(sql, i + if p.kind.NoRegion? then 1 else p.len)
  {
    hide Scan;
    var n := HeadLen(sql[i..]);
    assert sql[i..][n..] == sql[i + n..];
  }

  lemma ImageCases(sql: string, i: nat)
    requires i < |sql|
    ensures var p := ScanAt(sql, i, false);
            if p.kind.NoRegion? then ImageAt(sql, i) == [sql[i]]
            else if p.kind.Quoted? && sql[i] == '`' then
              p.len >= 2 && ImageAt(sql, i) == Quote(Undouble(sql[i + 1..i + p.len - 1], '`'), '"')
            else ImageAt(sql, i) == sql[i..i + p.len]
    ensures ScanAt(sql, i, false).kind.Quoted? ==> sql[i] == '\'' || sql[i] == '"' || sql[i] == '`'
  {
    var s := sql[i..];
    var p := Scan(s, false);
    HeadText(s);
    hide BodyLen, ClosingLen, LineLen;
    assert s[..p.len] == sql[i..i + p.len];
    if p.kind.Quoted? { assert s[1..p.len - 1] == sql[i + 1..i + p.len - 1]; }
  }

  /** One turn of the loop: the token at `i`, rewritten, and where it ends. */
  method RewriteOneToken(sql: string, i: nat) returns (piece: string, end: nat)
    requires i < |sql|
    ensures i < end <= |sql| && piece == ImageAt(sql, i)
    ensures RewriteFrom(sql, i) == piece + RewriteFrom(sql, end)
  {
    hide *;
    RewriteAt(sql, i);
    ImageCases(sql, i);
    var region;
    region, end := ScanSqlRegion(sql, i, false);
    if region == Comment || region == Unterminated { return sql[i..end], end; }
    if region == Quoted && sql[i] == '\'' { return sql[i..end], end; }
    if region == Quoted && sql[i] == '"' { return sql[i..end], end; }
    if region == Quoted && sql[i] == '`' {
      piece := RequoteBody(sql, i, end);
      return;
    }
    return [sql[i]], i + 1;
  }

  /** backticks_to_double_quotes. */
  method BackticksToDoubleQuotes(sql: string) returns (out: string)
    ensures out == Rewrite(sql)
  {
    out := [];
    var i := 0;
    assert sql[0..] == sql;
    ghost var want := RewriteFrom(sql, 0);
    while i < |sql|
      invariant 0 <= i <= |sql|
      invariant want == out + RewriteFrom(sql, i)
    {
      hide *;
      var piece, end := RewriteOneToken(sql, i);
      Assoc(out, piece, RewriteFrom(sql, end));
      out, i := out + piece, end;
    }
  }

  lemma {:induction false} UnchangedHasNoBackticks(s: string)
    requires Rewrite(s) == s
    ensures forall i :: 0 <= i < |Lex(s)| ==> !IsBacktickName(Lex(s)[i])
    decreases |s|
  {
    if s != [] {
      RewriteStart(s);
      HeadText(s);
      assert !IsBacktickName(Head(s));
      var text := Text(Head(s));
      assert (text + Rewrite(Tail(s)))[|text|..] == Rewrite(Tail(s)) && (text + Tail(s))[|text|..] == Tail(s);
      hide Head, Tail;
      UnchangedHasNoBackticks(Tail(s));
    }
  }

  /** Whatever the text, DuckDB's reading of the rewritten one has no name in backticks left. */
  lemma NoBackticksLeft(s: string)
    ensures forall i :: 0 <= i < |Lex(Rewrite(s))| ==> !IsBacktickName(Lex(Rewrite(s))[i])
  {
    RewriteIdempotent(s);
    UnchangedHasNoBackticks(Rewrite(s));
  }
}

/** The lexical regions of SQL text: comments, quoted text and the rest.  `Scan` gives the
    region at the head of a text; the method below computes it by index, as the code does. */
module SqlRegions {
  import opened Common

  datatype Kind = NoRegion | Comment | Quoted | Unterminated

  /** A region at the head of a text and how many characters it covers. */
  datatype Piece = Piece(kind: Kind, len: nat)

  /** isspace() of the C locale: space, tab, newline, vertical tab, form feed, carriage return. */
  predicate IsSpace(c: char)
    ensures IsSpace(c) <==> c in {' ', '\t', '\n', 11 as char, 12 as char, '\r'}
  {
    c == ' ' || '\t' <= c <= '\r'
  }

  predicate IsQuote(c: char) {
    c == '\'' || c == '"' || c == '`'
  }

  function Shift(n: nat, r: Option<nat>): Option<nat> {
    if r.Some? then Some(n + r.value) else None
  }

  /** Length of the text up to and including the first "*" "/". */
  function ClosingLen(s: string): (r: Option<nat>)
    ensures r.Some? ==> 2 <= r.value <= |s|
  {
    if |s| < 2 then None
    else if s[0] == '*' && s[1] == '/' then Some(2)
    else Shift(1, ClosingLen(s[1..]))
  }

  /** Length of the text up to and including the first newline, or of all of it. */
  function LineLen(s: string): (n: nat)
    ensures n <= |s|
  {
    if s == [] then 0 else if s[0] == '\n' then 1 else 1 + LineLen(s[1..])
  }

  /** Length of a quoted body, closing quote included; a doubled quote does not close it,
      nor, with `escapes`, one that follows a backslash. */
  function BodyLen(s: string, q: char, escapes: bool): (r: Option<nat>)
    ensures r.Some? ==> 1 <= r.value <= |s|
  {
    if s == [] then None
    else if s[0] == '\\' && escapes && |s| > 1 then Shift(2, BodyLen(s[2..], q, escapes))
    else if s[0] != q then Shift(1, BodyLen(s[1..], q, escapes))
    else if |s| > 1 && s[1] == q then Shift(2, BodyLen(s[2..], q, escapes))
    else Some(1)
  }

  predicate StartsBlockComment(s: string) {
    |s| > 1 && s[0] == '/' && s[1] == '*'
  }

  predicate StartsDashComment(s: string) {
    |s| > 1 && s[0] == '-' && s[1] == '-' && (|s| == 2 || IsSpace(s[2]))
  }

  function Closed(kind: Kind, opening: nat, n: Option<nat>, s: string): Piece {
    if n.Some? then Piece(kind, opening + n.value) else Piece(Unterminated, |s|)
  }

  /** The region that starts at the head of `s`. */
  function Scan(s: string, escapes: bool): (p: Piece)
    ensures p.len <= |s|
    ensures p.kind.NoRegion? <==> p.len == 0
  {
    if StartsBlockComment(s) then Closed(Comment, 2, ClosingLen(s[2..]), s)
    else if s != [] && s[0] == '#' then Piece(Comment, 1 + LineLen(s[1..]))
    else if StartsDashComment(s) then Piece(Comment, 2 + LineLen(s[2..]))
    else if s != [] && IsQuote(s[0]) then Closed(Quoted, 1, BodyLen(s[1..], s[0], escapes), s)
    else Piece(NoRegion, 0)
  }

  /** The region that starts at index `i`. */
  function ScanAt(sql: string, i: nat, escapes: bool): (p: Piece)
    requires i <= |sql|
    ensures i + p.len <= |sql|
    ensures p.kind.NoRegion? <==> p.len == 0
  {
    Scan(sql[i..], escapes)
  }

  /** `std::string::find("*" "/", from)`. */
  method FindClosing(sql: string, from: nat) returns (end: Option<nat>)
    requires from <= |sql|
    ensures end == Shift(from, ClosingLen(sql[from..]))
  {
    var i := from;
    while i + 1 < |sql|
      invariant from <= i <= |sql|
      invariant Shift(from, ClosingLen(sql[from..])) == Shift(i, ClosingLen(sql[i..]))
    {
      if sql[i] == '*' && sql[i + 1] == '/' { return Some(i + 2); }
      assert sql[i..][1..] == sql[i + 1..];
      i := i + 1;
    }
    end := None;
  }

  /** The end of the line that `from` is on. */
  method FindLineEnd(sql: string, from: nat) returns (end: nat)
    requires from <= |sql|
    ensures end == from + LineLen(sql[from..])
  {
    end := from;
    while end < |sql|
      invariant from <= end <= |sql|
      invariant from + LineLen(sql[from..]) == end + LineLen(sql[end..])
    {
      if sql[end] == '\n' { return end + 1; }
      assert sql[end..][1..] == sql[end + 1..];
      end := end + 1;
    }
  }

  lemma BodyAt(sql: string, i: nat, q: char, escapes: bool)
    requires i <= |sql|
    ensures BodyLen(sql[i..], q, escapes)
         == if i == |sql| then None
            else if sql[i] == '\\' && escapes && i + 1 < |sql| then Shift(2, BodyLen(sql[i + 2..], q, escapes))
            else if sql[i] != q then Shift(1, BodyLen(sql[i + 1..], q, escapes))
            else if i + 1 < |sql| && sql[i + 1] == q then Shift(2, BodyLen(sql[i + 2..], q, escapes))
            else Some(1)
  {
    assert i < |sql| ==> sql[i..][1..] == sql[i + 1..];
    assert i + 1 < |sql| ==> sql[i..][2..] == sql[i + 2..];
  }

  /** The quoted part of scan_sql_region. */
  method ScanBody(sql: string, start: nat, q: char, escapes: bool) returns (kind: Kind, end: nat)
    requires start < |sql|
    ensures Piece(kind, end) == Closed(Quoted, start + 1, BodyLen(sql[start + 1..], q, escapes), sql)
  {
    hide BodyLen;
    var i := start + 1;
    ghost var want := Shift(i, BodyLen(sql[i..], q, escapes));
    while i < |sql|
      invariant start < i <= |sql|
      invariant want == Shift(i, BodyLen(sql[i..], q, escapes))
    {
      BodyAt(sql, i, q, escapes);
      if sql[i] == '\\' && escapes && i + 1 < |sql| {
        i := i + 2;
      } else if sql[i] != q {
        i := i + 1;
      } else if i + 1 < |sql| && sql[i + 1] == q {
        i := i + 2;
      } else {
        return Quoted, i + 1;
      }
    }
    BodyAt(sql, i, q, escapes);
    return Unterminated, |sql|;
  }

  /** scan_sql_region: the region at `start`, and where it ends. */
  method ScanSqlRegion(sql: string, start: nat, escapes: bool) returns (kind: Kind, end: nat)
    ensures start <= end
    ensures start < |sql| ==> Piece(kind, end - start) == ScanAt(sql, start, escapes)
    ensures start >= |sql| ==> kind == NoRegion && end == start
  {
    kind, end := NoRegion, start;
    if start >= |sql| { return; }
    ghost var rest := sql[start..];
    assert |sql| > start + 1 ==> rest[1..] == sql[start + 1..];
    assert |sql| > start + 1 ==> rest[2..] == sql[start + 2..];
    var c := sql[start];
    if c == '/' && start + 1 < |sql| && sql[start + 1] == '*' {
      var close := FindClosing(sql, start + 2);
      if close.None? { return Unterminated, |sql|; }
      return Comment, close.value;
    }
    if c == '#' || (c == '-' && start + 1 < |sql| && sql[start + 1] == '-'
                    && (start + 2 == |sql| || IsSpace(sql[start + 2]))) {
      assert rest[1..] == sql[start + 1..];
      end := FindLineEnd(sql, start + if c == '#' then 1 else 2);
      return Comment, end;
    }
    if !IsQuote(c) { return; }
    assert rest[1..] == sql[start + 1..];
    kind, end := ScanBody(sql, start, c, escapes);
  }

  // ----- what the region lengths mean -----

  predicate ClosesAt(s: string, i: nat) {
    i + 1 < |s| && s[i] == '*' && s[i + 1] == '/'
  }

  /** A block comment ends at the first closing mark, and is unterminated when there is none. */
  lemma {:induction false} ClosingLenIsFirst(s: string, i: nat)
    ensures ClosingLen(s).Some? ==> ClosesAt(s, ClosingLen(s).value - 2)
    ensures ClosesAt(s, i) ==> ClosingLen(s).Some? && ClosingLen(s).value <= i + 2
    decreases |s|
  {
    if |s| >= 2 && !ClosesAt(s, 0) {
      if i > 0 { ClosingLenIsFirst(s[1..], i - 1); } else { ClosingLenIsFirst(s[1..], 0); }
    }
  }

  /** A line comment ends after the first newline, or at the end of the text. */
  lemma {:induction false} LineLenIsFirst(s: string, i: nat)
    requires i < |s|
    ensures i + 1 < LineLen(s) ==> s[i] != '\n'
    ensures i + 1 == LineLen(s) ==> s[i] == '\n' || i + 1 == |s|
  {
    if s[0] != '\n' {
      if i > 0 { LineLenIsFirst(s[1..], i - 1); }
      else if |s| > 1 { LineLenIsFirst(s[1..], 0); }
    }
  }

  /** Escapes matter only where there is a backslash. */
  lemma {:induction false} NoBackslash(s: string, q: char)
    requires forall i :: 0 <= i < |s| ==> s[i] != '\\'
    ensures BodyLen(s, q, true) == BodyLen(s, q, false)
    decreases |s|
  {
    if s != [] {
      NoBackslash(s[1..], q);
      if |s| > 1 { NoBackslash(s[2..], q); }
    }
  }

  // ----- what opens a region -----

  /** Two dashes open a comment at the end of the text or before white space, and only there. */
  lemma DashesOpen(c: char, rest: string, escapes: bool)
    ensures Scan("--", escapes) == Piece(Comment, 2)
    ensures Scan(['-', '-', c] + rest, escapes).kind
         == if c in {' ', '\t', '\n', 11 as char, 12 as char, '\r'} then Comment else NoRegion
  {
  }

  /** A slash opens a comment before a star, and only there. */
  lemma SlashOpens(c: char, rest: string, escapes: bool)
    ensures Scan("/", escapes) == Scan("-", escapes) == Piece(NoRegion, 0)
    ensures c == '*' ==> Scan(['/', c] + rest, escapes).kind in {Comment, Unterminated}
    ensures c != '*' ==> Scan(['/', c] + rest, escapes).kind == NoRegion
    ensures c != '-' ==> Scan(['-', c] + rest, escapes).kind == NoRegion
  {
  }

  /** A hash opens a line comment; each of the three quotes opens quoted text; and no other first
      character, the two above aside, opens anything. */
  lemma OneCharacterOpens(c: char, rest: string, escapes: bool)
    ensures c == '#' ==> Scan([c] + rest, escapes).kind == Comment
    ensures c in {'\'', '"', '`'} ==> Scan([c] + rest, escapes).kind in {Quoted, Unterminated}
    ensures c !in {'#', '\'', '"', '`', '/', '-'} ==> Scan([c] + rest, escapes).kind == NoRegion
  {
  }

  /** How long each region is, by what follows its opening. */
  lemma RegionEnds(rest: string, q: char, escapes: bool)
    requires q in {'\'', '"', '`'}
    ensures Scan(['#'] + rest, escapes) == Piece(Comment, 1 + LineLen(rest))
    ensures Scan("-- " + rest, escapes) == Piece(Comment, 3 + LineLen(rest))
    ensures Scan("/*" + rest, escapes) == Closed(Comment, 2, ClosingLen(rest), "/*" + rest)
    ensures Scan([q] + rest, escapes) == Closed(Quoted, 1, BodyLen(rest, q, escapes), [q] + rest)
  {
    assert (['#'] + rest)[1..] == ([q] + rest)[1..] == rest;
    assert ("-- " + rest)[2..] == [' '] + rest && ([' '] + rest)[1..] == rest;
    assert ("/*" + rest)[2..] == rest;
    hide BodyLen, ClosingLen;
  }

  // ----- string literals with backslash escapes -----

  /** A literal's content as MariaDB writes it: a backslash before every quote and backslash. */
  function Escaped(content: string, q: char): string {
    if content == [] then []
    else
      (if content[0] == q || content[0] == '\\' then ['\\', content[0]] else [content[0]]) + Escaped(content[1..], q)
  }

  /** With escapes on, the scan of an escaped content ends at the quote after it, whatever the
      content; unless that quote is doubled. */
  lemma {:induction false} BodyOfEscaped(content: string, q: char, rest: string)
    requires q != '\\' && (rest != [] ==> rest[0] != q)
    ensures BodyLen(Escaped(content, q) + [q] + rest, q, true) == Some(|Escaped(content, q)| + 1)
  {
    if content == [] {
      assert Escaped(content, q) + [q] + rest == [q] + rest;
    } else {
      BodyOfEscaped(content[1..], q, rest);
      var tail := Escaped(content[1..], q) + [q] + rest;
      var c := if content[0] == q || content[0] == '\\' then ['\\', content[0]] else [content[0]];
      assert Escaped(content, q) + [q] + rest == c + tail;
      assert (c + tail)[|c|..] == tail;
      EscapeStep(c + tail, q);
      hide BodyLen, Escaped;
    }
  }

  lemma EscapeStep(s: string, q: char)
    requires q != '\\'
    ensures |s| > 1 && s[0] == '\\' ==> BodyLen(s, q, true) == Shift(2, BodyLen(s[2..], q, true))
    ensures |s| > 1 && s[0] != '\\' && s[0] != q ==> BodyLen(s, q, true) == Shift(1, BodyLen(s[1..], q, true))
  {
  }
}

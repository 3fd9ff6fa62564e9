/** Forwarded SQL is read twice, by MariaDB with backslash escapes in string literals and by
    DuckDB without.  mariadb_query_has_unsafe_quote_escape refuses text that the two would
    split differently. */
module QuoteSafety {
  import opened Common
  import opened SqlRegions

  datatype Reader = MariaDb(ansiQuotes: bool) | DuckDb

  /** Quotes that delimit strings for MariaDB; the others delimit identifiers. */
  predicate IsStringQuote(c: char, ansiQuotes: bool) {
    c == '\'' || (c == '"' && !ansiQuotes)
  }

  /** The first region of a text as a reader sees it; a plain character is a piece of its own. */
  function FirstPiece(s: string, reader: Reader): (p: Piece)
    requires s != []
    ensures 1 <= p.len <= |s|
  {
    var escapes := reader.MariaDb? && IsStringQuote(s[0], reader.ansiQuotes);
    var p := Scan(s, escapes);
    if p.kind.NoRegion? then Piece(NoRegion, 1) else p
  }

  /** The whole text as a reader splits it. */
  function Split(s: string, reader: Reader): seq<Piece>
    decreases |s|
  {
    if s == [] then [] else [FirstPiece(s, reader)] + Split(s[FirstPiece(s, reader).len..], reader)
  }

  /** The text ends, for DuckDB, inside a comment or a quoted identifier. */
  predicate OpenEnded(s: string, ansiQuotes: bool)
    decreases |s|
  {
    && s != []
    && ((FirstPiece(s, DuckDb).kind.Unterminated? && !IsStringQuote(s[0], ansiQuotes))
        || OpenEnded(s[FirstPiece(s, DuckDb).len..], ansiQuotes))
  }

  /** The text is refused: the two readings differ, or it is open-ended. */
  predicate Unsafe(s: string, ansiQuotes: bool)
  {
    Split(s, MariaDb(ansiQuotes)) != Split(s, DuckDb) || OpenEnded(s, ansiQuotes)
  }

  /** One piece further: a mismatch or an open end here decides; otherwise the rest does. */
  lemma UnsafeStep(s: string, ansiQuotes: bool)
    requires s != []
    ensures var m, d := FirstPiece(s, MariaDb(ansiQuotes)), FirstPiece(s, DuckDb);
            Unsafe(s, ansiQuotes) <==>
              || m != d
              || (d.kind.Unterminated? && !IsStringQuote(s[0], ansiQuotes))
              || Unsafe(s[d.len..], ansiQuotes)
  {
    var m, d := FirstPiece(s, MariaDb(ansiQuotes)), FirstPiece(s, DuckDb);
    assert Split(s, MariaDb(ansiQuotes))[0] == m && Split(s, DuckDb)[0] == d;
    assert Split(s, MariaDb(ansiQuotes))[1..] == Split(s[m.len..], MariaDb(ansiQuotes));
    assert Split(s, DuckDb)[1..] == Split(s[d.len..], DuckDb);
  }

  /** Text without a backslash is read alike by both, so only an open end can refuse it. */
  lemma {:induction false} NoBackslashReadsAlike(s: string, ansiQuotes: bool)
    requires forall i :: 0 <= i < |s| ==> s[i] != '\\'
    ensures Split(s, MariaDb(ansiQuotes)) == Split(s, DuckDb)
    decreases |s|
  {
    if s != [] {
      NoBackslash(s[1..], s[0]);
      assert Scan(s, true) == Scan(s, false);
      hide Scan;
      NoBackslashReadsAlike(s[FirstPiece(s, DuckDb).len..], ansiQuotes);
    }
  }

  predicate UnsafeFrom(sql: string, i: nat, ansiQuotes: bool) {
    i <= |sql| && Unsafe(sql[i..], ansiQuotes)
  }

  /** The same, by index and by the cases the loop distinguishes. */
  lemma UnsafeAt(sql: string, i: nat, ansiQuotes: bool)
    requires i < |sql|
    ensures UnsafeFrom(sql, i, ansiQuotes) <==>
            var d := ScanAt(sql, i, false);
            if d.kind.Comment? then UnsafeFrom(sql, i + d.len, ansiQuotes)
            else if IsStringQuote(sql[i], ansiQuotes) then
              ScanAt(sql, i, true) != d || UnsafeFrom(sql, i + d.len, ansiQuotes)
            else if d.kind.Quoted? then UnsafeFrom(sql, i + d.len, ansiQuotes)
            else d.kind.Unterminated? || UnsafeFrom(sql, i + 1, ansiQuotes)
    ensures IsStringQuote(sql[i], ansiQuotes) ==> ScanAt(sql, i, true).len > 0
  {
    hide Unsafe, BodyLen, LineLen, ClosingLen;
    var d := FirstPiece(sql[i..], DuckDb);
    UnsafeStep(sql[i..], ansiQuotes);
    assert sql[i..][d.len..] == sql[i + d.len..];
  }

  lemma UnsafeEnds(sql: string, ansiQuotes: bool)
    ensures UnsafeFrom(sql, 0, ansiQuotes) == Unsafe(sql, ansiQuotes)
    ensures !UnsafeFrom(sql, |sql|, ansiQuotes)
  {
    assert sql[0..] == sql;
  }

  /** mariadb_query_has_unsafe_quote_escape.  Text is accepted exactly when MariaDB and DuckDB
      agree on every region's kind and end and the text does not stop inside a comment or
      identifier; without backslash escapes nothing is refused. */
  method HasUnsafeQuoteEscape(sql: string, backslashEscapes: bool, ansiQuotes: bool) returns (r: bool)
    ensures r <==> backslashEscapes && Unsafe(sql, ansiQuotes)
  {
    hide *;
    UnsafeEnds(sql, ansiQuotes);
    if !backslashEscapes || |sql| == 0 { return false; }
    var i := 0;
    while i < |sql|
      invariant 0 <= i <= |sql|
      invariant Unsafe(sql, ansiQuotes) <==> UnsafeFrom(sql, i, ansiQuotes)
      decreases |sql| - i
    {
      UnsafeAt(sql, i, ansiQuotes);
      var region, end := ScanSqlRegion(sql, i, false);
      if region == Comment {
        i := end;
        continue;
      }
      if IsStringQuote(sql[i], ansiQuotes) {
        var mRegion, mEnd := ScanSqlRegion(sql, i, true);
        if mRegion != region || mEnd != end { return true; }
        i := mEnd;
        continue;
      }
      if region == Quoted {
        i := end;
      } else if region == Unterminated {
        return true;
      } else {
        i := i + 1;
      }
    }
    return false;
  }

  // ----- which quotes are read with escapes -----

  /** Single-quoted text is read with escapes in every mode, double-quoted text unless ANSI_QUOTES
      makes it an identifier, text in backticks never; DuckDB's reading never has escapes. */
  lemma QuotesByMode(s: string, ansiQuotes: bool)
    ensures FirstPiece(['\''] + s, MariaDb(ansiQuotes)) == Scan(['\''] + s, true)
    ensures FirstPiece(['"'] + s, MariaDb(false)) == Scan(['"'] + s, true)
    ensures FirstPiece(['"'] + s, MariaDb(true)) == Scan(['"'] + s, false)
    ensures FirstPiece(['`'] + s, MariaDb(ansiQuotes)) == Scan(['`'] + s, false)
    ensures forall q :: q in {'\'', '"', '`'} ==> FirstPiece([q] + s, DuckDb) == Scan([q] + s, false)
  {
    hide BodyLen;
  }

  /** Backslashes matter in strings only: text without a quote that opens one in this mode is read
      alike by both. */
  lemma {:induction false} ReadAlikeWithoutStrings(s: string, ansiQuotes: bool)
    requires forall i :: 0 <= i < |s| ==> s[i] != '\'' && (s[i] == '"' ==> ansiQuotes)
    ensures Split(s, MariaDb(ansiQuotes)) == Split(s, DuckDb)
    decreases |s|
  {
    if s != [] {
      assert FirstPiece(s, MariaDb(ansiQuotes)) == FirstPiece(s, DuckDb);
      hide Scan;
      ReadAlikeWithoutStrings(s[FirstPiece(s, DuckDb).len..], ansiQuotes);
    }
  }

  lemma {:induction false} BodyThroughPlain(a: string, tail: string, q: char, escapes: bool)
    requires forall i :: 0 <= i < |a| ==> a[i] != q && a[i] != '\\'
    ensures BodyLen(a + tail, q, escapes) == Shift(|a|, BodyLen(tail, q, escapes))
  {
    if a == [] {
      assert a + tail == tail;
    } else {
      BodyThroughPlain(a[1..], tail, q, escapes);
      assert (a + tail)[1..] == a[1..] + tail;
    }
  }

  /** After a backslash the two readings are one quote apart, so a run of quotes closes the text for
      exactly one of them. */
  lemma {:induction false} OneQuoteApart(rest: string, q: char)
    requires q != '\\'
    ensures Shift(1, BodyLen([q] + rest, q, false)) != Shift(2, BodyLen(rest, q, true))
    decreases |rest|
  {
    var s := [q] + rest;
    if rest == [] || rest[0] != q {
      assert BodyLen(s, q, false) == Some(1);
    } else {
      assert s[2..] == rest[1..];
      assert BodyLen(s, q, false) == Shift(2, BodyLen(rest[1..], q, false));
      if |rest| > 1 && rest[1] == q {
        OneQuoteApart(rest[2..], q);
        assert rest[1..] == [q] + rest[2..];
      }
    }
  }

  lemma EscapedBodies(a: string, rest: string, q: char)
    requires q != '\\' && forall i :: 0 <= i < |a| ==> a[i] != q && a[i] != '\\'
    ensures var body := a + (['\\', q] + rest); BodyLen(body, q, true) != BodyLen(body, q, false)
  {
    var tail := ['\\', q] + rest;
    assert tail[1..] == [q] + rest && tail[2..] == rest;
    assert BodyLen(tail, q, true) == Shift(2, BodyLen(rest, q, true));
    assert BodyLen(tail, q, false) == Shift(1, BodyLen([q] + rest, q, false));
    hide BodyLen;
    BodyThroughPlain(a, tail, q, true);
    BodyThroughPlain(a, tail, q, false);
    OneQuoteApart(rest, q);
  }

  /** An escaped quote in a string is refused in every mode that reads it as one, wherever the text
      goes on. */
  lemma EscapedQuoteIsRefused(a: string, rest: string, q: char, ansiQuotes: bool)
    requires q == '\'' || (q == '"' && !ansiQuotes)
    requires forall i :: 0 <= i < |a| ==> a[i] != q && a[i] != '\\'
    ensures Unsafe([q] + (a + (['\\', q] + rest)), ansiQuotes)
  {
    hide BodyLen, Scan, FirstPiece, Unsafe;
    var body := a + (['\\', q] + rest);
    EscapedBodies(a, rest, q);
    QuotesByMode(body, ansiQuotes);
    RegionEnds(body, q, true);
    RegionEnds(body, q, false);
    UnsafeStep([q] + body, ansiQuotes);
  }

  /** Ordinary text before a string changes nothing: what follows decides. */
  lemma {:induction false} UnsafeAfterWord(word: string, s: string, ansiQuotes: bool)
    requires forall i :: 0 <= i < |word| ==> word[i] !in {'#', '\'', '"', '`', '/', '-'}
    ensures Unsafe(word + s, ansiQuotes) <==> Unsafe(s, ansiQuotes)
  {
    if word == [] {
      assert word + s == s;
    } else {
      UnsafeAfterWord(word[1..], s, ansiQuotes);
      var rest := word[1..] + s;
      assert word + s == [word[0]] + rest && ([word[0]] + rest)[1..] == rest;
      OneCharacterOpens(word[0], rest, false);
      OneCharacterOpens(word[0], rest, true);
      hide Scan, Unsafe;
      UnsafeStep([word[0]] + rest, ansiQuotes);
    }
  }

  /** Under ANSI_QUOTES the same text in double quotes is an identifier up to that quote, and only
      what follows decides. */
  lemma AnsiIdentifierIsRead(a: string, rest: string)
    requires forall i :: 0 <= i < |a| ==> a[i] != '"'
    requires rest != [] ==> rest[0] != '"'
    ensures Unsafe(['"'] + (a + (['"'] + rest)), true) <==> Unsafe(rest, true)
  {
    var tail := ['"'] + rest;
    var s := ['"'] + (a + tail);
    assert BodyLen(tail, '"', false) == Some(1);
    assert s[|a| + 2..] == rest;
    hide BodyLen, Scan, FirstPiece, Unsafe;
    QuotesByMode(a + tail, true);
    RegionEnds(a + tail, '"', false);
    BodyToQuote(a, tail, '"');
    UnsafeStep(s, true);
  }

  lemma {:induction false} BodyToQuote(a: string, tail: string, q: char)
    requires forall i :: 0 <= i < |a| ==> a[i] != q
    ensures BodyLen(a + tail, q, false) == Shift(|a|, BodyLen(tail, q, false))
  {
    if a == [] {
      assert a + tail == tail;
    } else {
      BodyToQuote(a[1..], tail, q);
      assert (a + tail)[1..] == a[1..] + tail;
    }
  }

  /** Text that ends inside an identifier is refused; text that ends inside a string that both read
      alike is not. */
  lemma OpenTextIsRefused(a: string, ansiQuotes: bool)
    requires forall i :: 0 <= i < |a| ==> a[i] !in {'\'', '"', '`', '\\'}
    ensures Unsafe(['`'] + a, ansiQuotes) && !Unsafe(['\''] + a, ansiQuotes)
    ensures Unsafe(['"'] + a, ansiQuotes) <==> ansiQuotes
  {
    OpenQuote(a, '`', ansiQuotes);
    OpenQuote(a, '\'', ansiQuotes);
    OpenQuote(a, '"', ansiQuotes);
  }

  lemma OpenQuote(a: string, q: char, ansiQuotes: bool)
    requires q in {'\'', '"', '`'} && forall i :: 0 <= i < |a| ==> a[i] != q && a[i] != '\\'
    ensures Unsafe([q] + a, ansiQuotes) <==> !(q == '\'' || (q == '"' && !ansiQuotes))
  {
    var s := [q] + a;
    BodyThroughPlain(a, [], q, true);
    BodyThroughPlain(a, [], q, false);
    assert a + [] == a;
    RegionEnds(a, q, true);
    RegionEnds(a, q, false);
    UnsafeStep(s, ansiQuotes);
    assert s[|s|..] == [];
    UnsafeEnds([], ansiQuotes);
    hide BodyLen, Scan;
  }
}

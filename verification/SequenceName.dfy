/** Identifier quoting, and the nextval() argument in which quoted identifiers are nested
    inside a string literal. */
module SequenceName {
  import opened SqlRegions
  import opened BacktickRewrite

  function DoubleFrom(name: string, i: nat, q: char): string
    requires i <= |name|
  {
    Double(name[i..], q)
  }

  lemma DoubleAt(name: string, i: nat, q: char)
    requires i < |name|
    ensures DoubleFrom(name, i, q) == (if name[i] == q then [q, name[i]] else [name[i]]) + DoubleFrom(name, i + 1, q)
  {
    assert name[i..][1..] == name[i + 1..];
  }

  /** The doubling loop shared by the quoting helpers. */
  method DoubleQuotesIn(name: string, q: char) returns (out: string)
    ensures out == Double(name, q)
  {
    out := [];
    var i := 0;
    assert name[0..] == name;
    ghost var want := DoubleFrom(name, 0, q);
    while i < |name|
      invariant 0 <= i <= |name|
      invariant want == out + DoubleFrom(name, i, q)
    {
      hide *;
      DoubleAt(name, i, q);
      var piece := if name[i] == q then [q, name[i]] else [name[i]];
      Assoc(out, piece, DoubleFrom(name, i + 1, q));
      out, i := out + piece, i + 1;
    }
  }

  /** quote_duckdb_identifier. */
  method QuoteDuckdbIdentifier(name: string) returns (out: string)
    ensures out == Quote(name, '"')
    ensures Lex(out) == [Name('"', name)]
  {
    var d := DoubleQuotesIn(name, '"');
    out := ['"'] + d + ['"'];
    LexName('"', name, []);
    assert out + [] == out;
  }

  function AutoincSequenceName(table: string): string {
    "mdb_autoinc_" + table
  }

  /** The text of the literal: two quoted identifiers joined by a dot. */
  function Qualified(schema: string, table: string): string {
    Quote(schema, '"') + "." + Quote(AutoincSequenceName(table), '"')
  }

  function NextvalExpr(schema: string, table: string): string {
    "nextval(" + Quote(Qualified(schema, table), '\'') + ")"
  }

  /** autoinc_nextval_expr. */
  method AutoincNextvalExpr(schema: string, table: string) returns (r: string)
    ensures r == NextvalExpr(schema, table)
  {
    var a := QuoteDuckdbIdentifier(schema);
    var b := QuoteDuckdbIdentifier(AutoincSequenceName(table));
    var escaped := DoubleQuotesIn(a + "." + b, '\'');
    r := "nextval('" + escaped + "')";
    assert r == "nextval(" + (['\''] + escaped + ['\'']) + ")";
  }

  // ----- how the expression is read -----

  lemma LexName(q: char, name: string, rest: string)
    requires IsQuote(q) && (rest != [] ==> rest[0] != q)
    ensures Lex(Quote(name, q) + rest) == [Name(q, name)] + Lex(rest)
  {
    HeadOfName(q, name, rest);
  }

  predicate PlainChar(c: char) {
    c != '/' && c != '-' && c != '#' && !IsQuote(c)
  }

  lemma LexPlain(c: char, rest: string)
    requires PlainChar(c)
    ensures Lex([c] + rest) == [Plain(c)] + Lex(rest)
  {
    assert ([c] + rest)[1..] == rest;
  }

  function Plains(word: string): seq<Token> {
    if word == [] then [] else [Plain(word[0])] + Plains(word[1..])
  }

  lemma {:induction false} LexWord(word: string, rest: string)
    requires forall i :: 0 <= i < |word| ==> PlainChar(word[i])
    ensures Lex(word + rest) == Plains(word) + Lex(rest)
  {
    hide Lex;
    if word == [] {
      assert word + rest == rest;
    } else {
      LexWord(word[1..], rest);
      LexPlain(word[0], word[1..] + rest);
      assert word + rest == [word[0]] + (word[1..] + rest);
    }
  }

  /** The literal's content reads as two identifiers that decode to the schema and the sequence. */
  lemma QualifiedDecodes(schema: string, table: string)
    ensures Lex(Qualified(schema, table))
         == [Name('"', schema), Plain('.'), Name('"', AutoincSequenceName(table))]
  {
    var q, dot := Quote(AutoincSequenceName(table), '"'), ['.'];
    LexName('"', AutoincSequenceName(table), []);
    assert q + [] == q && Lex([]) == [];
    hide Lex, Quote, AutoincSequenceName;
    LexPlain('.', q);
    LexName('"', schema, dot + q);
    Assoc(Quote(schema, '"'), dot, q);
  }

  /** A text without backtick names is left alone by the rewrite. */
  lemma {:induction false} RewriteKeepsText(s: string)
    requires forall i :: 0 <= i < |Lex(s)| ==> !IsBacktickName(Lex(s)[i])
    ensures Rewrite(s) == s
    decreases |s|
  {
    if s != [] {
      assert Lex(s) == [Head(s)] + Lex(Tail(s));
      assert !IsBacktickName(Lex(s)[0]);
      forall i | 0 <= i < |Lex(Tail(s))| ensures !IsBacktickName(Lex(Tail(s))[i]) {
        assert Lex(s)[i + 1] == Lex(Tail(s))[i];
      }
      HeadText(s);
      RewriteKeepsText(Tail(s));
    }
  }

  lemma LiteralReads(content: string)
    ensures Lex(Quote(content, '\'') + [')']) == [Name('\'', content), Plain(')')]
  {
    var close := [')'];
    LexPlain(')', []);
    assert close + [] == close;
    LexName('\'', content, close);
  }

  lemma CallReads(word: string, content: string)
    requires forall i :: 0 <= i < |word| ==> PlainChar(word[i])
    ensures Lex(word + Quote(content, '\'') + [')']) == Plains(word) + [Name('\'', content), Plain(')')]
  {
    hide *;
    LiteralReads(content);
    LexWord(word, Quote(content, '\'') + [')']);
    Assoc(word, Quote(content, '\''), [')']);
  }

  lemma {:induction false} PlainsAreNotNames(word: string)
    ensures forall i :: 0 <= i < |Plains(word)| ==> !IsBacktickName(Plains(word)[i])
  {
    if word != [] { PlainsAreNotNames(word[1..]); }
  }

  /** For every schema and table name, whatever quotes or backticks they hold, the expression is
      a call with one string literal whose content is the qualified sequence name, and the
      rewrite applied to every statement does not change it. */
  lemma NextvalReadsBack(schema: string, table: string)
    ensures Lex(NextvalExpr(schema, table))
         == Plains("nextval(") + [Name('\'', Qualified(schema, table)), Plain(')')]
    ensures Rewrite(NextvalExpr(schema, table)) == NextvalExpr(schema, table)
  {
    CallReads("nextval(", Qualified(schema, table));
    PlainsAreNotNames("nextval(");
    hide Lex, Plains, Rewrite, Qualified;
    RewriteKeepsText(NextvalExpr(schema, table));
  }

  /** Different tables draw from different sequences. */
  lemma NextvalIsInjective(schema: string, table: string, schema1: string, table1: string)
    requires NextvalExpr(schema, table) == NextvalExpr(schema1, table1)
    ensures schema == schema1 && table == table1
  {
    var call, a, b := Plains("nextval("), Qualified(schema, table), Qualified(schema1, table1);
    NextvalReadsBack(schema, table);
    NextvalReadsBack(schema1, table1);
    QualifiedDecodes(schema, table);
    QualifiedDecodes(schema1, table1);
    hide Lex, Plains, NextvalExpr, Qualified;
    var x, y := Lex(NextvalExpr(schema, table)), Lex(NextvalExpr(schema1, table1));
    assert x[|call|] == Name('\'', a) && y[|call|] == Name('\'', b);
    var u, w := Lex(a), Lex(b);
    assert u[0] == Name('"', schema) && w[0] == Name('"', schema1);
    assert u[2] == Name('"', AutoincSequenceName(table)) && w[2] == Name('"', AutoincSequenceName(table1));
    PrefixDrops(table, table1);
  }

  lemma PrefixDrops(table: string, table1: string)
    requires AutoincSequenceName(table) == AutoincSequenceName(table1)
    ensures table == table1
  {
    var p := "mdb_autoinc_";
    assert (p + table)[|p|..] == table && (p + table1)[|p|..] == table1;
  }
}

/** The default expressions of a table, read from the binary vcol_defs entries of its .frm. */
module VcolDefs {
  import opened Common

  const VCOL_DEFAULT: Byte := 2

  datatype Entry = Entry(kind: Byte, fieldNr: nat, name: seq<Byte>, expr: seq<Byte>)

  /** Each number fits the bytes the format gives it. */
  predicate Encodable(e: Entry) {
    e.fieldNr < 0x1_0000 && |e.expr| < 0x1_0000 && |e.name| < 0x100
  }

  function TwoBytes(n: nat): seq<Byte>
    requires n < 0x1_0000
  {
    [(n % 256) as Byte, (n / 256) as Byte]
  }

  /** type, field_nr, expr_length, name_length, name, expression. */
  function Serialise(e: Entry): (b: seq<Byte>)
    requires Encodable(e)
    ensures |b| == 6 + |e.name| + |e.expr|
  {
    [e.kind] + TwoBytes(e.fieldNr) + TwoBytes(|e.expr|) + [|e.name| as Byte] + e.name + e.expr
  }

  function SerialiseAll(es: seq<Entry>): seq<Byte>
    requires forall i :: 0 <= i < |es| ==> Encodable(es[i])
  {
    if es == [] then [] else Serialise(es[0]) + SerialiseAll(es[1..])
  }

  /** The expression of the first DEFAULT entry for the field, or empty text. */
  function FirstDefault(es: seq<Entry>, fieldNr: nat): seq<Byte> {
    if es == [] then []
    else if es[0].kind == VCOL_DEFAULT && es[0].fieldNr == fieldNr then es[0].expr
    else FirstDefault(es[1..], fieldNr)
  }

  /** uint2korr. */
  function ReadTwo(b: seq<Byte>, pos: nat): nat
    requires pos + 2 <= |b|
  {
    b[pos] as nat + 256 * b[pos + 1] as nat
  }

  /** Where the parts of the entry at `pos` are. */
  lemma EntryAt(defs: seq<Byte>, pos: nat, e: Entry, rest: seq<Byte>)
    requires pos <= |defs| && Encodable(e) && defs[pos..] == Serialise(e) + rest
    ensures pos + 6 + |e.name| + |e.expr| <= |defs|
    ensures defs[pos] == e.kind && ReadTwo(defs, pos + 1) == e.fieldNr
    ensures ReadTwo(defs, pos + 3) == |e.expr| && defs[pos + 5] as nat == |e.name|
    ensures var at := pos + 6 + |e.name|; defs[at..at + |e.expr|] == e.expr && defs[at + |e.expr|..] == rest
  {
    var tail, n, m := defs[pos..], |e.name|, |e.expr|;
    assert forall i :: 0 <= i < |tail| ==> tail[i] == defs[pos + i];
    assert tail[0] == e.kind;
    assert tail[1..3] == TwoBytes(e.fieldNr) && tail[3..5] == TwoBytes(m);
    assert tail[1] == tail[1..3][0] && tail[2] == tail[1..3][1] && tail[3] == tail[3..5][0] && tail[4] == tail[3..5][1];
    assert tail[5] == n as Byte;
    assert tail[6 + n..6 + n + m] == e.expr;
    assert defs[pos + 6 + n..pos + 6 + n + m] == tail[6 + n..6 + n + m];
    assert tail[6 + n + m..] == rest && defs[pos + 6 + n + m..] == tail[6 + n + m..];
  }

  /** get_default_expr_from_vcol_defs, on any serialised list: it ends, never reads past the end,
      and returns the expression of the first DEFAULT entry of the field. */
  method GetDefaultExpr(defs: seq<Byte>, target: nat, ghost entries: seq<Entry>) returns (r: seq<Byte>)
    requires forall i :: 0 <= i < |entries| ==> Encodable(entries[i])
    requires defs == SerialiseAll(entries)
    ensures r == FirstDefault(entries, target)
  {
    var pos := 0;
    ghost var left := entries;
    assert defs[0..] == defs;
    while pos < |defs|
      invariant 0 <= pos <= |defs|
      invariant forall i :: 0 <= i < |left| ==> Encodable(left[i])
      invariant defs[pos..] == SerialiseAll(left)
      invariant FirstDefault(entries, target) == FirstDefault(left, target)
      decreases |left|
    {
      hide Serialise;
      EntryAt(defs, pos, left[0], SerialiseAll(left[1..]));
      var kind, fieldNr := defs[pos], ReadTwo(defs, pos + 1);
      var exprLen, nameLen := ReadTwo(defs, pos + 3), defs[pos + 5] as nat;
      pos := pos + 6 + nameLen;
      if kind == VCOL_DEFAULT && fieldNr == target {
        return defs[pos..pos + exprLen];
      }
      pos := pos + exprLen;
      left := left[1..];
    }
    r := [];
  }

  /** The layout of an entry: type, then field number and expression length in two bytes each, low
      byte first, the length of the name in one, the name, and the expression. */
  lemma Layout(e: Entry)
    requires Encodable(e)
    ensures var b, n := Serialise(e), |e.name|;
            && b[0] == e.kind && b[5] as nat == n
            && b[1] as nat + 256 * b[2] as nat == e.fieldNr && b[3] as nat + 256 * b[4] as nat == |e.expr|
            && b[6..6 + n] == e.name && b[6 + n..] == e.expr
  {
    var b, n := Serialise(e), |e.name|;
    assert b[1..3] == TwoBytes(e.fieldNr) && b[3..5] == TwoBytes(|e.expr|);
    assert b[1] == b[1..3][0] && b[2] == b[1..3][1] && b[3] == b[3..5][0] && b[4] == b[3..5][1];
  }

  /** An entry of type 2, the type of default expressions, for the field. */
  predicate Sets(e: Entry, fieldNr: nat) {
    e.kind == 2 && e.fieldNr == fieldNr
  }

  /** What the field gets: the expression of the first entry that sets it, or nothing when none does. */
  lemma {:induction false} FirstDefaultIsFirst(es: seq<Entry>, fieldNr: nat, i: nat)
    requires i < |es|
    ensures Sets(es[i], fieldNr) && (forall j :: 0 <= j < i ==> !Sets(es[j], fieldNr)) ==>
              FirstDefault(es, fieldNr) == es[i].expr
    ensures (forall j :: 0 <= j < |es| ==> !Sets(es[j], fieldNr)) ==> FirstDefault(es, fieldNr) == []
  {
    var rest := es[1..];
    assert forall j :: 1 <= j < |es| ==> es[j] == rest[j - 1];
    assert forall j :: 0 <= j < |rest| ==> rest[j] == es[j + 1];
    if i > 0 {
      FirstDefaultIsFirst(rest, fieldNr, i - 1);
    } else if |es| > 1 {
      FirstDefaultIsFirst(rest, fieldNr, 0);
    }
  }
}

/** Which columns an UPDATE changes, found by comparing two records in MariaDB's row format. */
module RowDifference {
  import opened Common
  import opened Tables

  /** ~0U, the length calc_field_difference uses for NULL. */
  const NULL_LENGTH: nat := 0xFFFF_FFFF

  /** Where a BLOB's bytes are, by address. */
  type Memory = map<nat, seq<Byte>>

  datatype Kind = Fixed | Varchar(lengthBytes: nat) | Blob

  datatype Field = Field(offset: nat, packLength: nat, maybeNull: bool, kind: Kind)

  /** A record: its bytes, and the columns its null bits mark. */
  datatype Record = Record(bytes: seq<Byte>, nulls: set<nat>)

  function LittleEndian(b: seq<Byte>): nat {
    if b == [] then 0 else b[0] as nat + 256 * LittleEndian(b[1..])
  }

  /** Where a column's bytes are and how long they are, from the record alone. */
  function Length(r: Record, f: Field): nat
    requires FieldFits(r, f)
  {
    match f.kind
    case Fixed => f.packLength
    case Varchar(n) => LittleEndian(r.bytes[f.offset..f.offset + n])
    case Blob => LittleEndian(r.bytes[f.offset..f.offset + f.packLength - 8])
  }

  function Address(r: Record, f: Field): nat
    requires FieldFits(r, f) && f.kind.Blob?
  {
    LittleEndian(r.bytes[f.offset + f.packLength - 8..f.offset + f.packLength])
  }

  /** The field lies inside the record. */
  predicate FieldFits(r: Record, f: Field) {
    && f.offset + f.packLength <= |r.bytes|
    && (f.kind.Varchar? ==> 1 <= f.kind.lengthBytes <= 2 && f.kind.lengthBytes <= f.packLength)
    && (f.kind.Blob? ==> 9 <= f.packLength <= 12)
  }

  predicate IsNull(r: Record, f: Field, i: nat) {
    f.maybeNull && i in r.nulls
  }

  /** The content lies inside the record, or for a BLOB in memory. */
  predicate Readable(r: Record, f: Field, i: nat, mem: Memory) {
    && FieldFits(r, f)
    && (f.kind.Varchar? ==> f.kind.lengthBytes + Length(r, f) <= f.packLength)
    && (f.kind.Blob? && !IsNull(r, f, i) && Length(r, f) > 0 ==>
          Address(r, f) in mem && Length(r, f) <= |mem[Address(r, f)]|)
  }

  function Bytes(r: Record, f: Field, i: nat, mem: Memory): (b: seq<Byte>)
    requires Readable(r, f, i, mem) && !IsNull(r, f, i)
    ensures |b| == Length(r, f)
  {
    match f.kind
    case Fixed => r.bytes[f.offset..f.offset + f.packLength]
    case Varchar(n) => r.bytes[f.offset + n..f.offset + n + Length(r, f)]
    case Blob => if Length(r, f) == 0 then [] else mem[Address(r, f)][..Length(r, f)]
  }

  function ColumnOf(r: Record, f: Field, i: nat, mem: Memory): Value
    requires Readable(r, f, i, mem)
  {
    if IsNull(r, f, i) then Null else Datum(Bytes(r, f, i, mem))
  }

  /** mach_read_from_n_little_endian. */
  method ReadLittleEndian(buf: seq<Byte>) returns (n: nat)
    requires buf != []
    ensures n == LittleEndian(buf)
  {
    n := 0;
    var p := |buf|;
    assert buf[p..] == [];
    while true
      invariant 0 < p <= |buf| && n == LittleEndian(buf[p..])
      decreases p
    {
      p := p - 1;
      assert buf[p..][1..] == buf[p + 1..];
      n := n * 256 + buf[p] as nat;
      if p == 0 { break; }
    }
    assert buf[0..] == buf;
  }

  /** The column is NULL, or as long as the length that stands for NULL. */
  predicate LooksNull(v: Value) {
    v.Null? || |v.bytes| == NULL_LENGTH
  }

  /** The length part of row_mysql_read_true_varchar and row_mysql_read_blob_ref. */
  method ReadLength(r: Record, f: Field) returns (n: nat)
    requires FieldFits(r, f)
    ensures n == Length(r, f)
  {
    match f.kind {
      case Fixed => n := f.packLength;
      case Varchar(k) => n := ReadLittleEndian(r.bytes[f.offset..f.offset + k]);
      case Blob => n := ReadLittleEndian(r.bytes[f.offset..f.offset + f.packLength - 8]);
    }
  }

  /** calc_field_difference.  It reports exactly the changes of content or NULL status, except
      that it takes a content of 2^32 - 1 bytes for NULL: between two columns that look NULL it
      sees no change. */
  method FieldDiffers(prior: Record, next: Record, f: Field, i: nat, mem: Memory) returns (r: bool)
    requires Readable(prior, f, i, mem) && Readable(next, f, i, mem)
    ensures r <==> ColumnOf(prior, f, i, mem) != ColumnOf(next, f, i, mem)
                   && !(LooksNull(ColumnOf(prior, f, i, mem)) && LooksNull(ColumnOf(next, f, i, mem)))
  {
    hide Length, Bytes, LittleEndian;
    var oLen := ReadLength(prior, f);
    var nLen := ReadLength(next, f);
    if f.maybeNull {
      if i in prior.nulls { oLen := NULL_LENGTH; }
      if i in next.nulls { nLen := NULL_LENGTH; }
    }
    if oLen != nLen { return true; }
    if oLen == NULL_LENGTH || oLen == 0 { return false; }
    r := Bytes(prior, f, i, mem) != Bytes(next, f, i, mem);
  }

  // ----- whole rows -----

  predicate RowReadable(r: Record, fields: seq<Field>, mem: Memory) {
    forall i :: 0 <= i < |fields| ==> Readable(r, fields[i], i, mem)
  }

  function RowOf(r: Record, fields: seq<Field>, mem: Memory): (row: Row)
    requires RowReadable(r, fields, mem)
    ensures |row| == |fields|
  {
    seq(|fields|, i requires 0 <= i < |fields| => ColumnOf(r, fields[i], i, mem))
  }

  /** The columns calc_row_difference flags. */
  function Flagged(before: Row, after: Row): (cols: set<nat>)
    ensures forall i: nat :: i in cols <==>
              i < |before| && i < |after| && before[i] != after[i] && !(LooksNull(before[i]) && LooksNull(after[i]))
  {
    set i: nat | i < |before| && i < |after| && before[i] != after[i] && !(LooksNull(before[i]) && LooksNull(after[i]))
  }

  /** Some column changes between NULL and a content of 2^32 - 1 bytes, or between two of those. */
  ghost predicate SentinelClash(before: Row, after: Row) {
    exists i :: 0 <= i < |before| && i < |after| && before[i] != after[i] && LooksNull(before[i]) && LooksNull(after[i])
  }

  /** Writing only the flagged columns is a full update exactly when no column falls into the
      NULL sentinel. */
  lemma FlaggedCovers(before: Row, after: Row)
    requires |before| == |after|
    ensures Covers(Flagged(before, after), before, after) <==> !SentinelClash(before, after)
    ensures !SentinelClash(before, after) && Flagged(before, after) == {} ==> before == after
  {
    if i :| 0 <= i < |before| && before[i] != after[i] && LooksNull(before[i]) && LooksNull(after[i]) {
      assert i !in Flagged(before, after);
    } else if Flagged(before, after) == {} {
      assert forall i :: 0 <= i < |before| ==> before[i] == after[i] || i in Flagged(before, after);
    }
  }

  /** calc_row_difference. */
  method RowDiffers(prior: Record, next: Record, fields: seq<Field>, mem: Memory) returns (any: bool, flagged: set<nat>)
    requires RowReadable(prior, fields, mem) && RowReadable(next, fields, mem)
    ensures any <==> flagged != {}
    ensures flagged == Flagged(RowOf(prior, fields, mem), RowOf(next, fields, mem))
  {
    ghost var before, after := RowOf(prior, fields, mem), RowOf(next, fields, mem);
    any, flagged := false, {};
    for i := 0 to |fields|
      invariant any <==> flagged != {}
      invariant forall j: nat :: j in flagged <==> j < i && j in Flagged(before, after)
    {
      var differs := FieldDiffers(prior, next, fields[i], i, mem);
      if differs {
        any, flagged := true, flagged + {i};
      }
    }
  }

  /** The sentinel is hit only by a column of 4294967295 bytes, so shorter contents never hide. */
  lemma SentinelIsHuge(before: Row, after: Row)
    requires SentinelClash(before, after)
    ensures exists i :: 0 <= i < |before| && i < |after| &&
              ((before[i].Datum? && |before[i].bytes| == 4294967295)
               || (after[i].Datum? && |after[i].bytes| == 4294967295))
  {
  }

  // ----- the row format -----

  /** The fields the format has: VARCHAR with one or two length bytes, BLOBs of the four sizes, and
      anything else, up to the end of the record. */
  lemma FieldsFit(r: Record, offset: nat, packLength: nat, maybeNull: bool)
    requires offset + packLength == |r.bytes|
    ensures FieldFits(r, Field(offset, packLength, maybeNull, Fixed))
    ensures forall n :: n in {1, 2} && n <= packLength ==>
              FieldFits(r, Field(offset, packLength, maybeNull, Varchar(n)))
    ensures FieldFits(r, Field(offset, packLength, maybeNull, Blob)) <==> packLength in {9, 10, 11, 12}
    ensures forall n :: n !in {1, 2} ==> !FieldFits(r, Field(offset, packLength, maybeNull, Varchar(n)))
  {
  }

  function Pow256(k: nat): nat {
    if k == 0 then 1 else 256 * Pow256(k - 1)
  }

  /** Byte `i` of a number weighs 256^i. */
  lemma {:induction false} LittleEndianWeights(b: seq<Byte>, last: Byte)
    ensures LittleEndian(b + [last]) == LittleEndian(b) + last as nat * Pow256(|b|)
  {
    if b == [] {
      assert b + [last] == [last] && [last][1..] == [];
    } else {
      LittleEndianWeights(b[1..], last);
      assert (b + [last])[1..] == b[1..] + [last];
      Weigh(last as nat, Pow256(|b| - 1));
    }
  }

  lemma Weigh(x: nat, p: nat)
    ensures 256 * (x * p) == x * (256 * p)
  {
  }

  /** How MariaDB stores a number in `k` bytes. */
  function Stored(n: nat, k: nat): (b: seq<Byte>)
    ensures |b| == k
  {
    if k == 0 then [] else [(n % 256) as Byte] + Stored(n / 256, k - 1)
  }

  lemma {:induction false} StoredReadsBack(n: nat, k: nat)
    requires n < Pow256(k)
    ensures LittleEndian(Stored(n, k)) == n
  {
    if k > 0 {
      StoredReadsBack(n / 256, k - 1);
      assert Stored(n, k)[1..] == Stored(n / 256, k - 1);
    }
  }

  /** A VARCHAR field is its length in one or two bytes, then the content. */
  lemma VarcharReadsBack(r: Record, f: Field, n: nat, i: nat, content: seq<Byte>, mem: Memory)
    requires FieldFits(r, f) && f.kind == Varchar(n) && !IsNull(r, f, i)
    requires |content| < Pow256(n) && n + |content| <= f.packLength
    requires r.bytes[f.offset..f.offset + n] == Stored(|content|, n)
    requires r.bytes[f.offset + n..f.offset + n + |content|] == content
    ensures Readable(r, f, i, mem) && ColumnOf(r, f, i, mem) == Datum(content)
  {
    hide LittleEndian, Stored, Pow256;
    StoredReadsBack(|content|, n);
    assert Length(r, f) == |content|;
    hide Length;
    assert Bytes(r, f, i, mem) == content;
  }

  /** A BLOB field is its length, then the eight bytes of the content's address. */
  lemma BlobReadsBack(r: Record, f: Field, i: nat, content: seq<Byte>, address: nat, mem: Memory)
    requires FieldFits(r, f) && f.kind.Blob? && !IsNull(r, f, i)
    requires |content| < Pow256(f.packLength - 8) && address < Pow256(8) && address in mem && mem[address] == content
    requires var at := f.offset + f.packLength - 8;
             r.bytes[f.offset..at] == Stored(|content|, f.packLength - 8) && r.bytes[at..at + 8] == Stored(address, 8)
    ensures Readable(r, f, i, mem) && ColumnOf(r, f, i, mem) == Datum(content)
  {
    StoredReadsBack(|content|, f.packLength - 8);
    StoredReadsBack(address, 8);
    hide LittleEndian, Stored, Pow256;
    assert content[..|content|] == content;
  }

  /** A field of any other type is its bytes; and a column is NULL exactly when its null bit says so. */
  lemma FixedReadsBack(r: Record, f: Field, i: nat, mem: Memory)
    requires Readable(r, f, i, mem)
    ensures ColumnOf(r, f, i, mem) == Null <==> f.maybeNull && i in r.nulls
    ensures f.kind.Fixed? && !(f.maybeNull && i in r.nulls) ==>
              ColumnOf(r, f, i, mem) == Datum(r.bytes[f.offset..f.offset + f.packLength])
  {
  }
}

/** Metadata tokens (section III.1.9 of ECMA-335): a 32-bit value whose high
    byte is the table tag and whose low 24 bits are a one-based row index,
    row 0 denoting the null row of that table. */
module Tokens {
  import opened Wrappers

  /** The tags section II.22 of ECMA-335 numbers: 0x00 (Module) through 0x2C
      (GenericParamConstraint), except the unnumbered gaps 0x03, 0x05 and 0x07
      (the field, method and param pointer tables), 0x13 and 0x16 (the event
      and property pointer tables) and 0x1E, 0x1F (the edit-and-continue
      tables). */
  predicate IsTableTag(tag: nat) {
    && tag <= 0x2C
    && tag != 0x03 && tag != 0x05 && tag != 0x07
    && tag != 0x13 && tag != 0x16
    && tag != 0x1E && tag != 0x1F
  }

  /** The tag of a known metadata table. */
  type TableIndex = t: nat | IsTableTag(t)

  const RowSpan: nat := 0x1000000   // 1 << 24
  const TokenSpan: nat := 0x1_0000_0000

  type UInt32 = n: nat | n < TokenSpan

  datatype MetadataToken = MetadataToken(rawValue: UInt32)

  /** The high byte, `rawValue >> 24`. */
  function TagByte(token: MetadataToken): (r: nat)
    ensures r < 0x100
  {
    token.rawValue / RowSpan
  }

  /** `oneBasedRowIndex`, the low 24 bits `rawValue & 0xFFFFFF`. */
  function OneBasedRowIndex(token: MetadataToken): (r: nat)
    ensures r < RowSpan
    ensures token.rawValue == TagByte(token) * RowSpan + r
  {
    token.rawValue % RowSpan
  }

  /** `tableIndex`: the table the high byte names. An unknown tag makes the
      failable TableIndex initializer return nil, and its force-unwrap traps. */
  function TableIndexOf(token: MetadataToken): (r: Outcome<TableIndex>)
    ensures r.Success? <==> IsTableTag(TagByte(token))
    ensures !r.Success? ==> r.Fatal?
    ensures r.Success? ==> r.value == TagByte(token)
  {
    var tag := TagByte(token);
    if IsTableTag(tag) then Success(tag) else Fatal
  }

  /** init(tableIndex:oneBasedRowIndex:). The table tag shifted into the high
      byte and or-ed with a row below 2^24 is their sum, written here as such. */
  function MakeToken(table: TableIndex, row: nat): (r: MetadataToken)
    requires row < RowSpan
    ensures TableIndexOf(r) == Success(table)
    ensures OneBasedRowIndex(r) == row
  {
    assert IsTableTag(table);
    MetadataToken(table * RowSpan + row)
  }

  /** init(nullOf:): the table tag with row 0. */
  function NullOf(table: TableIndex): (r: MetadataToken)
    ensures IsNull(r)
    ensures TableIndexOf(r) == Success(table)
  {
    assert IsTableTag(table);
    MetadataToken(table * RowSpan)
  }

  /** init(_ rowIndex:) for a row of the table `table`: a missing row index
      gives row 0. */
  function FromRowIndex(table: TableIndex, rowIndex: Option<nat>): (r: MetadataToken)
    requires rowIndex.Some? ==> rowIndex.value < RowSpan
    ensures rowIndex.None? ==> r == NullOf(table)
    ensures rowIndex.Some? ==> r == MakeToken(table, rowIndex.value)
  {
    MakeToken(table, rowIndex.GetOr(0))
  }

  /** The tags of the tables the numbering skips trap like tags past the
      last table. */
  lemma GapTagsTrap(row: nat)
    requires row < RowSpan
    ensures forall tag :: tag in [0x03, 0x05, 0x07, 0x13, 0x16, 0x1E, 0x1F, 0x2D, 0x70] ==>
      TableIndexOf(MetadataToken(tag * RowSpan + row)) == Fatal
  {
  }

  predicate IsNull(token: MetadataToken) {
    OneBasedRowIndex(token) == 0
  }

  /** `<` on tokens: numeric order of the raw values. */
  predicate Less(a: MetadataToken, b: MetadataToken) {
    a.rawValue < b.rawValue
  }

  /** A token with a known tag is exactly its table and row put back together. */
  lemma TokenIsTableAndRow(token: MetadataToken)
    requires TableIndexOf(token).Success?
    ensures MakeToken(TableIndexOf(token).value, OneBasedRowIndex(token)) == token
  {
  }

  /** Building a token loses nothing: equal tokens come from equal parts. */
  lemma MakeTokenInjective(t1: TableIndex, r1: nat, t2: TableIndex, r2: nat)
    requires r1 < RowSpan && r2 < RowSpan
    requires MakeToken(t1, r1) == MakeToken(t2, r2)
    ensures t1 == t2 && r1 == r2
  {
    assert TableIndexOf(MakeToken(t1, r1)) == Success(t1);
    assert TableIndexOf(MakeToken(t2, r2)) == Success(t2);
  }

  /** `isNull` holds exactly for the null token of the token's own table. */
  lemma IsNullIffNullOf(token: MetadataToken)
    requires TableIndexOf(token).Success?
    ensures IsNull(token) <==> token == NullOf(TableIndexOf(token).value)
  {
  }

  /** `<` is a strict total order. */
  lemma LessIsStrictTotalOrder(a: MetadataToken, b: MetadataToken, c: MetadataToken)
    ensures !Less(a, a)
    ensures Less(a, b) && Less(b, c) ==> Less(a, c)
    ensures a != b ==> Less(a, b) || Less(b, a)
    ensures !(Less(a, b) && Less(b, a))
  {
  }

  /** Tokens order first by table tag, then by row: for one table `<`
      agrees with row order. */
  lemma LessOrdersByTableThenRow(a: MetadataToken, b: MetadataToken)
    ensures TagByte(a) == TagByte(b) ==> (Less(a, b) <==> OneBasedRowIndex(a) < OneBasedRowIndex(b))
    ensures TagByte(a) < TagByte(b) ==> Less(a, b)
  {
    var ra, rb := OneBasedRowIndex(a), OneBasedRowIndex(b);
    var ta, tb := TagByte(a), TagByte(b);
    if ta < tb {
      assert ta * RowSpan + RowSpan <= tb * RowSpan;
    }
  }
}

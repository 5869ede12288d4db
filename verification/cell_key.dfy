/**
 The `"r,c"` text keys under which the snapshot publishes its policy and
 Q-table: each coordinate in plain decimal (a leading `-` for negatives, no
 padding), joined by a comma. The parser is the inverse the model proves the
 format against: every key reads back as the cell it was made from, so no two
 cells share a key.
 */
module CellKey {
  import opened Wrappers
  import opened Grid

  predicate IsDigit(ch: char) {
    '0' <= ch <= '9'
  }

  predicate AllDigits(s: string) {
    forall i :: 0 <= i < |s| ==> IsDigit(s[i])
  }

  function DigitChar(d: nat): (ch: char)
    requires d < 10
    ensures IsDigit(ch)
  {
    ('0' as int + d) as char
  }

  function DigitValue(ch: char): (d: nat)
    requires IsDigit(ch)
    ensures d < 10
  {
    ch as int - '0' as int
  }

  /** Decimal digits of `n`, most significant first, without leading zeros. */
  function NatText(n: nat): (s: string)
    ensures |s| > 0 && AllDigits(s)
    ensures s[0] == '0' <==> n == 0
  {
    if n < 10 then [DigitChar(n)] else NatText(n / 10) + [DigitChar(n % 10)]
  }

  /** The number a digit string denotes. */
  function DigitsValue(s: string): nat
    requires AllDigits(s)
  {
    if |s| == 0 then 0 else DigitsValue(s[..|s| - 1]) * 10 + DigitValue(s[|s| - 1])
  }

  /** Decimal text read back yields the number written. */
  lemma {:induction false} NatTextRoundTrip(n: nat)
    ensures DigitsValue(NatText(n)) == n
  {
    var s := NatText(n);
    if n >= 10 {
      assert s[..|s| - 1] == NatText(n / 10);
      NatTextRoundTrip(n / 10);
    }
  }

  /** Decimal text of an integer, as Python's `str` writes it. */
  function IntText(i: int): (s: string)
    ensures |s| > 0
    ensures forall k :: 0 <= k < |s| ==> IsDigit(s[k]) || s[k] == '-'
    ensures s[0] == '-' <==> i < 0
    ensures AllDigits(if i < 0 then s[1..] else s)
    ensures i < 0 ==> |s| > 1 && s[1] != '0'
    ensures s[0] == '0' ==> s == "0"
  {
    if i < 0 then "-" + NatText(-i) else NatText(i)
  }

  /** A non-empty digit string as a number; `None` otherwise. */
  function ParseNat(s: string): (r: Option<nat>)
    ensures r.Some? ==> |s| > 0 && AllDigits(s)
  {
    if |s| > 0 && AllDigits(s) then Some(DigitsValue(s)) else None
  }

  /** An optionally `-`-prefixed digit string as a number; `None` otherwise. */
  function ParseInt(s: string): Option<int> {
    if |s| > 0 && s[0] == '-' then
      match ParseNat(s[1..])
      case Some(n) => Some(-(n as int))
      case None => None
    else
      match ParseNat(s)
      case Some(n) => Some(n)
      case None => None
  }

  /** Signed decimal text read back yields the integer written. */
  lemma IntTextRoundTrip(i: int)
    ensures ParseInt(IntText(i)) == Some(i)
  {
    if i < 0 {
      assert IntText(i)[1..] == NatText(-i);
      NatTextRoundTrip(-i);
    } else {
      NatTextRoundTrip(i);
    }
  }

  /** The key of a cell: row text, a comma, column text. */
  function KeyOf(cell: Cell): string {
    IntText(cell.r) + "," + IntText(cell.c)
  }

  /** Position of the first comma in `s`, or `|s|` when there is none. */
  function CommaIndex(s: string): (k: nat)
    ensures k <= |s|
    ensures k < |s| ==> s[k] == ','
    ensures forall j :: 0 <= j < k ==> s[j] != ','
  {
    if |s| == 0 then 0
    else if s[0] == ',' then 0
    else 1 + CommaIndex(s[1..])
  }

  /** Reads a key: the text before the first comma is the row, the rest the column. */
  function ParseKey(key: string): Option<Cell> {
    var k := CommaIndex(key);
    if k == |key| then None
    else
      match (ParseInt(key[..k]), ParseInt(key[k + 1..]))
      case (Some(r), Some(c)) => Some(Cell(r, c))
      case _ => None
  }

  /** Every key reads back as the cell it was made from. */
  lemma KeyRoundTrip(cell: Cell)
    ensures ParseKey(KeyOf(cell)) == Some(cell)
  {
    var row := IntText(cell.r);
    var col := IntText(cell.c);
    var key := KeyOf(cell);
    var k := CommaIndex(key);
    assert key[|row|] == ',';
    assert k == |row|;
    assert key[..k] == row;
    assert key[k + 1..] == col;
    IntTextRoundTrip(cell.r);
    IntTextRoundTrip(cell.c);
  }

  /** Distinct cells have distinct keys. */
  lemma KeyOfInjective()
    ensures forall a, b :: KeyOf(a) == KeyOf(b) ==> a == b
  {
    forall a, b | KeyOf(a) == KeyOf(b)
      ensures a == b
    {
      KeyRoundTrip(a);
      KeyRoundTrip(b);
    }
  }

  /** The keys of a set of cells are as many as the cells. */
  lemma {:induction false} KeySetSize(cells: set<Cell>)
    ensures |set x | x in cells :: KeyOf(x)| == |cells|
    decreases |cells|
  {
    if cells != {} {
      var x :| x in cells;
      var rest := cells - {x};
      KeySetSize(rest);
      KeyOfInjective();
      assert (set y | y in cells :: KeyOf(y)) == (set y | y in rest :: KeyOf(y)) + {KeyOf(x)};
      assert KeyOf(x) !in (set y | y in rest :: KeyOf(y));
    }
  }

  /** The cell-keyed map `m` under text keys; the key of a cell is its only key. */
  function RekeyMap<V>(m: map<Cell, V>): map<string, V> {
    KeyOfInjective();
    map x | x in m :: KeyOf(x) := m[x]
  }

  /** Re-keying keeps every cell's value under that cell's key. */
  lemma RekeyValues<V>(m: map<Cell, V>)
    ensures forall x :: x in m ==> KeyOf(x) in RekeyMap(m) && RekeyMap(m)[KeyOf(x)] == m[x]
  {
    KeyOfInjective();
  }

  /** Every key of the re-keyed map is the key of a cell of the original map. */
  lemma RekeyKeys<V>(m: map<Cell, V>)
    ensures forall k :: k in RekeyMap(m) ==>
      ParseKey(k).Some? && ParseKey(k).value in m && KeyOf(ParseKey(k).value) == k
  {
    var table := RekeyMap(m);
    forall k | k in table
      ensures ParseKey(k).Some? && ParseKey(k).value in m && KeyOf(ParseKey(k).value) == k
    {
      var x :| x in m && KeyOf(x) == k;
      KeyRoundTrip(x);
    }
  }

  /** Re-keying keeps the number of entries. */
  lemma RekeySize<V>(m: map<Cell, V>)
    ensures |RekeyMap(m)| == |m|
  {
    assert RekeyMap(m).Keys == set x | x in m.Keys :: KeyOf(x);
    KeySetSize(m.Keys);
  }

  /**
   A cell-keyed map republished under text keys: every cell's value under its
   key, every key the key of a cell of the map, and as many keys as cells.
   */
  function Rekey<V>(m: map<Cell, V>): (table: map<string, V>)
    ensures forall x :: x in m ==> KeyOf(x) in table && table[KeyOf(x)] == m[x]
    ensures forall k :: k in table ==> ParseKey(k).Some? && ParseKey(k).value in m && KeyOf(ParseKey(k).value) == k
    ensures |table| == |m|
  {
    RekeyValues(m);
    RekeyKeys(m);
    RekeySize(m);
    RekeyMap(m)
  }
}

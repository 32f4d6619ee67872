/**
 * The dry run of the spreadsheet import (test-import.js): walk the rows of
 * the first sheet, skip the header row, look at a fixed list of
 * (name column, title column) pairs in every other row, and report and count
 * every pair whose cells are usable and are not header text.
 */
module TestImport {
  import opened Seqs
  import opened Text

  /** A raw cell as the spreadsheet reader returns it. */
  datatype Cell = Blank | Str(s: string) | Num(n: int)

  /** JavaScript truthiness of a cell: missing cells, "" and 0 are falsy. */
  predicate Truthy(c: Cell) {
    match c
    case Blank => false
    case Str(s) => s != ""
    case Num(n) => n != 0
  }

  function DigitChar(d: int): char
    requires 0 <= d < 10
  {
    (0x30 + d) as char
  }

  /** Decimal digits of `n`, most significant first. */
  function Digits(n: nat): string {
    if n < 10 then [DigitChar(n)] else Digits(n / 10) + [DigitChar(n % 10)]
  }

  /** The decimal form of a number is a non-empty run of the characters 0 to 9. */
  lemma {:induction false} DigitsAreDecimal(n: nat)
    ensures Digits(n) != [] && forall i | 0 <= i < |Digits(n)| :: '0' <= Digits(n)[i] <= '9'
  {
    if n >= 10 {
      DigitsAreDecimal(n / 10);
    }
  }

  /**
   * `cell.toString()`. The source only calls it on truthy cells, so the
   * text of `Blank` is never looked at.
   */
  function CellText(c: Cell): string {
    match c
    case Blank => ""
    case Str(s) => s
    case Num(n) => if n < 0 then "-" + Digits(-n) else Digits(n)
  }

  const NameMarker: string := "есім"
  const TitleMarker: string := "білетін"

  /** The (name column, title column) pairs of the sheet's repeating blocks. */
  const PairList: seq<(nat, nat)> := [
    (1, 2), (4, 5), (7, 8), (11, 12), (14, 15),
    (17, 18), (20, 21), (23, 24), (26, 27), (29, 30),
    (32, 33), (35, 36), (38, 39), (41, 42), (45, 46), (48, 49)
  ]

  /** The pair of cells is data: both truthy, both non-blank after trimming, no header text. */
  predicate Accepts(name: Cell, title: Cell) {
    !(!Truthy(name) || !Truthy(title)
      || Trim(CellText(name)) == "" || Trim(CellText(title)) == ""
      || Contains(Lower(CellText(name)), NameMarker)
      || Contains(Lower(CellText(title)), TitleMarker))
  }

  /** What one column pair of one row contributes: nothing, or the trimmed texts. */
  function Visit(row: seq<Cell>, pair: (nat, nat)): seq<(string, string)> {
    if pair.0 >= |row| || pair.1 >= |row| then []
    else if !Accepts(row[pair.0], row[pair.1]) then []
    else [(Trim(CellText(row[pair.0])), Trim(CellText(row[pair.1])))]
  }

  function VisitOf(row: seq<Cell>): ((nat, nat)) -> seq<(string, string)> {
    pair => Visit(row, pair)
  }

  /** The pairs found in one row, in the order of `pairs`. */
  function PairsOfRow(row: seq<Cell>, pairs: seq<(nat, nat)>): seq<(string, string)> {
    FlatMap(VisitOf(row), pairs)
  }

  /** The pairs found in one row, over the whole pair list. */
  function RowPairs(row: seq<Cell>): seq<(string, string)> {
    PairsOfRow(row, PairList)
  }

  /** The pairs found in every one of `rows`, row by row. */
  function RowsPairs(rows: seq<seq<Cell>>): seq<(string, string)> {
    FlatMap(RowPairs, rows)
  }

  /** Everything the dry run reports: the pairs of all rows but the header row. */
  function ExtractPairs(rows: seq<seq<Cell>>): seq<(string, string)> {
    if rows == [] then [] else RowsPairs(rows[1..])
  }

  /** One more data row: the rows `1..i+1` yield what rows `1..i` yield, then row `i`'s pairs. */
  lemma RowsPairsStep(rows: seq<seq<Cell>>, i: nat)
    requires 1 <= i < |rows|
    ensures RowsPairs(rows[1..i + 1]) == RowsPairs(rows[1..i]) + RowPairs(rows[i])
  {
    var data := rows[1..];
    FlatMapPrefixStep(RowPairs, data, i - 1);
    assert data[..i] == rows[1..i + 1] && data[..i - 1] == rows[1..i];
  }

  /**
   * The inner loop of `testImport` over one row: every column pair of
   * `PairList` in turn; the usable pairs of the row, in order, and their count.
   */
  method ScanRow(row: seq<Cell>) returns (found: seq<(string, string)>, recordCount: nat)
    ensures found == RowPairs(row)
    ensures recordCount == |found|
  {
    found, recordCount := [], 0;
    for k := 0 to |PairList|
      invariant found == PairsOfRow(row, PairList[..k])
      invariant recordCount == |found|
    {
      FlatMapPrefixStep(VisitOf(row), PairList, k);
      var (nameIndex, titleIndex) := PairList[k];
      if nameIndex >= |row| || titleIndex >= |row| {
        continue;
      }
      var name, title := row[nameIndex], row[titleIndex];
      if !Accepts(name, title) {
        continue;
      }
      found := found + [(Trim(CellText(name)), Trim(CellText(title)))];
      recordCount := recordCount + 1;
    }
    assert PairList[..|PairList|] == PairList;
  }

  /**
   * `testImport` after the sheet has been decoded: every row but the header
   * row is scanned; `found` holds the reported (name, title) lines in order,
   * `recordCount` the final count.
   */
  method TestImport(rows: seq<seq<Cell>>) returns (found: seq<(string, string)>, recordCount: nat)
    ensures found == ExtractPairs(rows)
    ensures recordCount == |found|
  {
    recordCount := 0;
    found := [];
    var i := 1;
    while i < |rows|
      invariant 1 <= i
      invariant |rows| == 0 ==> found == []
      invariant |rows| > 0 ==> i <= |rows| && found == RowsPairs(rows[1..i])
      invariant recordCount == |found|
    {
      var rowFound, rowCount := ScanRow(rows[i]);
      RowsPairsStep(rows, i);
      found, recordCount := found + rowFound, recordCount + rowCount;
      i := i + 1;
    }
    if rows != [] {
      assert rows[1..i] == rows[1..];
    }
  }

  /** The pair list: 16 entries, each title column right after its name column, increasing. */
  lemma PairListShape()
    ensures |PairList| == 16
    ensures forall k | 0 <= k < |PairList| :: PairList[k].1 == PairList[k].0 + 1
    ensures forall k, l | 0 <= k < l < |PairList| :: PairList[k].0 < PairList[l].0
  {
  }

  /**
   * A column pair that lies beyond the end of a ragged row is skipped for
   * that row alone: the row yields what the pairs before it and after it yield.
   */
  lemma RaggedPairSkipped(row: seq<Cell>, k: nat)
    requires k < |PairList|
    requires PairList[k].0 >= |row| || PairList[k].1 >= |row|
    ensures RowPairs(row) == PairsOfRow(row, PairList[..k]) + PairsOfRow(row, PairList[k + 1..])
  {
    var before, after := PairList[..k], PairList[k + 1..];
    assert PairList == (before + [PairList[k]]) + after;
    FlatMapAppend(VisitOf(row), before + [PairList[k]], after);
    FlatMapSnoc(VisitOf(row), before, PairList[k]);
  }

  /** The first row is never looked at: whatever it holds, the report is the same. */
  lemma HeaderRowIgnored(rows: seq<seq<Cell>>, header: seq<Cell>)
    requires rows != []
    ensures ExtractPairs([header] + rows[1..]) == ExtractPairs(rows)
  {
    assert ([header] + rows[1..])[1..] == rows[1..];
  }

  /** Rows are reported in order: the pairs of `a + b` are those of `a`, then those of `b`. */
  lemma RowsPairsAppend(a: seq<seq<Cell>>, b: seq<seq<Cell>>)
    ensures RowsPairs(a + b) == RowsPairs(a) + RowsPairs(b)
  {
    FlatMapAppend(RowPairs, a, b);
  }

  /** Column pair number `k` of `row` yields the pair (`name`, `title`). */
  predicate RowYields(row: seq<Cell>, k: int, name: string, title: string) {
    0 <= k < |PairList|
    && PairList[k].0 < |row| && PairList[k].1 < |row|
    && Accepts(row[PairList[k].0], row[PairList[k].1])
    && name == Trim(CellText(row[PairList[k].0]))
    && title == Trim(CellText(row[PairList[k].1]))
  }

  /** Column pair number `k` of data row `i` (never the header row 0) yields (`name`, `title`). */
  predicate Yields(rows: seq<seq<Cell>>, i: int, k: int, name: string, title: string) {
    1 <= i < |rows| && RowYields(rows[i], k, name, title)
  }

  /** A (name, title) pair is found in a row exactly when some column pair of it yields it. */
  lemma RowPairsMembership(row: seq<Cell>, name: string, title: string)
    ensures (name, title) in RowPairs(row) <==> exists k :: RowYields(row, k, name, title)
  {
    FlatMapMembership(VisitOf(row), PairList, (name, title));
    forall k | 0 <= k < |PairList|
      ensures (name, title) in VisitOf(row)(PairList[k]) <==> RowYields(row, k, name, title)
    {
      var pair := PairList[k];
      assert VisitOf(row)(pair) == Visit(row, pair);
    }
  }

  /**
   * A (name, title) pair is reported exactly when some column pair of some
   * row other than the header row holds usable cells with those trimmed texts.
   */
  lemma ExtractPairsMembership(rows: seq<seq<Cell>>, name: string, title: string)
    ensures (name, title) in ExtractPairs(rows) <==> exists i, k :: Yields(rows, i, k, name, title)
  {
    if rows != [] {
      var data := rows[1..];
      FlatMapMembership(RowPairs, data, (name, title));
      if exists i, k :: Yields(rows, i, k, name, title) {
        var i, k :| Yields(rows, i, k, name, title);
        assert data[i - 1] == rows[i];
        RowPairsMembership(rows[i], name, title);
      }
      if (name, title) in ExtractPairs(rows) {
        var i :| 0 <= i < |data| && (name, title) in RowPairs(data[i]);
        RowPairsMembership(data[i], name, title);
        var k :| RowYields(data[i], k, name, title);
        assert Yields(rows, i + 1, k, name, title);
      }
    }
  }

  /**
   * A non-zero number is always usable text: it is truthy, trims to itself,
   * and can never match a header marker.
   */
  lemma NumberCellIsPlainText(n: int)
    requires n != 0
    ensures Truthy(Num(n))
    ensures Trim(CellText(Num(n))) == CellText(Num(n)) != ""
    ensures !Contains(Lower(CellText(Num(n))), NameMarker)
    ensures !Contains(Lower(CellText(Num(n))), TitleMarker)
  {
    var s := CellText(Num(n));
    DigitsAreDecimal(if n < 0 then -n else n);
    assert forall i | 0 <= i < |s| :: s[i] == '-' || '0' <= s[i] <= '9';
    TrimOfTrimmed(s);
    assert Lower(s) == s;
    assert NameMarker[0] !in s && TitleMarker[0] !in s;
    NotContainedWithoutFirstChar(s, NameMarker);
    NotContainedWithoutFirstChar(s, TitleMarker);
  }

  /** The cell is truthy and its text is not blank after trimming. */
  predicate Usable(c: Cell) {
    Truthy(c) && Trim(CellText(c)) != ""
  }

  /** The lower-cased text of the cell contains `marker`. */
  predicate HasMarker(c: Cell, marker: string) {
    Contains(Lower(CellText(c)), marker)
  }

  /**
   * Each marker is looked for in its own column only, and in the lower-cased
   * text. `есім` in the name cell and `білетін` in the title cell each reject
   * the pair. Once a column is usable and free of its own marker, what else it
   * holds makes no difference, even the other column's marker. Name cells
   * whose texts lower-case alike are judged alike.
   */
  lemma MarkersCheckedPerColumn(name: Cell, title: Cell, otherName: Cell, otherTitle: Cell)
    ensures HasMarker(name, NameMarker) ==> !Accepts(name, title)
    ensures HasMarker(title, TitleMarker) ==> !Accepts(name, title)
    ensures Usable(title) && Usable(otherTitle) && !HasMarker(title, TitleMarker) && !HasMarker(otherTitle, TitleMarker)
      ==> Accepts(name, title) == Accepts(name, otherTitle)
    ensures Usable(name) && Usable(otherName) && !HasMarker(name, NameMarker) && !HasMarker(otherName, NameMarker)
      ==> Accepts(name, title) == Accepts(otherName, title)
    ensures Usable(name) == Usable(otherName) && Lower(CellText(name)) == Lower(CellText(otherName))
      ==> Accepts(name, title) == Accepts(otherName, title)
  {
  }

  /**
   * The marker is found whatever its case, and only in its own column: an
   * upper-case `ЕСІМ` or `БІЛЕТІН` rejects the pair, `Есім` in the title
   * column does not.
   */
  lemma MarkerCaseIgnored(name: Cell, title: Cell)
    ensures !Accepts(Str("ЕСІМ"), title)
    ensures !Accepts(name, Str("БІЛЕТІН"))
    ensures Accepts(Str("Ali"), Str("Есім"))
  {
    assert Lower("ЕСІМ") == NameMarker;
    assert Contains(Lower("ЕСІМ"), NameMarker);
    assert Lower("БІЛЕТІН") == TitleMarker;
    assert Contains(Lower("БІЛЕТІН"), TitleMarker);
  }

}

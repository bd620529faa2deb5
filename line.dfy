/**
 * The encoder's output buffer (`type Line []rune` in tofixed.go): a
 * fixed-length run of cells, all '\x00' when allocated, filled by bounded
 * writes that refuse to change a cell some earlier write already set to a
 * different rune.
 */
module LineBuffer {

  /** The four errors `Line.WriteString` can return. */
  datatype LineError =
    | BeginOutOfRange
    | EndOutOfRange
    | TextTooLongForRange
    | IncoherentOverlap

  /** A Go `error` result: `Ok` is nil. */
  datatype Status = Ok | Failed(error: LineError)

  /** The rune of a cell nothing has written yet. */
  const Unwritten: char := '\0'

  /** Writing rune `r` over a cell holding `cell` is a conflict. */
  predicate Conflicts(cell: char, r: char)
  {
    cell != Unwritten && cell != r
  }

  /**
   * The position (relative to `begin`) of the first rune of `text`, at or
   * after `k`, that conflicts with the cell it would be written to;
   * `|text|` when there is none.
   */
  function FirstConflict(cells: seq<char>, text: string, begin: nat, k: nat): (r: nat)
    requires begin + |text| <= |cells| && k <= |text|
    ensures k <= r <= |text|
    ensures forall j :: k <= j < r ==> !Conflicts(cells[begin + j], text[j])
    ensures r < |text| ==> Conflicts(cells[begin + r], text[r])
    decreases |text| - k
  {
    if k == |text| || Conflicts(cells[begin + k], text[k]) then k
    else FirstConflict(cells, text, begin, k + 1)
  }

  /** The outcome of a write and the cells after it. */
  datatype Written = Written(status: Status, cells: seq<char>)

  /**
   * What `Line.WriteString(text, begin, end)` does to cells `cells`: the
   * three range checks in order, each leaving the cells alone; then the
   * runes of `text` are stored from `begin` on until the first conflict,
   * which stops the write with the runes before it already stored.
   */
  function Write(cells: seq<char>, text: string, begin: int, end: int): (w: Written)
    ensures |w.cells| == |cells|
  {
    if begin < 0 || begin > |cells| - 1 then Written(Failed(BeginOutOfRange), cells)
    else if end < 1 || end > |cells| then Written(Failed(EndOutOfRange), cells)
    else if |text| > end - begin then Written(Failed(TextTooLongForRange), cells)
    else
      var k := FirstConflict(cells, text, begin, 0);
      Written(if k < |text| then Failed(IncoherentOverlap) else Ok,
              cells[..begin] + text[..k] + cells[begin + k..])
  }

  /** The three range errors, in the order the checks are made, and when each happens. */
  lemma WriteRangeErrors(cells: seq<char>, text: string, begin: int, end: int)
    ensures Write(cells, text, begin, end).status == Failed(BeginOutOfRange) <==>
      begin < 0 || begin > |cells| - 1
    ensures Write(cells, text, begin, end).status == Failed(EndOutOfRange) <==>
      0 <= begin <= |cells| - 1 && (end < 1 || end > |cells|)
    ensures Write(cells, text, begin, end).status == Failed(TextTooLongForRange) <==>
      0 <= begin <= |cells| - 1 && 1 <= end <= |cells| && |text| > end - begin
    ensures Write(cells, text, begin, end).status != Ok &&
            Write(cells, text, begin, end).status != Failed(IncoherentOverlap) ==>
            Write(cells, text, begin, end).cells == cells
  {
  }

  /**
   * A write that passes the range checks fails with `IncoherentOverlap`
   * exactly when some rune of the text lands on a cell holding a different,
   * already written rune.
   */
  lemma WriteOverlapIff(cells: seq<char>, text: string, begin: int, end: int)
    requires 0 <= begin <= |cells| - 1 && 1 <= end <= |cells| && |text| <= end - begin
    ensures Write(cells, text, begin, end).status == Failed(IncoherentOverlap) <==>
      exists k :: 0 <= k < |text| && Conflicts(cells[begin + k], text[k])
    ensures Write(cells, text, begin, end).status == Ok <==>
      forall k :: 0 <= k < |text| ==> !Conflicts(cells[begin + k], text[k])
  {
    var k := FirstConflict(cells, text, begin, 0);
    if k < |text| {
      assert Conflicts(cells[begin + k], text[k]);
    }
  }

  /**
   * After a successful write, cell `begin + k` holds rune `k` of the text
   * and every other cell is as it was.
   */
  lemma WriteSuccess(cells: seq<char>, text: string, begin: int, end: int)
    requires Write(cells, text, begin, end).status == Ok
    ensures 0 <= begin && begin + |text| <= end <= |cells|
    ensures forall k :: 0 <= k < |text| ==> Write(cells, text, begin, end).cells[begin + k] == text[k]
    ensures forall c :: 0 <= c < |cells| && !(begin <= c < begin + |text|) ==>
      Write(cells, text, begin, end).cells[c] == cells[c]
  {
  }

  /**
   * A conflict is not rolled back: the runes before the conflicting one are
   * stored, the conflicting cell and everything after it are untouched.
   */
  lemma WriteConflictKeepsPrefix(cells: seq<char>, text: string, begin: int, end: int)
    requires Write(cells, text, begin, end).status == Failed(IncoherentOverlap)
    ensures 0 <= begin && begin + |text| <= |cells|
    ensures var k := FirstConflict(cells, text, begin, 0);
      k < |text| &&
      Conflicts(cells[begin + k], text[k]) &&
      (forall j :: 0 <= j < k ==> Write(cells, text, begin, end).cells[begin + j] == text[j]) &&
      (forall c :: 0 <= c < |cells| && !(begin <= c < begin + k) ==>
        Write(cells, text, begin, end).cells[c] == cells[c])
  {
  }

  /**
   * Whatever its outcome, a write never changes a cell that already holds a
   * written rune: the cell either is left alone or receives the same rune.
   */
  lemma WriteKeepsWrittenCells(cells: seq<char>, text: string, begin: int, end: int, c: nat)
    requires c < |cells| && cells[c] != Unwritten
    ensures Write(cells, text, begin, end).cells[c] == cells[c]
  {
  }

  /** Cells outside `[begin, end)` are never touched by a write. */
  lemma WriteFrame(cells: seq<char>, text: string, begin: int, end: int, c: nat)
    requires c < |cells| && !(begin <= c < end)
    ensures Write(cells, text, begin, end).cells[c] == cells[c]
  {
  }

  /**
   * Overlapping ranges may write the same runes: on a 22-column line holding
   * "overl" at columns 10-15, "erlapping " fits over columns 12-22, while
   * "ER THE TOP" conflicts at column 12.
   */
  lemma OverlapExample(blank: seq<char>, a: string, b: string, c: string)
    requires blank == seq(22, _ => Unwritten)
    requires a == "overl" && b == "erlapping " && c == "ER THE TOP"
    ensures var first := Write(blank, a, 10, 15);
      first.status == Ok &&
      Write(first.cells, b, 12, 22).status == Ok &&
      Write(first.cells, c, 12, 22).status == Failed(IncoherentOverlap)
  {
    WriteOverlapIff(blank, a, 10, 15);
    var first := Write(blank, a, 10, 15);
    WriteSuccess(blank, a, 10, 15);
    assert first.cells[12] == 'e' && first.cells[13] == 'r' && first.cells[14] == 'l';
    assert forall k :: 15 <= k < 22 ==> first.cells[k] == Unwritten;
    WriteOverlapIff(first.cells, b, 12, 22);
    WriteOverlapIff(first.cells, c, 12, 22);
    assert Conflicts(first.cells[12 + 0], c[0]);
  }


  /**
   * A text whose first rune conflicts with the cell it lands on is not
   * written at all: the write fails with `IncoherentOverlap` and every
   * cell keeps its rune.
   */
  lemma WriteConflictAtStart(cells: seq<char>, text: string, begin: int, end: int)
    requires 0 <= begin <= |cells| - 1 && 1 <= end <= |cells| && 0 < |text| <= end - begin
    requires Conflicts(cells[begin], text[0])
    ensures Write(cells, text, begin, end) == Written(Failed(IncoherentOverlap), cells)
  {
    assert FirstConflict(cells, text, begin, 0) == 0;
    assert cells[..begin] + text[..0] + cells[begin..] == cells;
  }

  /**
   * A write that passes the range checks stores the runes before the first
   * conflict, and succeeds when there is none.
   */
  lemma WriteStops(cells: seq<char>, text: string, begin: nat, end: int, k: nat)
    requires begin <= |cells| - 1 && 1 <= end <= |cells| && |text| <= end - begin
    requires k == FirstConflict(cells, text, begin, 0)
    ensures Write(cells, text, begin, end) ==
      Written(if k < |text| then Failed(IncoherentOverlap) else Ok,
              cells[..begin] + text[..k] + cells[begin + k..])
  {
  }

  /** Cells holding the first `k` runes of the text from `begin`, and the old cells elsewhere. */
  lemma Stored(before: seq<char>, text: string, begin: nat, k: nat, after: seq<char>)
    requires begin + k <= |before| == |after| && k <= |text|
    requires forall c :: 0 <= c < |after| ==>
      after[c] == if begin <= c < begin + k then text[c - begin] else before[c]
    ensures after == before[..begin] + text[..k] + before[begin + k..]
  {
  }

  /** The output buffer of one `Marshal` call. */
  class Line {
    const cells: array<char>

    /** `make([]rune, n)`: `n` unwritten cells. */
    constructor (n: nat)
      ensures fresh(cells) && cells.Length == n
      ensures forall c :: 0 <= c < n ==> cells[c] == Unwritten
    {
      cells := new char[n](_ => Unwritten);
    }

    /** `Line.Length`: the number of cells, which no write changes. */
    function Length(): (n: int)
      ensures n == cells.Length && n >= 0
    {
      cells.Length
    }

    /** `Line.String`: the cells as text, unwritten cells included as '\x00'. */
    function String(): (s: string)
      reads cells
      ensures |s| == Length() && forall c :: 0 <= c < |s| ==> s[c] == cells[c]
    {
      cells[..]
    }

    /**
     * `Line.WriteString`: checks the range, then stores the runes of
     * `text` one by one from `begin`, stopping at the first conflict.
     */
    method WriteString(text: string, begin: int, end: int) returns (err: Status)
      modifies cells
      ensures Write(old(cells[..]), text, begin, end) == Written(err, cells[..])
    {
      if begin < 0 || begin > Length() - 1 {
        return Failed(BeginOutOfRange);
      }
      if end < 1 || end > Length() {
        return Failed(EndOutOfRange);
      }
      if |text| > end - begin {
        return Failed(TextTooLongForRange);
      }
      ghost var before := cells[..];
      ghost var k := FirstConflict(before, text, begin, 0);
      WriteStops(before, text, begin, end, k);
      var j, i := begin, 0;
      while i < |text|
        invariant 0 <= i <= |text| && j == begin + i
        invariant i <= k
        invariant forall c :: 0 <= c < cells.Length ==>
          cells[c] == if begin <= c < begin + i then text[c - begin] else before[c]
      {
        if cells[j] != Unwritten && cells[j] != text[i] {
          assert i == k;
          Stored(before, text, begin, k, cells[..]);
          return Failed(IncoherentOverlap);
        }
        cells[j] := text[i];
        j, i := j + 1, i + 1;
      }
      Stored(before, text, begin, k, cells[..]);
      return Ok;
    }
  }
}

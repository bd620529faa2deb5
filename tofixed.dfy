/**
 * The encoder of tofixed.go: `LineLength` sizes the output line, `Marshal`
 * formats each field and writes it into a `Line` at its column range,
 * aborting on the first failed write; `pow` is its integer power helper.
 */
module ToFixed {
  import opened Wrappers
  import opened GoText
  import opened Records
  import opened LineBuffer

  // ---------------------------------------------------------------------
  // LineLength

  /** The end offset a field's own `fixed` tag names; 0 when the tag does not resolve. */
  function OwnEnd(f: Field): int
  {
    match ResolveFixed(f.fixed)
    case Some(sp) => sp.end
    case None => 0
  }

  /**
   * The accumulator of `LineLength`: the largest of 0 and `xs`, taken from
   * the left as the loop does.
   */
  function MaxOf(xs: seq<int>): (r: int)
    ensures r >= 0
  {
    if xs == [] then 0 else Max(MaxOf(xs[..|xs| - 1]), xs[|xs| - 1])
  }

  lemma {:induction false} MaxOfBounds(xs: seq<int>, i: nat)
    requires i < |xs|
    ensures xs[i] <= MaxOf(xs)
  {
    var n := |xs| - 1;
    if i < n {
      MaxOfBounds(xs[..n], i);
    }
  }

  lemma {:induction false} MaxOfAttained(xs: seq<int>) returns (i: nat)
    ensures MaxOf(xs) == 0 || (i < |xs| && xs[i] == MaxOf(xs))
  {
    i := 0;
    if xs != [] {
      var n := |xs| - 1;
      if xs[n] <= MaxOf(xs[..n]) {
        i := MaxOfAttained(xs[..n]);
      } else {
        i := n;
      }
    }
  }

  /** What each field contributes to the width, in declaration order. */
  function Reaches(s: Schema): (r: seq<int>)
    ensures |r| == |s.fields|
    decreases s, 0
  {
    seq(|s.fields|, i requires 0 <= i < |s.fields| => Reach(s.fields[i]))
  }

  /** The width of the line a record of type `s` is marshalled to. */
  function LineWidth(s: Schema): nat
    decreases s, 1
  {
    MaxOf(Reaches(s))
  }

  /** What a field contributes to the width: its own end, or its nested record's width. */
  function Reach(f: Field): int
    decreases f
  {
    var sub := if f.kind.Nested? then LineWidth(f.kind.schema) else 0;
    Max(OwnEnd(f), sub)
  }

  /**
   * The line width is the least bound of what the fields reach: at least
   * every field's end and every nested record's width, and equal to one of
   * them (or 0 for a record with no resolvable field).
   */
  lemma LineWidthIsMaximum(s: Schema)
    ensures forall i :: 0 <= i < |s.fields| ==> Reach(s.fields[i]) <= LineWidth(s)
    ensures LineWidth(s) == 0 ||
      exists i :: 0 <= i < |s.fields| && Reach(s.fields[i]) == LineWidth(s)
  {
    var xs := Reaches(s);
    forall i | 0 <= i < |s.fields| ensures Reach(s.fields[i]) <= LineWidth(s) {
      MaxOfBounds(xs, i);
    }
    var i := MaxOfAttained(xs);
  }

  /** The width does not depend on the order in which the fields are declared. */
  lemma LineWidthOrderFree(s: Schema, t: Schema)
    requires multiset(s.fields) == multiset(t.fields)
    ensures LineWidth(s) == LineWidth(t)
  {
    LineWidthIsMaximum(s);
    LineWidthIsMaximum(t);
    if LineWidth(s) != 0 {
      var i :| 0 <= i < |s.fields| && Reach(s.fields[i]) == LineWidth(s);
      assert s.fields[i] in multiset(t.fields);
      var j :| 0 <= j < |t.fields| && t.fields[j] == s.fields[i];
    }
    if LineWidth(t) != 0 {
      var j :| 0 <= j < |t.fields| && Reach(t.fields[j]) == LineWidth(t);
      assert t.fields[j] in multiset(s.fields);
      var i :| 0 <= i < |s.fields| && s.fields[i] == t.fields[j];
    }
  }

  /** A field without a `fixed` tag is skipped. */
  lemma UntaggedSkipped()
    ensures ResolveFixed("") == None
  {
    SplitWithoutRune("", '-');
  }

  /** The tag "B-E" for offsets `b` and `e`. */
  function RangeTag(b: nat, e: nat): string
  {
    Digits(b) + "-" + Digits(e)
  }

  lemma RangeTagResolves(b: nat, e: nat)
    requires b <= MaxInt64 && e <= MaxInt64
    ensures ResolveFixed(RangeTag(b, e)) == Some(Span(b, e, ""))
  {
    ResolveRangeTag(b, e, "");
    assert RangeTag(b, e) + "" == RangeTag(b, e);
  }

  /** `LineLength`: the maximum end offset, recursing into nested records. */
  method LineLength(s: Schema) returns (higherNumber: int)
    ensures higherNumber == LineWidth(s)
    decreases s
  {
    higherNumber := 0;
    for i := 0 to |s.fields|
      invariant higherNumber == MaxOf(Reaches(s)[..i])
    {
      var f := s.fields[i];
      ghost var upTo := Reaches(s)[..i + 1];
      assert upTo[..i] == Reaches(s)[..i] && upTo[i] == Reach(f);
      match ResolveFixed(f.fixed) {
        case Some(sp) =>
          if sp.end > higherNumber {
            higherNumber := sp.end;
          }
        case None =>
      }
      if f.kind.Nested? {
        var higherSubNumber := LineLength(f.kind.schema);
        if higherSubNumber > higherNumber {
          higherNumber := higherSubNumber;
        }
      }
    }
    assert Reaches(s)[..|s.fields|] == Reaches(s);
  }

  // ---------------------------------------------------------------------
  // pow

  /** Go's `int` arithmetic: results wrap around modulo 2^64. */
  function Wrap64(x: int): (r: int)
    ensures MinInt64 <= r <= MaxInt64
    ensures MinInt64 <= x <= MaxInt64 ==> r == x
  {
    (x - MinInt64) % 0x1_0000_0000_0000_0000 + MinInt64
  }

  /** `a` to the power `b`, as 64-bit `int` multiplication computes it. */
  function Pow64(a: int, b: nat): int
  {
    if b == 0 then 1 else Wrap64(Pow64(a, b - 1) * a)
  }

  /** `pow(a, b)`: multiplies 1 by `a`, `b` times (no times at all for `b <= 0`). */
  method Pow(a: int, b: int) returns (c: int)
    ensures c == Pow64(a, if b < 0 then 0 else b)
  {
    c := 1;
    var i := 0;
    while i < b
      invariant 0 <= i && (b >= 0 ==> i <= b) && (b < 0 ==> i == 0)
      invariant c == Pow64(a, i)
    {
      c := Wrap64(c * a);
      i := i + 1;
    }
  }

  /** While no wrap-around happens, the 64-bit power is the power. */
  lemma {:induction false} Pow64Exact(a: int, b: nat)
    requires forall k :: 0 <= k <= b ==> MinInt64 <= Power(a, k) <= MaxInt64
    ensures Pow64(a, b) == Power(a, b)
  {
    if b > 0 {
      Pow64Exact(a, b - 1);
      assert Power(a, b) == Power(a, b - 1) * a;
    }
  }

  /**
   * The float branch's "too big" warning as written: `pow(integerPartLength, 10)`
   * raises the length to the 10th power instead of 10 to the length.
   */
  predicate TooBigWarningAsWritten(integerPart: int, integerPartLength: int)
  {
    integerPart >= Pow64(integerPartLength, 10)
  }

  /** An 8-digit integer part is not flagged for a 7-column integer part. */
  lemma TooBigWarningMissesOverflow(n: nat)
    requires n == 12345678
    ensures |Digits(n)| == 8
    ensures !TooBigWarningAsWritten(n, 7)
  {
    PowersOfTen();
    DigitCount(n, 8);
    SeventhToTheTenth();
  }

  lemma PowersOfTen()
    ensures Power(10, 7) == 10000000 && Power(10, 8) == 100000000
  {
    assert Power(10, 2) == 100;
    assert Power(10, 4) == 10000;
    assert Power(10, 6) == 1000000;
  }

  /** A number between `10^(w-1)` and `10^w` has `w` digits. */
  lemma DigitCount(n: nat, w: nat)
    requires w >= 1 && Power(10, w - 1) <= n < Power(10, w)
    ensures |Digits(n)| == w
  {
    PowerPositive(10, w - 1);
    DigitsLength(n, w - 1);
    DigitsLength(n, w);
  }

  /** `pow(7, 10)` stays within 64 bits: 282475249. */
  lemma SeventhToTheTenth()
    ensures Pow64(7, 10) == 282475249
  {
    assert Pow64(7, 2) == 49;
    assert Pow64(7, 4) == 2401;
    assert Pow64(7, 6) == 117649;
    assert Pow64(7, 8) == 5764801;
  }

  /** The warning as intended: `pow(10, integerPartLength)`. */
  predicate TooBigWarning(integerPart: int, integerPartLength: int)
  {
    integerPart >= Pow64(10, if integerPartLength < 0 then 0 else integerPartLength)
  }

  /** The intended warning fires exactly when the integer part has more digits than columns. */
  lemma TooBigWarningExact(integerPart: nat, integerPartLength: nat)
    requires integerPart > 0 && Power(10, integerPartLength) <= MaxInt64
    ensures TooBigWarning(integerPart, integerPartLength) <==> |Digits(integerPart)| > integerPartLength
  {
    forall k | 0 <= k <= integerPartLength ensures MinInt64 <= Power(10, k) <= MaxInt64 {
      PowerMonotone(10, k, integerPartLength);
    }
    Pow64Exact(10, integerPartLength);
    DigitsLength(integerPart, integerPartLength);
  }

  // ---------------------------------------------------------------------
  // Marshal

  /** The kinds `Marshal` formats into text itself. */
  predicate FormatsText(k: Kind)
  {
    k.Float32? || k.Float64? || k.Str? || k.Int8? || k.Int32? || k.Int64? || k.Uint?
  }

  /**
   * The text `Marshal` writes for a float, text or integer field over `sp`:
   * floats through `%0N.Df` (the format names the decimals, read with
   * `Atoi`; the first '.' becomes ',' in decimal-comma mode), text
   * left-justified and cut, integers zero-padded.
   */
  function FieldText(k: Kind, v: Value, sp: Span, decimalComma: bool, host: Host): (t: string)
    requires FormatsText(k) && FitsKind(k, v)
    ensures k.Str? ==> |t| == Max(0, sp.end - sp.begin)
    ensures k.Str? ==> forall j :: 0 <= j < |t| && j < |v.s| ==> t[j] == v.s[j]
    ensures k.Uint? ==> |t| == Max(sp.end - sp.begin, NaturalWidth(v.u))
    ensures (k.Int8? || k.Int32? || k.Int64?) ==> |t| == Max(sp.end - sp.begin, NaturalWidth(v.i))
  {
    var width := sp.end - sp.begin;
    match k
    case Float32 => FloatText(v.x, width, sp.format, decimalComma, host)
    case Float64 => FloatText(v.x, width, sp.format, decimalComma, host)
    case Str => LeftJustify(v.s, width)
    case Int8 => FormatZeroPadded(v.i, width)
    case Int32 => FormatZeroPadded(v.i, width)
    case Int64 => FormatZeroPadded(v.i, width)
    case Uint => FormatZeroPadded(v.u, width)
  }

  /**
   * The text of a float field: what `%0N.Df` gives, with its first '.'
   * turned into ',' in decimal-comma mode.
   */
  function FloatText(x: real, width: int, format: string, decimalComma: bool, host: Host): (r: string)
    ensures var t := host.formatFloat(x, width, Atoi(format));
      |r| == |t| && (!decimalComma ==> r == t) &&
      (decimalComma ==> forall k :: 0 <= k < |t| && k != IndexOf(t, '.') ==> r[k] == t[k]) &&
      (decimalComma && '.' in t ==> r[IndexOf(t, '.')] == ',')
  {
    var t := host.formatFloat(x, width, Atoi(format));
    if decimalComma then ReplaceFirst(t, '.', ',') else t
  }

  /** A line of `n` unwritten cells. */
  function Blank(n: nat): (cells: seq<char>)
    ensures |cells| == n && forall c :: 0 <= c < n ==> cells[c] == Unwritten
  {
    seq(n, _ => Unwritten)
  }

  /**
   * The effect of field `i` on the cells: a field whose tag does not
   * resolve, a bool field and a field of another kind write nothing; a time
   * field is written with its error ignored; a nested record is marshalled
   * on its own and its whole line written from column 0.
   */
  function EncodeField(s: Schema, i: nat, vals: seq<Value>, cells: seq<char>,
                       decimalComma: bool, host: Host): (w: Written)
    requires Typed(s, vals) && i < |s.fields|
    ensures |w.cells| == |cells|
    decreases s, 0
  {
    var f := s.fields[i];
    var v := vals[i];
    assert FitsKind(f.kind, v);
    match ResolveFixed(f.fixed)
    case None => Written(Ok, cells)
    case Some(sp) =>
      match f.kind
      case Bool => Written(Ok, cells)
      case Other => Written(Ok, cells)
      case Time => Written(Ok, Write(cells, host.formatTime(v.t, sp.format), sp.begin, sp.end).cells)
      case Nested(sub) =>
        var inner := Encode(sub, v.vals, decimalComma, host);
        if inner.status.Failed? then Written(inner.status, cells)
        else Write(cells, inner.cells, 0, |cells|)
      case _ => Write(cells, FieldText(f.kind, v, sp, decimalComma, host), sp.begin, sp.end)
  }

  /** Fields `i..` applied in order to `cells`, stopping at the first failure. */
  function EncodeFrom(s: Schema, vals: seq<Value>, i: nat, cells: seq<char>,
                      decimalComma: bool, host: Host): (w: Written)
    requires Typed(s, vals) && i <= |s.fields|
    ensures |w.cells| == |cells|
    decreases s, 1, |s.fields| - i
  {
    if i == |s.fields| then Written(Ok, cells)
    else
      var w := EncodeField(s, i, vals, cells, decimalComma, host);
      if w.status.Failed? then w
      else EncodeFrom(s, vals, i + 1, w.cells, decimalComma, host)
  }

  /** `Marshal(v)`: the line (as far as it got) and the error, if any. */
  function Encode(s: Schema, vals: seq<Value>, decimalComma: bool, host: Host): (w: Written)
    requires Typed(s, vals)
    ensures |w.cells| == LineWidth(s)
    decreases s, 2
  {
    EncodeFrom(s, vals, 0, Blank(LineWidth(s)), decimalComma, host)
  }

  /** A field never changes a cell an earlier field already wrote. */
  lemma EncodeFieldKeepsWritten(s: Schema, i: nat, vals: seq<Value>, cells: seq<char>,
                                decimalComma: bool, host: Host, c: nat)
    requires Typed(s, vals) && i < |s.fields|
    requires c < |cells| && cells[c] != Unwritten
    ensures EncodeField(s, i, vals, cells, decimalComma, host).cells[c] == cells[c]
  {
    var f := s.fields[i];
    var v := vals[i];
    assert FitsKind(f.kind, v);
    match ResolveFixed(f.fixed) {
      case None =>
      case Some(sp) =>
        match f.kind {
          case Bool =>
          case Other =>
          case Time =>
            WriteKeepsWrittenCells(cells, host.formatTime(v.t, sp.format), sp.begin, sp.end, c);
          case Nested(sub) =>
            WriteKeepsWrittenCells(cells, Encode(sub, v.vals, decimalComma, host).cells, 0, |cells|, c);
          case _ =>
            WriteKeepsWrittenCells(cells, FieldText(f.kind, v, sp, decimalComma, host), sp.begin, sp.end, c);
        }
    }
  }

  /** The line is write-once: a written cell keeps its rune through every later field. */
  lemma {:induction false} EncodeFromKeepsWritten(s: Schema, vals: seq<Value>, j: nat, cells: seq<char>,
                                                  decimalComma: bool, host: Host, c: nat)
    requires Typed(s, vals) && j <= |s.fields|
    requires c < |cells| && cells[c] != Unwritten
    ensures EncodeFrom(s, vals, j, cells, decimalComma, host).cells[c] == cells[c]
    decreases |s.fields| - j
  {
    if j < |s.fields| {
      var w := EncodeField(s, j, vals, cells, decimalComma, host);
      EncodeFieldKeepsWritten(s, j, vals, cells, decimalComma, host, c);
      if w.status.Ok? {
        EncodeFromKeepsWritten(s, vals, j + 1, w.cells, decimalComma, host, c);
      }
    }
  }

  /** A successful encode from field `j` is field `j`'s write followed by the rest. */
  lemma EncodeFromStep(s: Schema, vals: seq<Value>, j: nat, cells: seq<char>,
                       decimalComma: bool, host: Host) returns (w: Written)
    requires Typed(s, vals) && j < |s.fields|
    requires EncodeFrom(s, vals, j, cells, decimalComma, host).status == Ok
    ensures w == EncodeField(s, j, vals, cells, decimalComma, host) && w.status == Ok
    ensures EncodeFrom(s, vals, j, cells, decimalComma, host) ==
            EncodeFrom(s, vals, j + 1, w.cells, decimalComma, host)
  {
    w := EncodeField(s, j, vals, cells, decimalComma, host);
  }

  /** An integer, float or text field is one write of its text over its range. */
  lemma EncodeFieldWritesText(s: Schema, i: nat, vals: seq<Value>, cells: seq<char>,
                              decimalComma: bool, host: Host, sp: Span)
    requires Typed(s, vals) && i < |s.fields|
    requires ResolveFixed(s.fields[i].fixed) == Some(sp) && FormatsText(s.fields[i].kind)
    requires FitsKind(s.fields[i].kind, vals[i])
    ensures EncodeField(s, i, vals, cells, decimalComma, host) ==
      Write(cells, FieldText(s.fields[i].kind, vals[i], sp, decimalComma, host), sp.begin, sp.end)
  {
  }

  /**
   * When the encode from field `j` on succeeds, the text field `i >= j`
   * writes (one write of `t` over `[b, e)`, whatever the cells before it)
   * sits at its columns in the line, provided it has no '\x00', which a
   * later field could still overwrite.
   */
  lemma {:induction false} EncodeFromShowsField(s: Schema, vals: seq<Value>, j: nat, cells: seq<char>,
                                                decimalComma: bool, host: Host, i: nat, t: string, b: int, e: int)
    requires Typed(s, vals) && j <= i < |s.fields|
    requires EncodeFrom(s, vals, j, cells, decimalComma, host).status == Ok
    requires forall c :: EncodeField(s, i, vals, c, decimalComma, host) == Write(c, t, b, e)
    requires Unwritten !in t
    ensures 0 <= b && b + |t| <= e <= |cells|
    ensures forall k :: 0 <= k < |t| ==>
      EncodeFrom(s, vals, j, cells, decimalComma, host).cells[b + k] == t[k]
    decreases |s.fields| - j
  {
    if j < i {
      var w := EncodeFromStep(s, vals, j, cells, decimalComma, host);
      EncodeFromShowsField(s, vals, j + 1, w.cells, decimalComma, host, i, t, b, e);
    } else {
      ShowsOwnWrite(s, vals, i, cells, decimalComma, host, t, b, e);
    }
  }

  /** The field's own write, followed by the fields after it. */
  lemma ShowsOwnWrite(s: Schema, vals: seq<Value>, i: nat, cells: seq<char>,
                      decimalComma: bool, host: Host, t: string, b: int, e: int)
    requires Typed(s, vals) && i < |s.fields|
    requires EncodeFrom(s, vals, i, cells, decimalComma, host).status == Ok
    requires EncodeField(s, i, vals, cells, decimalComma, host) == Write(cells, t, b, e)
    requires Unwritten !in t
    ensures 0 <= b && b + |t| <= e <= |cells|
    ensures forall k :: 0 <= k < |t| ==>
      EncodeFrom(s, vals, i, cells, decimalComma, host).cells[b + k] == t[k]
  {
    var w := EncodeFromStep(s, vals, i, cells, decimalComma, host);
    WrittenTextSurvives(s, vals, i + 1, cells, decimalComma, host, t, b, e);
  }

  /**
   * After a successful encode, the text a field writes over `[b, e)`
   * (the same write whatever the cells before it) sits at those columns
   * of the line, when it holds no '\x00'.
   */
  lemma EncodeShowsField(s: Schema, vals: seq<Value>, decimalComma: bool, host: Host, i: nat, t: string, b: int, e: int)
    requires Typed(s, vals) && i < |s.fields|
    requires Encode(s, vals, decimalComma, host).status == Ok
    requires forall c :: EncodeField(s, i, vals, c, decimalComma, host) == Write(c, t, b, e)
    requires Unwritten !in t
    ensures 0 <= b && b + |t| <= e <= LineWidth(s)
    ensures forall k :: 0 <= k < |t| ==> Encode(s, vals, decimalComma, host).cells[b + k] == t[k]
  {
    EncodeFromShowsField(s, vals, 0, Blank(LineWidth(s)), decimalComma, host, i, t, b, e);
  }

  /** Whatever the cells before it, an integer, float or text field is the same write. */
  lemma WritesTextAnywhere(s: Schema, i: nat, vals: seq<Value>, decimalComma: bool, host: Host, sp: Span, t: string)
    requires Typed(s, vals) && i < |s.fields|
    requires ResolveFixed(s.fields[i].fixed) == Some(sp) && FormatsText(s.fields[i].kind)
    requires FitsKind(s.fields[i].kind, vals[i])
    requires t == FieldText(s.fields[i].kind, vals[i], sp, decimalComma, host)
    ensures forall c :: EncodeField(s, i, vals, c, decimalComma, host) == Write(c, t, sp.begin, sp.end)
  {
    forall c ensures EncodeField(s, i, vals, c, decimalComma, host) == Write(c, t, sp.begin, sp.end) {
      EncodeFieldWritesText(s, i, vals, c, decimalComma, host, sp);
    }
  }

  /** A successful write of a text without '\x00' survives the fields after it. */
  lemma WrittenTextSurvives(s: Schema, vals: seq<Value>, j: nat, cells: seq<char>,
                            decimalComma: bool, host: Host, t: string, begin: int, end: int)
    requires Typed(s, vals) && j <= |s.fields|
    requires Write(cells, t, begin, end).status == Ok && Unwritten !in t
    ensures 0 <= begin && begin + |t| <= end <= |cells|
    ensures forall k :: 0 <= k < |t| ==>
      EncodeFrom(s, vals, j, Write(cells, t, begin, end).cells, decimalComma, host).cells[begin + k] == t[k]
  {
    var w := Write(cells, t, begin, end);
    WriteSuccess(cells, t, begin, end);
    forall k | 0 <= k < |t|
      ensures EncodeFrom(s, vals, j, w.cells, decimalComma, host).cells[begin + k] == t[k]
    {
      assert t[k] in t;
      EncodeFromKeepsWritten(s, vals, j, w.cells, decimalComma, host, begin + k);
    }
  }

  /**
   * A column is left alone by field `i` when the field does not resolve, is
   * a bool or other kind, or is a time, integer, float or text field whose
   * range does not cover the column. (A nested record writes from column 0
   * over the whole line.)
   */
  predicate LeavesColumn(f: Field, c: int)
  {
    match ResolveFixed(f.fixed)
    case None => true
    case Some(sp) => f.kind.Bool? || f.kind.Other? || (!f.kind.Nested? && !(sp.begin <= c < sp.end))
  }

  lemma EncodeFieldFrame(s: Schema, i: nat, vals: seq<Value>, cells: seq<char>,
                         decimalComma: bool, host: Host, c: nat)
    requires Typed(s, vals) && i < |s.fields|
    requires c < |cells| && LeavesColumn(s.fields[i], c)
    ensures EncodeField(s, i, vals, cells, decimalComma, host).cells[c] == cells[c]
  {
    var f := s.fields[i];
    var v := vals[i];
    assert FitsKind(f.kind, v);
    match ResolveFixed(f.fixed) {
      case None =>
      case Some(sp) =>
        match f.kind {
          case Bool =>
          case Other =>
          case Time =>
            WriteFrame(cells, host.formatTime(v.t, sp.format), sp.begin, sp.end, c);
          case Nested(sub) =>
          case _ =>
            WriteFrame(cells, FieldText(f.kind, v, sp, decimalComma, host), sp.begin, sp.end, c);
        }
    }
  }

  lemma {:induction false} EncodeFromFrame(s: Schema, vals: seq<Value>, j: nat, cells: seq<char>,
                                           decimalComma: bool, host: Host, c: nat)
    requires Typed(s, vals) && j <= |s.fields| && c < |cells|
    requires forall i :: j <= i < |s.fields| ==> LeavesColumn(s.fields[i], c)
    ensures EncodeFrom(s, vals, j, cells, decimalComma, host).cells[c] == cells[c]
    decreases |s.fields| - j
  {
    if j < |s.fields| {
      var w := EncodeField(s, j, vals, cells, decimalComma, host);
      EncodeFieldFrame(s, j, vals, cells, decimalComma, host, c);
      if w.status.Ok? {
        assert EncodeFrom(s, vals, j, cells, decimalComma, host) == EncodeFrom(s, vals, j + 1, w.cells, decimalComma, host);
        EncodeFromFrame(s, vals, j + 1, w.cells, decimalComma, host, c);
      } else {
        assert EncodeFrom(s, vals, j, cells, decimalComma, host) == w;
      }
    }
  }

  /** Columns no field writes stay '\x00' in the output, whatever the outcome. */
  lemma EncodeLeavesGaps(s: Schema, vals: seq<Value>, decimalComma: bool, host: Host, c: nat)
    requires Typed(s, vals) && c < LineWidth(s)
    requires forall i :: 0 <= i < |s.fields| ==> LeavesColumn(s.fields[i], c)
    ensures Encode(s, vals, decimalComma, host).cells[c] == Unwritten
  {
    EncodeFromFrame(s, vals, 0, Blank(LineWidth(s)), decimalComma, host, c);
  }

  /**
   * A nested record's line always fits the enclosing line from column 0,
   * so writing it can fail only on an overlap (or on a line of width 0).
   */
  lemma NestedLineFits(s: Schema, i: nat, vals: seq<Value>, decimalComma: bool, host: Host)
    requires Typed(s, vals) && i < |s.fields| && s.fields[i].kind.Nested?
    requires FitsKind(s.fields[i].kind, vals[i])
    ensures |Encode(s.fields[i].kind.schema, vals[i].vals, decimalComma, host).cells| <= LineWidth(s)
  {
    LineWidthIsMaximum(s);
    assert Reach(s.fields[i]) <= LineWidth(s);
  }

  /**
   * An integer that needs more columns than its field has (sign included)
   * is refused with `TextTooLongForRange` when the range itself is valid,
   * and the line is left as it was.
   */
  lemma IntegerTooWide(s: Schema, i: nat, vals: seq<Value>, cells: seq<char>,
                       decimalComma: bool, host: Host, sp: Span, n: int)
    requires Typed(s, vals) && i < |s.fields|
    requires ResolveFixed(s.fields[i].fixed) == Some(sp)
    requires s.fields[i].kind.Int8? || s.fields[i].kind.Int32? || s.fields[i].kind.Int64? || s.fields[i].kind.Uint?
    requires (vals[i].UintV? && n == vals[i].u) || (vals[i].IntV? && n == vals[i].i)
    requires 0 <= sp.begin <= |cells| - 1 && 1 <= sp.end <= |cells|
    requires NaturalWidth(n) > sp.end - sp.begin
    ensures EncodeField(s, i, vals, cells, decimalComma, host) == Written(Failed(TextTooLongForRange), cells)
  {
    assert FitsKind(s.fields[i].kind, vals[i]);
    EncodeFieldWritesText(s, i, vals, cells, decimalComma, host, sp);
  }

  lemma ExampleLine(a: string, b: string, c: string, d: string, line: string)
    requires a == "00123" && b == "12345" && c == "ohmy " && d == "What's happening?   "
    requires line == "0012312345ohmy What's happening?   "
    ensures a + b + c + d == line
  {
  }

  lemma PaddedNumbers(a: string, b: string)
    requires a == FormatZeroPadded(123, 5) && b == FormatZeroPadded(12345, 5)
    ensures a == "00123" && b == "12345"
  {
    ThreeDigits(123);
    PaddedExample(a, 123, 5, 2);
    FiveDigits(12345);
    PaddedExample(b, 12345, 5, 0);
  }

  lemma ThreeDigits(n: nat)
    requires n == 123
    ensures Digits(n) == "123"
  {
    assert Digits(n / 10) == "12";
  }

  lemma FiveDigits(n: nat)
    requires n == 12345
    ensures Digits(n) == "12345"
  {
    assert Digits(n / 1000) == "12";
    assert Digits(n / 100) == "123";
    assert Digits(n / 10) == "1234";
  }

  lemma JustifiedTexts(c: string, d: string)
    requires c == LeftJustify("ohmy", 5) && d == LeftJustify("What's happening?", 20)
    ensures c == "ohmy " && d == "What's happening?   "
  {
    assert c == "ohmy" + Repeat(' ', 1);
    assert d == "What's happening?" + Repeat(' ', 3);
  }

  lemma PaddedExample(t: string, n: nat, w: int, z: nat)
    requires t == FormatZeroPadded(n, w) && z == Max(0, w - |Digits(n)|)
    ensures t == Repeat('0', z) + Digits(n)
  {
  }

  // ---------------------------------------------------------------------
  // Whole records

  /** A line showing `line` up to column `hi` and nothing after it. */
  function Partial(line: string, hi: nat): (cells: seq<char>)
    requires hi <= |line|
    ensures |cells| == |line|
  {
    line[..hi] + Blank(|line| - hi)
  }

  /**
   * Writing the columns `[b, e)` of `line` over a line that shows `line` up
   * to `hi >= b` succeeds, whether or not the range overlaps what is there,
   * and the line then shows `line` up to the larger of `hi` and `e`.
   */
  lemma WriteAlongLine(line: string, hi: nat, b: nat, e: nat)
    requires Unwritten !in line && b <= hi <= |line| && b < e <= |line|
    ensures Write(Partial(line, hi), line[b..e], b, e) == Written(Ok, Partial(line, Max(hi, e)))
  {
    var cells := Partial(line, hi);
    var t := line[b..e];
    forall k | 0 <= k < |t| ensures !Conflicts(cells[b + k], t[k]) {
      if b + k < hi {
        assert cells[b + k] == line[b + k];
      }
    }
    WriteOverlapIff(cells, t, b, e);
    WriteSuccess(cells, t, b, e);
    var after := Write(cells, t, b, e).cells;
    forall c | 0 <= c < |line| ensures after[c] == Partial(line, Max(hi, e))[c] {
      if b <= c < e {
        assert after[b + (c - b)] == t[c - b];
      } else if c < hi {
        assert line[c] in line;
      }
    }
  }

  /**
   * A text or integer field whose text is the columns `[begin, end)` of
   * `line` moves the encode one field on, from a line showing `line` up to
   * `hi` to one showing it up to the larger of `hi` and `end`.
   */
  lemma EncodeAlongLine(s: Schema, vals: seq<Value>, j: nat, decimalComma: bool, host: Host,
                        line: string, hi: nat, sp: Span)
    requires Typed(s, vals) && j < |s.fields|
    requires ResolveFixed(s.fields[j].fixed) == Some(sp) && FormatsText(s.fields[j].kind)
    requires FitsKind(s.fields[j].kind, vals[j])
    requires Unwritten !in line && 0 <= sp.begin <= hi <= |line| && sp.begin < sp.end <= |line|
    requires FieldText(s.fields[j].kind, vals[j], sp, decimalComma, host) == line[sp.begin..sp.end]
    ensures EncodeFrom(s, vals, j, Partial(line, hi), decimalComma, host) ==
      EncodeFrom(s, vals, j + 1, Partial(line, Max(hi, sp.end)), decimalComma, host)
  {
    EncodeFieldWritesText(s, j, vals, Partial(line, hi), decimalComma, host, sp);
    WriteAlongLine(line, hi, sp.begin, sp.end);
  }

  /**
   * Field `k` is a text or integer field over `sp` whose text is the
   * columns `sp` of `line`.
   */
  predicate WritesColumnsOf(s: Schema, vals: seq<Value>, k: nat, decimalComma: bool, host: Host,
                            line: string, sp: Span)
    requires Typed(s, vals)
  {
    k < |s.fields| && ResolveFixed(s.fields[k].fixed) == Some(sp) && FormatsText(s.fields[k].kind) &&
    FitsKind(s.fields[k].kind, vals[k]) &&
    0 <= sp.begin < sp.end <= |line| &&
    FieldText(s.fields[k].kind, vals[k], sp, decimalComma, host) == line[sp.begin..sp.end]
  }

  /**
   * The first `|sps|` fields each write their columns of `line`, the first
   * from column 0 and each later one starting no further than where the one
   * before it ended and ending no earlier.
   */
  predicate FollowsLine(s: Schema, vals: seq<Value>, decimalComma: bool, host: Host,
                        line: string, sps: seq<Span>)
    requires Typed(s, vals)
  {
    Unwritten !in line && |sps| <= |s.fields| &&
    (|sps| > 0 ==> sps[0].begin == 0) &&
    (forall k :: 0 <= k < |sps| ==> WritesColumnsOf(s, vals, k, decimalComma, host, line, sps[k])) &&
    (forall k :: 0 < k < |sps| ==> sps[k].begin <= sps[k - 1].end <= sps[k].end)
  }

  /** After the first `n` such fields, the line shows `line` up to where field `n - 1` ended. */
  lemma {:induction false} EncodeFollowsLine(s: Schema, vals: seq<Value>, decimalComma: bool, host: Host,
                                             line: string, sps: seq<Span>, n: nat)
    requires Typed(s, vals) && FollowsLine(s, vals, decimalComma, host, line, sps) && 0 < n <= |sps|
    ensures EncodeFrom(s, vals, 0, Partial(line, 0), decimalComma, host) ==
      EncodeFrom(s, vals, n, Partial(line, sps[n - 1].end), decimalComma, host)
  {
    var hi := if n == 1 then 0 else sps[n - 2].end;
    if n > 1 {
      EncodeFollowsLine(s, vals, decimalComma, host, line, sps, n - 1);
      assert sps[n - 1].begin <= hi <= sps[n - 1].end;
    }
    assert WritesColumnsOf(s, vals, n - 1, decimalComma, host, line, sps[n - 1]);
    assert Max(hi, sps[n - 1].end) == sps[n - 1].end;
    EncodeAlongLine(s, vals, n - 1, decimalComma, host, line, hi, sps[n - 1]);
  }

  /**
   * A record whose fields all write their columns of `line`, in that
   * manner, up to the line's last column, marshals to `line` without error.
   */
  lemma EncodeIsLine(s: Schema, vals: seq<Value>, decimalComma: bool, host: Host, line: string, sps: seq<Span>)
    requires Typed(s, vals) && FollowsLine(s, vals, decimalComma, host, line, sps)
    requires |sps| == |s.fields| > 0 && sps[|sps| - 1].end == |line| == LineWidth(s)
    ensures Encode(s, vals, decimalComma, host) == Written(Ok, line)
  {
    assert Blank(LineWidth(s)) == Partial(line, 0);
    EncodeFollowsLine(s, vals, decimalComma, host, line, sps, |sps|);
    assert Partial(line, |line|) == line;
  }

  /**
   * Fields tagged "B-E" with the spans `sps`, none of them nested, the last
   * ending furthest: each resolves to its span and the line is as wide as
   * the last one's end.
   */
  lemma TaggedLayout(s: Schema, sps: seq<Span>)
    requires |sps| == |s.fields| > 0
    requires forall k :: 0 <= k < |sps| ==>
      0 <= sps[k].begin <= sps[k].end <= sps[|sps| - 1].end <= MaxInt64 && sps[k].format == "" &&
      s.fields[k].fixed == RangeTag(sps[k].begin, sps[k].end) && !s.fields[k].kind.Nested?
    ensures forall k :: 0 <= k < |sps| ==> ResolveFixed(s.fields[k].fixed) == Some(sps[k])
    ensures LineWidth(s) == sps[|sps| - 1].end
  {
    forall k | 0 <= k < |sps| ensures ResolveFixed(s.fields[k].fixed) == Some(sps[k]) {
      RangeTagResolves(sps[k].begin, sps[k].end);
    }
    forall k | 0 <= k < |sps| ensures Reach(s.fields[k]) == sps[k].end {
      assert OwnEnd(s.fields[k]) == sps[k].end;
    }
    LineWidthIsMaximum(s);
  }

  /** A number below 2^14 fits a Go `int`. */
  lemma SmallFits(n: int)
    requires 0 <= n < 16384
    ensures FitsSigned(n, 64)
  {
    PowerMonotone(2, 14, 63);
    assert Power(2, 14) == 16384;
  }

  /** The layout of the record of the first encoder test: two ints, then two texts. */
  predicate FirstTestRecord(s: Schema)
  {
    |s.fields| == 4 &&
    s.fields[0].kind == Int64 && s.fields[0].fixed == RangeTag(0, 5) &&
    s.fields[1].kind == Int64 && s.fields[1].fixed == RangeTag(5, 10) &&
    s.fields[2].kind == Str && s.fields[2].fixed == RangeTag(10, 15) &&
    s.fields[3].kind == Str && s.fields[3].fixed == RangeTag(15, 35)
  }

  /**
   * The record {NumberA: 123, NumberB: 12345, StringC: "ohmy", StringD:
   * "What's happening?"} with the tags "0-5", "5-10", "10-15" and "15-35"
   * marshals without error to the 35-column line
   * "0012312345ohmy What's happening?   ".
   */
  lemma MarshalExample(s: Schema, vals: seq<Value>, decimalComma: bool, host: Host, line: string)
    requires FirstTestRecord(s)
    requires vals == [IntV(123), IntV(12345), StrV("ohmy"), StrV("What's happening?")]
    requires line == "0012312345ohmy What's happening?   "
    ensures Typed(s, vals) && LineWidth(s) == |line|
    ensures Encode(s, vals, decimalComma, host) == Written(Ok, line)
  {
    var sps := FirstTestFollows(s, vals, decimalComma, host, line);
    EncodeIsLine(s, vals, decimalComma, host, line, sps);
  }

  /** Each field of the first encoder test writes its columns of the expected line. */
  lemma FirstTestFollows(s: Schema, vals: seq<Value>, decimalComma: bool, host: Host, line: string)
    returns (sps: seq<Span>)
    requires FirstTestRecord(s)
    requires vals == [IntV(123), IntV(12345), StrV("ohmy"), StrV("What's happening?")]
    requires line == "0012312345ohmy What's happening?   "
    ensures Typed(s, vals) && FollowsLine(s, vals, decimalComma, host, line, sps)
    ensures |sps| == |s.fields| == 4 && sps[3].end == |line| == LineWidth(s)
  {
    sps := FirstTestLayout(s);
    FirstTestTyped(s, vals);
    var texts := FirstTestTexts(s, vals, decimalComma, host, sps);
    FirstTestLine(line, texts);
    FollowsFourTexts(s, vals, decimalComma, host, line, sps, texts);
  }

  /** Four fields whose texts make up `line`, one after the other, follow it. */
  lemma FollowsFourTexts(s: Schema, vals: seq<Value>, decimalComma: bool, host: Host, line: string,
                         sps: seq<Span>, texts: seq<string>)
    requires Typed(s, vals) && |s.fields| == |sps| == |texts| == 4
    requires forall k :: 0 <= k < 4 ==>
      ResolveFixed(s.fields[k].fixed) == Some(sps[k]) && FormatsText(s.fields[k].kind) &&
      FitsKind(s.fields[k].kind, vals[k]) &&
      FieldText(s.fields[k].kind, vals[k], sps[k], decimalComma, host) == texts[k] &&
      sps[k].end == sps[k].begin + |texts[k]| && |texts[k]| > 0
    requires sps[0].begin == 0 && forall k :: 0 < k < 4 ==> sps[k].begin == sps[k - 1].end
    requires line == texts[0] + texts[1] + texts[2] + texts[3] && Unwritten !in line
    ensures FollowsLine(s, vals, decimalComma, host, line, sps)
  {
    ColumnsOfFour(line, texts, sps);
    FollowsFromTexts(s, vals, decimalComma, host, line, sps, texts);
  }

  lemma FirstTestLayout(s: Schema) returns (sps: seq<Span>)
    requires FirstTestRecord(s)
    ensures sps == [Span(0, 5, ""), Span(5, 10, ""), Span(10, 15, ""), Span(15, 35, "")]
    ensures forall k :: 0 <= k < 4 ==> ResolveFixed(s.fields[k].fixed) == Some(sps[k])
    ensures forall k :: 0 < k < 4 ==> sps[k].begin == sps[k - 1].end
    ensures LineWidth(s) == 35
  {
    sps := [Span(0, 5, ""), Span(5, 10, ""), Span(10, 15, ""), Span(15, 35, "")];
    forall k | 0 <= k < 4
      ensures s.fields[k].fixed == RangeTag(sps[k].begin, sps[k].end) && !s.fields[k].kind.Nested?
    {
      if k == 0 {} else if k == 1 {} else if k == 2 {} else {}
    }
    TaggedLayout(s, sps);
  }

  lemma FirstTestTyped(s: Schema, vals: seq<Value>)
    requires FirstTestRecord(s)
    requires vals == [IntV(123), IntV(12345), StrV("ohmy"), StrV("What's happening?")]
    ensures Typed(s, vals)
  {
    SmallFits(123);
    SmallFits(12345);
    forall k | 0 <= k < 4 ensures FitsKind(s.fields[k].kind, vals[k]) {
      if k == 0 {} else if k == 1 {} else if k == 2 {} else {}
    }
  }

  /** Fields that write the texts found at their spans of `line`, one after the other, follow it. */
  lemma FollowsFromTexts(s: Schema, vals: seq<Value>, decimalComma: bool, host: Host, line: string,
                         sps: seq<Span>, texts: seq<string>)
    requires Typed(s, vals) && |sps| == |texts| <= |s.fields|
    requires Unwritten !in line && (|sps| > 0 ==> sps[0].begin == 0)
    requires forall k :: 0 <= k < |sps| ==>
      ResolveFixed(s.fields[k].fixed) == Some(sps[k]) && FormatsText(s.fields[k].kind) &&
      FitsKind(s.fields[k].kind, vals[k]) &&
      FieldText(s.fields[k].kind, vals[k], sps[k], decimalComma, host) == texts[k]
    requires forall k :: 0 <= k < |sps| ==>
      0 <= sps[k].begin < sps[k].end <= |line| && line[sps[k].begin..sps[k].end] == texts[k]
    requires forall k :: 0 < k < |sps| ==> sps[k].begin <= sps[k - 1].end <= sps[k].end
    ensures FollowsLine(s, vals, decimalComma, host, line, sps)
  {
  }

  /** The texts the four fields of the first encoder test format. */
  lemma FirstTestTexts(s: Schema, vals: seq<Value>, decimalComma: bool, host: Host, sps: seq<Span>)
    returns (texts: seq<string>)
    requires FirstTestRecord(s) && Typed(s, vals)
    requires vals == [IntV(123), IntV(12345), StrV("ohmy"), StrV("What's happening?")]
    requires sps == [Span(0, 5, ""), Span(5, 10, ""), Span(10, 15, ""), Span(15, 35, "")]
    ensures |texts| == 4
    ensures forall k :: 0 <= k < 4 ==>
      FormatsText(s.fields[k].kind) && FitsKind(s.fields[k].kind, vals[k]) &&
      FieldText(s.fields[k].kind, vals[k], sps[k], decimalComma, host) == texts[k] &&
      sps[k].end == sps[k].begin + |texts[k]| && |texts[k]| > 0
    ensures texts == ["00123", "12345", "ohmy ", "What's happening?   "]
  {
    var a, b := FormatZeroPadded(123, 5), FormatZeroPadded(12345, 5);
    var c, d := LeftJustify("ohmy", 5), LeftJustify("What's happening?", 20);
    PaddedNumbers(a, b);
    JustifiedTexts(c, d);
    texts := [a, b, c, d];
    forall k | 0 <= k < 4
      ensures FormatsText(s.fields[k].kind) && FitsKind(s.fields[k].kind, vals[k]) &&
        FieldText(s.fields[k].kind, vals[k], sps[k], decimalComma, host) == texts[k] &&
        sps[k].end == sps[k].begin + |texts[k]| && |texts[k]| > 0
    {
      if k == 0 {} else if k == 1 {} else if k == 2 {} else {}
    }
  }

  /** The expected line of the first encoder test is its four texts, and holds no '\x00'. */
  lemma FirstTestLine(line: string, texts: seq<string>)
    requires line == "0012312345ohmy What's happening?   "
    requires texts == ["00123", "12345", "ohmy ", "What's happening?   "]
    ensures line == texts[0] + texts[1] + texts[2] + texts[3] && Unwritten !in line
  {
    ExampleLine(texts[0], texts[1], texts[2], texts[3], line);
    FreeOfUnwritten(texts);
  }

  /** Four texts without '\x00' make a line without '\x00'. */
  lemma FreeOfUnwritten(texts: seq<string>)
    requires |texts| == 4 && forall k :: 0 <= k < 4 ==> Unwritten !in texts[k]
    ensures Unwritten !in texts[0] + texts[1] + texts[2] + texts[3]
  {
  }

  /** A line made of four texts holds each at the span that follows the ones before it. */
  lemma ColumnsOfFour(line: string, texts: seq<string>, sps: seq<Span>)
    requires |texts| == 4 && |sps| == 4 && line == texts[0] + texts[1] + texts[2] + texts[3]
    requires sps[0].begin == 0 && forall k :: 0 <= k < 4 ==> sps[k].end == sps[k].begin + |texts[k]|
    requires forall k :: 0 < k < 4 ==> sps[k].begin == sps[k - 1].end
    ensures forall k :: 0 <= k < 4 ==> 0 <= sps[k].begin <= sps[k].end <= |line| && line[sps[k].begin..sps[k].end] == texts[k]
  {
    assert line[sps[0].begin..sps[0].end] == texts[0];
    assert line[sps[1].begin..sps[1].end] == texts[1];
    assert line[sps[2].begin..sps[2].end] == texts[2];
    assert line[sps[3].begin..sps[3].end] == texts[3];
    forall k | 0 <= k < 4 ensures 0 <= sps[k].begin <= sps[k].end <= |line| && line[sps[k].begin..sps[k].end] == texts[k] {
      if k == 0 {} else if k == 1 {} else if k == 2 {} else {}
    }
  }

  /**
   * A text or integer field whose first rune conflicts with the cell it
   * lands on stops the encode there with `IncoherentOverlap`, leaving the
   * line as it was.
   */
  lemma EncodeConflicts(s: Schema, vals: seq<Value>, j: nat, decimalComma: bool, host: Host,
                        cells: seq<char>, sp: Span, t: string)
    requires Typed(s, vals) && j < |s.fields|
    requires ResolveFixed(s.fields[j].fixed) == Some(sp) && FormatsText(s.fields[j].kind)
    requires FitsKind(s.fields[j].kind, vals[j])
    requires FieldText(s.fields[j].kind, vals[j], sp, decimalComma, host) == t
    requires 0 <= sp.begin <= |cells| - 1 && 1 <= sp.end <= |cells| && 0 < |t| <= sp.end - sp.begin
    requires Conflicts(cells[sp.begin], t[0])
    ensures EncodeFrom(s, vals, j, cells, decimalComma, host) == Written(Failed(IncoherentOverlap), cells)
  {
    EncodeFieldWritesText(s, j, vals, cells, decimalComma, host, sp);
    WriteConflictAtStart(cells, t, sp.begin, sp.end);
    assert EncodeField(s, j, vals, cells, decimalComma, host) == Written(Failed(IncoherentOverlap), cells);
  }

  /** The layout of the overlap tests: two ints, then texts over 10-15 and 12-22. */
  predicate OverlapTestRecord(s: Schema)
  {
    |s.fields| == 4 &&
    s.fields[0].kind == Int64 && s.fields[0].fixed == RangeTag(0, 5) &&
    s.fields[1].kind == Int64 && s.fields[1].fixed == RangeTag(5, 10) &&
    s.fields[2].kind == Str && s.fields[2].fixed == RangeTag(10, 15) &&
    s.fields[3].kind == Str && s.fields[3].fixed == RangeTag(12, 22)
  }

  /**
   * The record {NumberA: 123, NumberB: 0, StringC: "overl", StringD:
   * "erlapping"} with the tags "0-5", "5-10", "10-15" and "12-22": the two
   * texts overlap on columns 12-15 with the same runes, so the record
   * marshals without error to the 22-column line "0012300000overlapping ".
   */
  lemma OverlapMarshalExample(s: Schema, vals: seq<Value>, decimalComma: bool, host: Host, line: string)
    requires OverlapTestRecord(s)
    requires vals == [IntV(123), IntV(0), StrV("overl"), StrV("erlapping")]
    requires line == "0012300000overlapping "
    ensures Typed(s, vals) && LineWidth(s) == |line|
    ensures Encode(s, vals, decimalComma, host) == Written(Ok, line)
  {
    var sps, texts := OverlapTestParts(s, vals, decimalComma, host, line, "erlapping");
    OverlapTexts(texts[2], "apping ", texts[3]);
    FollowsOverlappingAll(s, vals, decimalComma, host, line, sps, texts, "apping ", 2);
    EncodeIsLine(s, vals, decimalComma, host, line, sps);
  }

  /**
   * The same record with StringD "ER THE TOP": its 'E' meets the 'e' of
   * "overl" at column 12, so `Marshal` fails with `IncoherentOverlap`,
   * the line holding "0012300000overl" and nothing after it.
   */
  lemma OverlapConflictExample(s: Schema, vals: seq<Value>, decimalComma: bool, host: Host, line: string)
    requires OverlapTestRecord(s)
    requires vals == [IntV(123), IntV(0), StrV("overl"), StrV("ER THE TOP")]
    requires line == "0012300000overlapping "
    ensures Typed(s, vals) && LineWidth(s) == |line|
    ensures Encode(s, vals, decimalComma, host) == Written(Failed(IncoherentOverlap), Partial(line, 15))
  {
    var sps, texts := OverlapTestParts(s, vals, decimalComma, host, line, "ER THE TOP");
    ClashingTexts(texts[2], texts[3]);
    FollowsOverlappingThree(s, vals, decimalComma, host, line, sps, texts, "apping ", 2);
    EncodeStopsAt(s, vals, decimalComma, host, line, [sps[0], sps[1], sps[2]], sps[3], texts[3]);
  }

  /**
   * When the first `|sps|` fields follow `line` and the next field's text
   * starts with a rune that conflicts with the one already at its begin
   * column, the encode stops there with `IncoherentOverlap`, the line
   * showing `line` as far as the fields before it wrote.
   */
  lemma EncodeStopsAt(s: Schema, vals: seq<Value>, decimalComma: bool, host: Host, line: string,
                      sps: seq<Span>, sp: Span, t: string)
    requires Typed(s, vals) && FollowsLine(s, vals, decimalComma, host, line, sps)
    requires 0 < |sps| < |s.fields| && LineWidth(s) == |line|
    requires ResolveFixed(s.fields[|sps|].fixed) == Some(sp) && FormatsText(s.fields[|sps|].kind)
    requires FitsKind(s.fields[|sps|].kind, vals[|sps|])
    requires FieldText(s.fields[|sps|].kind, vals[|sps|], sp, decimalComma, host) == t
    requires 0 <= sp.begin < sps[|sps| - 1].end && sp.end <= |line| && 0 < |t| <= sp.end - sp.begin
    requires Conflicts(line[sp.begin], t[0])
    ensures Encode(s, vals, decimalComma, host) ==
      Written(Failed(IncoherentOverlap), Partial(line, sps[|sps| - 1].end))
  {
    EncodeFollowsLine(s, vals, decimalComma, host, line, sps, |sps|);
    StopsAfter(s, vals, decimalComma, host, line, |sps|, sps[|sps| - 1].end, sp, t);
  }

  lemma StopsAfter(s: Schema, vals: seq<Value>, decimalComma: bool, host: Host, line: string,
                   n: nat, hi: nat, sp: Span, t: string)
    requires Typed(s, vals) && n < |s.fields| && LineWidth(s) == |line| && hi <= |line|
    requires EncodeFrom(s, vals, 0, Partial(line, 0), decimalComma, host) ==
      EncodeFrom(s, vals, n, Partial(line, hi), decimalComma, host)
    requires ResolveFixed(s.fields[n].fixed) == Some(sp) && FormatsText(s.fields[n].kind)
    requires FitsKind(s.fields[n].kind, vals[n])
    requires FieldText(s.fields[n].kind, vals[n], sp, decimalComma, host) == t
    requires 0 <= sp.begin < hi && sp.end <= |line| && 0 < |t| <= sp.end - sp.begin
    requires Conflicts(line[sp.begin], t[0])
    ensures Encode(s, vals, decimalComma, host) == Written(Failed(IncoherentOverlap), Partial(line, hi))
  {
    assert Blank(LineWidth(s)) == Partial(line, 0);
    assert Partial(line, hi)[sp.begin] == line[sp.begin];
    EncodeConflicts(s, vals, n, decimalComma, host, Partial(line, hi), sp, t);
  }

  /**
   * Three texts side by side followed by `rest`, and a fourth field laid
   * `m` columns into the third: the first three fields follow the line.
   */
  lemma FollowsOverlappingThree(s: Schema, vals: seq<Value>, decimalComma: bool, host: Host, line: string,
                                sps: seq<Span>, texts: seq<string>, rest: string, m: nat)
    requires Typed(s, vals) && |sps| == |texts| == |s.fields| == 4
    requires line == texts[0] + texts[1] + texts[2] + rest && Unwritten !in line
    requires forall k :: 0 <= k < 4 ==>
      ResolveFixed(s.fields[k].fixed) == Some(sps[k]) && FormatsText(s.fields[k].kind) &&
      FitsKind(s.fields[k].kind, vals[k]) &&
      FieldText(s.fields[k].kind, vals[k], sps[k], decimalComma, host) == texts[k]
    requires sps[0].begin == 0 && forall k :: 0 <= k < 3 ==> sps[k].end == sps[k].begin + |texts[k]| > sps[k].begin
    requires sps[1].begin == sps[0].end && sps[2].begin == sps[1].end
    requires m < |texts[2]| && sps[3].begin == sps[2].begin + m && sps[3].end == |line|
    ensures FollowsLine(s, vals, decimalComma, host, line, [sps[0], sps[1], sps[2]])
    ensures line[sps[3].begin] == texts[2][m] && sps[3].begin < sps[2].end
  {
    ColumnsOverlapping(line, texts, rest, sps, m);
    assert WritesColumnsOf(s, vals, 0, decimalComma, host, line, sps[0]);
    assert WritesColumnsOf(s, vals, 1, decimalComma, host, line, sps[1]);
    assert WritesColumnsOf(s, vals, 2, decimalComma, host, line, sps[2]);
    FollowsThree(s, vals, decimalComma, host, line, [sps[0], sps[1], sps[2]]);
  }

  /**
   * The same, with the fourth text the tail of the third followed by
   * `rest`: all four fields follow the line.
   */
  lemma FollowsOverlappingAll(s: Schema, vals: seq<Value>, decimalComma: bool, host: Host, line: string,
                              sps: seq<Span>, texts: seq<string>, rest: string, m: nat)
    requires Typed(s, vals) && |sps| == |texts| == |s.fields| == 4
    requires line == texts[0] + texts[1] + texts[2] + rest && Unwritten !in line
    requires forall k :: 0 <= k < 4 ==>
      ResolveFixed(s.fields[k].fixed) == Some(sps[k]) && FormatsText(s.fields[k].kind) &&
      FitsKind(s.fields[k].kind, vals[k]) &&
      FieldText(s.fields[k].kind, vals[k], sps[k], decimalComma, host) == texts[k]
    requires sps[0].begin == 0 && forall k :: 0 <= k < 3 ==> sps[k].end == sps[k].begin + |texts[k]| > sps[k].begin
    requires sps[1].begin == sps[0].end && sps[2].begin == sps[1].end
    requires m < |texts[2]| && sps[3].begin == sps[2].begin + m && sps[3].end == |line|
    requires texts[3] == texts[2][m..] + rest
    ensures FollowsLine(s, vals, decimalComma, host, line, sps)
  {
    ColumnsOverlapping(line, texts, rest, sps, m);
    assert WritesColumnsOf(s, vals, 0, decimalComma, host, line, sps[0]);
    assert WritesColumnsOf(s, vals, 1, decimalComma, host, line, sps[1]);
    assert WritesColumnsOf(s, vals, 2, decimalComma, host, line, sps[2]);
    assert WritesColumnsOf(s, vals, 3, decimalComma, host, line, sps[3]);
    FollowsFour(s, vals, decimalComma, host, line, sps);
  }

  /** A first span written by its field, from column 0, follows the line on its own. */
  lemma FollowsFirst(s: Schema, vals: seq<Value>, decimalComma: bool, host: Host, line: string, sp: Span)
    requires Typed(s, vals) && Unwritten !in line && sp.begin == 0
    requires WritesColumnsOf(s, vals, 0, decimalComma, host, line, sp)
    ensures FollowsLine(s, vals, decimalComma, host, line, [sp])
  {
  }

  /**
   * The next field's span, written by it and starting no further than where
   * the last one ended, extends a sequence of spans that follow the line.
   */
  lemma FollowsNext(s: Schema, vals: seq<Value>, decimalComma: bool, host: Host, line: string,
                    sps: seq<Span>, sp: Span)
    requires Typed(s, vals) && FollowsLine(s, vals, decimalComma, host, line, sps) && 0 < |sps|
    requires WritesColumnsOf(s, vals, |sps|, decimalComma, host, line, sp)
    requires sp.begin <= sps[|sps| - 1].end <= sp.end
    ensures FollowsLine(s, vals, decimalComma, host, line, sps + [sp])
  {
    var all := sps + [sp];
    forall k | 0 <= k < |all| ensures WritesColumnsOf(s, vals, k, decimalComma, host, line, all[k]) {
      WritesSameSpan(s, vals, k, decimalComma, host, line, if k < |sps| then sps[k] else sp, all[k]);
    }
    forall k | 0 < k < |all| ensures all[k].begin <= all[k - 1].end <= all[k].end {
      if k < |sps| {
        assert all[k] == sps[k] && all[k - 1] == sps[k - 1];
      }
    }
  }

  lemma WritesSameSpan(s: Schema, vals: seq<Value>, k: nat, decimalComma: bool, host: Host,
                       line: string, a: Span, b: Span)
    requires Typed(s, vals) && a == b && WritesColumnsOf(s, vals, k, decimalComma, host, line, a)
    ensures WritesColumnsOf(s, vals, k, decimalComma, host, line, b)
  {
  }

  /** Three spans, each written by its field and each starting where the one before it ended. */
  lemma FollowsThree(s: Schema, vals: seq<Value>, decimalComma: bool, host: Host, line: string, sps: seq<Span>)
    requires Typed(s, vals) && |sps| == 3 <= |s.fields| && Unwritten !in line && sps[0].begin == 0
    requires WritesColumnsOf(s, vals, 0, decimalComma, host, line, sps[0])
    requires WritesColumnsOf(s, vals, 1, decimalComma, host, line, sps[1])
    requires WritesColumnsOf(s, vals, 2, decimalComma, host, line, sps[2])
    requires sps[1].begin == sps[0].end && sps[2].begin == sps[1].end
    ensures FollowsLine(s, vals, decimalComma, host, line, sps)
  {
    FollowsFirst(s, vals, decimalComma, host, line, sps[0]);
    FollowsNext(s, vals, decimalComma, host, line, [sps[0]], sps[1]);
    var two := [sps[0]] + [sps[1]];
    assert two[1] == sps[1];
    FollowsNext(s, vals, decimalComma, host, line, two, sps[2]);
    ThreeParts(sps);
  }

  /** Four spans, each written by its field, the last one reaching back into the third. */
  lemma FollowsFour(s: Schema, vals: seq<Value>, decimalComma: bool, host: Host, line: string, sps: seq<Span>)
    requires Typed(s, vals) && |sps| == 4 <= |s.fields| && Unwritten !in line && sps[0].begin == 0
    requires WritesColumnsOf(s, vals, 0, decimalComma, host, line, sps[0])
    requires WritesColumnsOf(s, vals, 1, decimalComma, host, line, sps[1])
    requires WritesColumnsOf(s, vals, 2, decimalComma, host, line, sps[2])
    requires WritesColumnsOf(s, vals, 3, decimalComma, host, line, sps[3])
    requires sps[1].begin == sps[0].end && sps[2].begin == sps[1].end
    requires sps[3].begin <= sps[2].end <= sps[3].end
    ensures FollowsLine(s, vals, decimalComma, host, line, sps)
  {
    var first := sps[..3];
    assert first[0] == sps[0] && first[1] == sps[1] && first[2] == sps[2];
    FollowsThree(s, vals, decimalComma, host, line, first);
    FollowsNext(s, vals, decimalComma, host, line, first, sps[3]);
    AppendLast(sps);
  }

  lemma ThreeParts<T>(xs: seq<T>)
    requires |xs| == 3
    ensures [xs[0]] + [xs[1]] + [xs[2]] == xs
  {
  }

  lemma AppendLast<T>(xs: seq<T>)
    requires |xs| > 0
    ensures xs[..|xs| - 1] + [xs[|xs| - 1]] == xs
  {
  }

  /**
   * The layout, the typing and the texts of an overlap test with StringD
   * `d`, and the line as the first three texts followed by "apping ".
   */
  lemma OverlapTestParts(s: Schema, vals: seq<Value>, decimalComma: bool, host: Host, line: string, d: string)
    returns (sps: seq<Span>, texts: seq<string>)
    requires OverlapTestRecord(s)
    requires vals == [IntV(123), IntV(0), StrV("overl"), StrV(d)]
    requires line == "0012300000overlapping "
    ensures Typed(s, vals) && |sps| == |texts| == |s.fields| == 4 && LineWidth(s) == |line|
    ensures line == texts[0] + texts[1] + texts[2] + "apping " && Unwritten !in line
    ensures forall k :: 0 <= k < 4 ==>
      ResolveFixed(s.fields[k].fixed) == Some(sps[k]) && FormatsText(s.fields[k].kind) &&
      FitsKind(s.fields[k].kind, vals[k]) &&
      FieldText(s.fields[k].kind, vals[k], sps[k], decimalComma, host) == texts[k]
    ensures sps[0].begin == 0 && forall k :: 0 <= k < 3 ==> sps[k].end == sps[k].begin + |texts[k]| > sps[k].begin
    ensures sps[1].begin == sps[0].end && sps[2].begin == sps[1].end
    ensures 2 < |texts[2]| && sps[3].begin == sps[2].begin + 2 && sps[3].end == |line| && 0 < |texts[3]|
    ensures sps[2].end == 15 && |texts[3]| <= sps[3].end - sps[3].begin
    ensures texts[2] == "overl" && texts[3] == LeftJustify(d, 10)
  {
    sps := OverlapTestLayout(s);
    OverlapTestTyped(s, vals, d);
    texts := OverlapTestTexts(s, vals, decimalComma, host, sps, d);
    OverlapLine([texts[0], texts[1], texts[2], "apping "], line);
    OverlapSpans(sps, texts);
  }

  /** How the spans of an overlap test sit against the lengths of its texts. */
  lemma OverlapSpans(sps: seq<Span>, texts: seq<string>)
    requires sps == [Span(0, 5, ""), Span(5, 10, ""), Span(10, 15, ""), Span(12, 22, "")]
    requires |texts| == 4 && |texts[3]| == 10 && forall k :: 0 <= k < 3 ==> |texts[k]| == 5
    ensures sps[0].begin == 0 && forall k :: 0 <= k < 3 ==> sps[k].end == sps[k].begin + |texts[k]| > sps[k].begin
    ensures sps[1].begin == sps[0].end && sps[2].begin == sps[1].end
    ensures 2 < |texts[2]| && sps[3].begin == sps[2].begin + 2 && sps[3].end == 22 && 0 < |texts[3]|
    ensures sps[2].end == 15 && |texts[3]| <= sps[3].end - sps[3].begin
  {
    forall k | 0 <= k < 3 ensures sps[k].end == sps[k].begin + |texts[k]| > sps[k].begin {
      if k == 0 {} else if k == 1 {} else {}
    }
  }

  lemma OverlapTestLayout(s: Schema) returns (sps: seq<Span>)
    requires OverlapTestRecord(s)
    ensures sps == [Span(0, 5, ""), Span(5, 10, ""), Span(10, 15, ""), Span(12, 22, "")]
    ensures forall k :: 0 <= k < 4 ==> ResolveFixed(s.fields[k].fixed) == Some(sps[k])
    ensures LineWidth(s) == 22
  {
    sps := [Span(0, 5, ""), Span(5, 10, ""), Span(10, 15, ""), Span(12, 22, "")];
    forall k | 0 <= k < 4
      ensures s.fields[k].fixed == RangeTag(sps[k].begin, sps[k].end) && !s.fields[k].kind.Nested?
    {
      if k == 0 {} else if k == 1 {} else if k == 2 {} else {}
    }
    TaggedLayout(s, sps);
  }

  lemma OverlapTestTyped(s: Schema, vals: seq<Value>, d: string)
    requires OverlapTestRecord(s)
    requires vals == [IntV(123), IntV(0), StrV("overl"), StrV(d)]
    ensures Typed(s, vals)
  {
    SmallFits(123);
    SmallFits(0);
    forall k | 0 <= k < 4 ensures FitsKind(s.fields[k].kind, vals[k]) {
      if k == 0 {} else if k == 1 {} else if k == 2 {} else {}
    }
  }

  /** The texts the fields of an overlap test format. */
  lemma OverlapTestTexts(s: Schema, vals: seq<Value>, decimalComma: bool, host: Host, sps: seq<Span>, d: string)
    returns (texts: seq<string>)
    requires OverlapTestRecord(s) && Typed(s, vals)
    requires vals == [IntV(123), IntV(0), StrV("overl"), StrV(d)]
    requires sps == [Span(0, 5, ""), Span(5, 10, ""), Span(10, 15, ""), Span(12, 22, "")]
    ensures |texts| == 4
    ensures forall k :: 0 <= k < 4 ==>
      FormatsText(s.fields[k].kind) && FitsKind(s.fields[k].kind, vals[k]) &&
      FieldText(s.fields[k].kind, vals[k], sps[k], decimalComma, host) == texts[k]
    ensures texts[0] == "00123" && texts[1] == "00000" && texts[2] == "overl"
    ensures forall k :: 0 <= k < 3 ==> |texts[k]| == 5
    ensures texts[3] == LeftJustify(d, 10)
  {
    var a, b := FormatZeroPadded(123, 5), FormatZeroPadded(0, 5);
    OverlapNumbers(a, b);
    var c := LeftJustify("overl", 5);
    texts := [a, b, c, LeftJustify(d, 10)];
    forall k | 0 <= k < 4
      ensures FormatsText(s.fields[k].kind) && FitsKind(s.fields[k].kind, vals[k]) &&
        FieldText(s.fields[k].kind, vals[k], sps[k], decimalComma, host) == texts[k]
    {
      if k == 0 {} else if k == 1 {} else if k == 2 {} else {}
    }
  }

  /** 123 and 0 zero-padded to five columns. */
  lemma OverlapNumbers(a: string, b: string)
    requires a == FormatZeroPadded(123, 5) && b == FormatZeroPadded(0, 5)
    ensures a == "00123" && b == "00000"
  {
    ThreeDigits(123);
    PaddedExample(a, 123, 5, 2);
    PaddedExample(b, 0, 5, 4);
  }

  lemma OverlapLine(parts: seq<string>, line: string)
    requires parts == ["00123", "00000", "overl", "apping "]
    requires line == "0012300000overlapping "
    ensures line == parts[0] + parts[1] + parts[2] + parts[3] && Unwritten !in line
  {
    assert parts[0] + parts[1] + parts[2] + parts[3] == line;
    FreeOfUnwritten(parts);
  }

  /** "overl" ends with the "er" that "erlapping " starts with. */
  lemma OverlapTexts(c: string, rest: string, d: string)
    requires c == "overl" && rest == "apping " && d == LeftJustify("erlapping", 10)
    ensures |c| == 5 && d == c[2..] + rest
  {
    assert d == "erlapping" + Repeat(' ', 1);
  }

  /** "ER THE TOP" fills its ten columns, and its 'E' is not the 'e' of "overl". */
  lemma ClashingTexts(c: string, d: string)
    requires c == "overl" && d == LeftJustify("ER THE TOP", 10)
    ensures |c| == 5 && 0 < |d| && Conflicts(c[2], d[0])
  {
    assert d == "ER THE TOP";
  }

  /**
   * Three texts side by side followed by `rest`, and a fourth span starting
   * `m` columns into the third text: the first three read back from the
   * line, and the fourth span reads the tail of the third text and `rest`.
   */
  lemma ColumnsOverlapping(line: string, texts: seq<string>, rest: string, sps: seq<Span>, m: nat)
    requires |texts| == 4 && |sps| == 4 && line == texts[0] + texts[1] + texts[2] + rest
    requires sps[0].begin == 0 && forall k :: 0 <= k < 3 ==> sps[k].end == sps[k].begin + |texts[k]| > sps[k].begin
    requires sps[1].begin == sps[0].end && sps[2].begin == sps[1].end
    requires m < |texts[2]| && sps[3].begin == sps[2].begin + m && sps[3].end == |line|
    ensures forall k :: 0 <= k < 3 ==>
      0 <= sps[k].begin < sps[k].end <= |line| && line[sps[k].begin..sps[k].end] == texts[k]
    ensures line[sps[3].begin] == texts[2][m]
    ensures line[sps[3].begin..sps[3].end] == texts[2][m..] + rest
    ensures texts[3] == texts[2][m..] + rest ==> forall k :: 0 <= k < 4 ==>
      0 <= sps[k].begin < sps[k].end <= |line| && line[sps[k].begin..sps[k].end] == texts[k]
  {
    assert line[sps[0].begin..sps[0].end] == texts[0];
    assert line[sps[1].begin..sps[1].end] == texts[1];
    assert line[sps[2].begin..sps[2].end] == texts[2];
    forall k | 0 <= k < 3
      ensures 0 <= sps[k].begin < sps[k].end <= |line| && line[sps[k].begin..sps[k].end] == texts[k]
    {
      if k == 0 {} else if k == 1 {} else {}
    }
  }

  /**
   * A text field whose range is reversed ("10-9"): the source's `[0:e-b]`
   * slice panics there; the model writes the empty text instead, which the
   * line refuses, so the encode stops with an error and the line unchanged.
   */
  lemma ReversedTextRange(s: Schema, i: nat, vals: seq<Value>, cells: seq<char>,
                          decimalComma: bool, host: Host, sp: Span)
    requires Typed(s, vals) && i < |s.fields|
    requires s.fields[i].kind.Str? && vals[i].StrV? && ResolveFixed(s.fields[i].fixed) == Some(sp) && sp.end < sp.begin
    ensures LeftJustifyAsWritten(vals[i].s, sp.end - sp.begin).None?
    ensures EncodeField(s, i, vals, cells, decimalComma, host).status.Failed?
    ensures EncodeField(s, i, vals, cells, decimalComma, host).cells == cells
  {
    assert FitsKind(s.fields[i].kind, vals[i]);
    EncodeFieldWritesText(s, i, vals, cells, decimalComma, host, sp);
    WriteRangeErrors(cells, LeftJustify(vals[i].s, sp.end - sp.begin), sp.begin, sp.end);
  }

  /** `Marshal`: fills a fresh `Line` field by field; the first failed write ends it. */
  method Marshal(s: Schema, vals: seq<Value>, decimalComma: bool, host: Host)
    returns (out: string, err: Status)
    requires Typed(s, vals)
    ensures Written(err, out) == Encode(s, vals, decimalComma, host)
    decreases s, 1
  {
    var n := LineLength(s);
    var line := new Line(n);
    assert line.cells[..] == Blank(n);
    for i := 0 to |s.fields|
      invariant fresh(line.cells) && line.cells.Length == n
      invariant EncodeFrom(s, vals, i, line.cells[..], decimalComma, host) ==
                Encode(s, vals, decimalComma, host)
    {
      var e := MarshalField(s, i, vals, line, decimalComma, host);
      if e.Failed? {
        return line.String(), e;
      }
    }
    return line.String(), Ok;
  }

  /** One iteration of `Marshal`'s loop: field `i` written into `line`. */
  method MarshalField(s: Schema, i: nat, vals: seq<Value>, line: Line, decimalComma: bool, host: Host)
    returns (err: Status)
    requires Typed(s, vals) && i < |s.fields|
    modifies line.cells
    ensures Written(err, line.cells[..]) == EncodeField(s, i, vals, old(line.cells[..]), decimalComma, host)
    decreases s, 0
  {
    var f := s.fields[i];
    var v := vals[i];
    assert FitsKind(f.kind, v);
    err := Ok;
    match ResolveFixed(f.fixed) {
      case None =>
      case Some(sp) =>
        match f.kind {
          case Bool =>
          case Other =>
          case Time =>
            var ignored := line.WriteString(host.formatTime(v.t, sp.format), sp.begin, sp.end);
          case Nested(sub) =>
            var marshalled, e := Marshal(sub, v.vals, decimalComma, host);
            if e.Failed? {
              return e;
            }
            err := line.WriteString(marshalled, 0, line.Length());
          case _ =>
            err := line.WriteString(FieldText(f.kind, v, sp, decimalComma, host), sp.begin, sp.end);
        }
    }
  }
}

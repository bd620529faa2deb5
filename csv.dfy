/**
 * The delimited-text decoder of csv.go: `UnmarshalCsv` splits the line on
 * the separator once, then visits the fields in declaration order; a field
 * whose `csv` tag is an ordinal receives that part of the line, the tag
 * "raw" binds the whole line, and a nested record with a `csvsplit` tag is
 * decoded from its part, split again on its own separator. Nothing is ever
 * reported: `UnmarshalCsv` always returns nil.
 */
module CsvParse {
  import opened Wrappers
  import opened GoText
  import opened Records

  // ---------------------------------------------------------------------
  // The part guard

  /** What `parts[f]` gives after the source's guard. */
  datatype Lookup = Skipped | Panics | Got(text: string)

  /**
   * The guard as written: a field is skipped when `f < 0 || f > len(parts)`;
   * otherwise `parts[f]` is read, which panics when `f == len(parts)`.
   */
  function PartAsWritten(parts: seq<string>, f: int): (r: Lookup)
    ensures r.Panics? <==> f == |parts|
    ensures r.Skipped? <==> f < 0 || f > |parts|
    ensures r.Got? ==> 0 <= f < |parts| && r.text == parts[f]
  {
    if f < 0 || f > |parts| then Skipped
    else if f == |parts| then Panics
    else Got(parts[f])
  }

  /** The one-column line "A" with a field tagged `csv:"1"` passes the guard and panics. */
  lemma OnePastLastPartPanics()
    ensures PartAsWritten(Split("A", ","), Atoi("1")) == Panics
  {
    SplitWithoutRune("A", ',');
    AtoiDigits(1);
    assert Digits(1) == "1";
  }

  /** The guard as intended: an ordinal past the last part is skipped like a negative one. */
  function Part(parts: seq<string>, f: int): (r: Option<string>)
    ensures r.Some? <==> 0 <= f < |parts|
    ensures r.Some? ==> r.value == parts[f]
  {
    if f < 0 || f >= |parts| then None else Some(parts[f])
  }

  /** The intended guard agrees with the written one wherever the written one does not panic. */
  lemma PartAgree(parts: seq<string>, f: int)
    ensures PartAsWritten(parts, f).Skipped? ==> Part(parts, f).None?
    ensures PartAsWritten(parts, f).Got? ==> Part(parts, f) == Some(PartAsWritten(parts, f).text)
    ensures PartAsWritten(parts, f).Panics? <==> Part(parts, f).None? && 0 <= f <= |parts|
  {
  }

  // ---------------------------------------------------------------------
  // Decoding, as a function of the line and the record before

  /**
   * The new value of field `f` when the line is `data` and its parts are
   * `parts`, given its value `prior` before: unchanged when the tag is
   * ignored or names no part; the whole line for a "raw" text field; the
   * part verbatim for a text field; a scalar only when the part parses; a
   * nested record (allocated when nil) decoded from the part on its own
   * separator, when it has one; any other kind unchanged.
   */
  function CsvDecodeField(f: Field, data: string, parts: seq<string>, prior: Value,
                          decimalComma: bool, host: Host): (v: Value)
    ensures v != prior ==>
      (ResolveCsv(f.csv).Raw? && f.kind.Str? && v == StrV(data)) ||
      (ResolveCsv(f.csv).Ordinal? && Part(parts, ResolveCsv(f.csv).index).Some? &&
       !f.kind.Other? && !f.kind.Time? && (f.kind.Nested? ==> f.csvSplit != ""))
    ensures f.kind.Str? && ResolveCsv(f.csv).Ordinal? && v != prior ==>
      v == StrV(Part(parts, ResolveCsv(f.csv).index).value)
    decreases f
  {
    match ResolveCsv(f.csv)
    case Ignored => prior
    case Raw => if f.kind.Str? then StrV(data) else prior
    case Ordinal(n) =>
      match Part(parts, n)
      case None => prior
      case Some(text) =>
        match f.kind
        case Str => StrV(text)
        case Nested(sub) =>
          if f.csvSplit == "" then prior
          else RecV(DecodeCsv(sub, text, f.csvSplit, NestedOrZero(sub, prior), decimalComma, host))
        case Time => prior
        case Other => prior
        case _ => ParseScalar(f.kind, text, prior, decimalComma, host)
  }

  /** `UnmarshalCsv(data, sep, &v)`: every field decoded on its own from the parts of the line. */
  function DecodeCsv(s: Schema, data: string, sep: string, vals: seq<Value>,
                     decimalComma: bool, host: Host): (r: seq<Value>)
    requires |vals| == |s.fields|
    ensures |r| == |vals|
    decreases s
  {
    var parts := Split(data, sep);
    seq(|s.fields|, i requires 0 <= i < |s.fields| =>
      CsvDecodeField(s.fields[i], data, parts, vals[i], decimalComma, host))
  }

  // ---------------------------------------------------------------------
  // The decoder, in place

  /** `UnmarshalCsv`: splits the line once, then updates the record `rec` field by field. */
  method UnmarshalCsv(data: string, sep: string, s: Schema, rec: array<Value>, decimalComma: bool, host: Host)
    requires rec.Length == |s.fields|
    modifies rec
    ensures rec[..] == DecodeCsv(s, data, sep, old(rec[..]), decimalComma, host)
    decreases s, 1
  {
    var parts := Split(data, sep);
    for i := 0 to rec.Length
      invariant forall j :: 0 <= j < i ==>
        rec[j] == CsvDecodeField(s.fields[j], data, parts, old(rec[j]), decimalComma, host)
      invariant forall j :: i <= j < rec.Length ==> rec[j] == old(rec[j])
    {
      UnmarshalCsvField(data, parts, s, i, rec, decimalComma, host);
    }
    assert rec[..] == DecodeCsv(s, data, sep, old(rec[..]), decimalComma, host);
  }

  /** One iteration of `UnmarshalCsv`'s loop: field `i` decoded into `rec[i]`. */
  method UnmarshalCsvField(data: string, parts: seq<string>, s: Schema, i: nat, rec: array<Value>,
                           decimalComma: bool, host: Host)
    requires rec.Length == |s.fields| && i < rec.Length
    modifies rec
    ensures rec[i] == CsvDecodeField(s.fields[i], data, parts, old(rec[i]), decimalComma, host)
    ensures forall j :: 0 <= j < rec.Length && j != i ==> rec[j] == old(rec[j])
    decreases s, 0
  {
    var f := s.fields[i];
    if |f.csv| < 1 || |f.csv| > 4 {
      return;
    }
    if f.csv == "raw" {
      if f.kind.Str? {
        rec[i] := StrV(data);
      }
      return;
    }
    var n := Atoi(f.csv);
    if n < 0 || n >= |parts| {
      return;
    }
    var text := parts[n];
    assert ResolveCsv(f.csv) == Ordinal(n) && Part(parts, n) == Some(text);
    match f.kind {
      case Str =>
        rec[i] := StrV(text);
      case Nested(sub) =>
        if f.csvSplit == "" {
          return;
        }
        var v := UnmarshalCsvNested(text, f.csvSplit, sub, rec[i], decimalComma, host);
        rec[i] := v;
      case Time =>
      case Other =>
      case _ =>
        rec[i] := ParseScalar(f.kind, text, rec[i], decimalComma, host);
    }
  }

  /**
   * The nested branch: the record (allocated when nil) is copied into a
   * buffer of its own, decoded from the part on the nested separator and
   * stored back.
   */
  method UnmarshalCsvNested(text: string, sep: string, sub: Schema, prior: Value, decimalComma: bool, host: Host)
    returns (v: Value)
    ensures v == RecV(DecodeCsv(sub, text, sep, NestedOrZero(sub, prior), decimalComma, host))
    decreases sub, 2
  {
    var init := NestedOrZero(sub, prior);
    var inner := new Value[|init|](j requires 0 <= j < |init| => init[j]);
    assert inner[..] == init;
    UnmarshalCsv(text, sep, sub, inner, decimalComma, host);
    v := RecV(inner[..]);
  }

  // ---------------------------------------------------------------------
  // Properties

  /** Decoding keeps a record of its type: every field still holds a value of its kind. */
  lemma {:induction false} DecodeCsvTyped(s: Schema, data: string, sep: string, vals: seq<Value>,
                                         decimalComma: bool, host: Host)
    requires Typed(s, vals)
    ensures Typed(s, DecodeCsv(s, data, sep, vals, decimalComma, host))
    decreases s
  {
    var parts := Split(data, sep);
    var r := DecodeCsv(s, data, sep, vals, decimalComma, host);
    forall i | 0 <= i < |s.fields| ensures FitsKind(s.fields[i].kind, r[i]) {
      CsvDecodeFieldTyped(s.fields[i], data, parts, vals[i], decimalComma, host);
    }
  }

  lemma {:induction false} CsvDecodeFieldTyped(f: Field, data: string, parts: seq<string>, prior: Value,
                                              decimalComma: bool, host: Host)
    requires FitsKind(f.kind, prior)
    ensures FitsKind(f.kind, CsvDecodeField(f, data, parts, prior, decimalComma, host))
    decreases f
  {
    match ResolveCsv(f.csv) {
      case Ignored =>
      case Raw =>
      case Ordinal(n) =>
        match Part(parts, n) {
          case None =>
          case Some(text) =>
            if f.kind.Nested? && f.csvSplit != "" {
              var sub := f.kind.schema;
              var init := NestedOrZero(sub, prior);
              NestedOrZeroTyped(sub, prior);
              DecodeCsvTyped(sub, text, f.csvSplit, init, decimalComma, host);
            } else if IsScalar(f.kind) {
              ParseScalarFits(f.kind, text, prior, decimalComma, host);
            }
        }
    }
  }

  /**
   * A field keeps its value when its tag is shorter than 1 or longer than 4
   * runes, or names a part the line does not have.
   */
  lemma CsvFieldSkips(f: Field, data: string, parts: seq<string>, prior: Value, decimalComma: bool, host: Host)
    requires |f.csv| < 1 || |f.csv| > 4 ||
             (f.csv != "raw" && !(0 <= Atoi(f.csv) < |parts|))
    ensures CsvDecodeField(f, data, parts, prior, decimalComma, host) == prior
  {
  }

  /** The tag "raw" binds the whole line to a text field and leaves a field of any other kind alone. */
  lemma CsvRawField(f: Field, data: string, parts: seq<string>, prior: Value, decimalComma: bool, host: Host)
    requires f.csv == "raw"
    ensures CsvDecodeField(f, data, parts, prior, decimalComma, host) ==
      if f.kind.Str? then StrV(data) else prior
  {
  }

  /** A nested record without a `csvsplit` tag keeps its value. */
  lemma CsvNestedWithoutSplit(f: Field, data: string, parts: seq<string>, prior: Value,
                              decimalComma: bool, host: Host)
    requires f.kind.Nested? && f.csvSplit == ""
    ensures CsvDecodeField(f, data, parts, prior, decimalComma, host) == prior
  {
  }

  /**
   * A tag of one to four runes that is neither "raw" nor a number names
   * part 0: a text field tagged `csv:"x"` receives the first part.
   */
  lemma CsvWordTag(f: Field, data: string, parts: seq<string>, prior: Value, decimalComma: bool, host: Host)
    requires f.kind.Str? && 1 <= |f.csv| <= 4 && f.csv != "raw" && ParseDecimal(f.csv).None?
    requires |parts| >= 1
    ensures ResolveCsv(f.csv) == Ordinal(0)
    ensures CsvDecodeField(f, data, parts, prior, decimalComma, host) == StrV(parts[0])
  {
    ShortTokenFits(f.csv);
  }

  /**
   * A text field tagged with the decimal ordinal `n` receives part `n` of
   * the line, verbatim.
   */
  lemma CsvOrdinalField(f: Field, data: string, parts: seq<string>, prior: Value,
                        decimalComma: bool, host: Host, n: nat)
    requires f.kind.Str? && f.csv == Digits(n) && |Digits(n)| <= 4 && n < |parts|
    ensures CsvDecodeField(f, data, parts, prior, decimalComma, host) == StrV(parts[n])
  {
    if n > 0 {
      DigitsLength(n, 4);
      assert Power(10, 4) == 10000;
    }
    AtoiDigits(n);
    assert f.csv[0] != 'r';
  }

  /** A scalar field whose ordinal names part `t` of the line gets what `t` parses to. */
  lemma CsvDecodeScalar(f: Field, data: string, parts: seq<string>, prior: Value,
                        decimalComma: bool, host: Host, n: int, t: string)
    requires IsScalar(f.kind) && ResolveCsv(f.csv) == Ordinal(n) && Part(parts, n) == Some(t)
    ensures CsvDecodeField(f, data, parts, prior, decimalComma, host) == ParseScalar(f.kind, t, prior, decimalComma, host)
  {
  }

  /**
   * A line built by joining columns with a one-rune separator that none of
   * them contains gives each text field its column: `UnmarshalCsv` reads
   * back what `strings.Join` wrote.
   */
  lemma CsvJoinedColumns(f: Field, cols: seq<string>, c: char, prior: Value,
                         decimalComma: bool, host: Host, n: nat)
    requires |cols| >= 1 && forall k :: 0 <= k < |cols| ==> c !in cols[k]
    requires f.kind.Str? && f.csv == Digits(n) && |Digits(n)| <= 4 && n < |cols|
    ensures CsvDecodeField(f, Join(cols, [c]), Split(Join(cols, [c]), [c]), prior, decimalComma, host)
      == StrV(cols[n])
  {
    JoinSplitRune(cols, c);
    CsvOrdinalField(f, Join(cols, [c]), cols, prior, decimalComma, host, n);
  }

  // ---------------------------------------------------------------------
  // The documented example

  /** `strings.Split("A,2,X~Y", ",")`. */
  lemma LineParts(line: string)
    requires line == "A,2,X~Y"
    ensures Split(line, ",") == ["A", "2", "X~Y"]
  {
    var p := ["A", "2", "X~Y"];
    assert Join(p[2..], ",") == "X~Y";
    assert Join(p[1..], ",") == "2,X~Y";
    assert Join(p, ",") == line;
    assert forall k :: 0 <= k < |p| ==> ',' !in p[k];
    JoinSplitRune(p, ',');
  }

  /** `strings.Split("X~Y", "~")`. */
  lemma NestedParts()
    ensures Split("X~Y", "~") == ["X", "Y"]
  {
    var p := ["X", "Y"];
    assert Join(p[1..], "~") == "Y";
    assert Join(p, "~") == "X~Y";
    assert forall k :: 0 <= k < |p| ==> '~' !in p[k];
    JoinSplitRune(p, '~');
  }

  /** The ordinals and the number of the example. */
  lemma ExampleNumbers()
    ensures Digits(0) == "0" && Digits(1) == "1" && Digits(2) == "2"
    ensures Atoi("1") == 1 && Atoi("2") == 2
    ensures ParseInt("2", 64) == Some(2)
  {
    AtoiDigits(1);
    AtoiDigits(2);
    PowerMonotone(2, 2, 63);
    assert Power(2, 2) == 4;
  }

  /**
   * The line "A,2,X~Y" split on ",": a text field tagged `csv:"0"` gets "A",
   * an int field tagged `csv:"1"` gets 2, a nested record tagged `csv:"2"`
   * with `csvsplit:"~"` and two text fields tagged "0" and "1" gets "X" and
   * "Y", and a text field tagged `csv:"raw"` gets the whole line.
   */
  lemma DocumentedExample(a: Field, b: Field, c: Field, w: Field, x: Field, y: Field,
                          prior: Value, decimalComma: bool, host: Host, line: string)
    requires line == "A,2,X~Y"
    requires a.kind == Str && a.csv == "0"
    requires b.kind == Int64 && b.csv == "1"
    requires c.kind == Nested(Schema([x, y])) && c.csv == "2" && c.csvSplit == "~"
    requires x.kind == Str && x.csv == "0" && y.kind == Str && y.csv == "1"
    requires w.kind == Str && w.csv == "raw"
    ensures CsvDecodeField(a, line, Split(line, ","), prior, decimalComma, host) == StrV("A")
    ensures CsvDecodeField(b, line, Split(line, ","), prior, decimalComma, host) == IntV(2)
    ensures CsvDecodeField(c, line, Split(line, ","), prior, decimalComma, host) == RecV([StrV("X"), StrV("Y")])
    ensures CsvDecodeField(w, line, Split(line, ","), prior, decimalComma, host) == StrV(line)
  {
    var parts := Split(line, ",");
    LineParts(line);
    NestedParts();
    ExampleNumbers();
    CsvOrdinalField(a, line, parts, prior, decimalComma, host, 0);
    ExampleInt(b, line, parts, prior, decimalComma, host);
    ExampleNested(c, x, y, line, parts, prior, decimalComma, host);
    CsvRawField(w, line, parts, prior, decimalComma, host);
  }

  lemma ExampleInt(b: Field, line: string, parts: seq<string>, prior: Value, decimalComma: bool, host: Host)
    requires b.kind == Int64 && b.csv == "1" && |parts| >= 2 && parts[1] == "2"
    requires Atoi("1") == 1 && ParseInt("2", 64) == Some(2)
    ensures CsvDecodeField(b, line, parts, prior, decimalComma, host) == IntV(2)
  {
  }

  lemma ExampleNested(c: Field, x: Field, y: Field, line: string, parts: seq<string>,
                      prior: Value, decimalComma: bool, host: Host)
    requires c.kind == Nested(Schema([x, y])) && c.csv == "2" && c.csvSplit == "~"
    requires x.kind == Str && x.csv == "0" && y.kind == Str && y.csv == "1"
    requires |parts| >= 3 && parts[2] == "X~Y" && Split("X~Y", "~") == ["X", "Y"]
    requires Digits(0) == "0" && Digits(1) == "1" && Digits(2) == "2"
    ensures CsvDecodeField(c, line, parts, prior, decimalComma, host) == RecV([StrV("X"), StrV("Y")])
  {
    CsvNestedOrdinal(c, line, parts, prior, decimalComma, host, 2);
    InnerPair(x, y, parts[2], c.csvSplit, NestedOrZero(Schema([x, y]), prior), decimalComma, host);
  }

  /** A nested field with a split separator, tagged with ordinal `n`, decodes part `n` as its own line. */
  lemma CsvNestedOrdinal(f: Field, data: string, parts: seq<string>, prior: Value,
                         decimalComma: bool, host: Host, n: nat)
    requires f.kind.Nested? && f.csvSplit != "" && f.csv == Digits(n) && |Digits(n)| <= 4 && n < |parts|
    ensures CsvDecodeField(f, data, parts, prior, decimalComma, host) ==
      RecV(DecodeCsv(f.kind.schema, parts[n], f.csvSplit, NestedOrZero(f.kind.schema, prior), decimalComma, host))
  {
    if n > 0 {
      DigitsLength(n, 4);
      assert Power(10, 4) == 10000;
    }
    AtoiDigits(n);
    assert f.csv[0] != 'r';
  }

  /** Two text fields tagged "0" and "1" over a line that splits into "X" and "Y". */
  lemma InnerPair(x: Field, y: Field, text: string, sep: string, init: seq<Value>,
                  decimalComma: bool, host: Host)
    requires x.kind == Str && x.csv == Digits(0) && y.kind == Str && y.csv == Digits(1)
    requires |init| == 2 && Split(text, sep) == ["X", "Y"]
    ensures DecodeCsv(Schema([x, y]), text, sep, init, decimalComma, host) == [StrV("X"), StrV("Y")]
  {
    var inner := Split(text, sep);
    CsvOrdinalField(x, text, inner, init[0], decimalComma, host, 0);
    CsvOrdinalField(y, text, inner, init[1], decimalComma, host, 1);
    var r := DecodeCsv(Schema([x, y]), text, sep, init, decimalComma, host);
    assert r[0] == StrV("X") && r[1] == StrV("Y");
  }
}

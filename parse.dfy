/**
 * The fixed-width decoder of parse.go: `Unmarshal` visits the fields in
 * declaration order, resolves each `fixed` tag to a column range, slices
 * the line there and stores what the slice parses to into the record, in
 * place; a nested record is decoded from its slice, with offsets relative
 * to the slice. Nothing is ever reported: `Unmarshal` always returns nil.
 */
module FixedParse {
  import opened Wrappers
  import opened GoText
  import opened Records

  // ---------------------------------------------------------------------
  // The range guard

  /** What `data[b:e]` gives after the source's guard. */
  datatype Slice = Skipped | Panics | Sliced(text: string)

  /**
   * The guard as written: a field is skipped when `b < 0 || e > len(data)`;
   * otherwise `data[b:e]` is taken, which panics when `b > e`.
   */
  function ColumnsAsWritten(data: string, sp: Span): (r: Slice)
    ensures r.Panics? <==> 0 <= sp.begin && sp.end <= |data| && sp.begin > sp.end
  {
    if sp.begin < 0 || sp.end > |data| then Skipped
    else if sp.begin > sp.end then Panics
    else Sliced(data[sp.begin..sp.end])
  }

  /** The reversed range "10-9" passes the guard on a 20-column line and panics. */
  lemma ReversedRangePanics()
    ensures ColumnsAsWritten("1234567890ABCDEFGHIJ", Span(10, 9, "")) == Panics
  {
  }

  /** The guard as intended: a reversed range is skipped like an out-of-line one. */
  function Columns(data: string, sp: Span): (r: Option<string>)
    ensures r.Some? <==> 0 <= sp.begin <= sp.end <= |data|
    ensures r.Some? ==> r.value == data[sp.begin..sp.end] && |r.value| == sp.end - sp.begin
  {
    if sp.begin < 0 || sp.end > |data| || sp.begin > sp.end then None
    else Some(data[sp.begin..sp.end])
  }

  /** The intended guard agrees with the written one wherever the written one does not panic. */
  lemma ColumnsAgree(data: string, sp: Span)
    ensures ColumnsAsWritten(data, sp).Skipped? ==> Columns(data, sp).None?
    ensures ColumnsAsWritten(data, sp).Sliced? ==>
      Columns(data, sp) == Some(ColumnsAsWritten(data, sp).text)
    ensures ColumnsAsWritten(data, sp).Panics? <==>
      Columns(data, sp).None? && 0 <= sp.begin && sp.end <= |data|
  {
  }

  // ---------------------------------------------------------------------
  // Decoding, as a function of the line and the record before

  /**
   * The new value of field `f` after decoding `data`, given its value
   * `prior` before: unchanged when the tag does not resolve or the range
   * is not inside the line; text without its trailing spaces; a scalar or
   * time only when its slice parses; a nested record (allocated when nil)
   * decoded from the slice; any other kind unchanged.
   */
  function DecodeField(f: Field, data: string, prior: Value, decimalComma: bool, host: Host): (v: Value)
    ensures v != prior ==>
      ResolveFixed(f.fixed).Some? && Columns(data, ResolveFixed(f.fixed).value).Some? && !f.kind.Other?
    ensures f.kind.Str? && v != prior ==>
      v.StrV? && v.s <= Columns(data, ResolveFixed(f.fixed).value).value
    decreases f
  {
    match ResolveFixed(f.fixed)
    case None => prior
    case Some(sp) =>
      match Columns(data, sp)
      case None => prior
      case Some(text) =>
        match f.kind
        case Str => StrV(TrimRightSpaces(text))
        case Time =>
          (match host.parseTime(sp.format, text) case Some(t) => TimeV(t) case None => prior)
        case Nested(sub) => RecV(Decode(sub, text, NestedOrZero(sub, prior), decimalComma, host))
        case Other => prior
        case _ => ParseScalar(f.kind, text, prior, decimalComma, host)
  }

  /** `Unmarshal(data, &v)`: every field decoded on its own from the same line. */
  function Decode(s: Schema, data: string, vals: seq<Value>, decimalComma: bool, host: Host): (r: seq<Value>)
    requires |vals| == |s.fields|
    ensures |r| == |vals|
    decreases s
  {
    seq(|s.fields|, i requires 0 <= i < |s.fields| =>
      DecodeField(s.fields[i], data, vals[i], decimalComma, host))
  }

  // ---------------------------------------------------------------------
  // The decoder, in place

  /**
   * `Unmarshal`: updates the record `rec` field by field; a nested record
   * is copied into a buffer of its own, decoded there and stored back.
   */
  method Unmarshal(data: string, s: Schema, rec: array<Value>, decimalComma: bool, host: Host)
    requires rec.Length == |s.fields|
    modifies rec
    ensures rec[..] == Decode(s, data, old(rec[..]), decimalComma, host)
    decreases s, 1
  {
    for i := 0 to rec.Length
      invariant forall j :: 0 <= j < i ==>
        rec[j] == DecodeField(s.fields[j], data, old(rec[j]), decimalComma, host)
      invariant forall j :: i <= j < rec.Length ==> rec[j] == old(rec[j])
    {
      UnmarshalField(data, s, i, rec, decimalComma, host);
    }
    assert rec[..] == Decode(s, data, old(rec[..]), decimalComma, host);
  }

  /** One iteration of `Unmarshal`'s loop: field `i` decoded into `rec[i]`. */
  method UnmarshalField(data: string, s: Schema, i: nat, rec: array<Value>, decimalComma: bool, host: Host)
    requires rec.Length == |s.fields| && i < rec.Length
    modifies rec
    ensures rec[i] == DecodeField(s.fields[i], data, old(rec[i]), decimalComma, host)
    ensures forall j :: 0 <= j < rec.Length && j != i ==> rec[j] == old(rec[j])
    decreases s, 0
  {
    var f := s.fields[i];
    var tag := ResolveFixed(f.fixed);
    if tag.None? {
      return;
    }
    var sp := tag.value;
    if sp.begin < 0 || sp.end > |data| || sp.begin > sp.end {
      return;
    }
    var text := data[sp.begin..sp.end];
    assert Columns(data, sp) == Some(text);
    match f.kind {
      case Str =>
        rec[i] := StrV(TrimRightSpaces(text));
      case Time =>
        match host.parseTime(sp.format, text) {
          case Some(t) => rec[i] := TimeV(t);
          case None =>
        }
      case Nested(sub) =>
        var v := UnmarshalNested(text, sub, rec[i], decimalComma, host);
        rec[i] := v;
      case Other =>
      case _ =>
        rec[i] := ParseScalar(f.kind, text, rec[i], decimalComma, host);
    }
  }

  /**
   * The nested branch: the record (allocated when nil) is copied into a
   * buffer of its own, decoded from the field's slice and stored back.
   */
  method UnmarshalNested(text: string, sub: Schema, prior: Value, decimalComma: bool, host: Host)
    returns (v: Value)
    ensures v == RecV(Decode(sub, text, NestedOrZero(sub, prior), decimalComma, host))
    decreases sub, 2
  {
    var init := NestedOrZero(sub, prior);
    var inner := new Value[|init|](j requires 0 <= j < |init| => init[j]);
    assert inner[..] == init;
    Unmarshal(text, sub, inner, decimalComma, host);
    v := RecV(inner[..]);
  }

  // ---------------------------------------------------------------------
  // Properties

  /** Decoding keeps a record of its type: every field still holds a value of its kind. */
  lemma {:induction false} DecodeTyped(s: Schema, data: string, vals: seq<Value>, decimalComma: bool, host: Host)
    requires Typed(s, vals)
    ensures Typed(s, Decode(s, data, vals, decimalComma, host))
    decreases s
  {
    var r := Decode(s, data, vals, decimalComma, host);
    forall i | 0 <= i < |s.fields| ensures FitsKind(s.fields[i].kind, r[i]) {
      DecodeFieldTyped(s.fields[i], data, vals[i], decimalComma, host);
    }
  }

  lemma {:induction false} DecodeFieldTyped(f: Field, data: string, prior: Value, decimalComma: bool, host: Host)
    requires FitsKind(f.kind, prior)
    ensures FitsKind(f.kind, DecodeField(f, data, prior, decimalComma, host))
    decreases f
  {
    match ResolveFixed(f.fixed) {
      case None =>
      case Some(sp) =>
        match Columns(data, sp) {
          case None =>
          case Some(text) =>
            if f.kind.Nested? {
              var sub := f.kind.schema;
              var init := NestedOrZero(sub, prior);
              NestedOrZeroTyped(sub, prior);
              DecodeTyped(sub, text, init, decimalComma, host);
            } else if IsScalar(f.kind) {
              ParseScalarFits(f.kind, text, prior, decimalComma, host);
            }
        }
    }
  }

  /**
   * A field that is not decoded keeps its value: its tag does not resolve,
   * or its range is reversed or not inside the line.
   */
  lemma DecodeFieldSkips(f: Field, data: string, prior: Value, decimalComma: bool, host: Host)
    requires ResolveFixed(f.fixed).None? ||
             !(0 <= ResolveFixed(f.fixed).value.begin <= ResolveFixed(f.fixed).value.end <= |data|)
    ensures DecodeField(f, data, prior, decimalComma, host) == prior
  {
  }

  /**
   * Fields are read independently: what a field gets depends only on its
   * own columns, so two lines that agree there (and are both long enough)
   * give it the same value, whatever else they hold or overlap with.
   */
  lemma DecodeFieldLocal(f: Field, data: string, other: string, prior: Value,
                         decimalComma: bool, host: Host, sp: Span)
    requires ResolveFixed(f.fixed) == Some(sp)
    requires 0 <= sp.begin <= sp.end <= |data| && sp.end <= |other|
    requires data[sp.begin..sp.end] == other[sp.begin..sp.end]
    ensures DecodeField(f, data, prior, decimalComma, host) == DecodeField(f, other, prior, decimalComma, host)
  {
  }

  /** A text field receives its slice with the trailing spaces, and only those, removed. */
  lemma DecodeTextField(f: Field, data: string, prior: Value, decimalComma: bool, host: Host, sp: Span)
    requires f.kind.Str? && ResolveFixed(f.fixed) == Some(sp)
    requires 0 <= sp.begin <= sp.end <= |data|
    ensures var v := DecodeField(f, data, prior, decimalComma, host);
      v.StrV? && v.s <= data[sp.begin..sp.end] &&
      (forall k :: sp.begin + |v.s| <= k < sp.end ==> data[k] == ' ') &&
      (v.s == [] || v.s[|v.s| - 1] != ' ')
  {
    var text := data[sp.begin..sp.end];
    DecodeTextColumns(f, data, prior, decimalComma, host, sp, text);
    TrimmedColumns(data, sp.begin, sp.end, text);
  }

  /** A text field whose columns hold `t` gets `t` without its trailing spaces. */
  lemma DecodeTextColumns(f: Field, data: string, prior: Value, decimalComma: bool, host: Host, sp: Span, t: string)
    requires f.kind.Str? && ResolveFixed(f.fixed) == Some(sp) && Columns(data, sp) == Some(t)
    ensures DecodeField(f, data, prior, decimalComma, host) == StrV(TrimRightSpaces(t))
  {
  }

  /** What trimming removes from columns `[b, e)` of a line is spaces only. */
  lemma TrimmedColumns(data: string, b: nat, e: nat, text: string)
    requires b <= e <= |data| && text == data[b..e]
    ensures var v := TrimRightSpaces(text);
      v <= text && (forall k :: b + |v| <= k < e ==> data[k] == ' ') && (v == [] || v[|v| - 1] != ' ')
  {
    var v := TrimRightSpaces(text);
    forall k | b + |v| <= k < e ensures data[k] == ' ' {
      assert text[k - b] == data[k];
    }
  }


  /**
   * On the line "1234567890ABCDEFGHIJ" an int field over columns 0-5 reads
   * 12345, one over 2-5 reads 345 from the same columns, a text field over
   * 10-15 reads "ABCDE", and a text field over 29-35 (past the end of the
   * line) keeps its value.
   */
  lemma OverlappingFieldsExample(a: Field, b: Field, c: Field, d: Field, prior: Value,
                                 decimalComma: bool, host: Host, data: string)
    requires data == "1234567890ABCDEFGHIJ"
    requires a.kind == Int64 && ResolveFixed(a.fixed) == Some(Span(0, 5, ""))
    requires b.kind == Int64 && ResolveFixed(b.fixed) == Some(Span(2, 5, ""))
    requires c.kind == Str && ResolveFixed(c.fixed) == Some(Span(10, 15, ""))
    requires d.kind == Str && ResolveFixed(d.fixed) == Some(Span(29, 35, ""))
    ensures DecodeField(a, data, prior, decimalComma, host) == IntV(12345)
    ensures DecodeField(b, data, prior, decimalComma, host) == IntV(345)
    ensures DecodeField(c, data, prior, decimalComma, host) == StrV("ABCDE")
    ensures DecodeField(d, data, prior, decimalComma, host) == prior
  {
    var n1, n2, t := OverlappingColumns(data);
    ReadsNumbers(n1, n2);
    DecodeInt64Field(a, data, prior, decimalComma, host, Span(0, 5, ""), n1, 12345);
    DecodeInt64Field(b, data, prior, decimalComma, host, Span(2, 5, ""), n2, 345);
    DecodeStrField(c, data, prior, decimalComma, host, Span(10, 15, ""), t);
    DecodeFieldSkips(d, data, prior, decimalComma, host);
  }

  /** The columns of the example line that its fields cover. */
  lemma OverlappingColumns(data: string) returns (n1: string, n2: string, t: string)
    requires data == "1234567890ABCDEFGHIJ"
    ensures |data| == 20 && data[0..5] == n1 && data[2..5] == n2 && data[10..15] == t
    ensures n1 == "12345" && n2 == "345" && t == "ABCDE"
  {
    n1, n2, t := data[0..5], data[2..5], data[10..15];
  }

  /**
   * On the line "20150114EX" a time field over columns 0-8 with the layout
   * "20060102" gets what the layout parser makes of "20150114", and the text
   * field over 8-10 after it reads "EX".
   */
  lemma LayeredParsingExample(t: Field, x: Field, prior: Value, decimalComma: bool, host: Host,
                               instant: int, data: string)
    requires data == "20150114EX"
    requires t.kind == Time && ResolveFixed(t.fixed) == Some(Span(0, 8, "20060102"))
    requires host.parseTime("20060102", "20150114") == Some(instant)
    requires x.kind == Str && ResolveFixed(x.fixed) == Some(Span(8, 10, ""))
    ensures DecodeField(t, data, prior, decimalComma, host) == TimeV(instant)
    ensures DecodeField(x, data, prior, decimalComma, host) == StrV("EX")
  {
    LayeredColumns(data);
    DecodeTimeField(t, data, prior, decimalComma, host, Span(0, 8, "20060102"), "20150114", instant);
    DecodeStrField(x, data, prior, decimalComma, host, Span(8, 10, ""), "EX");
  }

  lemma LayeredColumns(data: string)
    requires data == "20150114EX"
    ensures |data| == 10 && data[0..8] == "20150114" && data[8..10] == "EX"
  {
  }

  /** A time field whose columns the layout parser reads as `instant` receives it. */
  lemma DecodeTimeField(f: Field, data: string, prior: Value, decimalComma: bool, host: Host,
                        sp: Span, text: string, instant: int)
    requires f.kind == Time && ResolveFixed(f.fixed) == Some(sp)
    requires 0 <= sp.begin <= sp.end <= |data| && data[sp.begin..sp.end] == text
    requires host.parseTime(sp.format, text) == Some(instant)
    ensures DecodeField(f, data, prior, decimalComma, host) == TimeV(instant)
  {
  }


  /** A text field whose columns hold `t`, not ending in a space, receives `t`. */
  lemma DecodeStrField(f: Field, data: string, prior: Value, decimalComma: bool, host: Host,
                       sp: Span, t: string)
    requires f.kind == Str && ResolveFixed(f.fixed) == Some(sp)
    requires 0 <= sp.begin <= sp.end <= |data| && data[sp.begin..sp.end] == t
    requires t == [] || t[|t| - 1] != ' '
    ensures DecodeField(f, data, prior, decimalComma, host) == StrV(t)
  {
  }

  /** An `int64` field whose columns hold a number in range receives that number. */
  lemma DecodeInt64Field(f: Field, data: string, prior: Value, decimalComma: bool, host: Host,
                         sp: Span, t: string, n: int)
    requires f.kind == Int64 && ResolveFixed(f.fixed) == Some(sp)
    requires 0 <= sp.begin <= sp.end <= |data| && data[sp.begin..sp.end] == t
    requires ParseInt(t, 64) == Some(n)
    ensures DecodeField(f, data, prior, decimalComma, host) == IntV(n)
  {
  }

  /** The decimal texts of the example parse as 64-bit integers. */
  lemma ReadsNumbers(a: string, b: string)
    requires a == "12345" && b == "345"
    ensures ParseInt(a, 64) == Some(12345) && ParseInt(b, 64) == Some(345)
  {
    ValueOfFive(a);
    ValueOfThree(b);
    ParseIntSmall(a, 12345);
    ParseIntSmall(b, 345);
  }

  lemma ValueOfFive(a: string)
    requires a == "12345"
    ensures AllDigits(a) && GoText.Value(a) == 12345
  {
    assert a[..4] == "1234" && "1234"[..3] == "123" && "123"[..2] == "12";
    assert "12"[..1] == "1" && "1"[..0] == "";
  }

  lemma ValueOfThree(b: string)
    requires b == "345"
    ensures AllDigits(b) && GoText.Value(b) == 345
  {
    assert b[..2] == "34" && "34"[..1] == "3" && "3"[..0] == "";
  }

  /** A digit string whose value is below 2^14 parses as a 64-bit integer. */
  lemma ParseIntSmall(t: string, n: nat)
    requires |t| > 0 && AllDigits(t) && GoText.Value(t) == n && n < 16384
    ensures ParseInt(t, 64) == Some(n)
  {
    PowerMonotone(2, 14, 63);
    assert Power(2, 14) == 16384;
  }
}

/**
 * What a line `Marshal` wrote reads back as under `Unmarshal` with the same
 * schema: integer fields get their values back, and so do text fields whose
 * value fits its columns, has no trailing space and no '\x00'. (Floats and
 * times depend on the host's formatting and parsing; nested records write
 * their whole line over the enclosing one from column 0.)
 */
module RoundTrip {
  import opened Wrappers
  import opened GoText
  import opened LineBuffer
  import opened Records
  import opened ToFixed
  import opened FixedParse

  /** The columns `sp` of `line` hold exactly `t` when `t` was stored there and fills them. */
  lemma ColumnsHold(line: string, sp: Span, t: string)
    requires 0 <= sp.begin && sp.begin + |t| == sp.end <= |line|
    requires forall k :: 0 <= k < |t| ==> line[sp.begin + k] == t[k]
    ensures Columns(line, sp) == Some(t)
  {
    assert line[sp.begin..sp.end] == t;
  }

  /** An unsigned field reads back any zero-padded rendering of a value below 2^64. */
  lemma ParseUintPadded(u: nat, w: int, prior: Value, decimalComma: bool, host: Host)
    requires u < Power(2, 64)
    ensures ParseScalar(Uint, FormatZeroPadded(u, w), prior, decimalComma, host) == UintV(u)
  {
    var z := Max(0, w - |Digits(u)|);
    ParsePaddedDigits(z, u);
    var t := Repeat('0', z) + Digits(u);
    assert IsDigit(t[0]);
  }

  /** The integer kinds `Marshal` zero-pads. */
  predicate IsInteger(k: Kind)
  {
    k.Int8? || k.Int32? || k.Int64? || k.Uint?
  }

  /**
   * An integer field whose tag resolves reads back, from the line a
   * successful `Marshal` wrote, the value it was written from.
   */
  lemma IntFieldRoundTrip(s: Schema, vals: seq<Value>, decimalComma: bool, host: Host, i: nat, prior: Value)
    requires Typed(s, vals) && i < |s.fields|
    requires Encode(s, vals, decimalComma, host).status == Ok
    requires IsInteger(s.fields[i].kind) && ResolveFixed(s.fields[i].fixed).Some?
    ensures DecodeField(s.fields[i], Encode(s, vals, decimalComma, host).cells, prior, decimalComma, host) == vals[i]
  {
    var f := s.fields[i];
    var v := vals[i];
    var sp := ResolveFixed(f.fixed).value;
    assert FitsKind(f.kind, v);
    var t := FieldText(f.kind, v, sp, decimalComma, host);
    var n := IntegerText(f.kind, v, sp, decimalComma, host);
    WritesTextAnywhere(s, i, vals, decimalComma, host, sp, t);
    ShownColumns(s, vals, decimalComma, host, i, sp, t);
    IntegerReadsBack(f, v, Encode(s, vals, decimalComma, host).cells, prior, decimalComma, host, sp);
  }

  /** An integer field whose columns hold the text written for `v` gets `v`. */
  lemma IntegerReadsBack(f: Field, v: Value, line: string, prior: Value, decimalComma: bool, host: Host, sp: Span)
    requires IsInteger(f.kind) && FitsKind(f.kind, v) && ResolveFixed(f.fixed) == Some(sp)
    requires Columns(line, sp) == Some(FieldText(f.kind, v, sp, decimalComma, host))
    ensures DecodeField(f, line, prior, decimalComma, host) == v
  {
    var t := FieldText(f.kind, v, sp, decimalComma, host);
    DecodeScalarColumns(f, line, prior, decimalComma, host, sp, t);
    if f.kind.Uint? {
      ParseUintPadded(v.u, sp.end - sp.begin, prior, decimalComma, host);
    } else {
      ParseScalarPadded(f.kind, v.i, sp.end - sp.begin, prior, decimalComma, host);
    }
  }

  /**
   * The text of an integer field is its number zero-padded to the width of
   * its columns: at least that wide, and free of '\x00'.
   */
  lemma IntegerText(k: Kind, v: Value, sp: Span, decimalComma: bool, host: Host) returns (n: int)
    requires IsInteger(k) && FitsKind(k, v)
    ensures n == (if k.Uint? then v.u else v.i)
    ensures FieldText(k, v, sp, decimalComma, host) == FormatZeroPadded(n, sp.end - sp.begin)
    ensures |FieldText(k, v, sp, decimalComma, host)| >= sp.end - sp.begin
    ensures Unwritten !in FieldText(k, v, sp, decimalComma, host)
  {
    n := if k.Uint? then v.u else v.i;
    PaddedFills(n, sp.end - sp.begin);
  }

  /** Zero-padded text fills its width and holds no '\x00'. */
  lemma PaddedFills(n: int, w: int)
    ensures |FormatZeroPadded(n, w)| >= w && Unwritten !in FormatZeroPadded(n, w)
  {
    var t := FormatZeroPadded(n, w);
    forall k | 0 <= k < |t| ensures t[k] != Unwritten { }
  }

  /**
   * After a successful encode, the columns `[b, e)` of a field that writes
   * `t` there hold `t`, when it fills them and holds no '\x00'.
   */
  lemma ShownColumns(s: Schema, vals: seq<Value>, decimalComma: bool, host: Host, i: nat, sp: Span, t: string)
    requires Typed(s, vals) && i < |s.fields|
    requires Encode(s, vals, decimalComma, host).status == Ok
    requires forall c :: EncodeField(s, i, vals, c, decimalComma, host) == Write(c, t, sp.begin, sp.end)
    requires Unwritten !in t && |t| >= sp.end - sp.begin
    ensures Columns(Encode(s, vals, decimalComma, host).cells, sp) == Some(t)
  {
    EncodeShowsField(s, vals, decimalComma, host, i, t, sp.begin, sp.end);
    ColumnsHold(Encode(s, vals, decimalComma, host).cells, sp, t);
  }

  /** A scalar field whose columns hold `t` gets what `t` parses to. */
  lemma DecodeScalarColumns(f: Field, data: string, prior: Value, decimalComma: bool, host: Host, sp: Span, t: string)
    requires IsScalar(f.kind) && ResolveFixed(f.fixed) == Some(sp) && Columns(data, sp) == Some(t)
    ensures DecodeField(f, data, prior, decimalComma, host) == ParseScalar(f.kind, t, prior, decimalComma, host)
  {
  }

  /** A text value `Unmarshal` gives back unchanged from columns `[b, e)`. */
  predicate TextFits(t: string, width: int)
  {
    |t| <= width && (t == [] || t[|t| - 1] != ' ') && Unwritten !in t
  }

  /**
   * A text field whose tag resolves and whose value fits its columns, ends
   * in no space and holds no '\x00' reads back, from the line a successful
   * `Marshal` wrote, the value it was written from.
   */
  lemma TextFieldRoundTrip(s: Schema, vals: seq<Value>, decimalComma: bool, host: Host, i: nat, prior: Value)
    requires Typed(s, vals) && i < |s.fields|
    requires Encode(s, vals, decimalComma, host).status == Ok
    requires s.fields[i].kind.Str? && ResolveFixed(s.fields[i].fixed).Some?
    requires vals[i].StrV? &&
      TextFits(vals[i].s, ResolveFixed(s.fields[i].fixed).value.end - ResolveFixed(s.fields[i].fixed).value.begin)
    ensures DecodeField(s.fields[i], Encode(s, vals, decimalComma, host).cells, prior, decimalComma, host) == vals[i]
  {
    var f := s.fields[i];
    var v := vals[i];
    var sp := ResolveFixed(f.fixed).value;
    var t := LeftJustify(v.s, sp.end - sp.begin);
    JustifiedTextFits(v.s, sp.end - sp.begin);
    JustifiedFieldText(f.kind, v, sp, decimalComma, host);
    WritesTextAnywhere(s, i, vals, decimalComma, host, sp, t);
    ShownTextReadsBack(s, vals, decimalComma, host, i, sp, t, prior);
  }

  /** The text written for a string field is the string left-justified to the field's width. */
  lemma JustifiedFieldText(k: Kind, v: Value, sp: Span, decimalComma: bool, host: Host)
    requires k.Str? && v.StrV?
    ensures FormatsText(k) && FitsKind(k, v)
    ensures FieldText(k, v, sp, decimalComma, host) == LeftJustify(v.s, sp.end - sp.begin)
  {
  }

  /** A text field whose write fills its columns decodes to the text without its trailing spaces. */
  lemma ShownTextReadsBack(s: Schema, vals: seq<Value>, decimalComma: bool, host: Host, i: nat, sp: Span,
                           t: string, prior: Value)
    requires Typed(s, vals) && i < |s.fields|
    requires s.fields[i].kind.Str? && ResolveFixed(s.fields[i].fixed) == Some(sp)
    requires Encode(s, vals, decimalComma, host).status == Ok
    requires forall c :: EncodeField(s, i, vals, c, decimalComma, host) == Write(c, t, sp.begin, sp.end)
    requires Unwritten !in t && |t| >= sp.end - sp.begin
    ensures DecodeField(s.fields[i], Encode(s, vals, decimalComma, host).cells, prior, decimalComma, host)
      == StrV(TrimRightSpaces(t))
  {
    ShownColumns(s, vals, decimalComma, host, i, sp, t);
    DecodeTextColumns(s.fields[i], Encode(s, vals, decimalComma, host).cells, prior, decimalComma, host, sp, t);
  }

  /**
   * A float field's formatted text reads back: the decimal comma that
   * `Marshal` puts in is turned back into a '.' by `Unmarshal`, so the
   * float parser sees exactly what the formatter made, as long as that
   * holds no ',' of its own.
   */
  lemma FloatTextReadsBack(x: real, width: int, format: string, decimalComma: bool, host: Host)
    requires ',' !in host.formatFloat(x, width, Atoi(format))
    ensures FloatInput(FloatText(x, width, format, decimalComma, host), decimalComma)
      == host.formatFloat(x, width, Atoi(format))
  {
    var t := host.formatFloat(x, width, Atoi(format));
    var r := FloatText(x, width, format, decimalComma, host);
    if decimalComma && '.' in t {
      var i := IndexOf(t, '.');
      forall j | 0 <= j < i ensures r[j] != ',' {
        assert r[j] == t[j];
      }
      assert IndexOf(r, ',') == i;
      var back := FloatInput(r, decimalComma);
      assert |back| == |t|;
      forall k | 0 <= k < |t| ensures back[k] == t[k] {
        if k != i { assert back[k] == r[k] == t[k]; }
      }
    }
  }

  /**
   * After a successful `Marshal`, a float field whose formatted text
   * fills its columns and holds no ',' or '\x00' is handed back by
   * `Unmarshal` to the float parser unchanged: the field receives what the
   * parser makes of the formatter's own text, and keeps `prior` when that
   * does not parse.
   */
  lemma FloatFieldRoundTrip(s: Schema, vals: seq<Value>, decimalComma: bool, host: Host, i: nat,
                            sp: Span, t: string, prior: Value)
    requires Typed(s, vals) && i < |s.fields|
    requires Encode(s, vals, decimalComma, host).status == Ok
    requires (s.fields[i].kind.Float32? || s.fields[i].kind.Float64?) && vals[i].FloatV?
    requires ResolveFixed(s.fields[i].fixed) == Some(sp)
    requires t == host.formatFloat(vals[i].x, sp.end - sp.begin, Atoi(sp.format))
    requires |t| >= sp.end - sp.begin && Unwritten !in t && ',' !in t
    ensures DecodeField(s.fields[i], Encode(s, vals, decimalComma, host).cells, prior, decimalComma, host) ==
      match host.parseFloat(t, if s.fields[i].kind.Float32? then 32 else 64)
      case Some(y) => FloatV(y)
      case None => prior
  {
    var r := FloatFieldText(s.fields[i].kind, vals[i], sp, t, decimalComma, host);
    WritesTextAnywhere(s, i, vals, decimalComma, host, sp, r);
    ShownScalarReadsBack(s, vals, decimalComma, host, i, sp, r, prior);
    FloatParse(s.fields[i].kind, r, t, prior, decimalComma, host);
  }

  /** A scalar field whose write fills its columns decodes to what its text parses to. */
  lemma ShownScalarReadsBack(s: Schema, vals: seq<Value>, decimalComma: bool, host: Host, i: nat, sp: Span,
                             t: string, prior: Value)
    requires Typed(s, vals) && i < |s.fields|
    requires IsScalar(s.fields[i].kind) && ResolveFixed(s.fields[i].fixed) == Some(sp)
    requires Encode(s, vals, decimalComma, host).status == Ok
    requires forall c :: EncodeField(s, i, vals, c, decimalComma, host) == Write(c, t, sp.begin, sp.end)
    requires Unwritten !in t && |t| >= sp.end - sp.begin
    ensures DecodeField(s.fields[i], Encode(s, vals, decimalComma, host).cells, prior, decimalComma, host)
      == ParseScalar(s.fields[i].kind, t, prior, decimalComma, host)
  {
    ShownColumns(s, vals, decimalComma, host, i, sp, t);
    DecodeScalarColumns(s.fields[i], Encode(s, vals, decimalComma, host).cells, prior, decimalComma, host, sp, t);
  }

  /**
   * The text a float field writes: as long as the formatter's text `t`,
   * free of '\x00' when `t` is, and turned back into `t` by `FloatInput`
   * when `t` holds no ','.
   */
  lemma FloatFieldText(k: Kind, v: Value, sp: Span, t: string, decimalComma: bool, host: Host) returns (r: string)
    requires (k.Float32? || k.Float64?) && v.FloatV?
    requires t == host.formatFloat(v.x, sp.end - sp.begin, Atoi(sp.format))
    requires Unwritten !in t && ',' !in t
    ensures FormatsText(k) && FitsKind(k, v)
    ensures r == FieldText(k, v, sp, decimalComma, host)
    ensures |r| == |t| && Unwritten !in r && FloatInput(r, decimalComma) == t
  {
    r := FloatText(v.x, sp.end - sp.begin, sp.format, decimalComma, host);
    assert r == FieldText(k, v, sp, decimalComma, host);
    assert Unwritten !in r by {
      FloatTextFree(v.x, sp.end - sp.begin, sp.format, decimalComma, host);
    }
    assert FloatInput(r, decimalComma) == t by {
      FloatTextReadsBack(v.x, sp.end - sp.begin, sp.format, decimalComma, host);
    }
  }

  /** The decimal comma never puts a '\x00' into a float's text. */
  lemma FloatTextFree(x: real, width: int, format: string, decimalComma: bool, host: Host)
    requires Unwritten !in host.formatFloat(x, width, Atoi(format))
    ensures Unwritten !in FloatText(x, width, format, decimalComma, host)
  {
    var t := host.formatFloat(x, width, Atoi(format));
    var r := FloatText(x, width, format, decimalComma, host);
    forall j | 0 <= j < |r| ensures r[j] != Unwritten {
      if decimalComma && '.' in t && j == IndexOf(t, '.') { assert r[j] == ','; }
      else { assert r[j] == t[j]; }
    }
  }

  /** A float field's new value from the text `r` that `FloatInput` turns into `t`: what the parser makes of `t`. */
  lemma FloatParse(k: Kind, r: string, t: string, prior: Value, decimalComma: bool, host: Host)
    requires k.Float32? || k.Float64?
    requires FloatInput(r, decimalComma) == t
    ensures ParseScalar(k, r, prior, decimalComma, host) ==
      match host.parseFloat(t, if k.Float32? then 32 else 64)
      case Some(y) => FloatV(y)
      case None => prior
  {
  }

  /** A fitting text, left-justified to its columns, fills them, holds no '\x00' and trims back. */
  lemma JustifiedTextFits(x: string, w: int)
    requires TextFits(x, w)
    ensures var t := LeftJustify(x, w);
      |t| >= w && Unwritten !in t && TrimRightSpaces(t) == x
  {
    var t := LeftJustify(x, w);
    forall k | 0 <= k < |t| ensures t[k] != Unwritten {
      if k < |x| {
        assert x[k] in x;
      }
    }
    TrimLeftJustified(x, w);
  }

  /** Field `f` holding `v` reads back after a successful `Marshal`. */
  predicate ReadsBack(f: Field, v: Value)
  {
    ResolveFixed(f.fixed).Some? &&
    (IsInteger(f.kind) ||
     (f.kind.Str? && v.StrV? &&
      TextFits(v.s, ResolveFixed(f.fixed).value.end - ResolveFixed(f.fixed).value.begin)))
  }

  /**
   * `Unmarshal(Marshal(v))`: decoding the line a successful `Marshal` wrote
   * gives every integer field, and every text field that fits, the value
   * it had, whatever the record held before.
   */
  lemma DecodeEncoded(s: Schema, vals: seq<Value>, prior: seq<Value>, decimalComma: bool, host: Host)
    requires Typed(s, vals) && |prior| == |s.fields|
    requires Encode(s, vals, decimalComma, host).status == Ok
    ensures forall i :: 0 <= i < |s.fields| && ReadsBack(s.fields[i], vals[i]) ==>
      Decode(s, Encode(s, vals, decimalComma, host).cells, prior, decimalComma, host)[i] == vals[i]
  {
    var line := Encode(s, vals, decimalComma, host).cells;
    forall i | 0 <= i < |s.fields| && ReadsBack(s.fields[i], vals[i])
      ensures Decode(s, line, prior, decimalComma, host)[i] == vals[i]
    {
      if IsInteger(s.fields[i].kind) {
        IntFieldRoundTrip(s, vals, decimalComma, host, i, prior[i]);
      } else {
        TextFieldRoundTrip(s, vals, decimalComma, host, i, prior[i]);
      }
    }
  }
}

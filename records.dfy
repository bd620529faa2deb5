/**
 * Record schemas and record values. The reflection over Go struct types is
 * replaced by an explicit, ordered list of field descriptors: each has the
 * kind of the Go field, its raw `fixed`, `csv` and `csvsplit` struct tags,
 * and, for a nested record, the nested schema. A record value holds one
 * value per field, in declaration order.
 */
module Records {
  import opened Wrappers
  import opened GoText

  /** The Go field kinds the codec distinguishes (`int` is 64 bits wide). */
  datatype Kind =
    | Bool
    | Int8
    | Int32
    | Int64            // Go `int` and `int64`
    | Uint
    | Float32
    | Float64
    | Str
    | Time             // `time.Time`
    | Nested(schema: Schema)
    | Other            // any kind neither direction handles (int16, maps, ...)

  datatype Field = Field(name: string, kind: Kind, fixed: string, csv: string, csvSplit: string)

  /** A record type: its fields in declaration order. */
  datatype Schema = Schema(fields: seq<Field>)

  /** The value of one field; a nested record holds the values of its own fields. */
  datatype Value =
    | BoolV(b: bool)
    | IntV(i: int)
    | UintV(u: nat)
    | FloatV(x: real)
    | StrV(s: string)
    | TimeV(t: int)     // an instant, opaque to the codec
    | RecV(vals: seq<Value>)
    | OpaqueV

  /**
   * The library code the codec calls but does not implement: float parsing
   * and `%0N.Df` formatting (width `N` and decimals `D` written into the
   * format string), and time layout parsing and formatting.
   */
  datatype Host = Host(
    parseFloat: (string, nat) -> Option<real>,   // strconv.ParseFloat(s, bits), when no error
    formatFloat: (real, int, int) -> string,      // Sprintf(Sprintf("%%0%d.%df", width, decimals), x)
    parseTime: (string, string) -> Option<int>,   // time.Parse(layout, s), when no error
    formatTime: (int, string) -> string)          // t.Format(layout)

  /** The bit width `strconv.ParseInt` checks for a signed kind. */
  function SignedBits(k: Kind): nat
    requires k == Int8 || k == Int32 || k == Int64
  {
    match k
    case Int8 => 8
    case Int32 => 32
    case Int64 => 64
  }

  // ---------------------------------------------------------------------
  // Tag resolution

  /** A resolved `fixed:"B-E[,fmt]"` tag: the column range [begin, end) and the format. */
  datatype Span = Span(begin: int, end: int, format: string)

  /**
   * Resolves a `fixed` tag: cut at the first ',', then split the range part
   * on '-'. Anything but exactly two tokens means "skip the field"; each
   * token goes through `Atoi`, so an unreadable token counts as 0 and one
   * whose leading digits pass 64 bits as the largest int64. The offsets
   * are never negative: the tokens cannot hold a '-'.
   */
  function ResolveFixed(tag: string): (r: Option<Span>)
    ensures r.Some? ==> r.value.begin >= 0 && r.value.end >= 0
  {
    var (range, format) := CutAt(tag, ',');
    var bookends := Split(range, "-");
    RangeTokens(range);
    if |bookends| != 2 then None
    else Some(Span(Atoi(bookends[0]), Atoi(bookends[1]), format))
  }

  /**
   * A tag resolves exactly when its range part holds one '-', and the
   * format is then what follows the first ','.
   */
  lemma ResolveFixedShape(tag: string)
    ensures ResolveFixed(tag).Some? <==> multiset(CutAt(tag, ',').0)['-'] == 1
    ensures ResolveFixed(tag).Some? ==> ResolveFixed(tag).value.format == CutAt(tag, ',').1
  {
    RangeTokens(CutAt(tag, ',').0);
  }

  /** A range part splits into two tokens exactly when it holds one '-', and neither token then reads as negative. */
  lemma RangeTokens(range: string)
    ensures |Split(range, "-")| == 2 <==> multiset(range)['-'] == 1
    ensures |Split(range, "-")| == 2 ==> Atoi(Split(range, "-")[0]) >= 0 && Atoi(Split(range, "-")[1]) >= 0
  {
    var parts := Split(range, "-");
    SplitOnRuneCount(range, '-');
    if |parts| == 2 {
      forall p | 0 <= p < 2 ensures '-' !in parts[p] {
        if '-' in parts[p] {
          var j :| 0 <= j < |parts[p]| && parts[p][j] == '-';
          assert parts[p][j..j + 1] == "-";
          SplitPartsAreFree(range, "-", p, j);
        }
      }
      AtoiWithoutMinus(parts[0]);
      AtoiWithoutMinus(parts[1]);
    }
  }

  /**
   * The tag "B-E", or "B-E,fmt", written with the decimal digits of two
   * offsets, resolves to exactly those offsets and that format.
   */
  lemma ResolveRangeTag(b: nat, e: nat, suffix: string)
    requires b <= MaxInt64 && e <= MaxInt64
    requires suffix == [] || suffix[0] == ','
    ensures ResolveFixed(Digits(b) + "-" + Digits(e) + suffix) ==
      Some(Span(b, e, if suffix == [] then "" else suffix[1..]))
  {
    var range := Digits(b) + "-" + Digits(e);
    CutRangeTag(b, e, suffix);
    SplitRange(b, e);
    AtoiDigits(b);
    AtoiDigits(e);
  }

  /**
   * An end token whose digits pass 64 bits before any other rune resolves
   * to the largest int64, not to 0: `Atoi` clamps on the range error that
   * `ParseUint` raises before it reaches the non-digit.
   */
  lemma OverflowingEndTag(b: nat, p: string, rest: string)
    requires b <= MaxInt64
    requires AllDigits(p) && GoText.Value(p) > MaxUint64
    requires (rest == [] || !IsDigit(rest[0])) && '-' !in rest && ',' !in rest
    ensures ResolveFixed(Digits(b) + "-" + (p + rest)) == Some(Span(b, MaxInt64, ""))
  {
    var tok := p + rest;
    assert '-' !in p && ',' !in p by {
      forall k | 0 <= k < |p| ensures p[k] != '-' && p[k] != ',' {
        assert IsDigit(p[k]);
      }
    }
    assert '-' !in tok && ',' !in tok;
    DigitsWithout(b, '-');
    DigitsWithout(b, ',');
    assert ',' !in Digits(b) + "-" + tok;
    SplitAtFirstRune(Digits(b), '-', tok);
    SplitWithoutRune(tok, '-');
    AtoiDigits(b);
    OverflowingRunClamps(p, rest);
  }

  /** The tag "0-99999999999999999999x" resolves to the columns 0 to the largest int64. */
  lemma OverflowingEndExample(p: string, tag: string)
    requires p == "99999999999999999999" && tag == "0-" + (p + "x")
    ensures ResolveFixed(tag) == Some(Span(0, MaxInt64, ""))
  {
    TwentyNines(p);
    assert tag == Digits(0) + "-" + (p + "x") by {
      assert Digits(0) + "-" == "0-";
    }
    OverflowingEndTag(0, p, "x");
  }

  lemma CutRangeTag(b: nat, e: nat, suffix: string)
    requires suffix == [] || suffix[0] == ','
    ensures CutAt(Digits(b) + "-" + Digits(e) + suffix, ',') ==
      (Digits(b) + "-" + Digits(e), if suffix == [] then "" else suffix[1..])
  {
    var range := Digits(b) + "-" + Digits(e);
    RangeWithout(b, e, ',');
    if suffix == [] {
      assert range + suffix == range;
    } else {
      CutRangeFormat(range, suffix);
    }
  }

  lemma CutRangeFormat(range: string, suffix: string)
    requires ',' !in range && |suffix| > 0 && suffix[0] == ','
    ensures CutAt(range + suffix, ',') == (range, suffix[1..])
  {
    assert range + suffix == range + [','] + suffix[1..];
    CutAtFirst(range, ',', suffix[1..]);
  }

  lemma SplitRange(b: nat, e: nat)
    ensures Split(Digits(b) + "-" + Digits(e), "-") == [Digits(b), Digits(e)]
  {
    DigitsWithout(b, '-');
    DigitsWithout(e, '-');
    SplitAtFirstRune(Digits(b), '-', Digits(e));
    SplitWithoutRune(Digits(e), '-');
  }

  /**
   * A missing token reads as 0: "-20" resolves to columns 0-20 and "10-"
   * to the reversed range 10-0.
   */
  lemma OpenEndedTags(a: string, b: string)
    requires a == "-20" && b == "10-"
    ensures ResolveFixed(a) == Some(Span(0, 20, ""))
    ensures ResolveFixed(b) == Some(Span(10, 0, ""))
  {
    assert a == "-" + Digits(20);
    assert b == Digits(10) + "-";
    MissingBegin(20);
    MissingEnd(10);
  }

  lemma MissingBegin(n: nat)
    requires n <= MaxInt64
    ensures ResolveFixed("-" + Digits(n)) == Some(Span(0, n, ""))
  {
    var tag := "-" + Digits(n);
    DigitsWithout(n, ',');
    assert ',' !in tag;
    DigitsWithout(n, '-');
    SplitAtFirstRune("", '-', Digits(n));
    SplitWithoutRune(Digits(n), '-');
    assert "" + "-" + Digits(n) == tag;
    AtoiDigits(n);
  }

  lemma MissingEnd(n: nat)
    requires n <= MaxInt64
    ensures ResolveFixed(Digits(n) + "-") == Some(Span(n, 0, ""))
  {
    var tag := Digits(n) + "-";
    DigitsWithout(n, ',');
    assert ',' !in tag;
    DigitsWithout(n, '-');
    SplitAtFirstRune(Digits(n), '-', "");
    SplitWithoutRune("", '-');
    assert Digits(n) + "-" + "" == tag;
    AtoiDigits(n);
  }

  /** A rune that is neither a digit nor '-' does not occur in a range tag. */
  lemma RangeWithout(b: nat, e: nat, c: char)
    requires !IsDigit(c) && c != '-'
    ensures c !in Digits(b) + "-" + Digits(e)
  {
    DigitsWithout(b, c);
    DigitsWithout(e, c);
  }

  /** The kinds of a `csv` tag: out of bounds, the whole line, or a part's ordinal. */
  datatype CsvSlot = Ignored | Raw | Ordinal(index: int)

  /**
   * Resolves a `csv` tag: a tag shorter than 1 or longer than 4 runes is
   * ignored, "raw" binds the whole line, anything else is an ordinal read
   * with `Atoi` (so a non-numeric tag means part 0).
   */
  function ResolveCsv(tag: string): (r: CsvSlot)
    ensures r.Ignored? <==> |tag| < 1 || |tag| > 4
    ensures r.Raw? <==> tag == "raw"
    ensures r.Ordinal? ==> r.index == Atoi(tag)
  {
    if |tag| < 1 || |tag| > 4 then Ignored
    else if tag == "raw" then Raw
    else Ordinal(Atoi(tag))
  }

  // ---------------------------------------------------------------------
  // Values

  /** The Go zero value of a field of each kind; a nested record is allocated with zero fields. */
  function ZeroRecord(s: Schema): (vals: seq<Value>)
    ensures |vals| == |s.fields|
    decreases s
  {
    seq(|s.fields|, i requires 0 <= i < |s.fields| =>
      match s.fields[i].kind
      case Bool => BoolV(false)
      case Int8 => IntV(0)
      case Int32 => IntV(0)
      case Int64 => IntV(0)
      case Uint => UintV(0)
      case Float32 => FloatV(0.0)
      case Float64 => FloatV(0.0)
      case Str => StrV("")
      case Time => TimeV(0)
      case Nested(sub) => RecV(ZeroRecord(sub))
      case Other => OpaqueV)
  }

  /**
   * The record a decoder recurses into: the nested record already there,
   * or a freshly allocated zero one where Go finds a nil pointer.
   */
  function NestedOrZero(sub: Schema, v: Value): (vals: seq<Value>)
    ensures |vals| == |sub.fields|
    ensures v.RecV? && Typed(sub, v.vals) ==> vals == v.vals
    ensures !v.RecV? ==> vals == ZeroRecord(sub)
  {
    if v.RecV? && |v.vals| == |sub.fields| then v.vals else ZeroRecord(sub)
  }

  /**
   * The record a nested decode starts from is typed whenever the prior
   * value is: a typed nested record is kept, anything else is replaced by
   * the zero record.
   */
  lemma NestedOrZeroTyped(sub: Schema, v: Value)
    ensures (v.RecV? ==> Typed(sub, v.vals)) ==> Typed(sub, NestedOrZero(sub, v))
  {
    if !(v.RecV? && |v.vals| == |sub.fields|) {
      ZeroRecordTyped(sub);
    }
  }

  /** `v` is a value a Go field of kind `k` can hold. */
  predicate FitsKind(k: Kind, v: Value)
    decreases k
  {
    match k
    case Bool => v.BoolV?
    case Int8 => v.IntV? && FitsSigned(v.i, 8)
    case Int32 => v.IntV? && FitsSigned(v.i, 32)
    case Int64 => v.IntV? && FitsSigned(v.i, 64)
    case Uint => v.UintV? && v.u < Power(2, 64)
    case Float32 => v.FloatV?
    case Float64 => v.FloatV?
    case Str => v.StrV?
    case Time => v.TimeV?
    case Nested(sub) => v.RecV? && Typed(sub, v.vals)
    case Other => true
  }

  /** `vals` is a record of type `s`: one value of the right kind per field. */
  predicate Typed(s: Schema, vals: seq<Value>)
    decreases s
  {
    |vals| == |s.fields| &&
    forall i :: 0 <= i < |s.fields| ==> FitsKind(s.fields[i].kind, vals[i])
  }

  /** A freshly allocated record is a record of its type. */
  lemma {:induction false} ZeroRecordTyped(s: Schema)
    ensures Typed(s, ZeroRecord(s))
    decreases s
  {
    var z := ZeroRecord(s);
    forall i | 0 <= i < |s.fields| ensures FitsKind(s.fields[i].kind, z[i]) {
      PowerPositive(2, 64);
      PowerPositive(2, 7);
      PowerPositive(2, 31);
      PowerPositive(2, 63);
      if s.fields[i].kind.Nested? {
        ZeroRecordTyped(s.fields[i].kind.schema);
      }
    }
  }

  // ---------------------------------------------------------------------
  // Scalar fields, as both decoders read them

  /** The kinds both decoders parse with `strconv` and set only when the parse succeeds. */
  predicate IsScalar(k: Kind)
  {
    k.Bool? || k.Int8? || k.Int32? || k.Int64? || k.Uint? || k.Float32? || k.Float64?
  }

  /** The text handed to `strconv.ParseFloat`: in decimal-comma mode the first ',' becomes '.'. */
  function FloatInput(text: string, decimalComma: bool): (r: string)
    ensures |r| == |text|
    ensures !decimalComma ==> r == text
    ensures decimalComma ==> forall k :: 0 <= k < |text| && k != IndexOf(text, ',') ==> r[k] == text[k]
    ensures decimalComma && ',' in text ==> r[IndexOf(text, ',')] == '.'
  {
    if decimalComma then ReplaceFirst(text, ',', '.') else text
  }

  /**
   * The new value of a scalar field read from `text`: the parsed value
   * (base 10, with the kind's bit width) when the parse succeeds, the
   * field's previous value `prior` otherwise.
   */
  function ParseScalar(k: Kind, text: string, prior: Value, decimalComma: bool, host: Host): (v: Value)
    requires IsScalar(k)
    ensures v != prior ==> FitsKind(k, v)
    ensures k.Bool? && v != prior ==> ParseBool(text).Some? && v == BoolV(ParseBool(text).value)
    ensures (k.Int8? || k.Int32? || k.Int64?) && v != prior ==>
      ParseInt(text, SignedBits(k)).Some? && v == IntV(ParseInt(text, SignedBits(k)).value)
    ensures k.Uint? && v != prior ==> ParseUint(text, 64).Some? && v == UintV(ParseUint(text, 64).value)
    // and conversely, text that parses always sets the field
    ensures k.Bool? && ParseBool(text).Some? ==> v == BoolV(ParseBool(text).value)
    ensures (k.Int8? || k.Int32? || k.Int64?) && ParseInt(text, SignedBits(k)).Some? ==>
      v == IntV(ParseInt(text, SignedBits(k)).value)
    ensures k.Uint? && ParseUint(text, 64).Some? ==> v == UintV(ParseUint(text, 64).value)
  {
    match k
    case Bool =>
      (match ParseBool(text) case Some(b) => BoolV(b) case None => prior)
    case Float32 =>
      (match host.parseFloat(FloatInput(text, decimalComma), 32) case Some(x) => FloatV(x) case None => prior)
    case Float64 =>
      (match host.parseFloat(FloatInput(text, decimalComma), 64) case Some(x) => FloatV(x) case None => prior)
    case Uint =>
      (match ParseUint(text, 64) case Some(u) => UintV(u) case None => prior)
    case Int8 =>
      (match ParseInt(text, 8) case Some(i) => IntV(i) case None => prior)
    case Int32 =>
      (match ParseInt(text, 32) case Some(i) => IntV(i) case None => prior)
    case Int64 =>
      (match ParseInt(text, 64) case Some(i) => IntV(i) case None => prior)
  }

  /** A scalar field keeps a value of its kind, whether or not the text parses. */
  lemma ParseScalarFits(k: Kind, text: string, prior: Value, decimalComma: bool, host: Host)
    requires IsScalar(k) && FitsKind(k, prior)
    ensures FitsKind(k, ParseScalar(k, text, prior, decimalComma, host))
  {
  }

  /** A float field takes whatever the host's float parser reads from its text. */
  lemma ParseScalarReadsFloat(k: Kind, text: string, prior: Value, decimalComma: bool, host: Host, bits: nat)
    requires (k.Float32? && bits == 32) || (k.Float64? && bits == 64)
    requires host.parseFloat(FloatInput(text, decimalComma), bits).Some?
    ensures ParseScalar(k, text, prior, decimalComma, host) ==
      FloatV(host.parseFloat(FloatInput(text, decimalComma), bits).value)
  {
  }

  /** Text that does not parse leaves the field as it was. */
  lemma ParseScalarKeepsOnError(k: Kind, text: string, prior: Value, decimalComma: bool, host: Host)
    requires IsScalar(k)
    requires k.Bool? ==> ParseBool(text).None?
    requires k.Int8? || k.Int32? || k.Int64? ==> ParseInt(text, SignedBits(k)).None?
    requires k.Uint? ==> ParseUint(text, 64).None?
    requires k.Float32? ==> host.parseFloat(FloatInput(text, decimalComma), 32).None?
    requires k.Float64? ==> host.parseFloat(FloatInput(text, decimalComma), 64).None?
    ensures ParseScalar(k, text, prior, decimalComma, host) == prior
  {
  }

  /** An integer field reads back any zero-padded rendering of a value of its width. */
  lemma ParseScalarPadded(k: Kind, x: int, w: int, prior: Value, decimalComma: bool, host: Host)
    requires k.Int8? || k.Int32? || k.Int64?
    requires FitsSigned(x, SignedBits(k))
    ensures ParseScalar(k, FormatZeroPadded(x, w), prior, decimalComma, host) == IntV(x)
  {
    ParseFormatZeroPadded(x, w);
  }
}

# gofixedlength, modelled in Dafny

This project models `gofixedlength`, a Go codec that converts records to and
from two line formats:

- **Fixed-width lines.** Each field of a record owns a column range given by
  its `fixed:"B-E[,fmt]"` struct tag.
- **Delimited lines.** Each field takes the part of the line that its
  `csv:"N"` tag names, or the whole line for `csv:"raw"`. A nested record
  tagged `csvsplit:"c"` is split again on its own separator.

Go reflection over struct types is replaced by an explicit schema. A schema
is an ordered list of field descriptors, each holding:

- the Go field kind;
- the raw `fixed`, `csv` and `csvsplit` tags;
- for a nested record, the nested schema.

A record is one value per field.

The model follows the program's files:

- `gotext.dfy` (`GoText`) gives the parts of Go's `strings`, `strconv` and
  `fmt` that the codec relies on, stated over rune sequences:
  - `Split`, `SplitN(s, ",", 2)`, `TrimRight(s, " ")` and `Replace(s, a, b, 1)`;
  - `Atoi`, `ParseInt`, `ParseUint` and `ParseBool`;
  - the formats `%0Nv` and `%-Ns`, whose width `N` the codec writes into the format string.
- `records.dfy` (`Records`) holds the schema and value types and the
  resolution of `fixed` and `csv` tags. It also holds the scalar parsing
  that both decoders share.
- `line.dfy` (`LineBuffer`) is the output buffer `Line`. It is a class over
  an array of runes whose `WriteString` is proved against the function
  `Write`.
- `tofixed.dfy` (`ToFixed`) covers `LineLength`, `pow` and `Marshal`. Each
  is a method proved against a function: `LineLength` against `LineWidth`,
  `pow` against `Pow64` and `Marshal` against `Encode`. Only `Marshal` and
  its per-field step write to a `Line`; the other two change no state.
- `parse.dfy` (`FixedParse`) is `Unmarshal`. It updates a record array in
  place and is proved against the function `Decode`.
- `csv.dfy` (`CsvParse`) is `UnmarshalCsv`. It updates a record array in
  place and is proved against `DecodeCsv`.
- `roundtrip.dfy` (`RoundTrip`) relates the encoder to the decoder: every
  integer field, and every text field that fits its columns, reads back
  from the line `Marshal` wrote. A float field hands float parsing exactly
  the text float formatting made.

The library code the codec calls but does not implement is a `Host` value
passed in as a parameter. That code is float parsing and `%0N.Df`
formatting, and time layout parsing and formatting. The `DECIMAL_COMMA`
package variable (io.go:19) becomes the parameter `decimalComma`.

## Model

| member | source | states |
|---|---|---|
| GoText.CutAt | parse.go:42-47 | The range part never holds a ','. When the tag has a ',', the tag is the range part, ',' and the format part. Without one, the range is the whole tag and the format is "". |
| GoText.CutAtFirst | parse.go:42-47 | A tag `a + "," + b` whose `a` has no ',' cuts into exactly `a` and `b`. |
| GoText.FindFrom | parse.go:48 | The search finds the first occurrence of the separator at or after the start, and there is none before it. With no result, there is no occurrence at all. |
| GoText.Split | parse.go:48 | A split on a non-empty separator gives at least one part. |
| GoText.SplitJoin | csv.go:37 | Joining the parts of a split with the separator gives back the line, for every separator, the empty one included. |
| GoText.SplitPartsAreFree | parse.go:48 | No part of a split contains the separator. |
| GoText.SplitWithoutRune | parse.go:48 | A text without the separator rune splits into itself alone. |
| GoText.SplitAtFirstRune | parse.go:48 | A split on a rune cuts at its first occurrence and continues with the rest. |
| GoText.JoinSplitRune | csv.go:37 | Splitting the join of parts that do not contain the separator rune gives back exactly those parts. |
| GoText.SplitOnRuneCount | parse.go:48-54 | Splitting on '-' gives one more token than there are '-' runes, so a tag has exactly two tokens when it has exactly one '-'. |
| GoText.TrimRightSpaces | parse.go:105 | The result is a prefix of the slice. Everything cut off is a space, and the result does not end in a space. |
| GoText.ReplaceFirst | parse.go:82-84 | The length is unchanged. Only the first ',' becomes '.', every other rune is kept, and a text without ',' is unchanged. |
| GoText.ParseInt | parse.go:107-133 | A successful parse gives a value that fits the kind's bit width. |
| GoText.ParseUint | parse.go:134-142 | A successful parse gives a value below 2^64. |
| GoText.Atoi | parse.go:56-57 | The result is a 64-bit value. A decimal integer outside 64 bits clamps to the nearer bound. So does a text whose digits after the sign pass 64 bits before any other rune, even when that rune makes it no decimal integer. Any other text that is not a decimal integer gives 0. |
| GoText.DecimalRun | parse.go:56-57 | A decimal integer is its sign and the digits after it, and it overflows exactly when those digits pass 64 bits. |
| GoText.PassesRun | parse.go:56-57 | Over a digit run followed by a non-digit, `ParseUint`'s loop stops with a range error exactly when the run's value, read after what came before, passes 64 bits. |
| GoText.ShortTokenFits | csv.go:63 | No text of at most 19 runes overflows, so a `csv` tag of 1 to 4 runes never clamps. |
| GoText.OverflowingRunClamps | parse.go:56-57 | A digit run past 64 bits followed by a non-digit reads as the largest int64, and with a leading '-' as the smallest. |
| GoText.OverflowingTokenClamps | parse.go:56-57 | "99999999999999999999x" reads as the largest int64, and "-99999999999999999999x" as the smallest. |
| GoText.AtoiDigits | parse.go:56-57 | `Atoi` reads back the decimal digits of any offset that fits 64 bits. |
| GoText.AtoiWithoutMinus | parse.go:56-57 | A token without a '-' never gives a negative offset. |
| GoText.ParseBool | parse.go:74 | A text `strconv.ParseBool` accepts has 1 to 5 runes, and reads as true exactly when it starts with '1', 't' or 'T'. |
| GoText.FormatZeroPadded | tofixed.go:132-133 | The text has `max(w, natural width)` runes: all digits for a non-negative number, '-' and then digits for a negative one. A width no wider than the number gives the plain decimal text, never truncated. |
| GoText.ParseFormatZeroPadded | tofixed.go:132-133 | Parsing the zero-padded text of any integer gives the integer back. |
| GoText.LeftJustify | tofixed.go:123-125 | The text has exactly `w` columns: the value's runes first, then spaces, cut at `w`. |
| GoText.LeftJustifyAsWritten | tofixed.go:122-125 | The Go code panics exactly when the width is negative, or when it is at least 10,000,010 and past the end of fmt's no-verb text. Below 10,000,010 it agrees with `LeftJustify`; from there on it gives the first `w` runes of the no-verb text. |
| GoText.WidthRead | tofixed.go:122-131 | fmt reads the width written into the format string exactly when it is below 10,000,010; from there on the width is dropped. |
| GoText.FormatZeroPaddedAsWritten | tofixed.go:131-133 | Below 10,000,010 the Go text is the zero-padded text of `FormatZeroPadded`. From 10,000,010 on, either sign, it is fmt's no-verb text around the plain decimal. |
| GoText.WidthLimitExample | tofixed.go:131-133 | The value 123 at width 10,000,010 comes out as the 29-rune "%!(NOVERB)%!(EXTRA int64=123)", not as 10,000,010 zero-padded columns. |
| GoText.WidthLimitTextPanics | tofixed.go:122-125 | A text field at width 10,000,010 panics, because the no-verb text is shorter than the slice. |
| GoText.TrimLeftJustified | parse.go:105 | Trimming the trailing spaces of a left-justified text gives the text back, when the text fits and does not end in a space. |
| Records.ResolveFixed | parse.go:42-57 | A resolved `fixed` tag never has a negative begin or end offset. |
| Records.RangeTokens | parse.go:48-57 | The range part splits into two tokens exactly when it holds one '-', and neither token then reads as a negative offset. |
| Records.ResolveFixedShape | parse.go:42-57 | A `fixed` tag resolves exactly when its range part has one '-'. The offsets are then never negative, and the format is what follows the first ','. |
| Records.ResolveRangeTag | parse.go:42-57 | The tag "B-E" or "B-E,fmt" resolves to offsets B and E and that format. |
| Records.OverflowingEndTag | parse.go:48-57 | A tag "B-" followed by a digit run past 64 bits and then a non-digit resolves to the range B to the largest int64, not to B-0. |
| Records.OverflowingEndExample | parse.go:48-57 | The tag "0-99999999999999999999x" resolves to the range 0 to the largest int64, with no format. |
| Records.MissingBegin | parse.go:48-57 | A tag "-E" resolves to the range 0 to E, because the empty token reads as 0. |
| Records.MissingEnd | parse.go:48-57 | A tag "B-" resolves to the range B to 0. |
| Records.OpenEndedTags | tofixed_test.go:127-142 | The test tag "-20" resolves to 0-20 and "10-" to 10-0. |
| Records.ResolveCsv | csv.go:44-63 | A `csv` tag is ignored exactly when it has fewer than 1 or more than 4 runes. Otherwise "raw" is the whole line and anything else is ordinal `Atoi(tag)`. |
| Records.ZeroRecordTyped | parse.go:159-162 | A freshly allocated nested record holds a value of the right kind in every field. |
| Records.NestedOrZero | parse.go:159-162 | The record a decoder recurses into has one value per field of the nested schema. A nested record of the right shape is kept as it is, and a missing one (a nil pointer) becomes the zero record. |
| Records.NestedOrZeroTyped | parse.go:159-162 | The record a decoder recurses into holds values of the right kinds whenever the prior nested record did. |
| Records.FloatInput | parse.go:82-95 | Without decimal-comma mode, float parsing gets the slice unchanged. With it, the first ',' becomes '.' and every other rune is kept, at the same length. |
| Records.ParseScalar | parse.go:73-142 | A field's value changes only to a value of its kind. A changed bool holds what `ParseBool` reads, a changed signed integer what `ParseInt` reads at the kind's bit width, and a changed uint what `ParseUint` reads at 64 bits. Conversely, a text that `ParseBool`, `ParseInt` or `ParseUint` accepts always sets the field to the parsed value. |
| Records.ParseScalarReadsFloat | parse.go:81-102 | A float field whose text the float parser reads at the field's bit width, after the decimal-comma substitution, is set to that number. |
| Records.ParseScalarFits | parse.go:73-142 | A bool, integer, uint or float field keeps a value of its kind whether or not its text parses. |
| Records.ParseScalarKeepsOnError | parse.go:73-142 | Text that does not parse leaves the field's value unchanged. |
| Records.ParseScalarPadded | parse.go:107-133 | A signed integer field reads back any zero-padded text of a value within its bit width. |
| LineBuffer.FirstConflict | tofixed.go:227-232 | This is the first position whose rune meets a cell that is already written and differs. There is no such position before it. |
| LineBuffer.Write | tofixed.go:216-238 | A write never changes the length of the line. |
| LineBuffer.WriteRangeErrors | tofixed.go:218-226 | The write fails with `BeginOutOfRange` when `begin < 0 \|\| begin > len-1`. Failing that, it fails with `EndOutOfRange` when `end < 1 \|\| end > len`. Failing both, it fails with `TextTooLongForRange` when the text has more runes than `end-begin`. None of these errors changes a cell. |
| LineBuffer.WriteOverlapIff | tofixed.go:227-236 | Once the range checks pass, the write fails with `IncoherentOverlap` exactly when some rune meets a written cell holding a different rune. Otherwise it succeeds. |
| LineBuffer.WriteConflictAtStart | tofixed.go:227-236 | A write whose first rune meets a written cell holding a different rune fails with `IncoherentOverlap` and changes nothing. |
| LineBuffer.WriteSuccess | tofixed.go:227-237 | After a successful write, cell `begin+k` holds rune `k` of the text and every other cell is unchanged. |
| LineBuffer.WriteConflictKeepsPrefix | tofixed.go:227-236 | A conflict is not rolled back: the runes before it are stored, and the conflicting cell and all cells after it are unchanged. |
| LineBuffer.WriteKeepsWrittenCells | tofixed.go:229-232 | Whatever the outcome, a write never changes a cell that already holds a written rune. |
| LineBuffer.WriteFrame | tofixed.go:216-238 | Cells outside `[begin, end)` are never touched. |
| LineBuffer.OverlapExample | tofixed_test.go:204-219 | "overl" at 10-15 and then "erlapping " at 12-22 both succeed, while "ER THE TOP" at 12-22 fails with `IncoherentOverlap`. |
| LineBuffer.Line.constructor | tofixed.go:48-49 | A new line has `n` cells, all '\x00'. |
| LineBuffer.Line.Length | tofixed.go:240-242 | The length is the number of cells. |
| LineBuffer.Line.String | tofixed.go:244-246 | The text has one rune per cell, including unwritten '\x00' cells. |
| LineBuffer.Line.WriteString | tofixed.go:216-238 | The method returns the error `Write` gives and leaves the cells `Write` computes. The loop stores the runes one by one and stops at the first conflict. |
| ToFixed.MaxOf | tofixed.go:184-213 | The accumulator is never negative. |
| ToFixed.LineWidthIsMaximum | tofixed.go:183-214 | The line width is at least every resolvable field's end and every nested record's width. It equals one of them, or 0 when there is none. |
| ToFixed.LineWidthOrderFree | tofixed.go:189-212 | Reordering the fields does not change the width. |
| ToFixed.UntaggedSkipped | tofixed.go:71-75 | A field without a `fixed` tag is skipped. |
| ToFixed.RangeTagResolves | tofixed.go:65-78 | The tag "B-E" resolves to columns B to E. |
| ToFixed.LineLength | tofixed.go:183-214 | The loop's result is `LineWidth`, the maximum above. |
| ToFixed.Wrap64 | tofixed.go:176 | The result is a 64-bit value, and it equals the exact product whenever that product fits. |
| ToFixed.Pow | tofixed.go:172-179 | The loop multiplies 1 by `a`, `b` times, with 64-bit wrap-around, and not at all for `b <= 0`. |
| ToFixed.Pow64Exact | tofixed.go:172-179 | While no wrap-around occurs, `pow` is the mathematical power. |
| ToFixed.TooBigWarningMissesOverflow | tofixed.go:107-111 | The warning as written does not fire for an 8-digit integer part in a 7-column integer part. |
| ToFixed.TooBigWarningExact | tofixed.go:107-111 | The corrected warning fires exactly when the integer part has more digits than columns. |
| ToFixed.Blank | tofixed.go:48-49 | The line starts with `LineLength` cells, all '\x00'. |
| ToFixed.EncodeField | tofixed.go:90-167 | A field's write never changes the length of the line. |
| ToFixed.EncodeFrom | tofixed.go:61-168 | Encoding the remaining fields never changes the length of the line. |
| ToFixed.Encode | tofixed.go:47-170 | `Marshal`'s line has exactly `LineLength` runes, whatever the outcome. |
| ToFixed.EncodeFieldKeepsWritten | tofixed.go:90-167 | A field never changes a cell an earlier field wrote. |
| ToFixed.EncodeFromKeepsWritten | tofixed.go:61-168 | The line is write-once: a written cell keeps its rune through all later fields. |
| ToFixed.FloatText | tofixed.go:112-116 | A float field's text is the `%0N.Df` text at the same length. Without decimal-comma mode it is that text unchanged. With it, the first '.' becomes ',' and every other rune is kept. |
| ToFixed.FieldText | tofixed.go:122-138 | A text field's text is exactly its range wide (0 for a reversed range) and starts with the value's runes. An integer or uint field's text is as wide as the range or the number's natural width, whichever is larger. |
| ToFixed.EncodeFieldWritesText | tofixed.go:122-138 | An integer, float or text field is one write of its formatted text over its column range. |
| ToFixed.WritesTextAnywhere | tofixed.go:122-138 | An integer, float or text field writes its formatted text over its range, whatever the line held before. |
| ToFixed.EncodeShowsField | tofixed.go:122-138 | After a successful `Marshal`, a field that always writes the text `t` over `[b, e)`, with no '\x00' in `t`, shows `t` at column `b` onwards. |
| ToFixed.EncodeFieldFrame | tofixed.go:90-167 | A field leaves alone every column outside its range. Unresolved, bool and unhandled fields leave every column alone. |
| ToFixed.EncodeLeavesGaps | tofixed.go:48-49 | Columns that no field covers stay '\x00' in the output. |
| ToFixed.NestedLineFits | tofixed.go:155-159 | A nested record's line is never longer than the enclosing line. |
| ToFixed.IntegerTooWide | tofixed.go:131-137 | An integer that needs more columns than its valid range has fails with `TextTooLongForRange`, and the line is unchanged. |
| ToFixed.MarshalExample | tofixed_test.go:171-178 | The record {123, 12345, "ohmy", "What's happening?"} over 0-5, 5-10, 10-15 and 15-35 has line width 35 and marshals without error to "0012312345ohmy What's happening?   ". |
| ToFixed.EncodeConflicts | tofixed.go:122-138 | A text or integer field whose first rune meets a differing written cell stops the encode with `IncoherentOverlap` and leaves the line as it was. |
| ToFixed.EncodeStopsAt | tofixed.go:61-168 | When the fields before a field wrote their part of a line and that field conflicts at its first column, `Marshal` returns `IncoherentOverlap` with only the earlier fields' columns written. |
| ToFixed.OverlapMarshalExample | tofixed_test.go:204-211 | The record {123, 0, "overl", "erlapping"} over 0-5, 5-10, 10-15 and 12-22 agrees on the shared columns 12-15, so it marshals without error to "0012300000overlapping ". |
| ToFixed.OverlapConflictExample | tofixed_test.go:212-219 | The same record with "ER THE TOP" disagrees at column 12, so `Marshal` fails with `IncoherentOverlap`, the line holding "0012300000overl" and nothing after it. |
| ToFixed.ReversedTextRange | tofixed.go:122-126 | A text field with a reversed range makes the Go slice panic. The corrected encoder fails with an error and leaves the line unchanged. |
| ToFixed.Marshal | tofixed.go:47-170 | The method returns the line and error that `Encode` gives: the fields are written in order, and the first failed write ends the encode. |
| ToFixed.MarshalField | tofixed.go:90-167 | One iteration of the loop has the effect `EncodeField` gives on the line. |
| FixedParse.ColumnsAsWritten | parse.go:62-68 | The Go guard lets a range through to a panicking slice exactly when it is reversed but inside the line. |
| FixedParse.ReversedRangePanics | parse.go:62-68 | The range 10-9 on a 20-column line passes the guard and panics. |
| FixedParse.Columns | parse.go:62-68 | The corrected guard gives a slice exactly when `0 <= b <= e <= len(data)`, and the slice is `data[b:e]`. |
| FixedParse.ColumnsAgree | parse.go:62-68 | The corrected guard agrees with the Go guard wherever the Go guard does not panic. |
| FixedParse.DecodeField | parse.go:42-170 | A field changes only when its tag resolves, its range lies inside the line and its kind is handled. A changed text field holds a prefix of its columns. |
| FixedParse.Decode | parse.go:38-173 | Decoding gives a record with one value per field. |
| FixedParse.Unmarshal | parse.go:28-175 | After the loop, the record in place is `Decode` of the line and the record before. |
| FixedParse.UnmarshalField | parse.go:39-172 | One iteration sets only field `i`, to what `DecodeField` gives. |
| FixedParse.UnmarshalNested | parse.go:154-167 | A nested record, allocated when nil, is decoded from the field's slice with offsets relative to that slice. |
| FixedParse.DecodeTyped | parse.go:38-175 | Decoding keeps every field holding a value of its kind. |
| FixedParse.DecodeFieldTyped | parse.go:72-172 | Decoding a field, nested records included, keeps its value of its kind. |
| FixedParse.DecodeFieldSkips | parse.go:50-66 | A field whose tag does not resolve, or whose range is not inside the line, keeps its value. |
| FixedParse.DecodeFieldLocal | parse.go:68 | A field's new value depends only on its own columns, so overlapping fields are read independently. |
| FixedParse.DecodeTextColumns | parse.go:103-106 | A text field whose columns hold `t` receives `t` without its trailing spaces. |
| FixedParse.DecodeTextField | parse.go:103-106 | A text field receives its slice with the trailing spaces, and only those, removed. |
| FixedParse.OverlappingFieldsExample | parse_test.go:13-41 | On "1234567890ABCDEFGHIJ": 0-5 reads 12345 and 2-5 reads 345. 10-15 reads "ABCDE", and 29-35 keeps its value. |
| FixedParse.LayeredParsingExample | parse_test.go:43-53 | On "20150114EX", the time field at 0-8 gets what the layout parser makes of "20150114", and the text field at 8-10 reads "EX". |
| FixedParse.DecodeTimeField | parse.go:144-153 | A time field whose columns the layout parser reads as an instant receives that instant. |
| FixedParse.DecodeStrField | parse.go:103-106 | A text field whose columns hold a text not ending in a space receives exactly that text. |
| FixedParse.DecodeInt64Field | parse.go:125-133 | An `int64` field whose columns parse receives the parsed number. |
| CsvParse.PartAsWritten | csv.go:66-72 | The Go guard skips `f < 0 \|\| f > len(parts)`, reads part `f` when it exists, and panics exactly when `f == len(parts)`. |
| CsvParse.OnePastLastPartPanics | csv.go:66-72 | The line "A" with the tag `csv:"1"` passes the guard and panics. |
| CsvParse.Part | csv.go:66-72 | The corrected guard gives part `f` exactly when `0 <= f < len(parts)`. |
| CsvParse.PartAgree | csv.go:66-72 | The corrected guard agrees with the Go guard wherever the Go guard does not panic. |
| CsvParse.CsvDecodeField | csv.go:44-165 | A field changes only as a "raw" text field, which gets the whole line, or through an ordinal tag naming an existing part with a handled kind: not time, and a nested record only with a `csvsplit` separator. A changed text field holds its part verbatim. |
| CsvParse.DecodeCsv | csv.go:37-170 | Decoding gives a record with one value per field. |
| CsvParse.UnmarshalCsv | csv.go:27-172 | The line is split once. After the loop, the record in place is `DecodeCsv` of the line and the record before. |
| CsvParse.UnmarshalCsvField | csv.go:41-169 | One iteration sets only field `i`, to what `CsvDecodeField` gives. |
| CsvParse.UnmarshalCsvNested | csv.go:148-165 | A nested record, allocated when nil, is decoded from its part split on its own separator. |
| CsvParse.DecodeCsvTyped | csv.go:27-172 | Decoding keeps every field holding a value of its kind. |
| CsvParse.CsvDecodeFieldTyped | csv.go:77-169 | Decoding a field, nested records included, keeps its value of its kind. |
| CsvParse.CsvFieldSkips | csv.go:46-70 | A field keeps its value when its tag has fewer than 1 or more than 4 runes, or names a part the line lacks. |
| CsvParse.CsvRawField | csv.go:51-61 | The tag "raw" binds the whole unsplit line to a text field and leaves a field of any other kind alone. |
| CsvParse.CsvNestedWithoutSplit | csv.go:148-152 | A nested record without a `csvsplit` tag keeps its value. |
| CsvParse.CsvWordTag | csv.go:63 | A non-numeric tag names part 0. |
| CsvParse.CsvOrdinalField | csv.go:108-111 | A text field tagged with ordinal `n` receives part `n` verbatim, without trimming. |
| CsvParse.CsvNestedOrdinal | csv.go:148-162 | A nested record with a `csvsplit` tag and the ordinal `n` is decoded from part `n`, split on its own separator, starting from its current value or a zero record. |
| CsvParse.CsvDecodeScalar | csv.go:77-147 | A bool, integer, uint or float field whose ordinal names part `t` of the line gets exactly what the shared scalar parser makes of `t`, as on a fixed-width line. |
| CsvParse.CsvJoinedColumns | csv.go:37 | On a line joined from columns with a one-rune separator that none of them contains, each text field reads back its column. |
| CsvParse.DocumentedExample | csv.go:12-24 | For "A,2,X~Y" split on ",": ValA is "A", ValB is 2, ValC is {"X", "Y"} and WholeLine is the whole line. |
| RoundTrip.DecodeScalarColumns | parse.go:72-142 | A bool, integer, uint or float field whose columns hold `t` gets exactly what the shared scalar parser makes of `t`. |
| RoundTrip.ParseUintPadded | parse.go:134-142 | A uint field reads back any zero-padded text of a value below 2^64. |
| RoundTrip.IntegerText | tofixed.go:131-133 | An integer field's text is its number zero-padded to its width: at least that wide, and free of '\x00'. |
| RoundTrip.IntegerReadsBack | parse.go:107-142 | An integer field whose columns hold the text `Marshal` formats for a value receives that value. |
| RoundTrip.IntFieldRoundTrip | tofixed.go:131-138 | After a successful `Marshal`, `Unmarshal` gives every integer field its value back. |
| RoundTrip.ShownColumns | tofixed.go:122-138 | After a successful `Marshal`, the columns of a field whose text fills its range hold exactly that text. |
| RoundTrip.JustifiedTextFits | tofixed.go:122-125 | A fitting text, left-justified to the width, fills the width and holds no '\x00'. Trimming its trailing spaces gives the text back. |
| RoundTrip.TextFieldRoundTrip | tofixed.go:122-130 | After a successful `Marshal`, `Unmarshal` gives a text field its value back. The value must fit the columns, not end in a space and hold no '\x00'. |
| RoundTrip.FloatTextReadsBack | parse.go:82-84 | The decimal comma that `Marshal` writes is turned back into '.' by `Unmarshal`, so float parsing sees exactly the formatter's text when that text holds no ','. |
| RoundTrip.FloatFieldRoundTrip | tofixed.go:101-117 | After a successful `Marshal`, a float field whose formatted text fills its columns and holds no ',' or '\x00' gets from `Unmarshal` what float parsing makes of that text, at the field's bit width. |
| RoundTrip.DecodeEncoded | parse.go:28-175 | `Unmarshal(Marshal(v))` restores every integer field and every fitting text field, whatever the record held before. |

## Left out

- Float and time formatting and parsing (`%0N.Df`, `strconv.ParseFloat`, `time.Format`, `time.Parse`) are library code. They enter as the function fields of a `Host` parameter. The decimal-comma substitution around them is modelled.
- The "too big" float warning (tofixed.go:107-111) only logs. It is modelled as a predicate and is not part of `Encode`.
- Logging and the debug output (`log.Println`, `fmt.Printf`) are not modelled.
- io.go `RecordsFromFile` is not part of this model: it reads a file and splits it into lines. The package variable `DECIMAL_COMMA` is the parameter `decimalComma`.
- Go reflection is replaced by the explicit `Schema`. Field kinds the codec has no branch for (int16, uint8, maps, ...) are the single kind `Other`. Go `int` is taken to be 64 bits wide.
- Strings are rune sequences. Go's `len(data)`, `data[b:e]`, `len(cField)` and `outstring[0:fieldLength]` count bytes, which is the same thing only for ASCII text.
- LineBuffer.Line.WriteString: the Go loop advances over the bytes of the text rune by rune. The model stores one rune per step, which is the same write.
- ToFixed.MarshalField: for a `uint` field, Go calls `.Int()`, which panics (tofixed.go:133). The model formats the unsigned value as the code evidently intends.
- ToFixed.MarshalField: for a nested record, Go calls `IsNil` on a struct-kind field, which panics, and sets a nil pointer through a non-addressable value (tofixed.go:151-153). The model always has the nested record's values and marshals them.
- ToFixed.LineWidth: Go calls `NumField` on a pointer-kind field, which panics (tofixed.go:206). The model recurses into the nested schema as intended.
- FixedParse.UnmarshalNested: `IsNil` on a non-pointer nested struct panics (parse.go:159). The model decodes the nested record, allocating it when it is missing.
- CsvParse.CsvDecodeField: Go calls `IsNil` on every struct-kind field that has a `csvsplit` tag, which panics (csv.go:148-157). A nested record held by value therefore panics, and so does a `time.Time` field. The model does not tell a struct held by value from a pointer: it decodes a nested record whether or not one is there, and leaves a time field unchanged, as for one without a `csvsplit` tag.
- CsvParse.UnmarshalCsvNested: the same applies. The allocation for a nil pointer is modelled, and the panic for a struct held by value is not.
- ToFixed.EncodeField: the error of a time field's write is ignored (tofixed.go:146), as in the code, so a time field never aborts the encode.
- The width test (tofixed_test.go:223-230) expects the concrete width 35 for the ordered and shuffled structs. The model proves width maximality and order independence for every schema instead of that one value.
- ToFixed.EncodeLeavesGaps: the gap test (tofixed_test.go:196-203) expects spaces in columns that no field covers. The code leaves '\x00' there, and the model follows the code.
- GoText.FormatZeroPadded: for a negative width, Go's `%0-Nv` left-justifies with spaces. That width only reaches a write that refuses any non-empty text, so the model does not pad.
- GoText.FormatZeroPadded and GoText.LeftJustify: fmt drops a width of 10,000,010 or more written into the format string, and prints its no-verb text instead. These two functions do not model that limit, so `Encode` and the round-trip lemmas built on them (`ToFixed.FieldText`, `RoundTrip.IntFieldRoundTrip`, `RoundTrip.DecodeEncoded`) describe the program only for field widths below 10,000,010. `GoText.FormatZeroPaddedAsWritten` and `GoText.LeftJustifyAsWritten` state what Go gives at any width.
- GoText.LeftJustifyAsWritten: from width 10,000,010 on it is related to the no-verb text, not to `LeftJustify`.
- The float format `%0N.Df` has the same width limit. It lies inside the host's formatting function, which the model does not define.
- Nested records are values, not pointers. Two pointer fields that share one struct are not modelled, so an update through one is not seen through the other.
- Records.ParseScalar: `strconv.ParseInt` and `ParseUint` are stated as a decimal parser with a bit-width range check. Underscores, other bases and error values are not modelled.

## Findings

| source | as written | input that shows it | evidently intended | confidence | as-written member | corrected member |
|---|---|---|---|---|---|---|
| parse.go:63-68 | the guard checks `b < 0 \|\| e > len(data)` but not `b <= e`, and then slices `data[b:e]` | tag `fixed:"10-9"` on the 20-rune line "1234567890ABCDEFGHIJ": the slice panics | a reversed range is skipped like one outside the line | not executed | FixedParse.ReversedRangePanics | FixedParse.ColumnsAgree |
| csv.go:67-72 | the guard checks `f > len(parts)` and then reads `parts[f]` | line "A" with a field tagged `csv:"1"`: `parts[1]` panics | `f >= len(parts)` is skipped | not executed | CsvParse.OnePastLastPartPanics | CsvParse.PartAgree |
| tofixed.go:123-125 | a text field slices `outstring[0:fieldLength]` without checking that `fieldLength >= 0` | a text field tagged `fixed:"10-9"`: the slice panics | the write reports a range error, as it does for other kinds | not executed | GoText.LeftJustifyAsWritten | ToFixed.ReversedTextRange |
| tofixed.go:122-133 | the width is written into the format string (`%0Nv`, `%-Ns`), and fmt drops a width of 10,000,010 or more | an int64 field tagged `fixed:"0-10000010"` holding 123: the text is "%!(NOVERB)%!(EXTRA int64=123)" | the number zero-padded to the range | not executed | GoText.WidthLimitExample | GoText.FormatZeroPadded |
| tofixed.go:109 | `pow(integerPartLength, 10)` raises the length to the 10th power | integer part 12345678 with 7 integer columns: 7^10 = 282475249, so no warning is logged | `pow(10, integerPartLength)` | not executed | ToFixed.TooBigWarningMissesOverflow | ToFixed.TooBigWarningExact |

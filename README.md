# Record parser of the variational-classifier data set, in Dafny

The repository's Python module `parse_vqc_data.py` reads a data set for a
variational quantum classifier from two text files. The module has two
functions:

- `concatenated_string_to_array` turns a comma-separated line of decimal
  integers into an array of integers. Its doc comment calls it the inverse
  of a serialiser `array_to_concatenated_string`.
- `parse_input` takes the first line of `1.in` and splits it on `XXX` into
  exactly three parts: X_train, Y_train and X_test. It splits each X part
  into rows on `S` and each row into fields on `,`, and converts every field
  with `float`. It parses Y_train with `concatenated_string_to_array`. It
  then reads the first line of `1.ans` and parses that the same way as
  Y_test.

The model is pure: functions and lemmas only, matching the source, which is
built from `split`, comprehensions and calls.

- `wrappers.dfy` (`Wrappers`): `Option` and `Result`.
- `strings.dfy` (`Strings`): Python's `str.split(sep)` for a non-empty
  separator. Matches are found left to right and do not overlap. The module
  also has `sep.join`, `str.count`, and the laws that connect them.
- `ints.dfy` (`Ints`): Python's `int(x)` for base 10. It strips the whitespace `int()` skips (space and `\t` to `\r`),
  then reads an optional `+` or `-` and one or more ASCII digits.
  `FormatInt` is `str(n)`.
- `vqc_data.dfy` (`ParseVqcData`): `ConcatenatedStringToArray` and
  `ParseInput`. A `ValueError` from the source is an `Err` whose
  `ParseError` names the rejected field, or the number of `XXX` parts when
  the three-way unpacking fails. `ParseInput` takes the two lines it reads
  as parameters. It also takes the float conversion as a parameter
  `toFloat: string -> Option<F>`, so the model keeps the source's order of
  conversions and failures without modelling floating point.
  `ArrayToConcatenatedString` is the serialiser named in the doc comment:
  the decimal forms joined with `,`.

## Model

| member | source | states |
|---|---|---|
| `Strings.Split` | parse_vqc_data.py:23 | `str.split(sep)` always yields at least one piece. Which pieces it yields is stated by `SplitFirstPiece` and `SplitUnique`. |
| `Strings.SplitFirstPiece` | parse_vqc_data.py:23 | `str.split` semantics: the first piece is the prefix of the string before the first occurrence of the separator, with no earlier occurrence starting inside the string. If there is a second piece, the separator follows the first piece, and the remaining pieces are the split of the text after it. |
| `Strings.SplitUnique` | parse_vqc_data.py:23 | Any list of pieces that satisfies the conditions of `SplitFirstPiece` is the split, so those conditions fix the result uniquely. |
| `Strings.Count` | parse_vqc_data.py:23 | `str.count(sep)` counts occurrences that do not overlap: that many copies of the separator fit in the string. `SplitCount` ties it to the split. |
| `Strings.Join` | parse_vqc_data.py:6 | `sep.join(pieces)` starts with the first piece, followed by the separator when there are more pieces. A single piece joins to itself. `JoinSplit` and `SplitJoin` are its inverses. |
| `Strings.SplitPiecesFree` | parse_vqc_data.py:23 | No piece produced by the split contains the separator. |
| `Strings.SplitCount` | parse_vqc_data.py:25 | A split yields one more piece than there are non-overlapping occurrences of the separator. |
| `Strings.CountChar` | parse_vqc_data.py:8 | For a one-character separator, the occurrence count is the number of times that character appears. |
| `Strings.JoinSplit` | parse_vqc_data.py:23 | Joining the pieces with the same separator gives back the original string. |
| `Strings.SplitJoin` | parse_vqc_data.py:6-8 | Splitting a join gives back the (non-empty list of) pieces, provided no piece contains the separator's first character. |
| `Strings.SplitAround` | parse_vqc_data.py:8 | For a one-character separator, splitting `a + c + b` is the split of `a` followed by the split of `b`. |
| `Strings.CharInPiece` | parse_vqc_data.py:8 | Every character that is not the separator lands in some piece. |
| `Ints.Strip` | parse_vqc_data.py:8 | What `int()` strips: the result neither starts nor ends with whitespace. |
| `Ints.StripBlank` | parse_vqc_data.py:8 | Nothing is left after stripping exactly when the field is all whitespace. |
| `Ints.StripKeeps` | parse_vqc_data.py:8 | Every character of the field is whitespace or is kept. |
| `Ints.StripPadded` | parse_vqc_data.py:36-37 | Stripping whitespace padding gives back a text that neither starts nor ends with whitespace. |
| `Ints.NatDigits` | parse_vqc_data.py:6-7 | The decimal digits of `n`: at least one digit, no leading zero, and `"0"` exactly for 0. |
| `Ints.FormatInt` | parse_vqc_data.py:6-7 | `str(n)` is non-empty and ends in a digit. It starts with `-` exactly when `n` is negative, and it contains only digits apart from that sign. |
| `Ints.ParseDecimal` | parse_vqc_data.py:8 | A literal is accepted exactly when it is one or more digits, optionally after a `+` or `-`. Its value is the value of the digits, negated after `-`. |
| `Ints.DecimalAccepts` | parse_vqc_data.py:8 | A sign (`""`, `+` or `-`) followed by digits reads as the value of the digits, negated after `-`. |
| `Ints.ParseInt` | parse_vqc_data.py:8 | `int(x)` rejects a blank field. An accepted field contains only whitespace, digits and signs. |
| `Ints.ParseIntForm` | parse_vqc_data.py:8 | An accepted field is whitespace, then a decimal literal, then whitespace, and its value is that literal's value. |
| `Ints.ParseIntAccepts` | parse_vqc_data.py:8 | Every field made of whitespace, an optional sign, one or more digits and whitespace is accepted. Its value is the digits' value, negated after `-`. With `ParseIntForm`, this says exactly which fields `int()` accepts. |
| `Ints.DigitsRoundTrip` | parse_vqc_data.py:6-8 | The digits of `n` read back as `n`. |
| `Ints.CanonicalDigits` | parse_vqc_data.py:6-8 | A digit string without leading zeros is the digits of its own value, which is the reverse direction. |
| `Ints.DecimalRoundTrip` | parse_vqc_data.py:6-8 | The literal `str(n)` reads back as `n`. |
| `Ints.ParsePadded` | parse_vqc_data.py:8 | `int(w1 + str(n) + w2)` is `n` for whitespace `w1` and `w2`. |
| `Ints.ParseTrailing` | parse_vqc_data.py:36-37 | `int(str(n) + w)` is `n` for trailing whitespace, such as the newline `readline` keeps. |
| `Ints.FormatCanonical` | parse_vqc_data.py:6-7 | Every `str(n)` is in canonical form. |
| `Ints.CanonicalFormat` | parse_vqc_data.py:6-8 | Every canonical literal is accepted, and `str` of its value gives it back. Together with `FormatCanonical`, canonical literals and integers correspond one to one. |
| `ParseVqcData.ConvertFields` | parse_vqc_data.py:8 | A comprehension over the fields succeeds exactly when every field converts. It then returns one value per field, in order, and each value is that field's conversion. |
| `ParseVqcData.ConvertFirstFailure` | parse_vqc_data.py:8 | On failure, the reported field is the first one that does not convert. |
| `ParseVqcData.ArrayToConcatenatedString` | parse_vqc_data.py:6 | The serialiser is empty exactly for the empty array, and writes only digits, minus signs and commas. `RoundTrip` makes `concatenated_string_to_array` its inverse. |
| `ParseVqcData.ConcatenatedStringToArray` | parse_vqc_data.py:3-8 | Succeeds exactly when `int()` accepts every comma-separated field. It then returns one integer per field (commas + 1), in order, with element `i` the value of field `i`. Every failure is an `int()` failure. |
| `ParseVqcData.FieldsDetermineResult` | parse_vqc_data.py:8 | If field `i` parses to `xs[i]` for every field, the result is exactly `xs`. |
| `ParseVqcData.SplitSerialised` | parse_vqc_data.py:6-8 | The fields of a serialised array followed by whitespace are the decimal forms, with the whitespace stuck to the last one. |
| `ParseVqcData.ParseSerialised` | parse_vqc_data.py:6-8 | Each of those fields parses back to its array element. |
| `ParseVqcData.RoundTripPadded` | parse_vqc_data.py:35-37 | Serialising a non-empty array, adding trailing whitespace such as the kept newline, and parsing gives the array back. |
| `ParseVqcData.RoundTrip` | parse_vqc_data.py:6-8 | Parsing the serialisation of a non-empty array gives the array back. |
| `ParseVqcData.EmptyRejected` | parse_vqc_data.py:8 | The empty array serialises to the empty string, and parsing that fails on the empty field. So the round trip needs a non-empty array. |
| `ParseVqcData.LeadingCommaRejected` | parse_vqc_data.py:8 | A leading comma fails, reporting the empty first field. |
| `ParseVqcData.BadFieldRejected` | parse_vqc_data.py:8 | One field that `int()` rejects makes the whole parse fail. |
| `ParseVqcData.TrailingCommaRejected` | parse_vqc_data.py:8 | A trailing comma makes the parse fail. |
| `ParseVqcData.DoubleCommaRejected` | parse_vqc_data.py:8 | `,,` anywhere makes the parse fail. |
| `ParseVqcData.BadCharRejected` | parse_vqc_data.py:8 | A character that is not a comma, a digit, a sign or whitespace makes the parse fail. |
| `ParseVqcData.FirstBadField` | parse_vqc_data.py:8 | The error names the first field `int()` rejects. |
| `ParseVqcData.ParseRows` | parse_vqc_data.py:26 | The row comprehension succeeds exactly when every row's fields convert. It then gives one row per row string, each being the conversion of that row's comma-separated fields. Every failure is a float failure. |
| `ParseVqcData.FirstBadRow` | parse_vqc_data.py:26 | On failure, the reported error is that of the first row whose fields do not convert. Every earlier row converts. |
| `ParseVqcData.ParseRowsFirstFailure` | parse_vqc_data.py:26 | On failure, the error names field `k` of row `i`, the first field that does not convert, reading rows in order and each row's fields in order (`FirstFailureAt`). |
| `ParseVqcData.ParseMatrix` | parse_vqc_data.py:25-26 | An X part parses exactly when every field of every `S`-separated row converts. It then has (number of `S`) + 1 rows. Every failure is a float failure. |
| `ParseVqcData.MatrixShape` | parse_vqc_data.py:25-27 | An X part yields (number of `S`) + 1 rows. Row `i` has (number of `,` in row `i`) + 1 entries, and entry `j` is the conversion of field `j`. |
| `ParseVqcData.ParseInput` | parse_vqc_data.py:20-37 | Success implies exactly two `XXX` in the record. Any other count is the unpacking error, reporting the number of parts. |
| `ParseVqcData.ParseInputAccepts` | parse_vqc_data.py:20-37 | The record is accepted exactly when it has three `XXX` parts, both X parts parse, and the middle part and the answer line parse as label arrays. The data set is then made of those four results. |
| `ParseVqcData.ParseInputErrorOrder` | parse_vqc_data.py:23-37 | With three parts, the error reported is the first failure in source order: X_train, then Y_train, then X_test, then the answer line. |
| `ParseVqcData.ParseInputShape` | parse_vqc_data.py:23-37 | A parsed data set has three parts. X_train and X_test are the matrices of the first and third parts, with the row and field counts above. Y_train is `concatenated_string_to_array` of the middle part, and Y_test is that function of the answer line. |
| `ParseVqcData.MatrixRoundTrip` | parse_vqc_data.py:25-33 | A matrix of fields without `,`, `S` or `X`, written out and parsed with fields kept as written, comes back unchanged. |
| `ParseVqcData.SplitRecord` | parse_vqc_data.py:23 | An encoded record splits on `XXX` into its two matrices and its label line. |
| `ParseVqcData.RecordRoundTrip` | parse_vqc_data.py:20-37 | Writing a data set out as a record line and an answer line ending in a newline, then parsing both, gives back the same data set. |

## Left out

- File input: the `open`/`readline` calls on `1.in` and `1.ans` (parse_vqc_data.py:20-21, 35-36). `ParseInput` takes the two lines as parameters. A missing file is not modelled.
- Floating point: `float(x)` (parse_vqc_data.py:26, 32) is the parameter `toFloat`. Its grammar, rounding and tolerance of whitespace are not modelled. The record's trailing newline reaches `toFloat` with the last X_test field, as in the source.
- NumPy: the arrays are sequences (parse_vqc_data.py:8, 27, 33). `np.array` stores the parsed integers as a fixed-width type, int64 on usual platforms, and switches to uint64, float64 or object when a value does not fit; the model's elements are unbounded `int`s, so `RoundTrip` and `RecordRoundTrip` hold for the list the comprehension builds, and the int64 range, the type switch and float64's loss of precision are not modelled. What `np.array` does with ragged rows is not modelled, and neither are the `requires_grad` flags (parse_vqc_data.py:39-42).
- The dimensions in the docstring (parse_vqc_data.py:15-18) describe the expected data. The code does not check them, and neither does the model.
- Error messages: an error records the rejected field or the number of parts, not Python's message text.
- `array_to_concatenated_string` is not part of this model. `ArrayToConcatenatedString` is the evident serialiser: `str` of each element, joined with `,`.
- Ints.ParseInt: rejects some inputs that Python's `int()` accepts: underscores between digits, non-ASCII digits, and non-ASCII whitespace. Around an ASCII literal, only space, `\t`, `\n`, `\v`, `\f` and `\r` are skipped, as in `int()`; the separators 0x1C to 0x1F, which `str.strip()` would remove, make the field fail.
- Ints.ParseInt: accepts digit strings of any length. CPython 3.11 and later refuse more than 4300 digits by default.

/** The record parser of the variational-classifier data set: the first line
    of the input file holds the training inputs, the training labels and the
    test inputs, and the answer file's first line holds the test labels.

    Record layout: `<X_train>XXX<Y_train>XXX<X_test>`, where an X part is rows
    separated by `S`, each row fields separated by `,`, and a Y part is
    integers separated by `,`. */
module ParseVqcData {
  import opened Wrappers
  import opened Strings
  import opened Ints

  /** The `ValueError`s the parser can raise. */
  datatype ParseError =
    | InvalidInt(field: string)    // `int()` rejected this field
    | InvalidFloat(field: string)  // `float()` rejected this field
    | SegmentCount(got: nat)       // the record did not split into three parts

  /** The four arrays `parse_input` returns; `F` is the float type. */
  datatype Dataset<F> = Dataset(xTrain: seq<seq<F>>, yTrain: seq<int>, xTest: seq<seq<F>>, yTest: seq<int>)

  /** A list comprehension converting each field: the converted fields in
      order, or the first field whose conversion fails. */
  function ConvertFields<A>(fields: seq<string>, convert: string -> Option<A>): (r: Result<seq<A>, string>)
    ensures r.Ok? <==> forall i :: 0 <= i < |fields| ==> convert(fields[i]).Some?
    ensures r.Ok? ==> |r.value| == |fields|
    ensures r.Ok? ==> forall i :: 0 <= i < |fields| ==> convert(fields[i]) == Some(r.value[i])
    decreases |fields|
  {
    if |fields| == 0 then Ok([])
    else match convert(fields[0])
      case None => Err(fields[0])
      case Some(x) =>
        match ConvertFields(fields[1..], convert)
        case Err(f) => Err(f)
        case Ok(xs) => Ok([x] + xs)
  }

  /** The error a conversion reports names the first field that fails. */
  lemma {:induction false} ConvertFirstFailure<A>(fields: seq<string>, convert: string -> Option<A>)
    requires ConvertFields(fields, convert).Err?
    ensures exists k ::
              && 0 <= k < |fields|
              && fields[k] == ConvertFields(fields, convert).error
              && convert(fields[k]).None?
              && forall j :: 0 <= j < k ==> convert(fields[j]).Some?
    decreases |fields|
  {
    if convert(fields[0]).None? {
      assert fields[0] == ConvertFields(fields, convert).error;
    } else {
      var rest := fields[1..];
      ConvertFirstFailure(rest, convert);
      var k :| 0 <= k < |rest| && rest[k] == ConvertFields(rest, convert).error
        && convert(rest[k]).None?
        && forall j :: 0 <= j < k ==> convert(rest[j]).Some?;
      assert fields[k + 1] == rest[k];
      forall j | 0 <= j < k + 1
        ensures convert(fields[j]).Some?
      {
        if j > 0 {
          assert fields[j] == rest[j - 1];
        }
      }
    }
  }

  /** `concatenated_string_to_array`: one integer per comma-separated field,
      in order; it fails exactly when `int()` rejects some field. */
  function ConcatenatedStringToArray(s: string): (r: Result<seq<int>, ParseError>)
    ensures r.Ok? <==> forall i :: 0 <= i < |Split(s, ",")| ==> ParseInt(Split(s, ",")[i]).Some?
    ensures r.Ok? ==> |r.value| == |Split(s, ",")| == multiset(s)[','] + 1
    ensures r.Ok? ==> forall i :: 0 <= i < |r.value| ==> ParseInt(Split(s, ",")[i]) == Some(r.value[i])
    ensures r.Err? ==> r.error.InvalidInt?
  {
    SplitCount(s, ",");
    CountChar(s, ',');
    match ConvertFields(Split(s, ","), ParseInt)
    case Ok(xs) => Ok(xs)
    case Err(f) => Err(InvalidInt(f))
  }

  /** The decimal forms of `xs`, in order. */
  function FormatAll(xs: seq<int>): seq<string> {
    seq(|xs|, i requires 0 <= i < |xs| => FormatInt(xs[i]))
  }

  /** `array_to_concatenated_string`: the decimal forms joined with `,`.
      It is empty only for the empty array, and holds nothing but digits,
      minus signs and commas. */
  function ArrayToConcatenatedString(xs: seq<int>): (r: string)
    ensures (|r| == 0) <==> (|xs| == 0)
    ensures forall i :: 0 <= i < |r| ==> IsDigit(r[i]) || r[i] == '-' || r[i] == ','
  {
    SerialisedChars(xs);
    Join(FormatAll(xs), ",")
  }

  /** Every character of the joined decimal forms is a digit, a minus sign
      or a comma. */
  lemma SerialisedChars(xs: seq<int>)
    ensures forall i :: 0 <= i < |Join(FormatAll(xs), ",")| ==>
      var c := Join(FormatAll(xs), ",")[i]; IsDigit(c) || c == '-' || c == ','
  {
    var pieces := FormatAll(xs);
    var s := Join(pieces, ",");
    forall i | 0 <= i < |s|
      ensures IsDigit(s[i]) || s[i] == '-' || s[i] == ','
    {
      JoinChars(pieces, ",", i);
      if s[i] != ',' {
        var k, j :| 0 <= k < |pieces| && 0 <= j < |pieces[k]| && pieces[k][j] == s[i];
        assert pieces[k] == FormatInt(xs[k]);
      }
    }
  }

  lemma FormatAllFree(xs: seq<int>, c: char)
    requires !IsDigit(c) && c != '-'
    ensures forall k :: 0 <= k < |FormatAll(xs)| ==> Free(FormatAll(xs)[k], c)
  {
  }

  /** The fields of a serialised array followed by `w`: the decimal forms,
      with `w` stuck to the last one. */
  function PaddedFields(xs: seq<int>, w: string): seq<string>
    requires |xs| > 0
  {
    FormatAll(xs)[..|xs| - 1] + [FormatInt(xs[|xs| - 1]) + w]
  }

  lemma SplitSerialised(xs: seq<int>, w: string)
    requires |xs| > 0 && AllWhitespace(w)
    ensures Split(ArrayToConcatenatedString(xs) + w, ",") == PaddedFields(xs, w)
  {
    var n := |xs|;
    var padded := PaddedFields(xs, w);
    JoinAppend(FormatAll(xs), ",", w);
    FormatAllFree(xs, ',');
    forall k | 0 <= k < n
      ensures Free(padded[k], ',')
    {
      if k == n - 1 {
        assert forall i :: 0 <= i < |w| ==> w[i] != ',';
      }
    }
    SplitJoin(padded, ",");
  }

  lemma ParseSerialised(xs: seq<int>, w: string)
    requires |xs| > 0 && AllWhitespace(w)
    ensures forall k :: 0 <= k < |xs| ==> ParseInt(PaddedFields(xs, w)[k]) == Some(xs[k])
  {
    var n := |xs|;
    var padded := PaddedFields(xs, w);
    forall k | 0 <= k < n
      ensures ParseInt(padded[k]) == Some(xs[k])
    {
      if k == n - 1 {
        ParseTrailing(xs[k], w);
      } else {
        ParseTrailing(xs[k], "");
        assert FormatInt(xs[k]) + "" == padded[k];
      }
    }
  }

  /** When every field parses, the result is exactly the fields' values. */
  lemma FieldsDetermineResult(s: string, xs: seq<int>)
    requires |Split(s, ",")| == |xs|
    requires forall i :: 0 <= i < |Split(s, ",")| ==> ParseInt(Split(s, ",")[i]) == Some(xs[i])
    ensures ConcatenatedStringToArray(s) == Ok(xs)
  {
    var r := ConcatenatedStringToArray(s);
    assert r.Ok?;
    assert |r.value| == |xs|;
    forall i | 0 <= i < |xs|
      ensures r.value[i] == xs[i]
    {
      assert ParseInt(Split(s, ",")[i]) == Some(r.value[i]);
    }
    assert r.value == xs;
  }

  /** A non-empty array survives serialising and parsing, also when the line
      ends in whitespace such as the newline `readline` keeps. */
  lemma RoundTripPadded(xs: seq<int>, w: string)
    requires |xs| > 0 && AllWhitespace(w)
    ensures ConcatenatedStringToArray(ArrayToConcatenatedString(xs) + w) == Ok(xs)
  {
    SplitSerialised(xs, w);
    ParseSerialised(xs, w);
    FieldsDetermineResult(ArrayToConcatenatedString(xs) + w, xs);
  }

  /** `concatenated_string_to_array` inverts `array_to_concatenated_string`
      on every non-empty array. */
  lemma RoundTrip(xs: seq<int>)
    requires |xs| > 0
    ensures ConcatenatedStringToArray(ArrayToConcatenatedString(xs)) == Ok(xs)
  {
    RoundTripPadded(xs, "");
    assert ArrayToConcatenatedString(xs) + "" == ArrayToConcatenatedString(xs);
  }

  /** The empty array does not round-trip: its serialisation is the empty
      string, and `int("")` fails. */
  lemma EmptyRejected()
    ensures ArrayToConcatenatedString([]) == ""
    ensures ConcatenatedStringToArray("") == Err(InvalidInt(""))
  {
    assert Split("", ",") == [""];
    assert ParseInt("").None?;
  }

  /** A leading comma makes the first field empty, and that is the error. */
  lemma LeadingCommaRejected(b: string)
    ensures ConcatenatedStringToArray("," + b) == Err(InvalidInt(""))
  {
    SplitAround("", ',', b);
    assert "" + [','] + b == "," + b;
    assert Split("", [',']) == [""];
    assert ParseInt("").None?;
  }

  /** A field that `int()` rejects makes the whole parse fail. */
  lemma BadFieldRejected(s: string, k: nat)
    requires k < |Split(s, ",")| && ParseInt(Split(s, ",")[k]).None?
    ensures ConcatenatedStringToArray(s).Err?
  {
  }

  /** A trailing comma makes the last field empty. */
  lemma TrailingCommaRejected(a: string)
    ensures ConcatenatedStringToArray(a + ",").Err?
  {
    SplitAround(a, ',', "");
    assert a + [','] + "" == a + ",";
    assert Split("", [',']) == [""];
    assert ParseInt("").None?;
    BadFieldRejected(a + ",", |Split(a, ",")|);
  }

  /** Two adjacent commas make an empty field between them. */
  lemma DoubleCommaRejected(a: string, b: string)
    ensures ConcatenatedStringToArray(a + ",," + b).Err?
  {
    SplitAround(a, ',', "," + b);
    SplitAround("", ',', b);
    assert a + [','] + ("," + b) == a + ",," + b;
    assert "" + [','] + b == "," + b;
    assert Split("", [',']) == [""];
    assert ParseInt("").None?;
    BadFieldRejected(a + ",," + b, |Split(a, ",")|);
  }

  /** A character that is not a comma and cannot appear in an integer
      literal makes the parse fail. */
  lemma BadCharRejected(s: string, i: nat)
    requires i < |s| && s[i] != ',' && !IsIntChar(s[i])
    ensures ConcatenatedStringToArray(s).Err?
  {
    CharInPiece(s, ',', i);
    var k, j :| 0 <= k < |Split(s, [','])| && 0 <= j < |Split(s, [','])[k]| && Split(s, [','])[k][j] == s[i];
    BadFieldRejected(s, k);
  }

  /** On failure the error names the first field `int()` rejects. */
  lemma FirstBadField(s: string)
    requires ConcatenatedStringToArray(s).Err?
    ensures exists k ::
              && 0 <= k < |Split(s, ",")|
              && ConcatenatedStringToArray(s) == Err(InvalidInt(Split(s, ",")[k]))
              && ParseInt(Split(s, ",")[k]).None?
              && forall j :: 0 <= j < k ==> ParseInt(Split(s, ",")[j]).Some?
  {
    ConvertFirstFailure(Split(s, ","), ParseInt);
  }

  /** Each row string split on `,` and its fields converted: rows in
      order, each the converted fields of that row; the first field that
      fails, row by row, is the error. */
  function ParseRows<F>(rows: seq<string>, toFloat: string -> Option<F>): (r: Result<seq<seq<F>>, ParseError>)
    ensures r.Ok? <==> forall i :: 0 <= i < |rows| ==> ConvertFields(Split(rows[i], ","), toFloat).Ok?
    ensures r.Ok? ==> |r.value| == |rows|
    ensures r.Ok? ==> forall i :: 0 <= i < |rows| ==> ConvertFields(Split(rows[i], ","), toFloat) == Ok(r.value[i])
    ensures r.Err? ==> r.error.InvalidFloat?
    decreases |rows|
  {
    if |rows| == 0 then Ok([])
    else
      var first := ConvertFields(Split(rows[0], ","), toFloat);
      var rest := ParseRows(rows[1..], toFloat);
      if first.Err? then Err(InvalidFloat(first.error))
      else if rest.Err? then rest
      else
        assert forall i :: 1 <= i < |rows| ==> rows[i] == rows[1..][i - 1];
        Ok([first.value] + rest.value)
  }

  /** One X part of the record: rows separated by `S`, fields by `,`. It
      succeeds exactly when every field of every row converts, and then has
      one row per `S` plus one; every failure is a float failure. */
  function ParseMatrix<F>(part: string, toFloat: string -> Option<F>): (r: Result<seq<seq<F>>, ParseError>)
    ensures r.Ok? <==> forall i, j :: 0 <= i < |Split(part, "S")| && 0 <= j < |Split(Split(part, "S")[i], ",")| ==>
                         toFloat(Split(Split(part, "S")[i], ",")[j]).Some?
    ensures r.Ok? ==> |r.value| == multiset(part)['S'] + 1
    ensures r.Err? ==> r.error.InvalidFloat?
  {
    SplitCount(part, "S");
    CountChar(part, 'S');
    RowsConvert(Split(part, "S"), toFloat);
    ParseRows(Split(part, "S"), toFloat)
  }

  /** Every row's fields convert exactly when every field of every row
      converts. */
  lemma RowsConvert<F>(rows: seq<string>, toFloat: string -> Option<F>)
    ensures (forall i :: 0 <= i < |rows| ==> ConvertFields(Split(rows[i], ","), toFloat).Ok?)
        <==> (forall i, j :: 0 <= i < |rows| && 0 <= j < |Split(rows[i], ",")| ==> toFloat(Split(rows[i], ",")[j]).Some?)
  {
    if forall i, j :: 0 <= i < |rows| && 0 <= j < |Split(rows[i], ",")| ==> toFloat(Split(rows[i], ",")[j]).Some? {
      forall i | 0 <= i < |rows|
        ensures ConvertFields(Split(rows[i], ","), toFloat).Ok?
      {
        var fields := Split(rows[i], ",");
        assert forall j :: 0 <= j < |fields| ==> toFloat(fields[j]).Some?;
      }
    }
  }

  /** On failure the error names a field of the first row that fails. */
  lemma {:induction false} FirstBadRow<F>(rows: seq<string>, toFloat: string -> Option<F>)
    requires ParseRows(rows, toFloat).Err?
    ensures exists i ::
              && 0 <= i < |rows|
              && ConvertFields(Split(rows[i], ","), toFloat).Err?
              && ParseRows(rows, toFloat) == Err(InvalidFloat(ConvertFields(Split(rows[i], ","), toFloat).error))
              && forall j :: 0 <= j < i ==> ConvertFields(Split(rows[j], ","), toFloat).Ok?
    decreases |rows|
  {
    RowsStep(rows, toFloat);
    if ConvertFields(Split(rows[0], ","), toFloat).Ok? {
      var rest := rows[1..];
      FirstBadRow(rest, toFloat);
      var i :| && 0 <= i < |rest|
               && ConvertFields(Split(rest[i], ","), toFloat).Err?
               && ParseRows(rest, toFloat) == Err(InvalidFloat(ConvertFields(Split(rest[i], ","), toFloat).error))
               && forall j :: 0 <= j < i ==> ConvertFields(Split(rest[j], ","), toFloat).Ok?;
      ShiftRows(rows, i, toFloat);
    }
  }

  /** A failing `ParseRows` has a first row: its error if that row fails,
      otherwise the error of the remaining rows. */
  lemma RowsStep<F>(rows: seq<string>, toFloat: string -> Option<F>)
    requires ParseRows(rows, toFloat).Err?
    ensures |rows| > 0
    ensures ConvertFields(Split(rows[0], ","), toFloat).Err? ==>
      ParseRows(rows, toFloat) == Err(InvalidFloat(ConvertFields(Split(rows[0], ","), toFloat).error))
    ensures ConvertFields(Split(rows[0], ","), toFloat).Ok? ==>
      ParseRows(rows, toFloat) == ParseRows(rows[1..], toFloat)
  {
  }

  /** Rows `1..i` of `rows`, when they all convert in `rows[1..]`, do so
      in `rows`, and row `i` of the tail is row `i + 1`. */
  lemma ShiftRows<F>(rows: seq<string>, i: nat, toFloat: string -> Option<F>)
    requires 0 < |rows| && i < |rows| - 1
    requires ConvertFields(Split(rows[0], ","), toFloat).Ok?
    requires forall j :: 0 <= j < i ==> ConvertFields(Split(rows[1..][j], ","), toFloat).Ok?
    ensures rows[i + 1] == rows[1..][i]
    ensures forall j :: 0 <= j < i + 1 ==> ConvertFields(Split(rows[j], ","), toFloat).Ok?
  {
    forall j | 0 < j < i + 1
      ensures ConvertFields(Split(rows[j], ","), toFloat).Ok?
    {
      assert rows[j] == rows[1..][j - 1];
    }
  }

  /** Field `k` of row `i` is the first field that fails, reading the rows
      in order and each row's fields in order. */
  predicate FirstFailureAt<F>(rows: seq<string>, toFloat: string -> Option<F>, i: int, k: int) {
    && 0 <= i < |rows|
    && 0 <= k < |Split(rows[i], ",")|
    && toFloat(Split(rows[i], ",")[k]).None?
    && (forall j :: 0 <= j < k ==> toFloat(Split(rows[i], ",")[j]).Some?)
    && (forall j, l :: 0 <= j < i && 0 <= l < |Split(rows[j], ",")| ==> toFloat(Split(rows[j], ",")[l]).Some?)
  }

  /** On failure the error names the first field that fails. */
  lemma ParseRowsFirstFailure<F>(rows: seq<string>, toFloat: string -> Option<F>)
    requires ParseRows(rows, toFloat).Err?
    ensures exists i, k :: FirstFailureAt(rows, toFloat, i, k) && ParseRows(rows, toFloat).error == InvalidFloat(Split(rows[i], ",")[k])
  {
    FirstBadRow(rows, toFloat);
    var i :| && 0 <= i < |rows|
             && ConvertFields(Split(rows[i], ","), toFloat).Err?
             && ParseRows(rows, toFloat) == Err(InvalidFloat(ConvertFields(Split(rows[i], ","), toFloat).error))
             && forall j :: 0 <= j < i ==> ConvertFields(Split(rows[j], ","), toFloat).Ok?;
    var k := RowFailure(rows, i, toFloat);
  }

  /** When row `i` is the first whose fields fail, the error its fields
      report is its field `k`, the first failing field overall. */
  lemma RowFailure<F>(rows: seq<string>, i: nat, toFloat: string -> Option<F>) returns (k: nat)
    requires i < |rows|
    requires ConvertFields(Split(rows[i], ","), toFloat).Err?
    requires forall j :: 0 <= j < i ==> ConvertFields(Split(rows[j], ","), toFloat).Ok?
    ensures FirstFailureAt(rows, toFloat, i, k)
    ensures ConvertFields(Split(rows[i], ","), toFloat).error == Split(rows[i], ",")[k]
  {
    var fields := Split(rows[i], ",");
    ConvertFirstFailure(fields, toFloat);
    k :| && 0 <= k < |fields|
         && fields[k] == ConvertFields(fields, toFloat).error
         && toFloat(fields[k]).None?
         && forall j :: 0 <= j < k ==> toFloat(fields[j]).Some?;
    forall j, l | 0 <= j < i && 0 <= l < |Split(rows[j], ",")|
      ensures toFloat(Split(rows[j], ",")[l]).Some?
    {
      assert ConvertFields(Split(rows[j], ","), toFloat).Ok?;
    }
  }

  /** The X part has one row per `S` plus one and each row one field per
      `,` plus one, and every entry is the conversion of its field. */
  lemma MatrixShape<F>(part: string, toFloat: string -> Option<F>)
    requires ParseMatrix(part, toFloat).Ok?
    ensures var m := ParseMatrix(part, toFloat).value; var rows := Split(part, "S");
      && |m| == |rows| == multiset(part)['S'] + 1
      && forall i :: 0 <= i < |m| ==>
           && |m[i]| == |Split(rows[i], ",")| == multiset(rows[i])[','] + 1
           && forall j :: 0 <= j < |m[i]| ==> toFloat(Split(rows[i], ",")[j]) == Some(m[i][j])
  {
    MatrixCounts(part, toFloat);
  }

  /** The counting half of `MatrixShape`. */
  lemma MatrixCounts<F>(part: string, toFloat: string -> Option<F>)
    requires ParseMatrix(part, toFloat).Ok?
    ensures var m := ParseMatrix(part, toFloat).value; var rows := Split(part, "S");
      && |m| == |rows| == multiset(part)['S'] + 1
      && forall i :: 0 <= i < |m| ==> |m[i]| == |Split(rows[i], ",")| == multiset(rows[i])[','] + 1
  {
    var m := ParseMatrix(part, toFloat).value;
    var rows := Split(part, "S");
    SplitCount(part, "S");
    CountChar(part, 'S');
    forall i | 0 <= i < |m|
      ensures |m[i]| == |Split(rows[i], ",")| == multiset(rows[i])[','] + 1
    {
      SplitCount(rows[i], ",");
      CountChar(rows[i], ',');
    }
  }

  /** `parse_input` on the record line and the answer line: split the record
      into exactly three `XXX` parts, parse the two X parts as matrices and
      the middle part and the answer line as label arrays, in that order. */
  function ParseInput<F>(line: string, answer: string, toFloat: string -> Option<F>): (r: Result<Dataset<F>, ParseError>)
    ensures r.Ok? ==> Count(line, "XXX") == 2
    ensures Count(line, "XXX") != 2 ==> r == Err(SegmentCount(Count(line, "XXX") + 1))
  {
    SplitCount(line, "XXX");
    var parts := Split(line, "XXX");
    if |parts| != 3 then Err(SegmentCount(|parts|))
    else
      var xTrain :- ParseMatrix(parts[0], toFloat);
      var yTrain :- ConcatenatedStringToArray(parts[1]);
      var xTest :- ParseMatrix(parts[2], toFloat);
      var yTest :- ConcatenatedStringToArray(answer);
      Ok(Dataset(xTrain, yTrain, xTest, yTest))
  }

  /** A parsed data set has the shape of its record: X_train and X_test
      have one row per `S` of their part plus one, each row one entry per
      `,` plus one, and every entry is its field converted. */
  lemma ParseInputShape<F>(line: string, answer: string, toFloat: string -> Option<F>)
    requires ParseInput(line, answer, toFloat).Ok?
    ensures var d := ParseInput(line, answer, toFloat).value; var parts := Split(line, "XXX");
      && |parts| == 3
      && Ok(d.xTrain) == ParseMatrix(parts[0], toFloat)
      && Ok(d.xTest) == ParseMatrix(parts[2], toFloat)
      && Ok(d.yTrain) == ConcatenatedStringToArray(parts[1])
      && Ok(d.yTest) == ConcatenatedStringToArray(answer)
      && |d.xTrain| == multiset(parts[0])['S'] + 1
      && |d.xTest| == multiset(parts[2])['S'] + 1
      && (forall i :: 0 <= i < |d.xTrain| ==> |d.xTrain[i]| == multiset(Split(parts[0], "S")[i])[','] + 1)
      && (forall i :: 0 <= i < |d.xTest| ==> |d.xTest[i]| == multiset(Split(parts[2], "S")[i])[','] + 1)
  {
    var parts := Split(line, "XXX");
    ParseInputAccepts(line, answer, toFloat);
    MatrixCounts(parts[0], toFloat);
    MatrixCounts(parts[2], toFloat);
  }

  /** A record is accepted exactly when it has three `XXX` parts, both X
      parts parse as matrices and the middle part and the answer line parse
      as label arrays; the data set is then made of those four results. */
  lemma ParseInputAccepts<F>(line: string, answer: string, toFloat: string -> Option<F>)
    ensures var parts := Split(line, "XXX");
      ParseInput(line, answer, toFloat).Ok? <==>
        && |parts| == 3
        && ParseMatrix(parts[0], toFloat).Ok?
        && ConcatenatedStringToArray(parts[1]).Ok?
        && ParseMatrix(parts[2], toFloat).Ok?
        && ConcatenatedStringToArray(answer).Ok?
    ensures var parts := Split(line, "XXX");
      ParseInput(line, answer, toFloat).Ok? ==>
        ParseInput(line, answer, toFloat).value
        == Dataset(ParseMatrix(parts[0], toFloat).value, ConcatenatedStringToArray(parts[1]).value,
                   ParseMatrix(parts[2], toFloat).value, ConcatenatedStringToArray(answer).value)
  {
    SplitCount(line, "XXX");
  }

  /** With three parts, the error reported is the first failure in the
      order X_train, Y_train, X_test, answer line. */
  lemma ParseInputErrorOrder<F>(line: string, answer: string, toFloat: string -> Option<F>)
    requires |Split(line, "XXX")| == 3 && ParseInput(line, answer, toFloat).Err?
    ensures var parts := Split(line, "XXX"); var e := ParseInput(line, answer, toFloat).error;
      var xTrain, yTrain := ParseMatrix(parts[0], toFloat), ConcatenatedStringToArray(parts[1]);
      var xTest, yTest := ParseMatrix(parts[2], toFloat), ConcatenatedStringToArray(answer);
      && (xTrain.Err? ==> e == xTrain.error)
      && (xTrain.Ok? && yTrain.Err? ==> e == yTrain.error)
      && (xTrain.Ok? && yTrain.Ok? && xTest.Err? ==> e == xTest.error)
      && (xTrain.Ok? && yTrain.Ok? && xTest.Ok? ==> yTest.Err? && e == yTest.error)
  {
    SplitCount(line, "XXX");
  }

  /** The field conversion that keeps each field as written. */
  function KeepField(f: string): Option<string> {
    Some(f)
  }

  /** No field of a matrix holds a separator character of the record. */
  predicate WellFormedMatrix(rows: seq<seq<string>>) {
    && |rows| > 0
    && forall i :: 0 <= i < |rows| ==>
         && |rows[i]| > 0
         && forall j :: 0 <= j < |rows[i]| ==>
              Free(rows[i][j], ',') && Free(rows[i][j], 'S') && Free(rows[i][j], 'X')
  }

  /** The rows of a matrix, each its fields joined with `,`. */
  function RowStrings(rows: seq<seq<string>>): seq<string> {
    seq(|rows|, i requires 0 <= i < |rows| => Join(rows[i], ","))
  }

  /** An X part as the record writes it: rows joined with `S`. */
  function EncodeMatrix(rows: seq<seq<string>>): string {
    Join(RowStrings(rows), "S")
  }

  /** The record line: the three parts joined with `XXX`. */
  function EncodeRecord(xTrain: seq<seq<string>>, yTrain: seq<int>, xTest: seq<seq<string>>): string {
    Join([EncodeMatrix(xTrain), ArrayToConcatenatedString(yTrain), EncodeMatrix(xTest)], "XXX")
  }

  lemma ConvertKeep(fields: seq<string>)
    ensures ConvertFields(fields, KeepField) == Ok(fields)
  {
    var r := ConvertFields(fields, KeepField);
    assert r.Ok?;
    assert |r.value| == |fields|;
    forall i | 0 <= i < |fields|
      ensures r.value[i] == fields[i]
    {
      assert KeepField(fields[i]) == Some(r.value[i]);
    }
    assert r.value == fields;
  }

  lemma RowStringsFree(rows: seq<seq<string>>, c: char)
    requires WellFormedMatrix(rows) && c in "SX"
    ensures forall i :: 0 <= i < |rows| ==> Free(RowStrings(rows)[i], c)
  {
    forall i | 0 <= i < |rows|
      ensures Free(RowStrings(rows)[i], c)
    {
      JoinFree(rows[i], ",", c);
    }
  }

  /** A well-formed matrix, written out and parsed with fields kept as
      written, comes back unchanged. */
  lemma MatrixRoundTrip(rows: seq<seq<string>>)
    requires WellFormedMatrix(rows)
    ensures ParseMatrix(EncodeMatrix(rows), KeepField) == Ok(rows)
  {
    var strs := RowStrings(rows);
    RowStringsFree(rows, 'S');
    SplitJoin(strs, "S");
    forall i | 0 <= i < |rows|
      ensures ConvertFields(Split(strs[i], ","), KeepField) == Ok(rows[i])
    {
      SplitJoin(rows[i], ",");
      ConvertKeep(rows[i]);
    }
    var r := ParseRows(strs, KeepField);
    assert r.Ok?;
    forall i | 0 <= i < |rows|
      ensures r.value[i] == rows[i]
    {
    }
    assert r.value == rows;
  }

  /** The three parts of an encoded record are its two matrices and its
      label line. */
  lemma SplitRecord(xTrain: seq<seq<string>>, yTrain: seq<int>, xTest: seq<seq<string>>)
    requires WellFormedMatrix(xTrain) && WellFormedMatrix(xTest)
    ensures Split(EncodeRecord(xTrain, yTrain, xTest), "XXX")
         == [EncodeMatrix(xTrain), ArrayToConcatenatedString(yTrain), EncodeMatrix(xTest)]
  {
    var parts := [EncodeMatrix(xTrain), ArrayToConcatenatedString(yTrain), EncodeMatrix(xTest)];
    RowStringsFree(xTrain, 'X');
    RowStringsFree(xTest, 'X');
    JoinFree(RowStrings(xTrain), "S", 'X');
    JoinFree(RowStrings(xTest), "S", 'X');
    FormatAllFree(yTrain, 'X');
    JoinFree(FormatAll(yTrain), ",", 'X');
    SplitJoin(parts, "XXX");
  }

  /** Writing a data set out as the record line and the answer line (which
      `readline` returns with its newline) and parsing it back, with fields
      kept as written, gives back the data set. */
  lemma RecordRoundTrip(xTrain: seq<seq<string>>, yTrain: seq<int>, xTest: seq<seq<string>>, yTest: seq<int>)
    requires WellFormedMatrix(xTrain) && WellFormedMatrix(xTest)
    requires |yTrain| > 0 && |yTest| > 0
    ensures ParseInput(EncodeRecord(xTrain, yTrain, xTest), ArrayToConcatenatedString(yTest) + "\n", KeepField)
         == Ok(Dataset(xTrain, yTrain, xTest, yTest))
  {
    var line := EncodeRecord(xTrain, yTrain, xTest);
    SplitRecord(xTrain, yTrain, xTest);
    MatrixRoundTrip(xTrain);
    MatrixRoundTrip(xTest);
    RoundTrip(yTrain);
    RoundTripPadded(yTest, "\n");
    ParseInputOf(line, ArrayToConcatenatedString(yTest) + "\n", KeepField, Dataset(xTrain, yTrain, xTest, yTest));
  }

  /** Three parts that each parse, with an answer line that parses, give
      the data set of the four results. */
  lemma ParseInputOf<F>(line: string, answer: string, toFloat: string -> Option<F>, d: Dataset<F>)
    requires |Split(line, "XXX")| == 3
    requires ParseMatrix(Split(line, "XXX")[0], toFloat) == Ok(d.xTrain)
    requires ConcatenatedStringToArray(Split(line, "XXX")[1]) == Ok(d.yTrain)
    requires ParseMatrix(Split(line, "XXX")[2], toFloat) == Ok(d.xTest)
    requires ConcatenatedStringToArray(answer) == Ok(d.yTest)
    ensures ParseInput(line, answer, toFloat) == Ok(d)
  {
    ParseInputAccepts(line, answer, toFloat);
  }
}

/** `scripts/get_durations.py`: the millisecond field parser of one duration file and the
    join of durations with surprisal rows by the sentence number in each file name. */
module Durations {
  import opened Seqs
  import opened Results
  import opened Text
  import opened PyInt
  import opened Ordering

  const Separator: char := ';'

  /** `lines[1:]`: every line after the header. */
  function AfterHeader(lines: seq<string>): seq<string>
  {
    if |lines| == 0 then [] else lines[1..]
  }

  /** `int(line.split(';')[1])`: the duration field of one data line. A line without a
      separator has no field 1 and raises `IndexError`; a field `int()` rejects raises
      `ValueError`. */
  function FieldValue(line: string): (r: Result<int>)
    ensures r == Err(IndexError) <==> Separator !in line
    ensures r.Err? && Separator in line ==> r.error == ValueError
  {
    var fields := Split(line, Separator);
    if |fields| < 2 then Err(IndexError) else ParseInt(fields[1])
  }

  /** The millisecond total `get_sentence_duration` accumulates: it succeeds exactly when
      every line after the header has a parseable field 1, fails with the exception of
      the first line that does not, and is 0 for a file holding only a header. */
  function SentenceDurationMs(lines: seq<string>): (r: Result<int>)
    ensures r.Ok? <==> forall i :: 1 <= i < |lines| ==> FieldValue(lines[i]).Ok?
    ensures r.Err? ==>
      exists k :: 1 <= k < |lines| && FieldValue(lines[k]) == Err(r.error)
        && forall i :: 1 <= i < k ==> FieldValue(lines[i]).Ok?
    ensures |lines| <= 1 ==> r == Ok(0)
  {
    var rows := AfterHeader(lines);
    assert forall i :: 1 <= i < |lines| ==> lines[i] == rows[i - 1];
    match Traverse(rows, FieldValue)
    case Ok(values) => Ok(Sum(values))
    case Err(e) => Err(e)
  }

  /** Milliseconds as seconds, an exact fraction where the script divides in floating point. */
  function Seconds(ms: int): (s: real)
    ensures s * 1000.0 == ms as real
  {
    ms as real / 1000.0
  }

  /** `get_sentence_duration`: the millisecond total divided by 1000, kept as an exact
      fraction. */
  function SentenceDuration(lines: seq<string>): (r: Result<real>)
    ensures r.Ok? <==> SentenceDurationMs(lines).Ok?
    ensures r.Ok? ==> r.value * 1000.0 == SentenceDurationMs(lines).value as real
    ensures r.Err? ==> r.error == SentenceDurationMs(lines).error
  {
    match SentenceDurationMs(lines)
    case Ok(ms) => Ok(Seconds(ms))
    case Err(e) => Err(e)
  }

  /** How the field after a duration may end: with whitespace such as the line break,
      or with a further separator. */
  predicate FieldEnd(tail: string)
  {
    AllBlank(tail, IntSpace) || (|tail| > 0 && tail[0] == Separator)
  }

  /** A data line written as `name;<n><end>` yields `n`. */
  lemma FieldValueOfRow(name: string, n: int, tail: string)
    requires Separator !in name
    requires FieldEnd(tail)
    ensures FieldValue(name + [Separator] + IntToString(n) + tail) == Ok(n)
  {
    var digits := IntToString(n);
    IntToStringChars(n);
    assert name + [Separator] + digits + tail == name + [Separator] + (digits + tail);
    SplitField(name, digits + tail, Separator);
    if AllBlank(tail, IntSpace) {
      LastField(n, tail);
    } else {
      MiddleField(n, tail);
    }
  }

  /** `<n>` followed only by whitespace is a single field that parses as `n`. */
  lemma LastField(n: int, tail: string)
    requires AllBlank(tail, IntSpace)
    ensures Split(IntToString(n) + tail, Separator) == [IntToString(n) + tail]
    ensures ParseInt(IntToString(n) + tail) == Ok(n)
  {
    var digits := IntToString(n);
    assert [] + digits + tail == digits + tail;
    ParseIntToString([], n, tail);
    IntToStringChars(n);
    NotSpace(Separator);
    AllBlankExcludes(tail, IntSpace, Separator);
    SplitFree(digits + tail, Separator);
  }

  /** `<n>` followed by a separator is a field of its own that parses as `n`. */
  lemma MiddleField(n: int, tail: string)
    requires |tail| > 0 && tail[0] == Separator
    ensures Split(IntToString(n) + tail, Separator)[0] == IntToString(n)
    ensures ParseInt(IntToString(n)) == Ok(n)
  {
    var digits := IntToString(n);
    assert Separator !in digits by {
      IntToStringChars(n);
    }
    SplitAtSeparator(digits, tail, Separator);
    ParseIntRoundTrip(n);
  }

  /** A duration file whose data lines are `name;<ms>` rows totals the sum of the
      millisecond values, whatever its header line holds. */
  lemma RenderedDurationFile(header: string, names: seq<string>, ms: seq<int>, tails: seq<string>, rows: seq<string>)
    requires |names| == |ms| == |tails| == |rows|
    requires forall i :: 0 <= i < |rows| ==> Separator !in names[i] && FieldEnd(tails[i])
    requires forall i :: 0 <= i < |rows| ==> rows[i] == names[i] + [Separator] + IntToString(ms[i]) + tails[i]
    ensures SentenceDurationMs([header] + rows) == Ok(Sum(ms))
    ensures SentenceDuration([header] + rows) == Ok(Seconds(Sum(ms)))
  {
    forall i | 0 <= i < |rows|
      ensures FieldValue(rows[i]) == Ok(ms[i])
    {
      FieldValueOfRow(names[i], ms[i], tails[i]);
    }
    ParsedRows(header, rows, ms);
    MillisecondsToSeconds([header] + rows, Sum(ms));
  }

  /** Data lines whose fields parse as `ms` total `Sum(ms)`. */
  lemma ParsedRows(header: string, rows: seq<string>, ms: seq<int>)
    requires |rows| == |ms|
    requires forall i :: 0 <= i < |rows| ==> FieldValue(rows[i]) == Ok(ms[i])
    ensures SentenceDurationMs([header] + rows) == Ok(Sum(ms))
  {
    assert AfterHeader([header] + rows) == rows;
    TraverseOk(rows, FieldValue, ms);
  }

  /** The duration in seconds is the millisecond total over 1000. */
  lemma MillisecondsToSeconds(lines: seq<string>, ms: int)
    requires SentenceDurationMs(lines) == Ok(ms)
    ensures SentenceDuration(lines) == Ok(Seconds(ms))
  {
  }

  /** The first data line without a separator makes the whole file fail with `IndexError`. */
  lemma MissingSeparator(lines: seq<string>, k: nat)
    requires 1 <= k < |lines| && Separator !in lines[k]
    requires forall i :: 1 <= i < k ==> FieldValue(lines[i]).Ok?
    ensures SentenceDurationMs(lines) == Err(IndexError)
    ensures SentenceDuration(lines) == Err(IndexError)
  {
    var r := SentenceDurationMs(lines);
    var j :| 1 <= j < |lines| && FieldValue(lines[j]) == Err(r.error)
      && forall i :: 1 <= i < j ==> FieldValue(lines[i]).Ok?;
    assert j == k;
  }

  /** `int(name.replace("sentence", "").replace(".csv", "")) - 1`: the zero-based row of
      the surprisal table a duration file belongs to. */
  function SentenceIndex(name: string): (r: Result<int>)
    ensures r.Err? ==> r.error == ValueError
  {
    match ParseInt(ReplaceAll(ReplaceAll(name, "sentence", ""), ".csv", ""))
    case Ok(k) => Ok(k - 1)
    case Err(e) => Err(e)
  }

  /** `sentence<K>.csv` belongs to row K - 1. */
  lemma SentenceIndexOfName(k: int)
    ensures SentenceIndex("sentence" + IntToString(k) + ".csv") == Ok(k - 1)
  {
    var d := IntToString(k);
    assert 's' !in d && '.' !in d by {
      IntToStringChars(k);
    }
    StripNumberName(d);
    ParseIntRoundTrip(k);
  }

  /** Removing `sentence` and then `.csv` from `sentence<d>.csv` leaves `d` when `d`
      holds neither an `s` nor a `.`. */
  lemma StripNumberName(d: string)
    requires 's' !in d && '.' !in d
    ensures ReplaceAll(ReplaceAll("sentence" + d + ".csv", "sentence", ""), ".csv", "") == d
  {
    assert "sentence" + d + ".csv" == "sentence" + (d + ".csv");
    ReplaceFront("sentence", "", d + ".csv");
    ReplaceSkip(d, ".csv", "sentence", "");
    assert ReplaceAll(".csv", "sentence", "") == ".csv";
    var once := ReplaceAll("sentence" + d + ".csv", "sentence", "");
    assert once == d + ".csv";
    ReplaceSkip(d, ".csv", ".csv", "");
    ReplaceFront(".csv", "", "");
    assert ".csv" + "" == ".csv";
    assert d + "" == d;
  }

  /** A file name without any digit has no sentence number and raises `ValueError`. */
  lemma NameWithoutNumber(name: string)
    requires forall i :: 0 <= i < |name| ==> !IsDigit(name[i])
    ensures SentenceIndex(name) == Err(ValueError)
  {
    var once := ReplaceAll(name, "sentence", "");
    var twice := ReplaceAll(once, ".csv", "");
    forall i | 0 <= i < |twice|
      ensures !IsDigit(twice[i])
    {
      RemoveKeepsOnly(once, ".csv", twice[i]);
      RemoveKeepsOnly(name, "sentence", twice[i]);
    }
    ParseNeedsDigit(twice);
  }

  /** `xs[i]` on a Python list: a negative index counts from the end, and an index
      outside `-len(xs) <= i < len(xs)` raises `IndexError`. */
  function PyIndex<T>(xs: seq<T>, i: int): (r: Result<T>)
    ensures r.Ok? <==> -|xs| <= i < |xs|
    ensures r.Ok? ==> r.value == xs[if i < 0 then |xs| + i else i]
    ensures r.Err? ==> r.error == IndexError
  {
    if 0 <= i < |xs| then Ok(xs[i])
    else if -|xs| <= i < 0 then Ok(xs[|xs| + i])
    else Err(IndexError)
  }

  /** One output row of `main`: `[duration, surprisal]`. */
  datatype Row = Row(duration: real, surprisal: real)

  /** The body of `main`'s loop for one `.csv` file: the row index from the name, the
      duration from the file's lines `files(name)`, then the surprisal with that index;
      the first exception wins. The row exists exactly when `int()` accepts what is left
      of the name once `sentence` and `.csv` are removed, the file's duration parses and
      the index is a valid list index; its duration is the file's millisecond total in
      seconds and its surprisal is the table's entry at that index. */
  function RowFor(name: string, files: string -> seq<string>, surprisals: seq<real>): (r: Result<Row>)
    ensures r.Ok? <==>
      && SentenceIndex(name).Ok? && SentenceDuration(files(name)).Ok?
      && -|surprisals| <= SentenceIndex(name).value < |surprisals|
    ensures SentenceIndex(name).Err? ==> r == Err(ValueError)
    ensures r.Ok? ==> r.value.duration * 1000.0 == SentenceDurationMs(files(name)).value as real
    ensures r.Ok? ==> PyIndex(surprisals, SentenceIndex(name).value) == Ok(r.value.surprisal)
    ensures r.Ok? ==> r.value.surprisal in surprisals
  {
    match SentenceIndex(name)
    case Err(e) => Err(e)
    case Ok(index) =>
      match SentenceDuration(files(name))
      case Err(e) => Err(e)
      case Ok(duration) =>
        match PyIndex(surprisals, index)
        case Err(e) => Err(e)
        case Ok(surprisal) => Ok(Row(duration, surprisal))
  }

  /** The file for sentence K (counted from 1) is paired with surprisal row K - 1; a file
      whose duration fails fails the row with the same exception; a K past the last row
      raises `IndexError`, and `sentence0.csv` wraps round to the last row. */
  lemma SentenceRow(k: int, files: string -> seq<string>, surprisals: seq<real>)
    ensures var name := "sentence" + IntToString(k) + ".csv";
            var duration := SentenceDuration(files(name));
            && (duration.Err? ==> RowFor(name, files, surprisals) == Err(duration.error))
            && (duration.Ok? && 1 <= k <= |surprisals| ==>
                  RowFor(name, files, surprisals) == Ok(Row(duration.value, surprisals[k - 1])))
            && (duration.Ok? && k > |surprisals| ==> RowFor(name, files, surprisals) == Err(IndexError))
            && (duration.Ok? && k == 0 && |surprisals| > 0 ==>
                  RowFor(name, files, surprisals) == Ok(Row(duration.value, surprisals[|surprisals| - 1])))
  {
    SentenceIndexOfName(k);
  }

  /** The names `main` processes: those ending in `.csv`, in the order given. */
  function CsvFiles(names: seq<string>): (r: seq<string>)
    ensures |r| <= |names|
    ensures forall i :: 0 <= i < |r| ==> EndsWith(r[i], ".csv")
  {
    if names == [] then []
    else if EndsWith(names[0], ".csv") then [names[0]] + CsvFiles(names[1..])
    else CsvFiles(names[1..])
  }

  /** The filter keeps every `.csv` name as often as it is listed and drops every other name. */
  lemma {:induction false} CsvFilesCount(names: seq<string>, x: string)
    ensures Count(CsvFiles(names), x) == if EndsWith(x, ".csv") then Count(names, x) else 0
  {
    if names != [] {
      CsvFilesCount(names[1..], x);
      if EndsWith(names[0], ".csv") {
        assert ([names[0]] + CsvFiles(names[1..]))[1..] == CsvFiles(names[1..]);
      }
    }
  }

  /** The filter keeps the listing's order. */
  lemma {:induction false} CsvFilesSorted(names: seq<string>)
    requires Sorted(names)
    ensures Sorted(CsvFiles(names))
  {
    if names != [] {
      var rest := CsvFiles(names[1..]);
      CsvFilesSorted(names[1..]);
      if EndsWith(names[0], ".csv") {
        forall j | 0 <= j < |rest|
          ensures LessEq(names[0], rest[j])
        {
          CsvFilesCount(names[1..], rest[j]);
          assert Count(rest, rest[j]) > 0;
          assert rest[j] in names[1..];
          var k :| 0 <= k < |names[1..]| && names[1..][k] == rest[j];
          assert names[k + 1] == rest[j];
        }
        var r := [names[0]] + rest;
        forall i, j | 0 <= i < j < |r|
          ensures LessEq(r[i], r[j])
        {
          if i > 0 {
            assert r[i] == rest[i - 1] && r[j] == rest[j - 1];
          }
        }
      }
    }
  }

  /** `main`: the rows for the `.csv` files of the directory listing, taken in sorted
      name order; the first exception aborts the whole join. */
  function Combine(listing: seq<string>, files: string -> seq<string>, surprisals: seq<real>): (r: Result<seq<Row>>)
    ensures r.Ok? ==> |r.value| <= |listing|
    ensures r.Ok? ==> forall j :: 0 <= j < |r.value| ==> r.value[j].surprisal in surprisals
  {
    var names := CsvFiles(Sort(listing));
    var r := Traverse(names, name => RowFor(name, files, surprisals));
    assert |Sort(listing)| == |listing| by {
      assert |multiset(Sort(listing))| == |multiset(listing)|;
    }
    assert r.Ok? ==> forall j :: 0 <= j < |names| ==> RowFor(names[j], files, surprisals).Ok?;
    r
  }

  /** `main` handles exactly the `.csv` files of the listing, each as often as it is
      listed, in ascending name order. */
  lemma CombineNames(listing: seq<string>)
    ensures Sorted(CsvFiles(Sort(listing)))
    ensures forall x :: Count(CsvFiles(Sort(listing)), x) == if EndsWith(x, ".csv") then Count(listing, x) else 0
  {
    var sorted := Sort(listing);
    CsvFilesSorted(sorted);
    forall x
      ensures Count(CsvFiles(sorted), x) == if EndsWith(x, ".csv") then Count(listing, x) else 0
    {
      CsvFilesCount(sorted, x);
      CountIsMultiplicity(sorted, x);
      CountIsMultiplicity(listing, x);
    }
  }

  /** `main` produces one row per `.csv` file, each the row of that file; it fails exactly
      when some file's row fails, with the exception of the first such file. */
  lemma CombineRows(listing: seq<string>, files: string -> seq<string>, surprisals: seq<real>)
    ensures var names := CsvFiles(Sort(listing));
            && (Combine(listing, files, surprisals).Ok? <==> forall j :: 0 <= j < |names| ==> RowFor(names[j], files, surprisals).Ok?)
            && (Combine(listing, files, surprisals).Ok? ==>
                  |Combine(listing, files, surprisals).value| == |names|
                  && forall j :: 0 <= j < |names| ==> Combine(listing, files, surprisals).value[j] == RowFor(names[j], files, surprisals).value)
            && (Combine(listing, files, surprisals).Err? ==>
                  exists k :: 0 <= k < |names| && RowFor(names[k], files, surprisals) == Err(Combine(listing, files, surprisals).error)
                    && forall j :: 0 <= j < k ==> RowFor(names[j], files, surprisals).Ok?)
  {
  }

  /** `Count` agrees with multiset multiplicity. */
  lemma {:induction false} CountIsMultiplicity(s: seq<string>, x: string)
    ensures Count(s, x) == multiset(s)[x]
  {
    if s != [] {
      CountIsMultiplicity(s[1..], x);
      assert s == [s[0]] + s[1..];
      assert multiset(s) == multiset{s[0]} + multiset(s[1..]);
    }
  }

  /** Of two listed `.csv` files, the one whose name sorts strictly first has its row first. */
  lemma OrderedInOutput(listing: seq<string>, a: string, b: string) returns (i: nat, j: nat)
    requires a in listing && b in listing
    requires EndsWith(a, ".csv") && EndsWith(b, ".csv")
    requires !LessEq(b, a)
    ensures i < j < |CsvFiles(Sort(listing))|
    ensures CsvFiles(Sort(listing))[i] == a && CsvFiles(Sort(listing))[j] == b
  {
    var names := CsvFiles(Sort(listing));
    CsvFilesSorted(Sort(listing));
    i := ListedCsvKept(listing, a);
    j := ListedCsvKept(listing, b);
    LessEqTotal(a, b);
    assert a != b;
  }

  /** A listed `.csv` file is among the names `main` processes. */
  lemma ListedCsvKept(listing: seq<string>, a: string) returns (i: nat)
    requires a in listing && EndsWith(a, ".csv")
    ensures i < |CsvFiles(Sort(listing))| && CsvFiles(Sort(listing))[i] == a
  {
    var sorted := Sort(listing);
    var names := CsvFiles(sorted);
    CsvFilesCount(sorted, a);
    CountIsMultiplicity(sorted, a);
    CountIsMultiplicity(listing, a);
    assert Count(names, a) > 0;
    i :| 0 <= i < |names| && names[i] == a;
  }

  /** When both files are listed, the row of `sentence10.csv` comes before the row of
      `sentence2.csv`: the order is by name, not by sentence number. */
  lemma TenBeforeTwoInOutput(listing: seq<string>) returns (i: nat, j: nat)
    requires "sentence10.csv" in listing && "sentence2.csv" in listing
    ensures i < j < |CsvFiles(Sort(listing))|
    ensures CsvFiles(Sort(listing))[i] == "sentence10.csv" && CsvFiles(Sort(listing))[j] == "sentence2.csv"
  {
    TenBeforeTwo();
    assert EndsWith("sentence10.csv", ".csv") && EndsWith("sentence2.csv", ".csv");
    i, j := OrderedInOutput(listing, "sentence10.csv", "sentence2.csv");
  }
}

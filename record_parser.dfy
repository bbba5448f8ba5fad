/**
  `parseCSV`: a naive comma-split reader. The header must mention the three
  columns somewhere (by substring, any order, any case); data rows are then
  read by position, and rows with fewer than three cells are dropped.
*/
module RecordParser {
  import opened Results
  import opened JsBuiltins

  /** One contact row. */
  datatype ListItem = ListItem(firstName: string, phone: string, notes: string)

  datatype ParseError =
    | NoLines         // no non-blank line: reading `lines[0]` fails
    | MissingColumns  // the header lacks FirstName, Phone or Notes

  const RequiredHeaders: seq<string> := ["firstname", "phone", "notes"]

  /** `filter(line => line.trim())`: the lines that are not blank, in order. */
  function NonBlank(lines: seq<string>): (r: seq<string>)
    ensures |r| <= |lines|
    ensures forall k :: 0 <= k < |r| ==> !AllWhitespace(r[k])
    ensures r == [] <==> AllPiecesWhitespace(lines)
    ensures forall x :: x in r <==> x in lines && !AllWhitespace(x)
  {
    if lines == [] then []
    else
      var rest := NonBlank(lines[1..]);
      assert lines == [lines[0]] + lines[1..];
      AllPiecesWhitespaceCons(lines[0], lines[1..]);
      if !AllWhitespace(lines[0]) then [lines[0]] + rest else rest
  }

  /** Filtering works run by run, so the kept lines keep their order. */
  lemma {:induction false} NonBlankConcat(a: seq<string>, b: seq<string>)
    ensures NonBlank(a + b) == NonBlank(a) + NonBlank(b)
    decreases |a|
  {
    if a == [] {
      assert a + b == b;
    } else {
      assert (a + b)[0] == a[0] && (a + b)[1..] == a[1..] + b;
      NonBlankConcat(a[1..], b);
    }
  }

  /** One line is kept exactly when it is not blank. */
  lemma NonBlankSingle(line: string)
    ensures NonBlank([line]) == if AllWhitespace(line) then [] else [line]
  {
    assert [line][1..] == [];
  }

  /** `content.split('\n').filter(line => line.trim())`. */
  function Lines(content: string): seq<string> {
    NonBlank(Split(content, '\n'))
  }

  /** `h => h.trim().toLowerCase()`. */
  function HeaderName(h: string): string {
    ToLower(Trim(h))
  }

  /** `line.split(',').map(h => h.trim().toLowerCase())`. */
  function HeaderFields(line: string): seq<string> {
    Map(HeaderName, Split(line, ','))
  }

  /** Some header field contains the token. */
  predicate HasColumn(fields: seq<string>, token: string) {
    exists f :: f in fields && Includes(f, token)
  }

  /** `requiredHeaders.every(header => headers.some(h => h.includes(header)))`. */
  predicate HasRequiredHeaders(fields: seq<string>) {
    forall token :: token in RequiredHeaders ==> HasColumn(fields, token)
  }

  /** `v => v.trim().replace(/"/g, '')`. */
  function CellValue(v: string): string {
    RemoveAll(Trim(v), '"')
  }

  /** `line.split(',').map(v => v.trim().replace(/"/g, ''))`. */
  function CellValues(line: string): seq<string> {
    Map(CellValue, Split(line, ','))
  }

  /** The record built from the first three cells of line j, by position. */
  function RecordAt(lines: seq<string>, j: nat): ListItem
    requires j < |lines| && |CellValues(lines[j])| >= 3
  {
    var values := CellValues(lines[j]);
    ListItem(values[0], values[1], values[2])
  }

  /** The records one data line contributes: one when it has three cells or more, none otherwise. */
  function RowRecords(line: string): seq<ListItem> {
    var values := CellValues(line);
    if |values| >= 3 then [ListItem(values[0], values[1], values[2])] else []
  }

  /** The records of the data lines, in file order. */
  function Rows(lines: seq<string>): seq<ListItem> {
    if lines == [] then []
    else Rows(lines[..|lines| - 1]) + RowRecords(lines[|lines| - 1])
  }

  /** Appending one data line appends that line's records. */
  lemma RowsStep(lines: seq<string>, i: nat)
    requires 1 <= i < |lines|
    ensures Rows(lines[1..i + 1]) == Rows(lines[1..i]) + RowRecords(lines[i])
  {
    assert lines[1..i + 1][..i - 1] == lines[1..i];
  }

  /** What `parseCSV` returns, or the error it throws. */
  function ParseContent(content: string): Result<seq<ListItem>, ParseError> {
    var lines := Lines(content);
    if lines == [] then Err(NoLines)
    else if !HasRequiredHeaders(HeaderFields(lines[0])) then Err(MissingColumns)
    else Ok(Rows(lines[1..]))
  }

  /** The loop over the data lines of `parseCSV`: one record pushed per row of three cells or more. */
  method ReadRows(lines: seq<string>) returns (data: seq<ListItem>)
    requires |lines| >= 1
    ensures data == Rows(lines[1..])
  {
    data := [];
    for i := 1 to |lines|
      invariant data == Rows(lines[1..i])
    {
      RowsStep(lines, i);
      var values := CellValues(lines[i]);
      if |values| >= 3 {
        data := data + [ListItem(values[0], values[1], values[2])];
      }
    }
    assert lines[1..|lines|] == lines[1..];
  }

  /** `parseCSV`: the two checks that throw, then the loop over the data lines. */
  method ParseCsv(content: string) returns (r: Result<seq<ListItem>, ParseError>)
    ensures r == ParseContent(content)
  {
    var lines := Lines(content);
    if |lines| == 0 {
      return Err(NoLines);
    }
    var headers := HeaderFields(lines[0]);
    if !HasRequiredHeaders(headers) {
      return Err(MissingColumns);
    }
    var data := ReadRows(lines);
    return Ok(data);
  }

  // ---------------------------------------------------------------------------
  // Failure
  // ---------------------------------------------------------------------------

  /** Parsing fails for want of a line exactly when the content is all whitespace (empty included). */
  lemma NoLinesIff(content: string)
    ensures ParseContent(content) == Err(NoLines) <==> AllWhitespace(content)
  {
    SplitAllWhitespace(content, '\n');
  }

  // ---------------------------------------------------------------------------
  // Rows
  // ---------------------------------------------------------------------------

  /** A line has at least three cells exactly when it has at least two commas. */
  lemma CellCount(line: string)
    ensures |CellValues(line)| == Count(line, ',') + 1
  {
    SplitLength(line, ',');
  }

  /** The rows of two runs of lines are the rows of each, in order. */
  lemma {:induction false} RowsConcat(a: seq<string>, b: seq<string>)
    ensures Rows(a + b) == Rows(a) + Rows(b)
    decreases |b|
  {
    if b == [] {
      assert a + b == a;
    } else {
      var b', last := b[..|b| - 1], b[|b| - 1];
      assert (a + b)[..|a + b| - 1] == a + b';
      assert (a + b)[|a + b| - 1] == last;
      assert Rows(a + b) == Rows(a + b') + RowRecords(last);
      assert Rows(b) == Rows(b') + RowRecords(last);
      RowsConcat(a, b');
    }
  }

  lemma RowsSingle(line: string)
    ensures Rows([line]) == RowRecords(line)
  {
    assert [line][..0] == [];
  }

  /** A line with fewer than three cells is silently dropped. */
  lemma ShortRowDropped(a: seq<string>, line: string, b: seq<string>)
    requires |CellValues(line)| < 3
    ensures Rows(a + [line] + b) == Rows(a + b)
  {
    RowsConcat(a + [line], b);
    RowsConcat(a, [line]);
    RowsConcat(a, b);
    RowsSingle(line);
  }

  /** At most one record per line. */
  lemma {:induction false} RowsLength(lines: seq<string>)
    ensures |Rows(lines)| <= |lines|
  {
    if lines != [] {
      RowsLength(lines[..|lines| - 1]);
    }
  }

  /**
    When every line has three cells or more, record j comes from line j, by
    position: first, second and third cell, whatever the header said.
  */
  lemma {:induction false} RowsPositional(lines: seq<string>)
    requires forall k :: 0 <= k < |lines| ==> |CellValues(lines[k])| >= 3
    ensures |Rows(lines)| == |lines|
    ensures forall j :: 0 <= j < |lines| ==> Rows(lines)[j] == RecordAt(lines, j)
  {
    if lines != [] {
      var init, last := lines[..|lines| - 1], lines[|lines| - 1];
      RowsPositional(init);
      var rows := Rows(lines);
      assert rows == Rows(init) + RowRecords(last);
      assert |RowRecords(last)| == 1;
      forall j | 0 <= j < |lines| ensures rows[j] == RecordAt(lines, j) {
        if j < |init| {
          assert rows[j] == Rows(init)[j] == RecordAt(init, j);
          assert init[j] == lines[j];
          assert RecordAt(init, j) == RecordAt(lines, j);
        } else {
          assert rows[j] == RowRecords(last)[0];
          assert j == |lines| - 1 && lines[j] == last;
          var v := CellValues(last);
          assert RowRecords(last) == [ListItem(v[0], v[1], v[2])];
        }
      }
    }
  }

  /** No cell of a line keeps a double quote. */
  lemma CellValuesUnquoted(line: string)
    ensures forall k :: 0 <= k < |CellValues(line)| ==> '"' !in CellValues(line)[k]
  {
    var parts := Split(line, ',');
    forall k | 0 <= k < |parts| ensures '"' !in CellValues(line)[k] {
      assert CellValues(line)[k] == RemoveAll(Trim(parts[k]), '"');
    }
  }

  predicate Unquoted(item: ListItem) {
    '"' !in item.firstName && '"' !in item.phone && '"' !in item.notes
  }

  /** No field of any record contains a double quote. */
  lemma {:induction false} RowsUnquoted(lines: seq<string>)
    ensures forall j :: 0 <= j < |Rows(lines)| ==> Unquoted(Rows(lines)[j])
  {
    if lines != [] {
      var init, last := lines[..|lines| - 1], lines[|lines| - 1];
      RowsUnquoted(init);
      CellValuesUnquoted(last);
      var rows := Rows(lines);
      assert rows == Rows(init) + RowRecords(last);
      forall j | 0 <= j < |rows| ensures Unquoted(rows[j]) {
        if j >= |Rows(init)| {
          assert rows[j] == RowRecords(last)[j - |Rows(init)|];
        }
      }
    }
  }

  /** A successful parse has at most one record per non-blank line after the header, none with a quote. */
  lemma ParsedRecords(content: string)
    requires ParseContent(content).Ok?
    ensures |Lines(content)| >= 1
    ensures |ParseContent(content).value| <= |Lines(content)| - 1
    ensures forall j :: 0 <= j < |ParseContent(content).value| ==> Unquoted(ParseContent(content).value[j])
  {
    var lines := Lines(content);
    RowsLength(lines[1..]);
    RowsUnquoted(lines[1..]);
  }

  // ---------------------------------------------------------------------------
  // Header tolerance
  // ---------------------------------------------------------------------------

  /** The header test does not depend on the letter case of the header line. */
  lemma HeaderCaseIrrelevant(line: string)
    ensures HeaderFields(ToLower(line)) == HeaderFields(line)
  {
    SplitToLower(line, ',');
    var parts, lparts := Split(line, ','), Split(ToLower(line), ',');
    forall i | 0 <= i < |parts|
      ensures HeaderName(lparts[i]) == HeaderName(parts[i])
    {
      TrimToLower(parts[i]);
      ToLowerIdempotent(Trim(parts[i]));
    }
  }

  /** Header fields of a line joined at a comma are the fields of each side. */
  lemma HeaderFieldsConcat(a: string, b: string)
    ensures HeaderFields(a + "," + b) == HeaderFields(a) + HeaderFields(b)
  {
    assert a + "," + b == a + [','] + b;
    SplitConcat(a, b, ',');
    MapConcat(HeaderName, Split(a, ','), Split(b, ','));
  }

  /** Swapping the two sides of a header line around a comma does not change acceptance. */
  lemma HeaderOrderIrrelevant(a: string, b: string)
    ensures HasRequiredHeaders(HeaderFields(a + "," + b)) == HasRequiredHeaders(HeaderFields(b + "," + a))
  {
    HeaderFieldsConcat(a, b);
    HeaderFieldsConcat(b, a);
    var ab, ba := HeaderFields(a) + HeaderFields(b), HeaderFields(b) + HeaderFields(a);
    assert forall f :: f in ab <==> f in ba;
  }

  /** The lower-cased `Phone Number` contains the `phone` token. */
  lemma PhoneNumberIncludesPhone(field: string)
    requires field == "phone number"
    ensures Includes(field, "phone")
  {
    assert field[0..][..5] == "phone";
  }

  /** `Phone` spelt `Phone Number` still matches the `phone` token. */
  lemma PhoneNumberMatches(field: string)
    requires field == "phone number"
    ensures HasColumn([field], "phone")
  {
    assert field[..5] == "phone";
    assert field[0..] == field;
    assert Includes(field, "phone");
  }

  /** A string that starts and ends with a non-whitespace character is its own trim. */
  lemma TrimUntouched(s: string)
    requires |s| > 0 && !IsWhitespace(s[0]) && !IsWhitespace(s[|s| - 1])
    ensures Trim(s) == s
  {
  }

  /** A header that has each token as a whole field passes, whatever the order. */
  lemma TokensAsFields(fields: seq<string>)
    requires "firstname" in fields && "phone" in fields && "notes" in fields
    ensures HasRequiredHeaders(fields)
  {
    assert "firstname" <= "firstname"[0..];
    assert "phone" <= "phone"[0..];
    assert "notes" <= "notes"[0..];
    assert Includes("firstname", "firstname");
    assert Includes("phone", "phone");
    assert Includes("notes", "notes");
  }

  /** The three canonical header names, trimmed and lower-cased. */
  lemma CanonicalNames(phone: string, firstName: string, notes: string)
    requires phone == "Phone" && firstName == "FirstName" && notes == "Notes"
    ensures HeaderName(phone) == "phone"
    ensures HeaderName(firstName) == "firstname"
    ensures HeaderName(notes) == "notes"
  {
    TrimUntouched(phone);
    TrimUntouched(firstName);
    TrimUntouched(notes);
    LowerWord(phone, "phone");
    LowerWord(firstName, "firstname");
    LowerWord(notes, "notes");
  }

  /** A reordered, differently cased header is accepted. */
  lemma ReorderedHeaderAccepted(line: string)
    requires line == "Phone,FirstName,Notes"
    ensures HasRequiredHeaders(HeaderFields(line))
  {
    var a, b, c := "Phone", "FirstName", "Notes";
    assert line == a + [','] + (b + [','] + c);
    SplitThree(a, b, c, ',');
    CanonicalNames(a, b, c);
    var fields := HeaderFields(line);
    assert fields[0] == "phone" && fields[1] == "firstname" && fields[2] == "notes";
    TokensAsFields(fields);
  }

  /** A comma-free header name trims and lower-cases to the expected lower-case spelling. */
  lemma HeaderNameIs(h: string, name: string)
    requires |h| == |name| > 0 && !IsWhitespace(h[0]) && !IsWhitespace(h[|h| - 1])
    requires forall i :: 0 <= i < |h| ==> LowerChar(h[i]) == name[i]
    ensures HeaderName(h) == name
  {
    TrimUntouched(h);
    LowerWord(h, name);
  }

  /** A two-field header in which neither field contains the token is rejected. */
  lemma MissingColumnRejected(a: string, b: string, token: string)
    requires ',' !in a && ',' !in b && token in RequiredHeaders
    requires !Includes(HeaderName(a), token) && !Includes(HeaderName(b), token)
    ensures !HasRequiredHeaders(HeaderFields(a + [','] + b))
  {
    SplitTwo(a, b, ',');
    var fields := HeaderFields(a + [','] + b);
    assert |fields| == 2 && fields[0] == HeaderName(a) && fields[1] == HeaderName(b);
    assert !HasColumn(fields, token);
  }

  lemma NameFirstName(h: string)
    requires h == "FirstName"
    ensures HeaderName(h) == "firstname"
  {
    HeaderNameIs(h, "firstname");
  }

  lemma NamePhone(h: string)
    requires h == "Phone"
    ensures HeaderName(h) == "phone"
  {
    HeaderNameIs(h, "phone");
  }

  lemma NamePhoneNumber(h: string)
    requires h == "Phone Number"
    ensures HeaderName(h) == "phone number"
  {
    HeaderNameIs(h, "phone number");
  }

  /**
    A header without a notes column is rejected: two fields that read
    `firstname` and `phone` once trimmed and lower-cased, as `FirstName,Phone`
    does (NameFirstName, NamePhone).
  */
  lemma MissingNotesRejected(a: string, b: string)
    requires ',' !in a && ',' !in b
    requires HeaderName(a) == "firstname" && HeaderName(b) == "phone"
    ensures !HasRequiredHeaders(HeaderFields(a + [','] + b))
  {
    MissingCharNotIncluded(HeaderName(a), "notes", 'o');
    MissingCharNotIncluded(HeaderName(b), "notes", 't');
    MissingColumnRejected(a, b, "notes");
  }

  /** A field that contains the token gives the header that column. */
  lemma ColumnAt(fields: seq<string>, i: nat, token: string)
    requires i < |fields| && Includes(fields[i], token)
    ensures HasColumn(fields, token)
  {
    assert fields[i] in fields;
  }

  /** A header with the three columns passes. */
  lemma AllColumns(fields: seq<string>)
    requires HasColumn(fields, "firstname") && HasColumn(fields, "phone") && HasColumn(fields, "notes")
    ensures HasRequiredHeaders(fields)
  {
  }

  /** A three-field header passes when the fields contain the three tokens, one each. */
  lemma ThreeFieldsAccepted(a: string, b: string, c: string)
    requires ',' !in a && ',' !in b && ',' !in c
    requires Includes(HeaderName(a), "firstname") && Includes(HeaderName(b), "phone") && Includes(HeaderName(c), "notes")
    ensures HasRequiredHeaders(HeaderFields(a + [','] + (b + [','] + c)))
  {
    SplitThree(a, b, c, ',');
    var fields := HeaderFields(a + [','] + (b + [','] + c));
    assert fields[0] == HeaderName(a) && fields[1] == HeaderName(b) && fields[2] == HeaderName(c);
    ColumnAt(fields, 0, "firstname");
    ColumnAt(fields, 1, "phone");
    ColumnAt(fields, 2, "notes");
    AllColumns(fields);
  }

  /**
    The phone column may be spelt `Phone Number`: three fields that read
    `firstname`, `phone number` and `notes` once trimmed and lower-cased, as
    `FirstName,Phone Number,Notes` does (NameFirstName, NamePhoneNumber), pass.
  */
  lemma PhoneNumberHeaderAccepted(a: string, b: string, c: string)
    requires ',' !in a && ',' !in b && ',' !in c
    requires HeaderName(a) == "firstname" && HeaderName(b) == "phone number" && HeaderName(c) == "notes"
    ensures HasRequiredHeaders(HeaderFields(a + [','] + (b + [','] + c)))
  {
    IncludesSelf(HeaderName(a));
    PhoneNumberIncludesPhone(HeaderName(b));
    IncludesSelf(HeaderName(c));
    ThreeFieldsAccepted(a, b, c);
  }
}

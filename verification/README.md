# OFX to CSV converter: a Dafny model

This project models the core of `OfxReader.java`. That program reads an OFX
bank statement line by line and collects one `Transaction` per
`<STMTTRN>` … `</STMTTRN>` record. It then writes the transactions to a
`;`-separated CSV file beside the input.

The model has six modules:

- `Wrappers`: the `Option` and `Result` datatypes.
- `JavaString`: the `java.lang.String` operations the reader relies on, over
  `seq<char>`: `startsWith`, `endsWith`, `trim` (strips characters at most
  U+0020), `replace(t, "")`, `split` on a one-character pattern with Java's
  removal of trailing empty strings, and `String.join`.
- `Transactions`: the mutable `Transaction` class, its value `Record`, the
  six field assignments (`Update`) and the CSV row of `toCsv`.
- `OfxReader`:
  - The loop of `readOfxFile` in two forms. `Run` and `Parse` are the pass
    as a function over values, a two-state machine (Idle: no open
    transaction; Building: one is open). `ReadOfxFile` is the source's loop
    over `Transaction` objects that are allocated and updated in place. It is
    proved to return exactly what `Parse` says, with no object listed twice.
  - `extractValue`, the `split("\\[")[0]` step of DTPOSTED, and the fallback
    of `formatDate`.
  - The path derivation, header and row loop of `saveToCsv`.
- `OfxReaderProofs`: the properties of the pass and of the CSV output.
- `FieldValues`: what each field tag line stores, followed from the line to
  its cell in the CSV row.

The exceptions the source does not catch are results of type `Failure`:

- NullPointerException: a field tag while Idle, or `toCsv` on a null entry.
- NumberFormatException: `Double.parseDouble` on a bad TRNAMT.
- ArrayIndexOutOfBoundsException: a non-empty DTPOSTED value made only of `[`.

Java evaluates the right-hand side of `currentTransaction.f = …` before it
dereferences `currentTransaction`. So a bad TRNAMT while Idle throws
NumberFormatException, not NullPointerException, and the model does the same.

`SimpleDateFormat`, `Double.parseDouble` and `String.format("%.2f", …)` are
the three fields of a `Library` value. They are uninterpreted, and a failed
parse is `None`.

Three consequences of the code are worth stating:

- A field absent from a record stays `null`. `toCsv` writes a null type, date
  or id as the text `null`, and a null name or memo as the empty string
  (`Transactions.BlankRow`).
- An IOException while reading is caught, and the list collected up to that
  point is returned.
- Only the eight prefixes of the if/else-if chain are recognised. Every other
  line, account-level tags such as `<BANKID>` and `<ACCTID>` included, is
  ignored (`OfxReaderProofs.IgnoredLine`).

## Model

| member | source | states |
|---|---|---|
| Transactions.Transaction.constructor | src/main/java/br/com/vulcanum/ofxreader/OfxReader.java:10-16 | A new transaction has null type, date, id, name and memo and a zero amount. |
| Transactions.Transaction.Assign | src/main/java/br/com/vulcanum/ofxreader/OfxReader.java:85-97 | A tag line's assignment changes exactly the targeted field of the object in place; the other five keep their values. |
| Transactions.Record.CsvFields | src/main/java/br/com/vulcanum/ofxreader/OfxReader.java:25-26 | The six cells of `toCsv` in column order: type, date, formatted amount, id, name, memo. `Transactions.BlankRow` states how nulls print and `FieldValues.StoredCell` which cell each tag fills. |
| Transactions.Record.ToCsv | src/main/java/br/com/vulcanum/ofxreader/OfxReader.java:25-27 | The row text; its meaning is stated by `Transactions.ToCsvIsJoin` and `Transactions.CsvRowSplit`. |
| Transactions.ToCsvIsJoin | src/main/java/br/com/vulcanum/ofxreader/OfxReader.java:26 | The row is `String.join` with ';' over the six cells in column order. |
| Transactions.CsvRowSplit | src/main/java/br/com/vulcanum/ofxreader/OfxReader.java:25-27 | A CSV row splits back on ';' into its six cells in column order exactly when no cell contains ';': `toCsv` neither quotes nor escapes. |
| Transactions.BlankRow | src/main/java/br/com/vulcanum/ofxreader/OfxReader.java:26 | The row of a transaction nothing was assigned to: null type, date and id print as `null`, null name and memo as the empty string. |
| JavaString.Trim | src/main/java/br/com/vulcanum/ofxreader/OfxReader.java:81 | The trimmed line neither starts nor ends with a character at most U+0020. |
| JavaString.TrimSlice | src/main/java/br/com/vulcanum/ofxreader/OfxReader.java:81 | What `trim` keeps is one contiguous slice of the line, and every character it drops before or after that slice is at most U+0020. |
| JavaString.Remove | src/main/java/br/com/vulcanum/ofxreader/OfxReader.java:112 | Deleting every occurrence of a token never makes the text longer. |
| JavaString.RemoveAbsent | src/main/java/br/com/vulcanum/ofxreader/OfxReader.java:112 | `replace(t, "")` leaves a text in which `t` does not occur unchanged. |
| JavaString.RemoveKeepsPrefix | src/main/java/br/com/vulcanum/ofxreader/OfxReader.java:112 | Deleting `t` from `a + b` keeps `a` whole when no occurrence of `t` starts inside `a`. |
| JavaString.SplitAll | src/main/java/br/com/vulcanum/ofxreader/OfxReader.java:88 | The pieces between delimiters contain no delimiter, there is at least one, and joining them with the delimiter gives the text back. |
| JavaString.SplitAllJoin | src/main/java/br/com/vulcanum/ofxreader/OfxReader.java:88 | Splitting a join recovers the parts when no part contains the delimiter. |
| JavaString.Join | src/main/java/br/com/vulcanum/ofxreader/OfxReader.java:26 | `String.join` of a single-character separator: the parts with the separator between each pair; `JavaString.SplitAll` and `JavaString.SplitAllJoin` state it is undone by splitting. |
| JavaString.DropTrailingEmpty | src/main/java/br/com/vulcanum/ofxreader/OfxReader.java:88 | `split` with limit 0 keeps a prefix of the pieces that ends in a non-empty piece, and every piece it drops is empty. |
| JavaString.Split | src/main/java/br/com/vulcanum/ofxreader/OfxReader.java:88 | `split` on a one-character pattern, limit 0: the whole text when the character is absent, else the pieces with trailing empty ones removed. Its first element is stated by `JavaString.SplitFirst` and `JavaString.SplitHead`. |
| JavaString.SplitFirst | src/main/java/br/com/vulcanum/ofxreader/OfxReader.java:88 | `split("\\[")` is empty exactly when the value is non-empty and made only of `[`. Otherwise its first element holds no `[` and is the whole value or is followed by `[` in it. |
| JavaString.BeforeFirst | src/main/java/br/com/vulcanum/ofxreader/OfxReader.java:88 | The text before the first `[` is a prefix of the value with no `[` in it, and the value continues with `[` right after it. |
| JavaString.SplitHead | src/main/java/br/com/vulcanum/ofxreader/OfxReader.java:88 | The first element of `split("\\[")`, when there is one, is the text before the first `[`. |
| OfxReader.ClassifyPrefixes | src/main/java/br/com/vulcanum/ofxreader/OfxReader.java:83-101 | The if/else-if chain: a line opens a record exactly when it starts with `<STMTTRN>`, a field line starts with its own tag, a closing line starts with `</STMTTRN>`, and a line is ignored exactly when it starts with none of the eight prefixes. |
| OfxReader.Classify | src/main/java/br/com/vulcanum/ofxreader/OfxReader.java:83-101 | Which branch of the chain a trimmed line takes; stated prefix by prefix in `OfxReader.ClassifyPrefixes`. |
| OfxReader.ExtractValue | src/main/java/br/com/vulcanum/ofxreader/OfxReader.java:111-113 | The extracted value neither starts nor ends with a character at most U+0020. |
| OfxReader.DatePart | src/main/java/br/com/vulcanum/ofxreader/OfxReader.java:88 | The DTPOSTED text before the first `[`, or the exception; `OfxReader.DatePartIsSplit` states it is element 0 of `split("\\[")`. |
| OfxReader.FormatDate | src/main/java/br/com/vulcanum/ofxreader/OfxReader.java:115-126 | The reformatted date, or the raw text when it cannot be parsed; the fallback is stated by `OfxReaderProofs.DateFallback`. |
| OfxReader.DatePartIsSplit | src/main/java/br/com/vulcanum/ofxreader/OfxReader.java:88 | The date text kept is element 0 of `split("\\[")`; it is absent, and the source throws, exactly when that array is empty. |
| OfxReader.Convert | src/main/java/br/com/vulcanum/ofxreader/OfxReader.java:86-97 | Evaluating a tag's value yields an assignment to that tag's field. It fails exactly for a DTPOSTED value whose split array is empty or a TRNAMT value `parseDouble` rejects. |
| OfxReader.Decide | src/main/java/br/com/vulcanum/ofxreader/OfxReader.java:81-101 | Only a field line can fail before the transaction is touched, and never with NullPointerException. An assignment targets the field named by the line's tag. |
| OfxReader.Perform | src/main/java/br/com/vulcanum/ofxreader/OfxReader.java:83-100 | Acting on the open transaction fails exactly for an assignment while Idle, with NullPointerException. Only a closing tag appends, and it appends the open record (null while Idle). An opening tag yields a blank record, and a closing tag leaves the pass Idle. |
| OfxReader.Step | src/main/java/br/com/vulcanum/ofxreader/OfxReader.java:80-101 | One iteration of the loop; stated branch by branch in `OfxReader.StepCases`. |
| OfxReader.Run | src/main/java/br/com/vulcanum/ofxreader/OfxReader.java:80-102 | The loop over the remaining lines, stopping at the first exception; `OfxReaderProofs.RunAppend` and `OfxReaderProofs.RunCount` state its properties. |
| OfxReader.Parse | src/main/java/br/com/vulcanum/ofxreader/OfxReader.java:73-109 | The list `readOfxFile` returns, or its exception; `OfxReader.ReadOfxFile`, `OfxReaderProofs.ParseLength` and `OfxReaderProofs.ParseEntry` state what it holds. |
| OfxReader.StepCases | src/main/java/br/com/vulcanum/ofxreader/OfxReader.java:83-101 | One iteration branch by branch. An opening tag starts a blank record whatever was open. A closing tag appends the open record and goes Idle. An unrecognised line changes nothing. A field tag first evaluates its value, which may throw, and only then dereferences the open transaction. |
| OfxReader.PerformOn | src/main/java/br/com/vulcanum/ofxreader/OfxReader.java:83-100 | The branch bodies on objects (`new Transaction()`, an in-place field write, `transactions.add` followed by `= null`) do to the values what `Perform` does. They keep every object in the list distinct and the open one out of the list. |
| OfxReader.ReadOfxFile | src/main/java/br/com/vulcanum/ofxreader/OfxReader.java:73-109 | The loop returns a list whose values are exactly what `Parse` gives, or the exception `Parse` gives. No object appears twice in the list. |
| OfxReader.CsvPath | src/main/java/br/com/vulcanum/ofxreader/OfxReader.java:130 | The CSV path has the same length as the input path. It differs from it exactly when the path ends with `.ofx` (case-sensitive), and then it ends with `.csv` and agrees with the input before that. |
| OfxReader.CsvRows | src/main/java/br/com/vulcanum/ofxreader/OfxReader.java:138-141 | At most one row per entry, exactly one per entry when the loop ends normally. When a null entry stops it with NullPointerException, the rows written are those before that entry. |
| OfxReader.CsvRowsContent | src/main/java/br/com/vulcanum/ofxreader/OfxReader.java:138-141 | Row `k` is the `toCsv` row of entry `k`, and the loop writes every row without an exception exactly when no entry is null. |
| OfxReader.WriteRows | src/main/java/br/com/vulcanum/ofxreader/OfxReader.java:138-141 | The for-each loop over the list's objects writes exactly the rows and the outcome `CsvRows` gives for their current values. |
| OfxReader.CsvRowsNext | src/main/java/br/com/vulcanum/ofxreader/OfxReader.java:138-141 | One more iteration: a null entry ends the rows with NullPointerException, any other adds its `toCsv` row. |
| OfxReader.CsvFile | src/main/java/br/com/vulcanum/ofxreader/OfxReader.java:134-141 | The file starts with the header `Type;Date;Amount;ID;Name;Memo`, followed by the rows and with the rows' outcome. |
| OfxReader.SaveToCsv | src/main/java/br/com/vulcanum/ofxreader/OfxReader.java:128-148 | The method returns the derived path, and it writes the header and then the rows of the list's current values, as `CsvFile` states. |
| OfxReader.CsvRowsStop | src/main/java/br/com/vulcanum/ofxreader/OfxReader.java:138-141 | Once a null entry has stopped the loop, nothing after it is written. |
| OfxReaderProofs.RunAppend | src/main/java/br/com/vulcanum/ofxreader/OfxReader.java:80-101 | The pass over two pieces of input is the pass over the first continued from its final state over the second, and an exception in the first ends it. |
| OfxReaderProofs.RunCount | src/main/java/br/com/vulcanum/ofxreader/OfxReader.java:98-100 | The list only grows at its end, by exactly one entry per closing line. |
| OfxReaderProofs.ParseLength | src/main/java/br/com/vulcanum/ofxreader/OfxReader.java:98-100 | The returned list has one entry per `</STMTTRN>` line. |
| OfxReaderProofs.ParseEntry | src/main/java/br/com/vulcanum/ofxreader/OfxReader.java:98-100 | The closing line `lines[i]` put its entry at the index equal to the number of closing lines before it. That entry is the record open just before the line, or null when the pass was Idle. |
| OfxReaderProofs.CloseAt | src/main/java/br/com/vulcanum/ofxreader/OfxReader.java:98-100 | Every entry of the list was appended by a closing line, and entry `n` by the one preceded by exactly `n` others. |
| OfxReaderProofs.IgnoredLine | src/main/java/br/com/vulcanum/ofxreader/OfxReader.java:83-101 | Inserting a line that starts with none of the eight prefixes anywhere in the input changes neither the result nor the exception. |
| OfxReaderProofs.IdleField | src/main/java/br/com/vulcanum/ofxreader/OfxReader.java:78 | A field tag while Idle always ends the pass. It ends with NullPointerException exactly when its value evaluates. |
| OfxReaderProofs.IdleClose | src/main/java/br/com/vulcanum/ofxreader/OfxReader.java:98-100 | `</STMTTRN>` while Idle appends a null entry and does not fail. |
| OfxReaderProofs.FieldErrorFirst | src/main/java/br/com/vulcanum/ofxreader/OfxReader.java:88-91 | A value that cannot be evaluated ends the pass with its own exception in any state. |
| OfxReaderProofs.RunSameExcept | src/main/java/br/com/vulcanum/ofxreader/OfxReader.java:85-97 | Inside a record, two open records that differ in one field only go through the same lines alike. They meet the same exception, or end still differing in that field only, with the list untouched. |
| OfxReaderProofs.FieldWrite | src/main/java/br/com/vulcanum/ofxreader/OfxReader.java:85-97 | A field line whose value evaluates assigns its field of the open record and changes nothing else. |
| OfxReaderProofs.OverwriteAgrees | src/main/java/br/com/vulcanum/ofxreader/OfxReader.java:85-97 | Two open records that differ only in field `f` agree after a line that assigns `f`. |
| OfxReaderProofs.OverwriteAfter | src/main/java/br/com/vulcanum/ofxreader/OfxReader.java:85-97 | The same holds when other lines inside the record come before that assignment. |
| OfxReaderProofs.LastWriteWins | src/main/java/br/com/vulcanum/ofxreader/OfxReader.java:85-97 | Last write wins: inside a record, an assignment whose field is assigned again before the record closes has no effect on the pass, provided its own value evaluates. |
| OfxReaderProofs.RunInRecord | src/main/java/br/com/vulcanum/ofxreader/OfxReader.java:85-97 | Lines inside a record whose values all evaluate keep a record open and leave the list alone. |
| OfxReaderProofs.OpenDiscards | src/main/java/br/com/vulcanum/ofxreader/OfxReader.java:83-84 | A second `<STMTTRN>` before `</STMTTRN>` discards the record being built and leaves a blank one open, with the list unchanged. |
| OfxReaderProofs.ExtractEnclosed | src/main/java/br/com/vulcanum/ofxreader/OfxReader.java:111-113 | `extractValue` on `<T>v</T>` is `v` trimmed, when `v` contains neither `<T>` nor `</T>`. |
| OfxReaderProofs.ExtractOpenOnly | src/main/java/br/com/vulcanum/ofxreader/OfxReader.java:111-113 | `extractValue` on `<T>v`, the OFX form without closing tags, is `v` trimmed, under the same condition. |
| OfxReaderProofs.DateAllBrackets | src/main/java/br/com/vulcanum/ofxreader/OfxReader.java:87-88 | A non-empty DTPOSTED value made only of `[` ends the pass with ArrayIndexOutOfBoundsException in any state, Idle included. |
| OfxReaderProofs.DateFallback | src/main/java/br/com/vulcanum/ofxreader/OfxReader.java:120-124 | When the text before the first `[` cannot be parsed as a date, the value assigned is that text unchanged. |
| OfxReaderProofs.DateFallbackStep | src/main/java/br/com/vulcanum/ofxreader/OfxReader.java:87-89 | The same on the open record: its date becomes the text before the first `[`, and nothing else changes. |
| OfxReaderProofs.ConvertFile | src/main/java/br/com/vulcanum/ofxreader/OfxReader.java:98-100 | For a file that parses, the CSV has the header plus one row per closing line when every closing line came while a record was open. The writing stops with an exception exactly when some closing line came while Idle. |
| FieldValues.TagClassified | src/main/java/br/com/vulcanum/ofxreader/OfxReader.java:83-98 | A trimmed line starting with a field's opening tag takes that field's branch of the chain. |
| FieldValues.TagLineValue | src/main/java/br/com/vulcanum/ofxreader/OfxReader.java:111-113 | A tag line `<T>v</T>` or `<T>v` takes field `T`'s branch, and `extractValue` gives `v` trimmed. |
| FieldValues.DecideTagLine | src/main/java/br/com/vulcanum/ofxreader/OfxReader.java:85-97 | A tag line's right-hand side is its trimmed value converted as its field requires, or the exception the conversion throws. |
| FieldValues.FieldValue | src/main/java/br/com/vulcanum/ofxreader/OfxReader.java:85-97 | On the open record, TRNTYPE, FITID, NAME and MEMO store the trimmed text, TRNAMT its `parseDouble` value or NumberFormatException, DTPOSTED `formatDate` of the text before the first `[` or ArrayIndexOutOfBoundsException; nothing else changes. |
| FieldValues.StoredCell | src/main/java/br/com/vulcanum/ofxreader/OfxReader.java:85-97 | A value that converts, once assigned, is the record's CSV cell in that field's column: the text, the formatted amount or the reformatted date. |
| FieldValues.KeepsCell | src/main/java/br/com/vulcanum/ofxreader/OfxReader.java:85-97 | Lines inside a record whose values evaluate and that do not assign `f` keep the record open, leave the list alone and leave the CSV cell of `f` unchanged. |
| FieldValues.FieldToClose | src/main/java/br/com/vulcanum/ofxreader/OfxReader.java:85-100 | On an open record, a tag line for `f`, then lines that do not assign `f` again, then `</STMTTRN>`: one entry is appended, and its CSV cell for `f` is the tag's converted value. |
| FieldValues.RecordTail | src/main/java/br/com/vulcanum/ofxreader/OfxReader.java:83-100 | A whole record whose last tag line for `f` is followed only by lines that do not assign `f` appends one entry, and its CSV cell for `f` is that tag's converted value, whatever the other lines assign. |
| FieldValues.TagToCell | src/main/java/br/com/vulcanum/ofxreader/OfxReader.java:73-109 | From file lines to CSV cell: appending such a record to input that parses appends exactly one entry and keeps the earlier ones. The new entry's cell for every field with a tag line is the converted value of the record's last tag line for that field. |

## Left out

- File chooser: `selectFile` is user interface.
- Console output: the messages of `main`, `Transaction.toString`, and the error lines printed on a bad date or an I/O error.
- `main`: it calls `saveToCsv` only when the list is non-empty. Here the two steps are separate operations, joined by `OfxReaderProofs.ConvertFile` for any list.
- Reading the file:
  - `ReadOfxFile` takes the lines `readLine` delivers, so line splitting is not modelled.
  - An IOException while reading is not modelled. It would return the list collected so far, as if the file ended there.
- Writing the file: `SaveToCsv` returns the lines it writes instead of writing them. An IOException while opening or writing is not modelled.
- Date parsing: the lenient parsing, time zone and calendar rules of `SimpleDateFormat` are a foreign library. `reformatDate` is uninterpreted, and only the fallback of `formatDate` is proved.
- Amounts: `Double.parseDouble` and `String.format("%.2f", …)` are uninterpreted library functions. The amount is a real, so binary rounding and the locale's decimal separator are not modelled.
- Regular expression: the `$` in `replaceAll("\\.ofx$", …)` can also match before a final line terminator. `CsvPath` checks only for a trailing `.ofx`, which is the same for any path without a line terminator.
- Exceptions: a `Failure` names which exception ended the pass, but not the line that raised it. The Java exception does not report the line either.
- JavaString.Remove: its contract bounds only the length. Its exact effect on the inputs `extractValue` sees is stated by `JavaString.RemoveAbsent`, `JavaString.RemoveKeepsPrefix` and `OfxReaderProofs.ExtractEnclosed`.

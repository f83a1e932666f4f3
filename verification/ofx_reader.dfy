/**
 * `OfxReader.readOfxFile` and `OfxReader.saveToCsv` with their helpers
 * `extractValue` and `formatDate`.
 *
 * The reader is a single forward pass over the lines of the file with two
 * states: Idle (no open transaction) and Building (a `Transaction` is open).
 * `Run` is that pass as a function over values; `ReadOfxFile` is the loop of
 * the source over objects, proved to compute what `Run` says.
 */
module OfxReader {
  import opened Wrappers
  import opened JavaString
  import opened Transactions

  /**
   * The library calls whose behaviour belongs to the Java platform:
   * `reformatDate` is `SimpleDateFormat("yyyyMMddHHmmss").parse` followed by
   * `SimpleDateFormat("yyyy-MM-dd HH:mm:ss").format` (None for a
   * ParseException), `parseAmount` is `Double.parseDouble` (None for a
   * NumberFormatException) and `formatAmount` is `String.format("%.2f", _)`.
   */
  datatype Library = Library(
    reformatDate: string -> Option<string>,
    parseAmount: string -> Option<real>,
    formatAmount: real -> string)

  /** The unchecked exceptions that end a pass: nothing in the source catches them. */
  datatype Failure = NullPointer | NumberFormat | IndexOutOfBounds

  function TagName(f: Field): string {
    match f
    case TrnType => "TRNTYPE"
    case DtPosted => "DTPOSTED"
    case TrnAmt => "TRNAMT"
    case FitId => "FITID"
    case Name => "NAME"
    case Memo => "MEMO"
  }

  function OpenTag(tag: string): string {
    "<" + tag + ">"
  }

  function CloseTag(tag: string): string {
    "</" + tag + ">"
  }

  const RecordOpen: string := "<STMTTRN>"
  const RecordClose: string := "</STMTTRN>"

  /** What a trimmed line does to the pass. */
  datatype LineKind = Open | SetsField(field: Field) | Close | Ignored

  /**
   * The if/else-if chain of the loop: the first of the eight prefixes the
   * trimmed line starts with decides what it does.
   */
  function Classify(line: string): LineKind {
    if StartsWith(line, RecordOpen) then Open
    else if StartsWith(line, OpenTag(TagName(TrnType))) then SetsField(TrnType)
    else if StartsWith(line, OpenTag(TagName(DtPosted))) then SetsField(DtPosted)
    else if StartsWith(line, OpenTag(TagName(TrnAmt))) then SetsField(TrnAmt)
    else if StartsWith(line, OpenTag(TagName(FitId))) then SetsField(FitId)
    else if StartsWith(line, OpenTag(TagName(Name))) then SetsField(Name)
    else if StartsWith(line, OpenTag(TagName(Memo))) then SetsField(Memo)
    else if StartsWith(line, RecordClose) then Close
    else Ignored
  }

  /**
   * A line opens a record exactly when it starts with `<STMTTRN>`; a field
   * line starts with its field's opening tag; a closing line starts with
   * `</STMTTRN>`; and a line is ignored exactly when it starts with none of
   * the eight prefixes.
   */
  lemma ClassifyPrefixes(line: string)
    ensures Classify(line) == Open <==> StartsWith(line, RecordOpen)
    ensures Classify(line).SetsField? ==> StartsWith(line, OpenTag(TagName(Classify(line).field)))
    ensures Classify(line) == Close ==> StartsWith(line, RecordClose)
    ensures Classify(line) == Ignored <==>
      !StartsWith(line, RecordOpen) && !StartsWith(line, RecordClose) &&
      forall f: Field :: !StartsWith(line, OpenTag(TagName(f)))
  {
    if Classify(line) == Ignored {
      forall f: Field
        ensures !StartsWith(line, OpenTag(TagName(f)))
      {
        match f
        case TrnType =>
        case DtPosted =>
        case TrnAmt =>
        case FitId =>
        case Name =>
        case Memo =>
      }
    }
  }

  /**
   * `extractValue(line, tag)`: every `<tag>` and then every `</tag>` token is
   * deleted from the line and the rest is trimmed.
   */
  function ExtractValue(line: string, tag: string): (v: string)
    ensures v == [] || (!IsTrimmable(v[0]) && !IsTrimmable(v[|v| - 1]))
  {
    Trim(Remove(Remove(line, OpenTag(tag)), CloseTag(tag)))
  }

  /**
   * `v.split("\\[")[0]`: the text before the first '['. None when the split
   * array is empty, which happens for a non-empty `v` made only of '[', where
   * the source throws ArrayIndexOutOfBoundsException. `DatePartIsSplit`
   * shows this is what Java's `split` gives.
   */
  function DatePart(v: string): Option<string> {
    if v != [] && forall k :: 0 <= k < |v| ==> v[k] == '[' then None
    else Some(BeforeFirst(v, '['))
  }

  /** `DatePart` agrees with the first element of `split("\\[")`, or its absence. */
  lemma DatePartIsSplit(v: string)
    ensures DatePart(v) == if Split(v, '[') == [] then None else Some(Split(v, '[')[0])
  {
    SplitFirst(v, '[');
    SplitHead(v, '[');
  }

  /** `formatDate(raw)`: the reformatted date, or `raw` itself when parsing fails. */
  function FormatDate(raw: string, lib: Library): string {
    match lib.reformatDate(raw)
    case Some(d) => d
    case None => raw
  }

  /**
   * The right-hand side of the assignment for field `f` given the extracted
   * value `v`, evaluated before the transaction reference is dereferenced:
   * DTPOSTED keeps the text before '[' and reformats it, TRNAMT is parsed as a
   * number, the other fields take `v` as it is.
   */
  function Convert(f: Field, v: string, lib: Library): (r: Result<Update, Failure>)
    ensures r.Success? ==> r.value.Target() == f
    ensures r.Failure? <==>
      (f == DtPosted && DatePart(v).None?) || (f == TrnAmt && lib.parseAmount(v).None?)
  {
    match f
    case TrnType => Success(SetType(v))
    case DtPosted =>
      (match DatePart(v)
       case None => Failure(IndexOutOfBounds)
       case Some(raw) => Success(SetDate(FormatDate(raw, lib))))
    case TrnAmt =>
      (match lib.parseAmount(v)
       case None => Failure(NumberFormat)
       case Some(a) => Success(SetAmount(a)))
    case FitId => Success(SetId(v))
    case Name => Success(SetName(v))
    case Memo => Success(SetMemo(v))
  }

  /**
   * What one line asks of the open transaction, once its right-hand side has
   * been evaluated: open a fresh one, assign one field, close it, or nothing.
   */
  datatype Action = Begin | Set(update: Update) | End | Skip

  /**
   * The part of one iteration of the loop that does not touch the open
   * transaction: trim the line, pick the branch of the if/else-if chain and,
   * for a field tag, evaluate the value to assign. Only that evaluation can
   * throw here.
   */
  function Decide(raw: string, lib: Library): (r: Result<Action, Failure>)
    ensures r.Failure? ==> Classify(Trim(raw)).SetsField? && r.error != NullPointer
    ensures r.Success? && r.value.Set? ==> Classify(Trim(raw)) == SetsField(r.value.update.Target())
  {
    match Classify(Trim(raw))
    case Open => Success(Begin)
    case Close => Success(End)
    case Ignored => Success(Skip)
    case SetsField(f) =>
      match Convert(f, ExtractValue(Trim(raw), TagName(f)), lib)
      case Failure(e) => Failure(e)
      case Success(u) => Success(Set(u))
  }

  /**
   * The state of the pass: the open transaction (None while Idle) and the
   * list collected so far, where None is a null entry.
   */
  datatype State = State(current: Option<Record>, done: seq<Option<Record>>)

  const Start := State(None, [])

  /**
   * The effect of an action on the state. Assigning a field while Idle
   * dereferences null.
   */
  function Perform(st: State, a: Action): (r: Result<State, Failure>)
    ensures r.Failure? <==> a.Set? && st.current.None?
    ensures r.Failure? ==> r.error == NullPointer
    ensures r.Success? ==> r.value.done == (if a == End then st.done + [st.current] else st.done)
    ensures r.Success? ==> r.value.current == match a
      case Begin => Some(Blank)
      case Set(u) => Some(Apply(st.current.value, u))
      case End => None
      case Skip => st.current
  {
    match a
    case Begin => Success(State(Some(Blank), st.done))
    case Set(u) =>
      if st.current.None? then Failure(NullPointer)
      else Success(State(Some(Apply(st.current.value, u)), st.done))
    case End => Success(State(None, st.done + [st.current]))
    case Skip => Success(st)
  }

  /** One iteration of the loop on the raw line `line`. */
  function Step(st: State, line: string, lib: Library): Result<State, Failure> {
    match Decide(line, lib)
    case Failure(e) => Failure(e)
    case Success(a) => Perform(st, a)
  }

  /**
   * `Step` branch by branch of the if/else-if chain: an opening tag starts a
   * blank record whatever was open, a closing tag appends the open record
   * (None while Idle) and goes Idle, an unrecognised line changes nothing,
   * and a field tag first evaluates its value, which may throw, and only
   * then dereferences the open transaction.
   */
  lemma StepCases(st: State, line: string, lib: Library)
    ensures Classify(Trim(line)) == Open ==> Step(st, line, lib) == Success(State(Some(Blank), st.done))
    ensures Classify(Trim(line)) == Close ==> Step(st, line, lib) == Success(State(None, st.done + [st.current]))
    ensures Classify(Trim(line)) == Ignored ==> Step(st, line, lib) == Success(st)
    ensures Classify(Trim(line)).SetsField? ==>
      var f := Classify(Trim(line)).field;
      var u := Convert(f, ExtractValue(Trim(line), TagName(f)), lib);
      Step(st, line, lib) ==
        if u.Failure? then Failure(u.error)
        else if st.current.None? then Failure(NullPointer)
        else Success(State(Some(Apply(st.current.value, u.value)), st.done))
  {
  }

  /** The pass from state `st` over `lines`, stopping at the first exception. */
  function Run(st: State, lines: seq<string>, lib: Library): Result<State, Failure>
    decreases |lines|
  {
    if lines == [] then Success(st)
    else
      match Step(st, lines[0], lib)
      case Failure(e) => Failure(e)
      case Success(next) => Run(next, lines[1..], lib)
  }

  /** The pass over a non-empty list of lines is one step followed by the pass over the rest. */
  lemma RunUnfold(st: State, lines: seq<string>, lib: Library)
    requires lines != []
    ensures Step(st, lines[0], lib).Failure? ==> Run(st, lines, lib) == Failure(Step(st, lines[0], lib).error)
    ensures Step(st, lines[0], lib).Success? ==> Run(st, lines, lib) == Run(Step(st, lines[0], lib).value, lines[1..], lib)
  {
  }

  /**
   * What `readOfxFile` returns for a file with these lines: the collected
   * list, or the exception that ended the pass. A transaction still open at
   * the end of the input is dropped.
   */
  function Parse(lines: seq<string>, lib: Library): Result<seq<Option<Record>>, Failure> {
    match Run(Start, lines, lib)
    case Failure(e) => Failure(e)
    case Success(st) => Success(st.done)
  }

  /**
   * The action `a` on the open transaction `current` (null while Idle) and
   * the list `transactions` collected so far: `Begin` allocates a new
   * Transaction, `Set` assigns one field of `current` in place, `End` appends
   * `current` to the list and forgets it. Returns the new open transaction
   * and list, or the exception.
   */
  method PerformOn(a: Action, current: Transaction?, transactions: seq<Transaction?>)
    returns (r: Result<Transaction?, Failure>, ts: seq<Transaction?>)
    requires current != null ==> current !in transactions
    requires NoAlias(transactions)
    modifies current
    ensures r.Failure? ==> Perform(old(State(Snap(current), Values(transactions))), a) == Failure(r.error)
    ensures r.Success? ==>
      Perform(old(State(Snap(current), Values(transactions))), a) == Success(State(Snap(r.value), Values(ts)))
    ensures r.Success? ==> NoAlias(ts) && (r.value != null ==> r.value !in ts && (r.value == current || fresh(r.value)))
  {
    match a {
      case Begin =>
        var t := new Transaction();
        r, ts := Success(t), transactions;
      case Set(u) =>
        if current == null {
          return Failure(NullPointer), transactions;
        }
        current.Assign(u);
        r, ts := Success(current), transactions;
      case End =>
        NoAliasAppend(transactions, current);
        assert (transactions + [current])[..|transactions|] == transactions;
        r, ts := Success(null), transactions + [current];
      case Skip =>
        r, ts := Success(current), transactions;
    }
  }

  /**
   * The loop of `readOfxFile` over the lines of the file. Reading the file is
   * not modelled: an IOException in the middle of the file would end the
   * loop and return the list collected so far, as if the file ended there.
   */
  method ReadOfxFile(lines: seq<string>, lib: Library) returns (r: Result<seq<Transaction?>, Failure>)
    ensures r.Failure? ==> Parse(lines, lib) == Failure(r.error)
    ensures r.Success? ==> Parse(lines, lib) == Success(Values(r.value)) && NoAlias(r.value)
  {
    var transactions: seq<Transaction?> := [];
    var current: Transaction? := null;
    var i := 0;
    while i < |lines|
      invariant 0 <= i <= |lines|
      invariant current != null ==> fresh(current) && current !in transactions
      invariant NoAlias(transactions)
      invariant Run(State(Snap(current), Values(transactions)), lines[i..], lib) == Run(Start, lines, lib)
    {
      ghost var st := State(Snap(current), Values(transactions));
      assert lines[i..][0] == lines[i] && lines[i..][1..] == lines[i + 1..];
      RunUnfold(st, lines[i..], lib);
      // The right-hand side is evaluated before `currentTransaction` is dereferenced.
      var action := Decide(lines[i], lib);
      if action.Failure? {
        return Failure(action.error);
      }
      var next;
      next, transactions := PerformOn(action.value, current, transactions);
      if next.Failure? {
        return Failure(next.error);
      }
      current := next.value;
      i := i + 1;
    }
    r := Success(transactions);
  }

  /** The header line `saveToCsv` writes first. */
  const CsvHeader: string := "Type;Date;Amount;ID;Name;Memo"

  /**
   * `ofxFilePath.replaceAll("\\.ofx$", ".csv")`: a trailing `.ofx` (case
   * sensitive) becomes `.csv`; any other path is kept as it is, so the CSV
   * would overwrite the input file.
   */
  function CsvPath(ofxFilePath: string): (p: string)
    ensures |p| == |ofxFilePath|
    ensures p == ofxFilePath <==> !EndsWith(ofxFilePath, ".ofx")
    ensures EndsWith(ofxFilePath, ".ofx") ==>
      EndsWith(p, ".csv") && p[..|p| - 4] == ofxFilePath[..|ofxFilePath| - 4]
  {
    if EndsWith(ofxFilePath, ".ofx") then
      var p := ofxFilePath[..|ofxFilePath| - 4] + ".csv";
      assert p[|p| - 1] != ofxFilePath[|ofxFilePath| - 1];
      assert p[|p| - 4..] == ".csv";
      p
    else ofxFilePath
  }

  /**
   * What a write to the CSV file leaves behind: the lines written and, when
   * the loop stopped early, the exception that stopped it. Lines written
   * before the exception stay in the file, since closing the writer flushes
   * them.
   */
  datatype Written = Written(lines: seq<string>, failure: Option<Failure>)

  /**
   * The rows the loop of `saveToCsv` writes for the list `recs` (None is a
   * null entry): one `toCsv` row per transaction, in list order, up to the
   * first null entry, whose `toCsv` call throws NullPointerException.
   */
  function CsvRows(recs: seq<Option<Record>>, formatAmount: real -> string): (w: Written)
    ensures |w.lines| <= |recs|
    ensures w.failure.None? ==> |w.lines| == |recs|
    ensures w.failure.Some? ==> |w.lines| < |recs| && w.failure == Some(NullPointer) && recs[|w.lines|].None?
    decreases |recs|
  {
    if recs == [] then Written([], None)
    else
      var w := CsvRows(recs[..|recs| - 1], formatAmount);
      if w.failure.Some? then w
      else
        match recs[|recs| - 1]
        case None => Written(w.lines, Some(NullPointer))
        case Some(rec) => Written(w.lines + [rec.ToCsv(formatAmount)], None)
  }

  /**
   * Row `k` is the `toCsv` of entry `k`, and the loop runs to the end of the
   * list exactly when no entry is null.
   */
  lemma {:induction false} CsvRowsContent(recs: seq<Option<Record>>, formatAmount: real -> string)
    ensures var w := CsvRows(recs, formatAmount);
      forall k :: 0 <= k < |w.lines| ==> recs[k].Some? && w.lines[k] == recs[k].value.ToCsv(formatAmount)
    ensures CsvRows(recs, formatAmount).failure.None? <==> forall k :: 0 <= k < |recs| ==> recs[k].Some?
    decreases |recs|
  {
    if recs != [] {
      var init := recs[..|recs| - 1];
      CsvRowsContent(init, formatAmount);
      assert forall k :: 0 <= k < |init| ==> init[k] == recs[k];
    }
  }

  /** Everything `saveToCsv` writes for the list `recs`: the header, then the rows. */
  function CsvFile(recs: seq<Option<Record>>, formatAmount: real -> string): (w: Written)
    ensures |w.lines| >= 1 && w.lines[0] == CsvHeader
    ensures w.lines[1..] == CsvRows(recs, formatAmount).lines
    ensures w.failure == CsvRows(recs, formatAmount).failure
  {
    var rows := CsvRows(recs, formatAmount);
    Written([CsvHeader] + rows.lines, rows.failure)
  }

  /**
   * `saveToCsv(ofxFilePath, transactions)`: the path of the CSV file and
   * what the header line and the `for` loop over the list write to it.
   * Opening and writing the file are not modelled, so an IOException is not
   * either.
   */
  method SaveToCsv(ofxFilePath: string, transactions: seq<Transaction?>, formatAmount: real -> string)
    returns (csvFilePath: string, out: Written)
    ensures csvFilePath == CsvPath(ofxFilePath)
    ensures out == CsvFile(Values(transactions), formatAmount)
  {
    csvFilePath := CsvPath(ofxFilePath);
    var rows := WriteRows(transactions, formatAmount);
    out := Written([CsvHeader] + rows.lines, rows.failure);
  }

  /**
   * The `for` loop of `saveToCsv`: one `toCsv` line per transaction, in
   * list order, until a null entry throws.
   */
  method WriteRows(transactions: seq<Transaction?>, formatAmount: real -> string) returns (w: Written)
    ensures w == CsvRows(Values(transactions), formatAmount)
  {
    ghost var recs := Values(transactions);
    var rows: seq<string> := [];
    for i := 0 to |transactions|
      invariant CsvRows(recs[..i], formatAmount) == Written(rows, None)
    {
      CsvRowsNext(recs, i, rows, formatAmount);
      var transaction := transactions[i];
      if transaction == null {
        CsvRowsStop(recs, i + 1, formatAmount);
        return Written(rows, Some(NullPointer));
      }
      rows := rows + [transaction.Snapshot().ToCsv(formatAmount)];
    }
    assert recs[..|transactions|] == recs;
    w := Written(rows, None);
  }

  /** The loop's next iteration: the row of entry `i`, or the exception a null entry raises. */
  lemma CsvRowsNext(recs: seq<Option<Record>>, i: nat, rows: seq<string>, formatAmount: real -> string)
    requires i < |recs| && CsvRows(recs[..i], formatAmount) == Written(rows, None)
    ensures recs[i].None? ==> CsvRows(recs[..i + 1], formatAmount) == Written(rows, Some(NullPointer))
    ensures recs[i].Some? ==>
      CsvRows(recs[..i + 1], formatAmount) == Written(rows + [recs[i].value.ToCsv(formatAmount)], None)
  {
    assert recs[..i + 1][..i] == recs[..i];
  }

  /** Once the rows of a prefix end in an exception, the rest of the list is never reached. */
  lemma {:induction false} CsvRowsStop(recs: seq<Option<Record>>, n: nat, formatAmount: real -> string)
    requires n <= |recs|
    requires CsvRows(recs[..n], formatAmount).failure.Some?
    ensures CsvRows(recs, formatAmount) == CsvRows(recs[..n], formatAmount)
    decreases |recs| - n
  {
    if n < |recs| {
      assert recs[..n + 1][..n] == recs[..n];
      CsvRowsStop(recs, n + 1, formatAmount);
    } else {
      assert recs[..n] == recs;
    }
  }
}

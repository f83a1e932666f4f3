/**
 * What a field tag line stores: the text between `<T>` and `</T>` (or after
 * `<T>` when the closing tag is omitted), trimmed, and then converted as
 * the field requires. Carried through a whole record to the CSV cell of
 * that field.
 */
module FieldValues {
  import opened Wrappers
  import opened JavaString
  import opened Transactions
  import opened OfxReader
  import opened OfxReaderProofs

  /**
   * A tag line for field `f` carrying the text `v`: once trimmed it is
   * `<T>v</T>` or `<T>v`, and `v` holds neither `<T>` nor `</T>`.
   */
  predicate TagLine(line: string, f: Field, v: string) {
    var tag := TagName(f);
    (Trim(line) == OpenTag(tag) + v + CloseTag(tag) || Trim(line) == OpenTag(tag) + v) &&
    !Contains(v, OpenTag(tag)) && !Contains(v, CloseTag(tag))
  }

  /** The six tag names are upper-case words. */
  lemma TagNamesUpper(f: Field)
    ensures IsTagName(TagName(f))
  {
    match f
    case TrnType =>
    case DtPosted =>
    case TrnAmt =>
    case FitId =>
    case Name =>
    case Memo =>
  }

  /**
   * A trimmed line that starts with a field's opening tag takes that field's
   * branch: no earlier prefix of the chain matches it.
   */
  lemma TagClassified(line: string, f: Field)
    requires StartsWith(line, OpenTag(TagName(f)))
    ensures Classify(line) == SetsField(f)
  {
    var o := OpenTag(TagName(f));
    assert line[..|o|] == o;
    match f
    case TrnType => assert line[1] == 'T' && line[4] == 'T';
    case DtPosted => assert line[1] == 'D';
    case TrnAmt => assert line[1] == 'T' && line[4] == 'A';
    case FitId => assert line[1] == 'F';
    case Name => assert line[1] == 'N';
    case Memo => assert line[1] == 'M';
  }

  /** A tag line takes its field's branch, and `extractValue` gives the trimmed text. */
  lemma TagLineValue(line: string, f: Field, v: string)
    requires TagLine(line, f, v)
    ensures Kind(line) == SetsField(f)
    ensures ExtractValue(Trim(line), TagName(f)) == Trim(v)
  {
    var tag := TagName(f);
    var t := Trim(line);
    TagNamesUpper(f);
    if t == OpenTag(tag) + v + CloseTag(tag) {
      assert t[..|OpenTag(tag)|] == OpenTag(tag);
      TagClassified(t, f);
      ExtractEnclosed(tag, v);
    } else {
      assert t[..|OpenTag(tag)|] == OpenTag(tag);
      TagClassified(t, f);
      ExtractOpenOnly(tag, v);
    }
  }

  /**
   * The right-hand side a tag line evaluates: its trimmed text converted as
   * its field requires, or the exception that conversion throws.
   */
  lemma DecideTagLine(line: string, f: Field, v: string, lib: Library)
    requires TagLine(line, f, v)
    ensures Decide(line, lib) ==
      match Convert(f, Trim(v), lib)
      case Failure(e) => Failure(e)
      case Success(u) => Success(Set(u))
  {
    TagLineValue(line, f, v);
  }

  /**
   * What a tag line does to the open record: a text field takes the trimmed
   * text, TRNAMT its parsed value, DTPOSTED the reformatted text before the
   * first '['; the other fields and the list are untouched. A value that
   * cannot be converted ends the pass.
   */
  lemma FieldValue(r: Record, done: seq<Option<Record>>, line: string, f: Field, v: string, lib: Library)
    requires TagLine(line, f, v)
    ensures var s := Step(State(Some(r), done), line, lib);
      var w := Trim(v);
      (f == TrnType ==> s == Success(State(Some(r.(trnType := Some(w))), done))) &&
      (f == FitId ==> s == Success(State(Some(r.(id := Some(w))), done))) &&
      (f == Name ==> s == Success(State(Some(r.(name := Some(w))), done))) &&
      (f == Memo ==> s == Success(State(Some(r.(memo := Some(w))), done))) &&
      (f == TrnAmt ==>
         s == (match lib.parseAmount(w)
               case None => Failure(NumberFormat)
               case Some(a) => Success(State(Some(r.(amount := a)), done)))) &&
      (f == DtPosted ==>
         s == (match DatePart(w)
               case None => Failure(IndexOutOfBounds)
               case Some(d) => Success(State(Some(r.(date := Some(FormatDate(d, lib)))), done))))
  {
    DecideTagLine(line, f, v, lib);
  }

  /** The CSV column of each field in `toCsv`. */
  function Column(f: Field): nat {
    match f
    case TrnType => 0
    case DtPosted => 1
    case TrnAmt => 2
    case FitId => 3
    case Name => 4
    case Memo => 5
  }

  /**
   * The text the value `w` of a tag for field `f` is meant to put in the
   * CSV: the text itself, the reformatted date part, or the formatted
   * amount; None when the value cannot be converted.
   */
  function CellText(f: Field, w: string, lib: Library, formatAmount: real -> string): Option<string> {
    match f
    case TrnAmt =>
      (match lib.parseAmount(w)
       case None => None
       case Some(a) => Some(formatAmount(a)))
    case DtPosted =>
      (match DatePart(w)
       case None => None
       case Some(d) => Some(FormatDate(d, lib)))
    case _ => Some(w)
  }

  /** A convertible value, once assigned, is what the record's CSV row shows in that field's column. */
  lemma StoredCell(r: Record, f: Field, w: string, lib: Library, formatAmount: real -> string)
    requires CellText(f, w, lib, formatAmount).Some?
    ensures Convert(f, w, lib).Success?
    ensures Apply(r, Convert(f, w, lib).value).CsvFields(formatAmount)[Column(f)] ==
            CellText(f, w, lib, formatAmount).value
  {
  }

  /** A line inside a record whose value evaluates and that does not assign `f`. */
  predicate SparesField(line: string, f: Field, lib: Library) {
    Settles(line, lib) && Kind(line) != SetsField(f)
  }

  /** Two records that differ at most outside `f` share the CSV cell of `f`. */
  lemma SameCell(r1: Record, r2: Record, g: Field, f: Field, formatAmount: real -> string)
    requires SameExcept(r1, r2, g) && g != f
    ensures r1.CsvFields(formatAmount)[Column(f)] == r2.CsvFields(formatAmount)[Column(f)]
  {
    match f
    case TrnType =>
    case DtPosted =>
    case TrnAmt =>
    case FitId =>
    case Name =>
    case Memo =>
  }

  /**
   * Lines inside a record that spare `f` keep the record open and the list
   * alone, and leave the CSV cell of `f` as it was.
   */
  lemma {:induction false} KeepsCell(r: Record, done: seq<Option<Record>>, tail: seq<string>,
                                     f: Field, lib: Library, formatAmount: real -> string)
    requires forall k {:trigger SparesField(tail[k], f, lib)} :: 0 <= k < |tail| ==> SparesField(tail[k], f, lib)
    ensures var s := Run(State(Some(r), done), tail, lib);
      s.Success? && s.value.done == done && s.value.current.Some? &&
      s.value.current.value.CsvFields(formatAmount)[Column(f)] == r.CsvFields(formatAmount)[Column(f)]
    decreases |tail|
  {
    if tail != [] {
      var line := tail[0];
      assert SparesField(line, f, lib);
      forall k | 0 <= k < |tail[1..]|
        ensures SparesField(tail[1..][k], f, lib)
      {
        assert tail[1..][k] == tail[k + 1];
      }
      RunUnfold(State(Some(r), done), tail, lib);
      StepCases(State(Some(r), done), line, lib);
      if Kind(line).SetsField? {
        FieldWrite(r, done, line, lib);
        var r2 := Apply(r, Decide(line, lib).value.update);
        SameCell(r2, r, Kind(line).field, f, formatAmount);
        KeepsCell(r2, done, tail[1..], f, lib, formatAmount);
      } else {
        KeepsCell(r, done, tail[1..], f, lib, formatAmount);
      }
    }
  }

  /** The head and the tail of a record's lines, split after its opening line. */
  lemma SplitOpen<T>(a: T, m: seq<T>, l: T, t: seq<T>, c: T)
    ensures ([a] + m + [l] + t + [c])[0] == a
    ensures ([a] + m + [l] + t + [c])[1..] == m + ([l] + t + [c])
  {
    assert [a] + m + [l] + t + [c] == [a] + (m + ([l] + t + [c]));
  }

  /** The head and the tail of the lines from a tag line to the closing line. */
  lemma SplitTag<T>(l: T, t: seq<T>, c: T)
    ensures ([l] + t + [c])[0] == l && ([l] + t + [c])[1..] == t + [c]
  {
    assert [l] + t + [c] == [l] + (t + [c]);
  }

  /** Appending a record's lines one by one is appending them as one block. */
  lemma RegroupAfter<T>(xs: seq<T>, a: T, m: seq<T>, l: T, t: seq<T>, c: T)
    ensures xs + [a] + m + [l] + t + [c] == xs + ([a] + m + [l] + t + [c])
  {
  }

  /**
   * The pass ended Idle, having appended to `done` exactly one entry, whose
   * CSV cell for `f` is `cell`.
   */
  predicate ClosedWithCell(after: Result<State, Failure>, done: seq<Option<Record>>, f: Field,
                           cell: string, formatAmount: real -> string) {
    after.Success? && after.value.current.None? &&
    |after.value.done| == |done| + 1 && after.value.done[..|done|] == done &&
    after.value.done[|done|].Some? && after.value.done[|done|].value.CsvFields(formatAmount)[Column(f)] == cell
  }

  /**
   * On an open record, a tag line for `f`, lines that do not assign `f`
   * again and `</STMTTRN>` append one entry, whose CSV cell for `f` is the
   * tag line's converted text, and leave the pass Idle.
   */
  lemma FieldToClose(r: Record, done: seq<Option<Record>>, line: string, tail: seq<string>, close: string,
                     f: Field, v: string, lib: Library, formatAmount: real -> string)
    requires Kind(close) == Close
    requires TagLine(line, f, v) && CellText(f, Trim(v), lib, formatAmount).Some?
    requires forall k {:trigger SparesField(tail[k], f, lib)} :: 0 <= k < |tail| ==> SparesField(tail[k], f, lib)
    ensures ClosedWithCell(Run(State(Some(r), done), [line] + tail + [close], lib), done, f,
                           CellText(f, Trim(v), lib, formatAmount).value, formatAmount)
  {
    var rest := [line] + tail + [close];
    DecideTagLine(line, f, v, lib);
    StoredCell(r, f, Trim(v), lib, formatAmount);
    var r2 := Apply(r, Convert(f, Trim(v), lib).value);
    FieldWrite(r, done, line, lib);
    SplitTag(line, tail, close);
    RunUnfold(State(Some(r), done), rest, lib);
    RunAppend(State(Some(r2), done), tail, [close], lib);
    KeepsCell(r2, done, tail, f, lib, formatAmount);
    var m := Run(State(Some(r2), done), tail, lib).value;
    RunOne(m, close, lib);
    StepCases(m, close, lib);
    assert (done + [m.current])[..|done|] == done;
  }

  /**
   * A record `<STMTTRN>`, lines inside it, a tag line for `f`, more lines
   * that do not assign `f` again, `</STMTTRN>`: the pass appends one entry,
   * whose CSV cell for `f` is the tag line's converted text, whatever the
   * other lines of the record assigned.
   */
  lemma RecordTail(st: State, open: string, mid: seq<string>, line: string, tail: seq<string>, close: string,
                   f: Field, v: string, lib: Library, formatAmount: real -> string)
    requires Kind(open) == Open && Kind(close) == Close
    requires forall k {:trigger Settles(mid[k], lib)} :: 0 <= k < |mid| ==> Settles(mid[k], lib)
    requires TagLine(line, f, v) && CellText(f, Trim(v), lib, formatAmount).Some?
    requires forall k {:trigger SparesField(tail[k], f, lib)} :: 0 <= k < |tail| ==> SparesField(tail[k], f, lib)
    ensures ClosedWithCell(Run(st, [open] + mid + [line] + tail + [close], lib), st.done, f,
                           CellText(f, Trim(v), lib, formatAmount).value, formatAmount)
  {
    var rest := [open] + mid + [line] + tail + [close];
    var rest2 := [line] + tail + [close];
    SplitOpen(open, mid, line, tail, close);
    RunUnfold(st, rest, lib);
    StepCases(st, open, lib);
    RunAppend(State(Some(Blank), st.done), mid, rest2, lib);
    RunInRecord(Blank, st.done, mid, lib);
    var m := Run(State(Some(Blank), st.done), mid, lib).value;
    FieldToClose(m.current.value, st.done, line, tail, close, f, v, lib, formatAmount);
  }

  /**
   * From the file's lines to the CSV cell: appending such a record to input
   * that parses appends exactly one entry to the list, and its CSV cell for
   * `f` is the text of the record's last tag line for `f`, converted as `f`
   * requires.
   */
  lemma TagToCell(xs: seq<string>, open: string, mid: seq<string>, line: string, tail: seq<string>, close: string,
                  f: Field, v: string, lib: Library, formatAmount: real -> string)
    requires Parse(xs, lib).Success?
    requires Kind(open) == Open && Kind(close) == Close
    requires forall k {:trigger Settles(mid[k], lib)} :: 0 <= k < |mid| ==> Settles(mid[k], lib)
    requires TagLine(line, f, v) && CellText(f, Trim(v), lib, formatAmount).Some?
    requires forall k {:trigger SparesField(tail[k], f, lib)} :: 0 <= k < |tail| ==> SparesField(tail[k], f, lib)
    ensures var before := Parse(xs, lib).value;
      var after := Parse(xs + [open] + mid + [line] + tail + [close], lib);
      after.Success? && |after.value| == |before| + 1 && after.value[..|before|] == before &&
      after.value[|before|].Some? &&
      after.value[|before|].value.CsvFields(formatAmount)[Column(f)] ==
        CellText(f, Trim(v), lib, formatAmount).value
  {
    var rest := [open] + mid + [line] + tail + [close];
    RegroupAfter(xs, open, mid, line, tail, close);
    RunAppend(Start, xs, rest, lib);
    RecordTail(Run(Start, xs, lib).value, open, mid, line, tail, close, f, v, lib, formatAmount);
  }
}

/**
 * Properties of the pass of `readOfxFile` and of what `saveToCsv` writes,
 * stated over the functional model in `OfxReader`.
 */
module OfxReaderProofs {
  import opened Wrappers
  import opened JavaString
  import opened Transactions
  import opened OfxReader

  /** What the trimmed `line` does to the pass. */
  function Kind(line: string): LineKind {
    Classify(Trim(line))
  }

  /** The number of lines that close a record. */
  function CountCloses(lines: seq<string>): nat
    decreases |lines|
  {
    if lines == [] then 0
    else (if Kind(lines[0]) == Close then 1 else 0) + CountCloses(lines[1..])
  }

  /** A line that may appear between `<STMTTRN>` and `</STMTTRN>`: a field tag or an ignored line. */
  predicate InRecord(line: string) {
    Kind(line).SetsField? || Kind(line) == Ignored
  }

  /** A line inside a record whose value, if it has one, evaluates. */
  predicate Settles(line: string, lib: Library) {
    InRecord(line) && Decide(line, lib).Success?
  }

  // ---------------------------------------------------------------------
  // The pass as a whole
  // ---------------------------------------------------------------------

  /** The head and the tail of `[a] + m + [b]`. */
  lemma HeadTail<T>(a: T, m: seq<T>, b: T)
    ensures ([a] + m + [b])[0] == a
    ensures ([a] + m + [b])[1..] == m + [b]
  {
    assert ([a] + m + [b])[1..] == m + [b];
  }

  /** The first `j + 1` elements of `s` are its head followed by the first `j` of its tail. */
  lemma PrefixTail<T>(s: seq<T>, j: nat)
    requires j < |s|
    ensures s[..j + 1][0] == s[0]
    ensures s[..j + 1][1..] == s[1..][..j]
  {
  }

  /** The pass over `xs + ys` is the pass over `xs` continued over `ys`. */
  lemma {:induction false} RunAppend(st: State, xs: seq<string>, ys: seq<string>, lib: Library)
    ensures Run(st, xs + ys, lib) ==
      match Run(st, xs, lib)
      case Failure(e) => Failure(e)
      case Success(mid) => Run(mid, ys, lib)
    decreases |xs|
  {
    if xs == [] {
      assert xs + ys == ys;
    } else {
      assert (xs + ys)[0] == xs[0];
      assert (xs + ys)[1..] == xs[1..] + ys;
      match Step(st, xs[0], lib)
      case Failure(e) =>
      case Success(next) =>
        RunAppend(next, xs[1..], ys, lib);
    }
  }

  /**
   * The collected list only grows at its end, and by exactly one entry per
   * closing line.
   */
  lemma {:induction false} RunCount(st: State, lines: seq<string>, lib: Library)
    ensures Run(st, lines, lib).Success? ==>
      st.done <= Run(st, lines, lib).value.done &&
      |Run(st, lines, lib).value.done| == |st.done| + CountCloses(lines)
    decreases |lines|
  {
    if lines != [] {
      StepCases(st, lines[0], lib);
      match Step(st, lines[0], lib)
      case Failure(e) =>
      case Success(next) =>
        RunCount(next, lines[1..], lib);
    }
  }

  /** `readOfxFile` returns one entry per closing line. */
  lemma ParseLength(lines: seq<string>, lib: Library)
    ensures Parse(lines, lib).Success? ==> |Parse(lines, lib).value| == CountCloses(lines)
  {
    RunCount(Start, lines, lib);
  }

  /**
   * The entry appended by the closing line `lines[i]` sits at the index
   * given by the number of closing lines before it, and it is the record
   * open just before that line: None (a null entry) when the pass was Idle.
   */
  lemma ParseEntry(lines: seq<string>, i: nat, lib: Library)
    requires i < |lines| && Kind(lines[i]) == Close
    requires Parse(lines, lib).Success?
    ensures Run(Start, lines[..i], lib).Success?
    ensures CountCloses(lines[..i]) < |Parse(lines, lib).value|
    ensures Parse(lines, lib).value[CountCloses(lines[..i])] == Run(Start, lines[..i], lib).value.current
  {
    assert lines == lines[..i] + lines[i..];
    RunAppend(Start, lines[..i], lines[i..], lib);
    var st := Run(Start, lines[..i], lib).value;
    RunCount(Start, lines[..i], lib);
    StepCases(st, lines[i], lib);
    var next := State(None, st.done + [st.current]);
    assert Run(st, lines[i..], lib) == Run(next, lines[i + 1..], lib) by {
      assert lines[i..][0] == lines[i] && lines[i..][1..] == lines[i + 1..];
    }
    RunCount(next, lines[i + 1..], lib);
    assert next.done[|st.done|] == st.current;
  }

  /** An unrecognised line changes neither the open record nor the list. */
  lemma IgnoredLine(xs: seq<string>, line: string, ys: seq<string>, lib: Library)
    requires Kind(line) == Ignored
    ensures Parse(xs + [line] + ys, lib) == Parse(xs + ys, lib)
  {
    assert xs + [line] + ys == xs + ([line] + ys);
    RunAppend(Start, xs, [line] + ys, lib);
    RunAppend(Start, xs, ys, lib);
    match Run(Start, xs, lib)
    case Failure(e) =>
    case Success(st) =>
      StepCases(st, line, lib);
      assert ([line] + ys)[0] == line && ([line] + ys)[1..] == ys;
  }

  // ---------------------------------------------------------------------
  // Idle and Building
  // ---------------------------------------------------------------------

  /**
   * A field tag while Idle always ends the pass: with NullPointerException
   * when its value evaluates, otherwise with the exception the evaluation
   * throws first.
   */
  lemma IdleField(st: State, line: string, lib: Library)
    requires st.current.None? && Kind(line).SetsField?
    ensures Step(st, line, lib).Failure?
    ensures Step(st, line, lib).error == NullPointer <==> Decide(line, lib).Success?
  {
    StepCases(st, line, lib);
  }

  /** A closing tag while Idle appends a null entry and does not fail. */
  lemma IdleClose(st: State, line: string, lib: Library)
    requires st.current.None? && Kind(line) == Close
    ensures Step(st, line, lib) == Success(State(None, st.done + [None]))
  {
    StepCases(st, line, lib);
  }

  /** A value that cannot be evaluated ends the pass whatever the state, Idle included. */
  lemma FieldErrorFirst(st: State, line: string, lib: Library)
    requires Kind(line).SetsField? && Decide(line, lib).Failure?
    ensures Step(st, line, lib) == Failure(Decide(line, lib).error)
  {
  }

  /** The two records hold the same value in every field except possibly `f`. */
  predicate SameExcept(r1: Record, r2: Record, f: Field) {
    (f != TrnType ==> r1.trnType == r2.trnType) &&
    (f != DtPosted ==> r1.date == r2.date) &&
    (f != TrnAmt ==> r1.amount == r2.amount) &&
    (f != FitId ==> r1.id == r2.id) &&
    (f != Name ==> r1.name == r2.name) &&
    (f != Memo ==> r1.memo == r2.memo)
  }

  /** An assignment changes no field but its target. */
  lemma ApplyOnly(r: Record, u: Update)
    ensures SameExcept(Apply(r, u), r, u.Target())
  {
    match u
    case SetType(_) =>
    case SetDate(_) =>
    case SetAmount(_) =>
    case SetId(_) =>
    case SetName(_) =>
    case SetMemo(_) =>
  }

  /** An assignment keeps two records that differ only in `f` differing only in `f`. */
  lemma ApplySameExcept(r1: Record, r2: Record, f: Field, u: Update)
    requires SameExcept(r1, r2, f)
    ensures SameExcept(Apply(r1, u), Apply(r2, u), f)
    ensures u.Target() == f ==> Apply(r1, u) == Apply(r2, u)
  {
    match u
    case SetType(_) =>
    case SetDate(_) =>
    case SetAmount(_) =>
    case SetId(_) =>
    case SetName(_) =>
    case SetMemo(_) =>
  }

  /**
   * Inside a record, two open records that differ only in field `f` go
   * through the same lines alike: the same exception, or records that
   * still differ only in `f`, with the list untouched.
   */
  lemma {:induction false} RunSameExcept(r1: Record, r2: Record, done: seq<Option<Record>>,
                                         mid: seq<string>, f: Field, lib: Library)
    requires SameExcept(r1, r2, f)
    requires forall k {:trigger InRecord(mid[k])} :: 0 <= k < |mid| ==> InRecord(mid[k])
    ensures Run(State(Some(r1), done), mid, lib).Failure? <==> Run(State(Some(r2), done), mid, lib).Failure?
    ensures Run(State(Some(r1), done), mid, lib).Failure? ==>
      Run(State(Some(r1), done), mid, lib) == Run(State(Some(r2), done), mid, lib)
    ensures Run(State(Some(r1), done), mid, lib).Success? ==>
      var a := Run(State(Some(r1), done), mid, lib).value;
      var b := Run(State(Some(r2), done), mid, lib).value;
      a.done == done && b.done == done && a.current.Some? && b.current.Some? &&
      SameExcept(a.current.value, b.current.value, f)
    decreases |mid|
  {
    if mid != [] {
      assert InRecord(mid[0]);
      forall k | 0 <= k < |mid[1..]|
        ensures InRecord(mid[1..][k])
      {
        assert mid[1..][k] == mid[k + 1];
      }
      var s1 := State(Some(r1), done);
      var s2 := State(Some(r2), done);
      StepCases(s1, mid[0], lib);
      StepCases(s2, mid[0], lib);
      if Kind(mid[0]) == Ignored {
        RunSameExcept(r1, r2, done, mid[1..], f, lib);
      } else {
        var g := Kind(mid[0]).field;
        var u := Convert(g, ExtractValue(Trim(mid[0]), TagName(g)), lib);
        if u.Success? {
          ApplySameExcept(r1, r2, f, u.value);
          RunSameExcept(Apply(r1, u.value), Apply(r2, u.value), done, mid[1..], f, lib);
        }
      }
    }
  }

  /** The pass over a single line is that line's step. */
  lemma RunOne(st: State, line: string, lib: Library)
    ensures Run(st, [line], lib) == Step(st, line, lib)
  {
    assert [line][1..] == [];
  }

  /** A field line whose value evaluates assigns that field of the open record and nothing else. */
  lemma FieldWrite(r: Record, done: seq<Option<Record>>, line: string, lib: Library)
    requires Kind(line).SetsField? && Decide(line, lib).Success?
    ensures Step(State(Some(r), done), line, lib) ==
      Success(State(Some(Apply(r, Decide(line, lib).value.update)), done))
    ensures SameExcept(Apply(r, Decide(line, lib).value.update), r, Kind(line).field)
  {
    StepCases(State(Some(r), done), line, lib);
    ApplyOnly(r, Decide(line, lib).value.update);
  }

  /** Two open records that differ only in `f` agree after a line that assigns `f`. */
  lemma OverwriteAgrees(a: State, b: State, line: string, lib: Library)
    requires Kind(line).SetsField?
    requires a.current.Some? && b.current.Some? && a.done == b.done
    requires SameExcept(a.current.value, b.current.value, Kind(line).field)
    ensures Step(a, line, lib) == Step(b, line, lib)
  {
    var f := Kind(line).field;
    StepCases(a, line, lib);
    StepCases(b, line, lib);
    var v := Convert(f, ExtractValue(Trim(line), TagName(f)), lib);
    if v.Success? {
      ApplySameExcept(a.current.value, b.current.value, f, v.value);
    }
  }

  /**
   * Two open records that differ only in `f` agree once the lines inside
   * the record are followed by a line that assigns `f`.
   */
  lemma OverwriteAfter(r1: Record, r2: Record, done: seq<Option<Record>>, mid: seq<string>,
                       last: string, lib: Library)
    requires Kind(last).SetsField? && SameExcept(r1, r2, Kind(last).field)
    requires forall k {:trigger InRecord(mid[k])} :: 0 <= k < |mid| ==> InRecord(mid[k])
    ensures Run(State(Some(r1), done), mid + [last], lib) == Run(State(Some(r2), done), mid + [last], lib)
  {
    RunAppend(State(Some(r1), done), mid, [last], lib);
    RunAppend(State(Some(r2), done), mid, [last], lib);
    RunSameExcept(r1, r2, done, mid, Kind(last).field, lib);
    var a := Run(State(Some(r1), done), mid, lib);
    var b := Run(State(Some(r2), done), mid, lib);
    if a.Success? {
      RunOne(a.value, last, lib);
      RunOne(b.value, last, lib);
      OverwriteAgrees(a.value, b.value, last, lib);
    }
  }

  /**
   * Last write wins: within a record, an assignment to a field that is
   * assigned again before the record closes has no effect on the pass,
   * provided its own value evaluates.
   */
  lemma LastWriteWins(r: Record, done: seq<Option<Record>>, first: string, mid: seq<string>,
                      last: string, lib: Library)
    requires Kind(first).SetsField? && Kind(last) == Kind(first)
    requires Decide(first, lib).Success?
    requires forall k {:trigger InRecord(mid[k])} :: 0 <= k < |mid| ==> InRecord(mid[k])
    ensures Run(State(Some(r), done), [first] + mid + [last], lib) ==
            Run(State(Some(r), done), mid + [last], lib)
  {
    var st := State(Some(r), done);
    FieldWrite(r, done, first, lib);
    var r1 := Apply(r, Decide(first, lib).value.update);
    HeadTail(first, mid, last);
    RunUnfold(st, [first] + mid + [last], lib);
    OverwriteAfter(r1, r, done, mid, last, lib);
  }

  /**
   * Lines inside a record whose values all evaluate keep a record open and
   * leave the list alone.
   */
  lemma {:induction false} RunInRecord(r: Record, done: seq<Option<Record>>, mid: seq<string>, lib: Library)
    requires forall k {:trigger Settles(mid[k], lib)} :: 0 <= k < |mid| ==> Settles(mid[k], lib)
    ensures Run(State(Some(r), done), mid, lib).Success?
    ensures Run(State(Some(r), done), mid, lib).value.done == done
    ensures Run(State(Some(r), done), mid, lib).value.current.Some?
    decreases |mid|
  {
    if mid != [] {
      assert Settles(mid[0], lib);
      forall k | 0 <= k < |mid[1..]|
        ensures Settles(mid[1..][k], lib)
      {
        assert mid[1..][k] == mid[k + 1];
      }
      StepCases(State(Some(r), done), mid[0], lib);
      var next := Step(State(Some(r), done), mid[0], lib).value;
      RunInRecord(next.current.value, done, mid[1..], lib);
    }
  }

  /**
   * A second `<STMTTRN>` before `</STMTTRN>` discards the record being built
   * and starts a blank one.
   */
  lemma OpenDiscards(st: State, open1: string, mid: seq<string>, open2: string, lib: Library)
    requires Kind(open1) == Open && Kind(open2) == Open
    requires forall k {:trigger Settles(mid[k], lib)} :: 0 <= k < |mid| ==> Settles(mid[k], lib)
    ensures Run(st, [open1] + mid + [open2], lib) == Success(State(Some(Blank), st.done))
  {
    StepCases(st, open1, lib);
    HeadTail(open1, mid, open2);
    RunAppend(State(Some(Blank), st.done), mid, [open2], lib);
    RunInRecord(Blank, st.done, mid, lib);
    var m := Run(State(Some(Blank), st.done), mid, lib).value;
    StepCases(m, open2, lib);
  }

  // ---------------------------------------------------------------------
  // extractValue and DTPOSTED
  // ---------------------------------------------------------------------

  /** A tag name as OFX writes it: upper-case letters. */
  predicate IsTagName(tag: string) {
    forall k :: 0 <= k < |tag| ==> 'A' <= tag[k] <= 'Z'
  }

  /**
   * If `t` holds the character `s2[0]` at no index but 0, an occurrence of
   * `t` in `s1 + s2` that starts inside `s1` lies wholly inside `s1`.
   */
  lemma NoStraddle(s1: string, s2: string, t: string)
    requires s2 != [] && t != []
    requires forall k :: 0 < k < |t| ==> t[k] != s2[0]
    requires !Contains(s1, t)
    ensures forall i :: 0 <= i < |s1| ==> !StartsWith((s1 + s2)[i..], t)
  {
    forall i | 0 <= i < |s1|
      ensures !StartsWith((s1 + s2)[i..], t)
    {
      var w := (s1 + s2)[i..];
      if i + |t| <= |s1| {
        assert !StartsWith(s1[i..], t);
        assert w[..|t|] == s1[i..][..|t|];
      } else if |t| <= |w| {
        var k := |s1| - i;
        assert w[k] == s2[0];
        assert w[..|t|][k] != t[k];
      }
    }
  }

  /** `<tag>` holds '<' only at its start, and `</tag>` does not start with `<tag>`. */
  lemma TagShapes(tag: string)
    requires IsTagName(tag)
    ensures forall k :: 0 < k < |OpenTag(tag)| ==> OpenTag(tag)[k] != '<'
    ensures forall k :: 0 < k < |CloseTag(tag)| ==> CloseTag(tag)[k] != '<'
    ensures !Contains(CloseTag(tag), OpenTag(tag))
  {
    var o := OpenTag(tag);
    var c := CloseTag(tag);
    assert o[1] != '/' by {
      if tag == [] {
        assert o[1] == '>';
      } else {
        assert o[1] == tag[0];
      }
    }
    forall i | 0 <= i <= |c|
      ensures !StartsWith(c[i..], o)
    {
      if i == 0 {
        assert c[..|o|][1] == '/';
      } else if i < |c| {
        assert c[i..][0] != '<';
      }
    }
  }

  /**
   * `extractValue` on `<tag>v</tag>` gives `v` trimmed, when `v` contains
   * neither `<tag>` nor `</tag>`.
   */
  lemma ExtractEnclosed(tag: string, v: string)
    requires IsTagName(tag)
    requires !Contains(v, OpenTag(tag)) && !Contains(v, CloseTag(tag))
    ensures ExtractValue(OpenTag(tag) + v + CloseTag(tag), tag) == Trim(v)
  {
    var o := OpenTag(tag);
    var c := CloseTag(tag);
    TagShapes(tag);
    var line := o + v + c;
    assert StartsWith(line, o);
    assert line[|o|..] == v + c;
    assert Remove(line, o) == Remove(v + c, o);
    NoStraddle(v, c, o);
    RemoveKeepsPrefix(v, c, o);
    RemoveAbsent(c, o);
    assert Remove(line, o) == v + c;
    NoStraddle(v, c, c);
    RemoveKeepsPrefix(v, c, c);
    assert StartsWith(c, c) && c[|c|..] == [];
    assert Remove(c, c) == [];
    assert v + [] == v;
  }

  /**
   * `extractValue` on `<tag>v`, the OFX form without closing tags, gives `v`
   * trimmed, when `v` contains neither `<tag>` nor `</tag>`.
   */
  lemma ExtractOpenOnly(tag: string, v: string)
    requires IsTagName(tag)
    requires !Contains(v, OpenTag(tag)) && !Contains(v, CloseTag(tag))
    ensures ExtractValue(OpenTag(tag) + v, tag) == Trim(v)
  {
    var o := OpenTag(tag);
    var line := o + v;
    assert StartsWith(line, o);
    assert line[|o|..] == v;
    RemoveAbsent(v, o);
    RemoveAbsent(v, CloseTag(tag));
  }

  /**
   * DTPOSTED: a non-empty value made only of '[' ends the pass with
   * ArrayIndexOutOfBoundsException, whatever the state, Idle included.
   */
  lemma DateAllBrackets(st: State, line: string, lib: Library)
    requires Kind(line) == SetsField(DtPosted)
    requires DatePart(ExtractValue(Trim(line), TagName(DtPosted))).None?
    ensures Step(st, line, lib) == Failure(IndexOutOfBounds)
  {
    StepCases(st, line, lib);
  }

  /**
   * DTPOSTED: when the text before the first '[' cannot be reparsed as a
   * date, the value assigned is that text unchanged.
   */
  lemma DateFallback(v: string, lib: Library)
    requires DatePart(v).Some? && lib.reformatDate(DatePart(v).value).None?
    ensures Convert(DtPosted, v, lib) == Success(SetDate(DatePart(v).value))
  {
  }

  /** The same, for the record being built: its date becomes the text before the first '['. */
  lemma DateFallbackStep(st: State, line: string, lib: Library)
    requires Kind(line) == SetsField(DtPosted) && st.current.Some?
    requires DatePart(ExtractValue(Trim(line), TagName(DtPosted))).Some?
    requires lib.reformatDate(DatePart(ExtractValue(Trim(line), TagName(DtPosted))).value).None?
    ensures Step(st, line, lib) ==
      Success(State(Some(st.current.value.(date := DatePart(ExtractValue(Trim(line), TagName(DtPosted))))), st.done))
  {
    var v := ExtractValue(Trim(line), TagName(DtPosted));
    DateFallback(v, lib);
    StepCases(st, line, lib);
    assert Apply(st.current.value, SetDate(DatePart(v).value)) == st.current.value.(date := DatePart(v));
  }

  // ---------------------------------------------------------------------
  // The CSV file
  // ---------------------------------------------------------------------

  /**
   * Converting a file: when the pass succeeds and every closing line came
   * while a record was open, the CSV file is the header plus one row per
   * closing line; a closing line while Idle makes the writing stop with
   * NullPointerException.
   */
  lemma ConvertFile(lines: seq<string>, lib: Library)
    requires Parse(lines, lib).Success?
    ensures var w := CsvFile(Parse(lines, lib).value, lib.formatAmount);
      w.failure.None? ==> |w.lines| == 1 + CountCloses(lines)
    ensures var w := CsvFile(Parse(lines, lib).value, lib.formatAmount);
      w.failure.Some? <==>
        exists i :: 0 <= i < |lines| && Kind(lines[i]) == Close &&
          Run(Start, lines[..i], lib).Success? && Run(Start, lines[..i], lib).value.current.None?
  {
    ParseLength(lines, lib);
    var recs := Parse(lines, lib).value;
    var w := CsvFile(recs, lib.formatAmount);
    CsvRowsContent(recs, lib.formatAmount);
    if w.failure.Some? {
      var n := |CsvRows(recs, lib.formatAmount).lines|;
      assert recs[n].None?;
      var i := CloseAt(lines, n, lib);
      ParseEntry(lines, i, lib);
    } else {
      forall i | 0 <= i < |lines| && Kind(lines[i]) == Close && Run(Start, lines[..i], lib).Success?
        ensures Run(Start, lines[..i], lib).value.current.Some?
      {
        ParseEntry(lines, i, lib);
      }
    }
  }

  /** Whether `line` closes a record. */
  predicate IsClose(line: string) {
    Kind(line) == Close
  }

  /** The number of elements of `xs` that satisfy `p`. */
  function CountWhere<T>(xs: seq<T>, p: T -> bool): nat {
    if xs == [] then 0 else (if p(xs[0]) then 1 else 0) + CountWhere(xs[1..], p)
  }

  /** `CountCloses` counts the lines that satisfy `IsClose`. */
  lemma {:induction false} CountClosesWhere(lines: seq<string>)
    ensures CountCloses(lines) == CountWhere(lines, IsClose)
    decreases |lines|
  {
    if lines != [] {
      CountClosesWhere(lines[1..]);
    }
  }

  /** The position of the element satisfying `p` that is preceded by exactly `n` others. */
  lemma {:induction false} NthWhere<T>(xs: seq<T>, p: T -> bool, n: nat) returns (i: nat)
    requires n < CountWhere(xs, p)
    ensures i < |xs| && p(xs[i]) && CountWhere(xs[..i], p) == n
    decreases |xs|
  {
    if p(xs[0]) && n == 0 {
      i := 0;
      assert xs[..0] == [];
    } else {
      var j := NthWhere(xs[1..], p, if p(xs[0]) then n - 1 else n);
      i := j + 1;
      PrefixTail(xs, j);
    }
  }

  /** The closing line that appended entry `n` of the list. */
  lemma CloseAt(lines: seq<string>, n: nat, lib: Library) returns (i: nat)
    requires n < CountCloses(lines)
    ensures i < |lines| && Kind(lines[i]) == Close && CountCloses(lines[..i]) == n
  {
    CountClosesWhere(lines);
    i := NthWhere(lines, IsClose, n);
    CountClosesWhere(lines[..i]);
  }
}

/**
 * The `Transaction` class of OfxReader.java: a mutable record of one
 * statement line item, its value `Record`, and its CSV row (`toCsv`).
 */
module Transactions {
  import opened Wrappers
  import opened JavaString

  /**
   * The value held by a `Transaction` at one moment. A `None` string field
   * is a Java `null`; `amount` is the double the source stores, taken as a
   * real (rounding is not modelled).
   */
  datatype Record = Record(
    trnType: Option<string>,
    date: Option<string>,
    amount: real,
    id: Option<string>,
    name: Option<string>,
    memo: Option<string>)
  {
    /**
     * The six CSV cells of `toCsv`, in column order. `String.join` writes a
     * null element as the text "null"; name and memo are replaced by "" when
     * null; `formatAmount` stands for `String.format("%.2f", amount)`.
     */
    function CsvFields(formatAmount: real -> string): seq<string> {
      [JavaText(trnType), JavaText(date), formatAmount(amount), JavaText(id),
       OrEmpty(name), OrEmpty(memo)]
    }

    /**
     * `toCsv`: the six cells separated by ';' with no quoting or escaping
     * (`ToCsvIsJoin` shows this is `String.join` over `CsvFields`).
     */
    function ToCsv(formatAmount: real -> string): string {
      JavaText(trnType) + ";" + JavaText(date) + ";" + formatAmount(amount) + ";" +
      JavaText(id) + ";" + OrEmpty(name) + ";" + OrEmpty(memo)
    }
  }

  /** The row is `String.join(";", …)` over the six cells in column order. */
  lemma ToCsvIsJoin(rec: Record, formatAmount: real -> string)
    ensures rec.ToCsv(formatAmount) == Join(rec.CsvFields(formatAmount), ';')
  {
    var cells := rec.CsvFields(formatAmount);
    assert Join(cells[4..], ';') == cells[4] + ";" + cells[5];
    assert Join(cells[3..], ';') == cells[3] + ";" + cells[4] + ";" + cells[5];
    assert Join(cells[2..], ';') == cells[2] + ";" + cells[3] + ";" + cells[4] + ";" + cells[5];
    assert Join(cells[1..], ';') == cells[1] + ";" + cells[2] + ";" + cells[3] + ";" + cells[4] + ";" + cells[5];
  }

  /**
   * A CSV row reads back as its six cells exactly when no cell contains the
   * delimiter: `toCsv` neither quotes nor escapes, so a ';' inside a name or
   * memo shifts every later column.
   */
  lemma CsvRowSplit(rec: Record, formatAmount: real -> string)
    ensures SplitAll(rec.ToCsv(formatAmount), ';') == rec.CsvFields(formatAmount) <==>
      forall k :: 0 <= k < 6 ==> ';' !in rec.CsvFields(formatAmount)[k]
  {
    var cells := rec.CsvFields(formatAmount);
    ToCsvIsJoin(rec, formatAmount);
    if forall k :: 0 <= k < 6 ==> ';' !in cells[k] {
      SplitAllJoin(cells, ';');
    }
  }

  /** The row of a transaction nothing was assigned to: null cells print as "null", name and memo as "". */
  lemma BlankRow(formatAmount: real -> string)
    ensures Blank.ToCsv(formatAmount) == "null;null;" + formatAmount(0.0) + ";null;;"
  {
  }

  /** The six fields a tag line can write. */
  datatype Field = TrnType | DtPosted | TrnAmt | FitId | Name | Memo

  /** An assignment to one field of a transaction (`currentTransaction.type = ...`). */
  datatype Update =
    | SetType(text: string)
    | SetDate(text: string)
    | SetAmount(value: real)
    | SetId(text: string)
    | SetName(text: string)
    | SetMemo(text: string)
  {
    function Target(): Field {
      match this
      case SetType(_) => TrnType
      case SetDate(_) => DtPosted
      case SetAmount(_) => TrnAmt
      case SetId(_) => FitId
      case SetName(_) => Name
      case SetMemo(_) => Memo
    }
  }

  /** The record after the assignment `u`; every other field keeps its value. */
  function Apply(rec: Record, u: Update): Record {
    match u
    case SetType(s) => rec.(trnType := Some(s))
    case SetDate(s) => rec.(date := Some(s))
    case SetAmount(a) => rec.(amount := a)
    case SetId(s) => rec.(id := Some(s))
    case SetName(s) => rec.(name := Some(s))
    case SetMemo(s) => rec.(memo := Some(s))
  }

  /** What `new Transaction()` holds: null strings and a zero amount. */
  const Blank := Record(None, None, 0.0, None, None, None)

  /** `String.valueOf` on a nullable string, as `String.join` applies it. */
  function JavaText(s: Option<string>): string {
    match s
    case None => "null"
    case Some(v) => v
  }

  /** `s != null ? s : ""` */
  function OrEmpty(s: Option<string>): string {
    match s
    case None => ""
    case Some(v) => v
  }

  /** The mutable transaction object the parser fills in field by field. */
  class Transaction {
    var trnType: Option<string>
    var date: Option<string>
    var amount: real
    var id: Option<string>
    var name: Option<string>
    var memo: Option<string>

    constructor ()
      ensures Snapshot() == Blank
    {
      trnType, date, amount := None, None, 0.0;
      id, name, memo := None, None, None;
    }

    /** The field assignment `u`, made in place. */
    method Assign(u: Update)
      modifies this
      ensures Snapshot() == Apply(old(Snapshot()), u)
    {
      match u
      case SetType(s) => trnType := Some(s);
      case SetDate(s) => date := Some(s);
      case SetAmount(a) => amount := a;
      case SetId(s) => id := Some(s);
      case SetName(s) => name := Some(s);
      case SetMemo(s) => memo := Some(s);
    }

    /** The value of the fields now. */
    function Snapshot(): Record
      reads this
    {
      Record(trnType, date, amount, id, name, memo)
    }
  }

  /** The value of a possibly null reference. */
  function Snap(t: Transaction?): (r: Option<Record>)
    reads t
    ensures r.None? <==> t == null
  {
    if t == null then None else Some(t.Snapshot())
  }

  /** The values of a list of possibly null references, position by position. */
  function Values(ts: seq<Transaction?>): (vs: seq<Option<Record>>)
    reads ts
    ensures |vs| == |ts|
    ensures forall k :: 0 <= k < |ts| ==> vs[k] == Snap(ts[k])
    decreases |ts|
  {
    if ts == [] then [] else Values(ts[..|ts| - 1]) + [Snap(ts[|ts| - 1])]
  }

  /** No object appears twice in the list. */
  predicate NoAlias(ts: seq<Transaction?>) {
    forall i, j :: 0 <= i < j < |ts| && ts[i] != null ==> ts[i] != ts[j]
  }

  /** Appending null or an object not yet in the list keeps the list free of aliases. */
  lemma NoAliasAppend(ts: seq<Transaction?>, t: Transaction?)
    requires NoAlias(ts)
    requires t == null || t !in ts
    ensures NoAlias(ts + [t])
  {
    var ts' := ts + [t];
    forall i, j | 0 <= i < j < |ts'| && ts'[i] != null
      ensures ts'[i] != ts'[j]
    {
      if j == |ts| {
        assert ts'[i] == ts[i];
      }
    }
  }
}

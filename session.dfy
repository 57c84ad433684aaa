/** The session state of the converter (app.py:8-12, 69-96): one list of bill
    batches and one list of credit batches, kept across uploads, appended to by
    each processed sheet, concatenated for download and emptied by a reset. */
module Session {
  import opened Seqs
  import opened Results
  import opened Cells
  import opened Frames
  import opened Extraction

  /** A stored batch: a non-empty export frame whose records all carry the class
      of its first record. */
  predicate IsBatch(b: Frame)
  {
    && WellFormed(b) && b.columns == OutputColumns && |b.rows| > 0
    && b.rows[0]["Class"].Str?
    && forall r :: r in b.rows ==> IsRecordOf(r, b.rows[0]["Class"].text)
  }

  predicate IsBillBatch(b: Frame)
  {
    IsBatch(b) && forall r :: r in b.rows ==> PositiveAmount(r)
  }

  predicate IsCreditBatch(b: Frame)
  {
    IsBatch(b) && forall r :: r in b.rows ==> NegativeAmount(r)
  }

  /** The list a batch adds to: nothing when it has no rows. */
  function Appended(b: Frame): (r: seq<Frame>)
    ensures |r| <= 1 && (r == [] <==> |b.rows| == 0)
    ensures |b.rows| > 0 ==> r == [b]
  {
    if |b.rows| == 0 then [] else [b]
  }

  /** The rows of every batch, batch by batch. */
  function RowsOf(batches: seq<Frame>): (r: seq<seq<Row>>)
    ensures |r| == |batches| && forall i :: 0 <= i < |batches| ==> r[i] == batches[i].rows
  {
    seq(|batches|, i requires 0 <= i < |batches| => batches[i].rows)
  }

  /** `pd.concat(batches, ignore_index=True)` over export frames: the output
      columns, and the rows of the first batch, then of the second, and so on. */
  function Consolidated(batches: seq<Frame>): (f: Frame)
    ensures f.columns == OutputColumns
    ensures forall r :: r in f.rows <==> exists i :: 0 <= i < |batches| && r in batches[i].rows
  {
    var rows := Flatten(RowsOf(batches));
    forall r ensures r in rows <==> exists i :: 0 <= i < |batches| && r in batches[i].rows {
      FlattenMember(RowsOf(batches), r);
    }
    Frame(OutputColumns, rows)
  }

  /** Appending a batch appends its rows at the end of the consolidated export and
      leaves the earlier rows where they were. */
  lemma ConsolidatedAppend(batches: seq<Frame>, b: Frame)
    ensures Consolidated(batches + Appended(b)).rows == Consolidated(batches).rows + b.rows
  {
    var bs := batches + Appended(b);
    if |b.rows| == 0 {
      assert bs == batches;
    } else {
      assert RowsOf(bs) == RowsOf(batches) + [b.rows];
      FlattenAppend(RowsOf(batches), b.rows);
    }
  }

  /** The consolidated export of valid batches is a well-formed frame. */
  lemma ConsolidatedWellFormed(batches: seq<Frame>)
    requires forall b :: b in batches ==> IsBatch(b)
    ensures WellFormed(Consolidated(batches))
  {
    var f := Consolidated(batches);
    forall r | r in f.rows ensures r.Keys == Names(OutputColumns) {
      var i :| 0 <= i < |batches| && r in batches[i].rows;
      assert batches[i] in batches;
    }
  }

  /** Both sides of a split have the same columns, so formatting one fails exactly
      when formatting the other does: a sheet never appends its bills and then
      fails on its credits. */
  lemma BatchesAlike(s: Split, parse: DateParser)
    requires WellFormed(s.bills) && WellFormed(s.credits) && s.bills.columns == s.credits.columns
    ensures FormatOutput(s.bills, parse).Err? == FormatOutput(s.credits, parse).Err?
  {
  }

  /** The batches of a successful extraction are fit to be stored. */
  lemma StoredBatches(sheet: seq<seq<Cell>>, classLabel: string, parse: DateParser)
    requires Extract(sheet, classLabel, parse).Extracted?
    ensures var o := Extract(sheet, classLabel, parse);
      && (|o.bills.rows| > 0 ==> IsBillBatch(o.bills))
      && (|o.credits.rows| > 0 ==> IsCreditBatch(o.credits))
  {
    var sp := SplitSheet(sheet, classLabel, parse).sides;
    assert Extract(sheet, classLabel, parse) == FormatSplit(sp, parse);
    DividedRows(sheet, classLabel, parse);
    StoredSplit(sp, classLabel, parse);
  }

  /** The batches formatted from a split of stamped rows are fit to be stored. */
  lemma StoredSplit(sp: Split, classLabel: string, parse: DateParser)
    requires WellFormed(sp.bills) && WellFormed(sp.credits)
    requires forall r :: r in sp.bills.rows ==> Stamped(r, classLabel, parse) && IsBill(r)
    requires forall r :: r in sp.credits.rows ==> Stamped(r, classLabel, parse) && IsCredit(r)
    requires FormatSplit(sp, parse).Extracted?
    ensures var o := FormatSplit(sp, parse);
      && (|o.bills.rows| > 0 ==> IsBillBatch(o.bills))
      && (|o.credits.rows| > 0 ==> IsCreditBatch(o.credits))
  {
    var o := FormatSplit(sp, parse);
    SplitRecords(sp, classLabel, parse);
    if |o.bills.rows| > 0 {
      assert o.bills.rows[0] in o.bills.rows;
    }
    if |o.credits.rows| > 0 {
      assert o.credits.rows[0] in o.credits.rows;
    }
  }

  /** One side of a split, formatted: a stored batch of that side's sign. */
  lemma StoredSide(side: Frame, classLabel: string, parse: DateParser, positive: bool)
    requires WellFormed(side) && |side.rows| > 0
    requires forall r :: r in side.rows ==>
               Stamped(r, classLabel, parse) && if positive then IsBill(r) else IsCredit(r)
    requires FormatOutput(side, parse).Ok?
    ensures var b := FormatOutput(side, parse).value;
      if positive then IsBillBatch(b) else IsCreditBatch(b)
  {
    var b := FormatOutput(side, parse).value;
    SignedRecords(side.rows, classLabel, parse, positive);
    assert b.rows[0] in b.rows;
  }

  /** `st.session_state.bills` and `st.session_state.credits`. */
  class Accumulator {
    var bills: seq<Frame>
    var credits: seq<Frame>

    /** Only non-empty export batches are stored, bills positive and credits negative. */
    ghost predicate Valid()
      reads this
    {
      && (forall b :: b in bills ==> IsBillBatch(b))
      && (forall b :: b in credits ==> IsCreditBatch(b))
    }

    /** Lines 8-12: a new session starts with two empty lists. */
    constructor ()
      ensures bills == [] && credits == []
      ensures Valid()
    {
      bills := [];
      credits := [];
    }

    /** Lines 19-80: one submitted sheet. Without a class nothing is processed.
        Otherwise the outcome is that of the extraction; the bills batch is
        appended when it has rows, then the credits batch likewise, and a sheet
        that fails or selects nothing leaves both lists as they were. */
    method Submit(sheet: seq<seq<Cell>>, classLabel: string, parse: DateParser) returns (outcome: Option<Outcome>)
      requires Valid()
      modifies this
      ensures Valid()
      ensures classLabel == "" <==> outcome.None?
      ensures outcome.Some? ==> outcome.value == Extract(sheet, classLabel, parse)
      ensures outcome.Some? && outcome.value.Extracted? ==>
                && bills == old(bills) + Appended(outcome.value.bills)
                && credits == old(credits) + Appended(outcome.value.credits)
      ensures !(outcome.Some? && outcome.value.Extracted?) ==>
                bills == old(bills) && credits == old(credits)
    {
      if classLabel == "" {
        return None;
      }
      var stage := SplitSheet(sheet, classLabel, parse);
      if stage.Decided? {
        return Some(stage.outcome);
      }
      DividedRows(sheet, classLabel, parse);
      var recorded := Record(stage.sides, classLabel, parse);
      return Some(recorded);
    }

    /** Lines 69-77: the bills side is formatted and appended when it has rows, then
        the credits side likewise. Both sides have the same columns, so a failure
        can only come before anything was appended. */
    method Record(split: Split, classLabel: string, parse: DateParser) returns (outcome: Outcome)
      requires Valid()
      requires WellFormed(split.bills) && WellFormed(split.credits)
      requires split.bills.columns == split.credits.columns
      requires forall r :: r in split.bills.rows ==> Stamped(r, classLabel, parse) && IsBill(r)
      requires forall r :: r in split.credits.rows ==> Stamped(r, classLabel, parse) && IsCredit(r)
      modifies this
      ensures Valid()
      ensures outcome == FormatSplit(split, parse)
      ensures outcome.Extracted? ==>
                && bills == old(bills) + Appended(outcome.bills)
                && credits == old(credits) + Appended(outcome.credits)
      ensures !outcome.Extracted? ==> bills == old(bills) && credits == old(credits)
    {
      BatchesAlike(split, parse);
      var formattedBills := StoreBills(split.bills, classLabel, parse);
      if formattedBills.Err? {
        return Failed(formattedBills.error);
      }
      var formattedCredits := StoreCredits(split.credits, classLabel, parse);
      if formattedCredits.Err? {
        return Failed(formattedCredits.error);
      }
      outcome := Extracted(formattedBills.value, formattedCredits.value);
    }

    /** Lines 69-72: a non-empty bills side is formatted and appended. */
    method StoreBills(side: Frame, classLabel: string, parse: DateParser) returns (formatted: Result<Frame>)
      requires Valid() && WellFormed(side)
      requires forall r :: r in side.rows ==> Stamped(r, classLabel, parse) && IsBill(r)
      modifies this
      ensures Valid()
      ensures formatted == BatchOf(side, parse)
      ensures credits == old(credits)
      ensures bills == if formatted.Ok? then old(bills) + Appended(formatted.value) else old(bills)
    {
      formatted := BatchOf(side, parse);
      if |side.rows| > 0 && formatted.Ok? {
        StoredSide(side, classLabel, parse, true);
        bills := bills + [formatted.value];
      }
    }

    /** Lines 74-77: a non-empty credits side is formatted and appended. */
    method StoreCredits(side: Frame, classLabel: string, parse: DateParser) returns (formatted: Result<Frame>)
      requires Valid() && WellFormed(side)
      requires forall r :: r in side.rows ==> Stamped(r, classLabel, parse) && IsCredit(r)
      modifies this
      ensures Valid()
      ensures formatted == BatchOf(side, parse)
      ensures bills == old(bills)
      ensures credits == if formatted.Ok? then old(credits) + Appended(formatted.value) else old(credits)
    {
      formatted := BatchOf(side, parse);
      if |side.rows| > 0 && formatted.Ok? {
        StoredSide(side, classLabel, parse, false);
        credits := credits + [formatted.value];
      }
    }

    /** Lines 83-86: the consolidated bills, offered only when some batch exists;
        every exported row is a positive record, in submission order. */
    method ExportBills() returns (all: Option<Frame>)
      requires Valid()
      ensures all.None? <==> bills == []
      ensures all.Some? ==> WellFormed(all.value) && all.value.columns == OutputColumns
      ensures all.Some? ==> all.value.rows == Flatten(RowsOf(bills))
      ensures all.Some? ==> forall r :: r in all.value.rows ==> PositiveAmount(r)
    {
      if bills == [] {
        return None;
      }
      var f := Consolidated(bills);
      ConsolidatedWellFormed(bills);
      forall r | r in f.rows ensures PositiveAmount(r) {
        var i :| 0 <= i < |bills| && r in bills[i].rows;
        assert bills[i] in bills;
      }
      return Some(f);
    }

    /** Lines 88-91: the consolidated credits, likewise. */
    method ExportCredits() returns (all: Option<Frame>)
      requires Valid()
      ensures all.None? <==> credits == []
      ensures all.Some? ==> WellFormed(all.value) && all.value.columns == OutputColumns
      ensures all.Some? ==> all.value.rows == Flatten(RowsOf(credits))
      ensures all.Some? ==> forall r :: r in all.value.rows ==> NegativeAmount(r)
    {
      if credits == [] {
        return None;
      }
      var f := Consolidated(credits);
      ConsolidatedWellFormed(credits);
      forall r | r in f.rows ensures NegativeAmount(r) {
        var i :| 0 <= i < |credits| && r in credits[i].rows;
        assert credits[i] in credits;
      }
      return Some(f);
    }

    /** Lines 94-96: both lists are emptied. */
    method Reset()
      modifies this
      ensures bills == [] && credits == []
      ensures Valid()
    {
      bills := [];
      credits := [];
    }
  }
}

/** One spreadsheet cell as the pipeline sees it after the workbook is decoded. */
module Cells {
  import opened Text
  import opened Dates

  /** Text, a number, a date-time, or an empty cell (pandas' missing value, NaN). */
  datatype Cell = Str(text: string) | Num(x: real) | When(date: Date) | Blank

  /** What `astype(str)` makes of a missing cell. */
  const MissingText := "nan"

  /** The selection marker test: the cell converted to text and lower-cased equals "x".
      The text of a number or of a date-time always contains a digit, so it never
      equals "x"; a missing cell has already become "nan" when `fillna` would act. */
  predicate Marked(c: Cell)
  {
    match c
    case Str(s) => Lower(s) == "x"
    case Blank => Lower(MissingText) == "x"
    case Num(_) => false
    case When(_) => false
  }

  /** Exactly the one-letter texts "x" and "X" mark a row; nothing is trimmed. */
  lemma MarkedIff(c: Cell)
    ensures Marked(c) <==> c == Str("x") || c == Str("X")
  {
    match c
    case Str(s) =>
      if Lower(s) == "x" {
        assert |s| == 1 && LowerChar(s[0]) == 'x';
        assert s == [s[0]];
      }
    case Blank =>
      assert Lower(MissingText)[0] == 'n';
    case _ =>
  }

  /** The marker cases the selection has to get right. */
  lemma MarkerCases()
    ensures Marked(Str("x")) && Marked(Str("X"))
    ensures !Marked(Str("X ")) && !Marked(Str(" x")) && !Marked(Str("")) && !Marked(Str("y"))
    ensures !Marked(Blank) && !Marked(Str("nan"))
  {
    MarkedIff(Str("X "));
    MarkedIff(Str(" x"));
    MarkedIff(Str(""));
    MarkedIff(Str("y"));
    MarkedIff(Blank);
    MarkedIff(Str("nan"));
  }
}

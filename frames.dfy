/** A data frame reduced to what the pipeline uses: an ordered list of distinct
    column names and a list of rows, each row a map from column name to cell. */
module Frames {
  import opened Seqs
  import opened Cells

  type Row = map<string, Cell>

  datatype Frame = Frame(columns: seq<string>, rows: seq<Row>)

  function Names(columns: seq<string>): set<string>
  {
    set c | c in columns
  }

  /** Column names are distinct and every row has a cell under exactly those names. */
  predicate WellFormed(f: Frame)
  {
    Distinct(f.columns) && forall r :: r in f.rows ==> r.Keys == Names(f.columns)
  }

  /** Boolean row indexing `df[mask]`: the rows that satisfy `p`, in their order,
      each as many times as it occurs in `f`. */
  function FilterRows(f: Frame, p: Row -> bool): (g: Frame)
    requires WellFormed(f)
    ensures WellFormed(g) && g.columns == f.columns
    ensures forall r :: r in g.rows <==> r in f.rows && p(r)
    ensures forall r :: multiset(g.rows)[r] == if p(r) then multiset(f.rows)[r] else 0
    ensures IsSubseq(g.rows, f.rows)
  {
    KeepSound(f.rows, p);
    KeepIsSubseq(f.rows, p);
    forall r | r in f.rows && p(r) ensures r in Keep(f.rows, p) {
      KeepComplete(f.rows, p, r);
    }
    forall r ensures multiset(Keep(f.rows, p))[r] == if p(r) then multiset(f.rows)[r] else 0 {
      KeepCount(f.rows, p, r);
    }
    Frame(f.columns, Keep(f.rows, p))
  }

  /** `rename(columns={from: to})`: the column keeps its position and its cells. */
  function RenameColumn(f: Frame, from: string, to: string): (g: Frame)
    requires WellFormed(f) && from in f.columns && to !in f.columns
    ensures WellFormed(g)
    ensures |g.columns| == |f.columns|
    ensures forall i :: 0 <= i < |f.columns| ==>
              g.columns[i] == if f.columns[i] == from then to else f.columns[i]
    ensures Names(g.columns) == Names(f.columns) - {from} + {to}
    ensures |g.rows| == |f.rows|
    ensures forall k :: 0 <= k < |f.rows| ==> to in g.rows[k] && g.rows[k][to] == f.rows[k][from]
    ensures forall k, c :: 0 <= k < |f.rows| && c in f.rows[k] && c != from ==>
              c in g.rows[k] && g.rows[k][c] == f.rows[k][c]
  {
    var cols := seq(|f.columns|, i requires 0 <= i < |f.columns| =>
                      if f.columns[i] == from then to else f.columns[i]);
    var rows := seq(|f.rows|, k requires 0 <= k < |f.rows| =>
                      (f.rows[k] - {from})[to := f.rows[k][from]]);
    assert Names(cols) == Names(f.columns) - {from} + {to} by {
      forall c | c in Names(f.columns) - {from} + {to} ensures c in Names(cols) {
        if c == to {
          var i :| 0 <= i < |f.columns| && f.columns[i] == from;
          assert cols[i] == to;
        } else {
          var i :| 0 <= i < |f.columns| && f.columns[i] == c;
          assert cols[i] == c;
        }
      }
    }
    forall r | r in rows ensures r.Keys == Names(cols) {
      var k :| 0 <= k < |rows| && rows[k] == r;
      assert f.rows[k] in f.rows;
    }
    Frame(cols, rows)
  }

  /** `df.loc[:, ~mask]` over column names: the columns that fail `p` remain, in
      their order, and every row keeps its cells under them. */
  function DropColumnsWhere(f: Frame, p: string -> bool): (g: Frame)
    requires WellFormed(f)
    ensures WellFormed(g)
    ensures forall c :: c in g.columns <==> c in f.columns && !p(c)
    ensures IsSubseq(g.columns, f.columns)
    ensures |g.rows| == |f.rows|
    ensures forall k, c :: 0 <= k < |f.rows| && c in g.rows[k] ==>
              c in f.rows[k] && g.rows[k][c] == f.rows[k][c]
  {
    var keep := c => !p(c);
    var cols := Keep(f.columns, keep);
    KeepSound(f.columns, keep);
    KeepIsSubseq(f.columns, keep);
    KeepDistinct(f.columns, keep);
    forall c | c in f.columns && !p(c) ensures c in cols {
      KeepComplete(f.columns, keep, c);
    }
    var rows := seq(|f.rows|, k requires 0 <= k < |f.rows| =>
                      map c | c in f.rows[k] && !p(c) :: f.rows[k][c]);
    forall r | r in rows ensures r.Keys == Names(cols) {
      var k :| 0 <= k < |rows| && rows[k] == r;
      assert f.rows[k] in f.rows;
    }
    Frame(cols, rows)
  }

  /** `df.drop(columns=[name])` for a column that is present. */
  function DropColumn(f: Frame, name: string): (g: Frame)
    requires WellFormed(f)
    ensures WellFormed(g)
    ensures forall c :: c in g.columns <==> c in f.columns && c != name
    ensures |g.rows| == |f.rows|
    ensures forall k, c :: 0 <= k < |f.rows| && c in f.rows[k] && c != name ==>
              c in g.rows[k] && g.rows[k][c] == f.rows[k][c]
  {
    var g := DropColumnsWhere(f, c => c == name);
    forall k, c | 0 <= k < |f.rows| && c in f.rows[k] && c != name
      ensures c in g.rows[k]
    {
      assert f.rows[k] in f.rows && g.rows[k] in g.rows;
    }
    g
  }

  /** `df[name] = v`: every row gets `v` under `name`; a new column goes last, an
      existing one keeps its place. */
  function SetColumn(f: Frame, name: string, v: Cell): (g: Frame)
    requires WellFormed(f)
    ensures WellFormed(g)
    ensures g.columns == if name in f.columns then f.columns else f.columns + [name]
    ensures |g.rows| == |f.rows|
    ensures forall k :: 0 <= k < |f.rows| ==> g.rows[k] == f.rows[k][name := v]
  {
    var cols := if name in f.columns then f.columns else f.columns + [name];
    assert Distinct(cols);
    var rows := seq(|f.rows|, k requires 0 <= k < |f.rows| => f.rows[k][name := v]);
    forall r | r in rows ensures r.Keys == Names(cols) {
      var k :| 0 <= k < |rows| && rows[k] == r;
      assert f.rows[k] in f.rows;
    }
    Frame(cols, rows)
  }
}

/** The part of a pandas DataFrame that the feature-table builder uses: an ordered
    list of columns, a row index 0..nrows-1, and the cells that hold a value. A
    cell that is not in the map is missing (NaN in pandas). Writing a cell with
    `df.loc[row, col] = v` appends `col` to the columns when it is new; the other
    rows of a new column stay missing. Columns are identified by values of a type
    `C` with equality; pandas identifies them by their label, so `C` stands for
    whatever determines the label uniquely. */
module Frames {
  import opened Python

  /** A numeric feature value; no arithmetic is done on it here. */
  type Value

  /** What a cell can hold: a file name, a class label, or a feature value. */
  datatype Cell = Text(s: string) | Int(i: int) | Num(v: Value)

  /** A cell address: (row label, column). */
  type Key<C(==)> = (nat, C)

  /** One assignment `df.loc[row, col] = cell`. */
  datatype Write<C(==)> = Write(row: nat, col: C, cell: Cell)

  /** A frame whose columns are identified by values of type `C`. */
  datatype Frame<C(==)> = Frame(nrows: nat, columns: seq<C>, cells: map<Key<C>, Cell>)

  predicate Distinct<C(==)>(s: seq<C>)
  {
    forall i, j :: 0 <= i < j < |s| ==> s[i] != s[j]
  }

  /** Columns are unique, and every stored cell lies in an existing row and column. */
  predicate WellFormed<C(!new)>(f: Frame<C>)
  {
    && Distinct(f.columns)
    && forall key :: key in f.cells ==> key.0 < f.nrows && key.1 in f.columns
  }

  /** The two-column frame `pd.DataFrame.from_dict({c1: v1, c2: v2})`. */
  function TwoColumnFrame<C(==)>(c1: C, v1: seq<Cell>, c2: C, v2: seq<Cell>): (f: Frame<C>)
    requires c1 != c2 && |v1| == |v2|
    ensures f.nrows == |v1| && f.columns == [c1, c2]
    ensures forall key :: key in f.cells ==> key.0 < |v1| && (key.1 == c1 || key.1 == c2)
    ensures forall j :: 0 <= j < |v1| ==> (j, c1) in f.cells && f.cells[(j, c1)] == v1[j]
    ensures forall j :: 0 <= j < |v2| ==> (j, c2) in f.cells && f.cells[(j, c2)] == v2[j]
  {
    Frame(|v1|, [c1, c2], TwoColumnCells(c1, v1, c2, v2, |v1|))
  }

  /** The cells of the first `n` rows of that frame. */
  function TwoColumnCells<C(==)>(c1: C, v1: seq<Cell>, c2: C, v2: seq<Cell>, n: nat): (m: map<Key<C>, Cell>)
    requires c1 != c2 && n <= |v1| == |v2|
    ensures forall key :: key in m ==> key.0 < n && (key.1 == c1 || key.1 == c2)
    ensures forall j :: 0 <= j < n ==> (j, c1) in m && m[(j, c1)] == v1[j]
    ensures forall j :: 0 <= j < n ==> (j, c2) in m && m[(j, c2)] == v2[j]
  {
    if n == 0 then map[]
    else TwoColumnCells(c1, v1, c2, v2, n - 1)[(n - 1, c1) := v1[n - 1]][(n - 1, c2) := v2[n - 1]]
  }

  /** In a list without repeats, the elements after position `n` are those not among the first `n`. */
  lemma SuffixMembers<C>(s: seq<C>, n: nat, x: C)
    requires Distinct(s) && n <= |s|
    ensures x in s[n..] <==> x in s && x !in s[..n]
  {
    if x in s[n..] {
      var p :| 0 <= p < |s[n..]| && s[n..][p] == x;
      assert s[n + p] == x;
    }
    if x in s && x !in s[..n] {
      var p :| 0 <= p < |s| && s[p] == x;
      assert s[n..][p - n] == x;
    }
  }

  /** The effect of `df.loc[w.row, w.col] = w.cell` on an existing row. */
  function Apply<C(==)>(f: Frame<C>, w: Write<C>): Frame<C>
  {
    Frame(f.nrows,
          if w.col in f.columns then f.columns else f.columns + [w.col],
          f.cells[(w.row, w.col) := w.cell])
  }

  /** The frame after a sequence of assignments, performed in order. */
  function ApplyAll<C(==)>(f: Frame<C>, ws: seq<Write<C>>): Frame<C>
  {
    if ws == [] then f else Apply(ApplyAll(f, ws[..|ws| - 1]), ws[|ws| - 1])
  }

  /** The value of the last assignment to `key` in `ws`, if there is one. */
  function LastWrite<C(==)>(ws: seq<Write<C>>, key: Key<C>): Option<Cell>
  {
    if ws == [] then None
    else if (ws[|ws| - 1].row, ws[|ws| - 1].col) == key then Some(ws[|ws| - 1].cell)
    else LastWrite(ws[..|ws| - 1], key)
  }

  /** The column names written by `ws`, in write order (with repetitions). The
      ensures only spells out the definition element by element, for the verifier. */
  function ColumnsOf<C(==)>(ws: seq<Write<C>>): (cs: seq<C>)
    ensures |cs| == |ws| && forall i :: 0 <= i < |ws| ==> cs[i] == ws[i].col
  {
    seq(|ws|, i requires 0 <= i < |ws| => ws[i].col)
  }

  /** The position of the first occurrence of `x` in `s`. */
  function FirstIndex<C(==)>(s: seq<C>, x: C): (i: nat)
    requires x in s
    ensures i < |s| && s[i] == x && x !in s[..i]
  {
    if s[0] == x then 0 else 1 + FirstIndex(s[1..], x)
  }

  // ----- lemmas --------------------------------------------------------------

  /** After a sequence of assignments a cell holds the last value written to it;
      a cell never written keeps what it had, and is missing if it was missing. */
  lemma {:induction false} ApplyAllCells<C>(f: Frame<C>, ws: seq<Write<C>>, key: Key<C>)
    ensures var g := ApplyAll(f, ws);
      && (key in g.cells <==> LastWrite(ws, key).Some? || key in f.cells)
      && (LastWrite(ws, key).Some? ==> g.cells[key] == LastWrite(ws, key).value)
      && (LastWrite(ws, key).None? && key in f.cells ==> g.cells[key] == f.cells[key])
  {
    if ws != [] {
      ApplyAllCells(f, ws[..|ws| - 1], key);
    }
  }

  /** Assignments to existing rows never change the row count, and the frame stays
      well formed. */
  lemma {:induction false} ApplyAllRows<C(!new)>(f: Frame<C>, ws: seq<Write<C>>)
    requires WellFormed(f)
    requires forall i :: 0 <= i < |ws| ==> ws[i].row < f.nrows
    ensures ApplyAll(f, ws).nrows == f.nrows
    ensures WellFormed(ApplyAll(f, ws))
  {
    if ws != [] {
      ApplyAllRows(f, ws[..|ws| - 1]);
    }
  }

  /** The last write to a key in a concatenation comes from the second part if it
      writes that key at all, otherwise from the first. */
  lemma {:induction false} LastWriteConcat<C>(a: seq<Write<C>>, b: seq<Write<C>>, key: Key<C>)
    ensures LastWrite(a + b, key) == if LastWrite(b, key).Some? then LastWrite(b, key) else LastWrite(a, key)
  {
    if b == [] {
      assert a + b == a;
    } else {
      assert (a + b)[..|a + b| - 1] == a + b[..|b| - 1];
      LastWriteConcat(a, b[..|b| - 1], key);
    }
  }

  /** Appending one assignment applies it to the frame reached so far. */
  lemma ApplyAllSnoc<C>(f: Frame<C>, ws: seq<Write<C>>, w: Write<C>)
    ensures ApplyAll(f, ws + [w]) == Apply(ApplyAll(f, ws), w)
  {
    assert (ws + [w])[..|ws|] == ws;
  }

  /** Performing two sequences of assignments one after the other. */
  lemma {:induction false} ApplyAllConcat<C>(f: Frame<C>, a: seq<Write<C>>, b: seq<Write<C>>)
    ensures ApplyAll(f, a + b) == ApplyAll(ApplyAll(f, a), b)
  {
    if b == [] {
      assert a + b == a;
    } else {
      assert (a + b)[..|a + b| - 1] == a + b[..|b| - 1];
      ApplyAllConcat(f, a, b[..|b| - 1]);
    }
  }

  /** If `ws[i]` writes `key` and no later write does, `ws[i]` decides the cell. */
  lemma {:induction false} LastWriteAt<C>(ws: seq<Write<C>>, i: nat, key: Key<C>)
    requires i < |ws| && (ws[i].row, ws[i].col) == key
    requires forall i' :: i < i' < |ws| ==> (ws[i'].row, ws[i'].col) != key
    ensures LastWrite(ws, key) == Some(ws[i].cell)
  {
    if i < |ws| - 1 {
      var init := ws[..|ws| - 1];
      assert init[i] == ws[i];
      LastWriteAt(init, i, key);
    }
  }

  /** Assignments to columns the frame already has leave the column list as it is. */
  lemma {:induction false} ApplyAllKnownColumns<C>(f: Frame<C>, ws: seq<Write<C>>)
    requires forall i :: 0 <= i < |ws| ==> ws[i].col in f.columns
    ensures ApplyAll(f, ws).columns == f.columns
  {
    if ws != [] {
      ApplyAllKnownColumns(f, ws[..|ws| - 1]);
    }
  }

  /** Assignments to pairwise different new columns append those columns, in order. */
  lemma {:induction false} ApplyAllFreshColumns<C>(f: Frame<C>, ws: seq<Write<C>>)
    requires Distinct(ColumnsOf(ws))
    requires forall i :: 0 <= i < |ws| ==> ws[i].col !in f.columns
    ensures ApplyAll(f, ws).columns == f.columns + ColumnsOf(ws)
  {
    if ws != [] {
      var init, w := ws[..|ws| - 1], ws[|ws| - 1];
      assert ColumnsOf(ws) == ColumnsOf(init) + [w.col];
      ApplyAllFreshColumns(f, init);
      assert w.col !in ColumnsOf(init) by {
        forall i | 0 <= i < |init| ensures ColumnsOf(init)[i] != w.col {
          assert ColumnsOf(ws)[i] != ColumnsOf(ws)[|ws| - 1];
        }
      }
    }
  }

  /** A key is written by `ws` exactly when some write in `ws` has that address. */
  lemma {:induction false} LastWriteSome<C>(ws: seq<Write<C>>, key: Key<C>)
    ensures LastWrite(ws, key).Some? <==> exists i :: 0 <= i < |ws| && (ws[i].row, ws[i].col) == key
  {
    if ws != [] {
      var init := ws[..|ws| - 1];
      LastWriteSome(init, key);
      if LastWrite(init, key).Some? {
        var i :| 0 <= i < |init| && (init[i].row, init[i].col) == key;
        assert ws[i] == init[i];
      }
      if exists i :: 0 <= i < |ws| && (ws[i].row, ws[i].col) == key {
        var i :| 0 <= i < |ws| && (ws[i].row, ws[i].col) == key;
        if i < |init| { assert init[i] == ws[i]; }
      }
    }
  }

  lemma {:induction false} FirstIndexInPrefix<C>(s: seq<C>, t: seq<C>, x: C)
    requires x in s
    ensures x in s + t && FirstIndex(s + t, x) == FirstIndex(s, x)
  {
    if s[0] != x {
      assert (s + t)[1..] == s[1..] + t;
      FirstIndexInPrefix(s[1..], t, x);
    }
  }

  /** `news` lists distinct names that all occur in `cs`, ordered by where each
      first occurs in `cs`. */
  ghost predicate FirstOccurrenceOrder<C>(cs: seq<C>, news: seq<C>)
  {
    && (forall p :: 0 <= p < |news| ==> news[p] in cs)
    && (forall p, q :: 0 <= p < q < |news| ==> FirstIndex(cs, news[p]) < FirstIndex(cs, news[q]))
  }

  /** The columns of a frame after a sequence of assignments: the old columns come
      first and keep their order, then the newly written columns, each once. */
  lemma {:induction false} ApplyAllColumnSet<C>(f: Frame<C>, ws: seq<Write<C>>)
    requires Distinct(f.columns)
    ensures var g := ApplyAll(f, ws);
      && |f.columns| <= |g.columns|
      && g.columns[..|f.columns|] == f.columns
      && Distinct(g.columns)
      && (forall c :: c in g.columns <==> c in f.columns || c in ColumnsOf(ws))
  {
    if ws != [] {
      var init := ws[..|ws| - 1];
      ApplyAllColumnSet(f, init);
      assert ColumnsOf(ws) == ColumnsOf(init) + [ws[|ws| - 1].col];
    }
  }

  /** Writing a column that is already known keeps the order of the known ones. */
  lemma OrderSnocOld<C>(cs: seq<C>, col: C, news: seq<C>)
    requires FirstOccurrenceOrder(cs, news)
    ensures FirstOccurrenceOrder(cs + [col], news)
  {
    forall p | 0 <= p < |news| ensures news[p] in cs + [col] && FirstIndex(cs + [col], news[p]) == FirstIndex(cs, news[p]) {
      FirstIndexInPrefix(cs, [col], news[p]);
    }
  }

  /** Writing a column never written before puts it after all known ones. */
  lemma OrderSnocNew<C>(cs: seq<C>, col: C, news: seq<C>)
    requires FirstOccurrenceOrder(cs, news) && col !in cs
    ensures FirstOccurrenceOrder(cs + [col], news + [col])
  {
    OrderSnocOld(cs, col, news);
    var cs', news' := cs + [col], news + [col];
    var k := FirstIndex(cs', col);
    assert cs'[..|cs|] == cs;
    assert k == |cs|;
    forall p | 0 <= p < |news| ensures FirstIndex(cs', news'[p]) < k {
      assert news'[p] == news[p];
      FirstIndexInPrefix(cs, [col], news[p]);
    }
  }

  /** The newly written columns are ordered by their first write. */
  lemma {:induction false} ApplyAllColumnOrder<C>(f: Frame<C>, ws: seq<Write<C>>)
    requires Distinct(f.columns)
    ensures |f.columns| <= |ApplyAll(f, ws).columns|
    ensures FirstOccurrenceOrder(ColumnsOf(ws), ApplyAll(f, ws).columns[|f.columns|..])
  {
    ApplyAllColumnSet(f, ws);
    if ws != [] {
      var init := ws[..|ws| - 1];
      var w := ws[|ws| - 1];
      ApplyAllColumnOrder(f, init);
      ApplyAllColumnSet(f, init);
      var h := ApplyAll(f, init);
      var ci := ColumnsOf(init);
      assert ColumnsOf(ws) == ci + [w.col];
      var hn := h.columns[|f.columns|..];
      var gn := ApplyAll(f, ws).columns[|f.columns|..];
      if w.col in h.columns {
        assert gn == hn;
        OrderSnocOld(ci, w.col, hn);
      } else {
        assert gn == hn + [w.col];
        assert w.col !in ci;
        OrderSnocNew(ci, w.col, hn);
      }
    }
  }

  // ----- the DataFrame object ------------------------------------------------

  /** A DataFrame whose cells are assigned one at a time. */
  class DataFrame<C(==,!new)> {
    var nrows: nat
    var columns: seq<C>
    var cells: map<Key<C>, Cell>

    /** The frame this object currently holds. */
    function Snapshot(): Frame<C>
      reads this
    {
      Frame(nrows, columns, cells)
    }

    ghost predicate Valid()
      reads this
    {
      WellFormed(Snapshot())
    }

    /** `pd.DataFrame.from_dict({c1: v1, c2: v2})`. */
    constructor FromDict(c1: C, v1: seq<Cell>, c2: C, v2: seq<Cell>)
      requires c1 != c2 && |v1| == |v2|
      ensures Valid() && Snapshot() == TwoColumnFrame(c1, v1, c2, v2)
    {
      var f := TwoColumnFrame(c1, v1, c2, v2);
      nrows, columns, cells := f.nrows, f.columns, f.cells;
    }

    /** `df.loc[row, col] = cell` for a row already in the index. */
    method SetCell(row: nat, col: C, cell: Cell)
      requires Valid() && row < nrows
      modifies this
      ensures Valid() && Snapshot() == Apply(old(Snapshot()), Write(row, col, cell))
    {
      if col !in columns {
        columns := columns + [col];
      }
      cells := cells[(row, col) := cell];
    }
  }
}

/** `extract_features`: runs every extractor over every sample image and fills one
    wide table, one row per sample, with the columns `image` (the file name) and
    `label`, followed by one column `<name>_<k>` for each position `k` of an
    extractor's output vector (a `Column` value here, whose pandas label is
    `Label`). The table is filled in place by three nested loops (extractors, then
    samples, then vector positions); the file name under which the table is saved
    is accumulated alongside. */
module FeatureExtraction {
  import opened Python
  import opened Frames
  import opened Samples

  /** An extractor object: its `str(extractor)` and its `describe` method. */
  datatype Extractor = Extractor(name: string, describe: Image -> seq<Value>)

  /** A column of the feature table: `image`, `label`, or position `k` of the vector
      of the extractor called `extractor`. pandas keys the columns by their labels;
      `LabelInjective` shows that distinct columns have distinct labels, so keying
      them by this structure instead keeps the same cells apart and together. */
  datatype Column = ImageColumn | LabelColumn | Feature(extractor: string, k: nat)

  /** What `extract_features` hands back: the file names, the filled table and, when
      saving, the path the CSV is written to. */
  datatype Extracted = Extracted(fnames: seq<string>, df: DataFrame<Column>, csvPath: Option<string>)

  /** The column name `f"{str(extractor)}_{k}"`. */
  function ColName(name: string, k: nat): string
  {
    name + "_" + NatToString(k)
  }

  /** The pandas label of a column. */
  function Label(c: Column): string
  {
    match c
    case ImageColumn => "image"
    case LabelColumn => "label"
    case Feature(name, k) => ColName(name, k)
  }

  // The ensures of `Fnames`, `ImageCells` and `LabelCells` only spell out their
  // definitions element by element, for the verifier.

  /** `np.array(stacks)[:, 2]`: the file name of every sample. */
  function Fnames(stacks: seq<Sample>): (r: seq<string>)
    ensures |r| == |stacks| && forall j :: 0 <= j < |stacks| ==> r[j] == stacks[j].fname
  {
    seq(|stacks|, j requires 0 <= j < |stacks| => stacks[j].fname)
  }

  /** Column `image` of the initial table. */
  function ImageCells(stacks: seq<Sample>): (r: seq<Cell>)
    ensures |r| == |stacks| && forall j :: 0 <= j < |stacks| ==> r[j] == Text(stacks[j].fname)
  {
    seq(|stacks|, j requires 0 <= j < |stacks| => Text(stacks[j].fname))
  }

  /** Column `label` of the initial table: the second component of every sample. */
  function LabelCells(stacks: seq<Sample>): (r: seq<Cell>)
    ensures |r| == |stacks| && forall j :: 0 <= j < |stacks| ==> r[j] == Int(stacks[j].target)
  {
    seq(|stacks|, j requires 0 <= j < |stacks| => Int(stacks[j].target))
  }

  /** `pd.DataFrame.from_dict({"image": fnames, "label": labels})`. */
  function InitialFrame(stacks: seq<Sample>): Frame<Column>
  {
    TwoColumnFrame(ImageColumn, ImageCells(stacks), LabelColumn, LabelCells(stacks))
  }

  /** `str(e1) + ... + str(en)`: the extractor names run together, first to last. */
  function Names(es: seq<Extractor>): string
  {
    if es == [] then [] else es[0].name + Names(es[1..])
  }

  /** The variable `filename` after the loop has run over the first `n` extractors:
      `feature_dir`, then `+= str(extractor)` once per extractor. */
  function FilenameAfter(featureDir: string, es: seq<Extractor>, n: nat): string
    requires n <= |es|
  {
    if n == 0 then featureDir else FilenameAfter(featureDir, es, n - 1) + es[n - 1].name
  }

  // ----- the assignments the loops perform, in the order they perform them ---

  /** The innermost loop for sample row `j`: `df.loc[j, f"{name}_{k}"] = fv[k]` for each k.
      The ensures only spells out the definition element by element, for the verifier. */
  function RowWrites(j: nat, name: string, fv: seq<Value>): (ws: seq<Write<Column>>)
    ensures |ws| == |fv|
    ensures forall k :: 0 <= k < |fv| ==> ws[k] == Write(j, Feature(name, k), Num(fv[k]))
  {
    seq(|fv|, k requires 0 <= k < |fv| => Write(j, Feature(name, k), Num(fv[k])))
  }

  /** The assignments made by extractor `e` for the first `m` samples. */
  function RowsWrites(stacks: seq<Sample>, e: Extractor, m: nat): seq<Write<Column>>
    requires m <= |stacks|
  {
    if m == 0 then []
    else RowsWrites(stacks, e, m - 1) + RowWrites(m - 1, e.name, e.describe(stacks[m - 1].image))
  }

  /** All assignments made by extractor `e`. */
  function ExtractorWrites(stacks: seq<Sample>, e: Extractor): seq<Write<Column>>
  {
    RowsWrites(stacks, e, |stacks|)
  }

  /** All assignments made by the extractors `es`, in list order. */
  function AllWrites(stacks: seq<Sample>, es: seq<Extractor>): seq<Write<Column>>
  {
    if es == [] then []
    else AllWrites(stacks, es[..|es| - 1]) + ExtractorWrites(stacks, es[|es| - 1])
  }

  /** The table `extract_features` returns. */
  function Table(stacks: seq<Sample>, es: seq<Extractor>): Frame<Column>
  {
    ApplyAll(InitialFrame(stacks), AllWrites(stacks, es))
  }

  /** Running one more extractor applies its writes to the table built so far. */
  lemma TableStep(stacks: seq<Sample>, es: seq<Extractor>, i: nat)
    requires i < |es|
    ensures Table(stacks, es[..i + 1]) == ApplyAll(Table(stacks, es[..i]), ExtractorWrites(stacks, es[i]))
  {
    assert es[..i + 1][..i] == es[..i];
    ApplyAllConcat(InitialFrame(stacks), AllWrites(stacks, es[..i]),
                   ExtractorWrites(stacks, es[i]));
  }

  // ----- which cells end up filled -------------------------------------------

  /** Extractor `e`, run on sample `s`, writes column `c`. */
  predicate Produces(e: Extractor, s: Sample, c: Column)
  {
    c.Feature? && c.extractor == e.name && c.k < |e.describe(s.image)|
  }

  /** Some extractor of `es` writes column `c` in row `j`. */
  ghost predicate Written(stacks: seq<Sample>, es: seq<Extractor>, j: nat, c: Column)
  {
    j < |stacks| && exists i :: 0 <= i < |es| && Produces(es[i], stacks[j], c)
  }

  /** Some extractor of `es` writes column `c` in some row. */
  ghost predicate InSomeRow(stacks: seq<Sample>, es: seq<Extractor>, c: Column)
  {
    exists j :: 0 <= j < |stacks| && Written(stacks, es, j, c)
  }

  // ----- the imperative builder -----------------------------------------------

  /** The innermost loop: `for k, value in enumerate(feature_values):
      df.loc[j, f"{name}_{k}"] = value`. */
  method WriteRow(df: DataFrame<Column>, j: nat, name: string, fv: seq<Value>)
    requires df.Valid() && j < df.nrows
    modifies df
    ensures df.Valid() && df.nrows == old(df.nrows)
    ensures df.Snapshot() == ApplyAll(old(df.Snapshot()), RowWrites(j, name, fv))
  {
    ghost var start := df.Snapshot();
    for k := 0 to |fv|
      invariant df.Valid() && df.nrows == start.nrows
      invariant df.Snapshot() == ApplyAll(start, RowWrites(j, name, fv)[..k])
    {
      var w := Write(j, Feature(name, k), Num(fv[k]));
      df.SetCell(j, w.col, w.cell);
      assert RowWrites(j, name, fv)[..k + 1] == RowWrites(j, name, fv)[..k] + [w];
      ApplyAllSnoc(start, RowWrites(j, name, fv)[..k], w);
    }
    assert RowWrites(j, name, fv)[..|fv|] == RowWrites(j, name, fv);
  }

  /** The loop over the samples for one extractor: `for j in range(len(imgs))`. */
  method RunExtractor(df: DataFrame<Column>, stacks: seq<Sample>, e: Extractor)
    requires df.Valid() && df.nrows == |stacks|
    modifies df
    ensures df.Valid() && df.nrows == |stacks|
    ensures df.Snapshot() == ApplyAll(old(df.Snapshot()), ExtractorWrites(stacks, e))
  {
    ghost var start := df.Snapshot();
    for j := 0 to |stacks|
      invariant df.Valid() && df.nrows == |stacks|
      invariant df.Snapshot() == ApplyAll(start, RowsWrites(stacks, e, j))
    {
      var featureValues := e.describe(stacks[j].image);
      WriteRow(df, j, e.name, featureValues);
      ApplyAllConcat(start, RowsWrites(stacks, e, j), RowWrites(j, e.name, featureValues));
    }
  }

  /** `extract_features(stacks, extractors, save, feature_dir)`. `extractors` is
      `None` when the caller passes Python's `None`. */
  method ExtractFeatures(stacks: seq<Sample>, extractors: Option<seq<Extractor>>, save: bool,
                         featureDir: string)
    returns (r: Result<Extracted>)
    ensures extractors.None? ==> r.Err? && r.error == TypeError
    ensures extractors.Some? && stacks == [] ==> r.Err? && r.error == IndexError
    ensures extractors.Some? && stacks != [] ==> r.Ok?
    ensures r.Ok? ==> fresh(r.value.df) && r.value.df.Valid()
    ensures r.Ok? ==> r.value.fnames == Fnames(stacks)
    ensures r.Ok? ==> r.value.df.Snapshot() == Table(stacks, extractors.value)
    ensures r.Ok? && save ==> r.value.csvPath == Some(FilenameAfter(featureDir, extractors.value, |extractors.value|) + ".csv")
    ensures r.Ok? && !save ==> r.value.csvPath.None?
  {
    if extractors.None? {
      return Err(TypeError);       // len(None)
    }
    var es := extractors.value;
    if stacks == [] {
      return Err(IndexError);      // np.array([])[:, 1]
    }
    var fnames := Fnames(stacks);
    var df := new DataFrame.FromDict(ImageColumn, ImageCells(stacks), LabelColumn, LabelCells(stacks));
    var filename := featureDir;
    for i := 0 to |es|
      invariant fresh(df) && df.Valid() && df.nrows == |stacks|
      invariant df.Snapshot() == Table(stacks, es[..i])
      invariant filename == FilenameAfter(featureDir, es, i)
    {
      filename := filename + es[i].name;
      RunExtractor(df, stacks, es[i]);
      TableStep(stacks, es, i);
    }
    assert es[..|es|] == es;
    var csvPath: Option<string> := None;
    if save {
      filename := filename + ".csv";
      csvPath := Some(filename);   // df.to_csv(filename, index=False)
    }
    return Ok(Extracted(fnames, df, csvPath));
  }

  // ----- lemmas about the table -----------------------------------------------

  /** The CSV path is `feature_dir` followed by every extractor name in list order. */
  lemma {:induction false} FilenameIsNames(featureDir: string, es: seq<Extractor>, n: nat)
    requires n <= |es|
    ensures FilenameAfter(featureDir, es, n) == featureDir + Names(es[..n])
  {
    if n > 0 {
      FilenameIsNames(featureDir, es, n - 1);
      NamesSnoc(es[..n - 1], es[n - 1]);
      assert es[..n - 1] + [es[n - 1]] == es[..n];
    }
  }

  lemma {:induction false} NamesSnoc(es: seq<Extractor>, e: Extractor)
    ensures Names(es + [e]) == Names(es) + e.name
  {
    if es != [] {
      assert (es + [e])[1..] == es[1..] + [e];
      NamesSnoc(es[1..], e);
    }
  }

  /** A column name `<name>_<k>` is the name, an underscore at position `|name|`,
      then only digits. */
  lemma ColNameShape(name: string, k: nat)
    ensures var s := ColName(name, k);
      && |s| == |name| + 1 + |NatToString(k)|
      && s[..|name|] == name
      && s[|name|] == '_'
      && s[|name| + 1..] == NatToString(k)
      && forall i :: |name| < i < |s| ==> IsDigit(s[i])
  {
    var s, d := ColName(name, k), NatToString(k);
    forall i | |name| < i < |s| ensures IsDigit(s[i]) {
      assert s[i] == d[i - |name| - 1];
    }
  }

  /** A column name `<name>_<k>` determines both the extractor name and the position:
      the underscore before the digits is the last non-digit. */
  lemma ColNameInjective(n1: string, k1: nat, n2: string, k2: nat)
    ensures ColName(n1, k1) == ColName(n2, k2) ==> n1 == n2 && k1 == k2
  {
    if ColName(n1, k1) == ColName(n2, k2) {
      ColNameShape(n1, k1);
      ColNameShape(n2, k2);
      if |n1| < |n2| {
        assert false;
      } else if |n2| < |n1| {
        assert false;
      }
      NatToStringInjective(k1, k2);
    }
  }

  /** A feature column can never be called `image` or `label`. */
  lemma ColNameIsNotFixed(name: string, k: nat)
    ensures ColName(name, k) != "image" && ColName(name, k) != "label"
  {
    var c := ColName(name, k);
    assert c[|name|] == '_';
    assert '_' !in "image" && '_' !in "label";
  }

  /** Two columns share a label only when they are the same column, so the table's
      columns are told apart by their labels exactly as they are by their structure. */
  lemma LabelInjective(c1: Column, c2: Column)
    ensures Label(c1) == Label(c2) <==> c1 == c2
  {
    match c1
    case ImageColumn =>
      if c2.Feature? { ColNameIsNotFixed(c2.extractor, c2.k); }
    case LabelColumn =>
      if c2.Feature? { ColNameIsNotFixed(c2.extractor, c2.k); }
    case Feature(n1, k1) =>
      ColNameIsNotFixed(n1, k1);
      if c2.Feature? { ColNameInjective(n1, k1, c2.extractor, c2.k); }
  }

  /** What extractor `e` leaves in column `c` of the row of sample `s`: position
      `c.k` of its vector when it produces that column, nothing otherwise. The
      ensures only restates the definition's condition, for the verifier;
      `RowWritesLookup` proves that the writes agree with it. */
  function Expected(e: Extractor, s: Sample, c: Column): (r: Option<Cell>)
    ensures r.Some? <==> Produces(e, s, c)
  {
    if Produces(e, s, c) then Some(Num(e.describe(s.image)[c.k])) else None
  }

  /** The writes for sample `s` in row `j` fill exactly the cells `(j, Feature(e.name, k))`
      with `k` below the length of the vector, each with element `k`. */
  lemma RowWritesLookup(j: nat, e: Extractor, s: Sample, key: Key<Column>)
    ensures LastWrite(RowWrites(j, e.name, e.describe(s.image)), key) ==
      if key.0 == j then Expected(e, s, key.1) else None
  {
    var ws := RowWrites(j, e.name, e.describe(s.image));
    LastWriteSome(ws, key);
    if key.0 == j && Produces(e, s, key.1) {
      LastWriteAt(ws, key.1.k, key);
    }
  }

  /** Over the first `m` samples, extractor `e` fills cell `(j, c)` exactly as it
      does for sample `j` alone when `j < m`, and not at all otherwise. */
  lemma {:induction false} RowsWritesLookup(stacks: seq<Sample>, e: Extractor, m: nat, key: Key<Column>)
    requires m <= |stacks|
    ensures LastWrite(RowsWrites(stacks, e, m), key) ==
      if key.0 < m then Expected(e, stacks[key.0], key.1) else None
  {
    if m > 0 {
      RowsWritesLookup(stacks, e, m - 1, key);
      RowWritesLookup(m - 1, e, stacks[m - 1], key);
      LastWriteConcat(RowsWrites(stacks, e, m - 1), RowWrites(m - 1, e.name, e.describe(stacks[m - 1].image)), key);
    }
  }

  /** Some write of the run touches cell `(j, c)` exactly when an extractor
      produces column `c` for sample `j`. */
  lemma {:induction false} AllWritesLookup(stacks: seq<Sample>, es: seq<Extractor>, j: nat, c: Column)
    ensures LastWrite(AllWrites(stacks, es), (j, c)).Some? <==> Written(stacks, es, j, c)
  {
    if es != [] {
      var prev, e := es[..|es| - 1], es[|es| - 1];
      AllWritesLookup(stacks, prev, j, c);
      LastWriteConcat(AllWrites(stacks, prev), ExtractorWrites(stacks, e), (j, c));
      RowsWritesLookup(stacks, e, |stacks|, (j, c));
      if Written(stacks, es, j, c) {
        var i :| 0 <= i < |es| && Produces(es[i], stacks[j], c);
        if i < |prev| { assert prev[i] == es[i]; }
      }
      if Written(stacks, prev, j, c) {
        var i :| 0 <= i < |prev| && Produces(prev[i], stacks[j], c);
        assert es[i] == prev[i];
      }
    }
  }

  /** The table has one row per sample, and its cells lie in its rows and columns. */
  lemma TableShape(stacks: seq<Sample>, es: seq<Extractor>)
    ensures Table(stacks, es).nrows == |stacks|
    ensures WellFormed(Table(stacks, es))
  {
    var ws := AllWrites(stacks, es);
    AllWritesShape(stacks, es);
    assert forall i :: 0 <= i < |ws| ==> ws[i] in ws;
    ApplyAllRows(InitialFrame(stacks), ws);
  }

  /** The cells of the table: every row holds its `image` and `label`, and a
      feature cell `(j, c)` exists exactly when some extractor wrote column `c`
      for sample `j`; every other cell is missing. */
  lemma TableCells(stacks: seq<Sample>, es: seq<Extractor>, j: nat, c: Column)
    ensures (j, c) in Table(stacks, es).cells <==>
      j < |stacks| && (c == ImageColumn || c == LabelColumn || Written(stacks, es, j, c))
  {
    AllWritesLookup(stacks, es, j, c);
    ApplyAllCells(InitialFrame(stacks), AllWrites(stacks, es), (j, c));
  }

  /** Every write of the run goes to a feature column of an existing row. */
  lemma {:induction false} AllWritesShape(stacks: seq<Sample>, es: seq<Extractor>)
    ensures forall w :: w in AllWrites(stacks, es) ==> w.row < |stacks| && Written(stacks, es, w.row, w.col)
  {
    forall w | w in AllWrites(stacks, es)
      ensures w.row < |stacks| && Written(stacks, es, w.row, w.col)
    {
      var i :| 0 <= i < |AllWrites(stacks, es)| && AllWrites(stacks, es)[i] == w;
      LastWriteSome(AllWrites(stacks, es), (w.row, w.col));
      AllWritesLookup(stacks, es, w.row, w.col);
    }
  }

  /** The extraction loops never change the `image` and `label` columns: every row
      keeps the file name and label of its sample. */
  lemma FixedColumnsKept(stacks: seq<Sample>, es: seq<Extractor>, j: nat)
    requires j < |stacks|
    ensures (j, ImageColumn) in Table(stacks, es).cells
      && Table(stacks, es).cells[(j, ImageColumn)] == Text(stacks[j].fname)
    ensures (j, LabelColumn) in Table(stacks, es).cells
      && Table(stacks, es).cells[(j, LabelColumn)] == Int(stacks[j].target)
  {
    var init := InitialFrame(stacks);
    AllWritesLookup(stacks, es, j, ImageColumn);
    AllWritesLookup(stacks, es, j, LabelColumn);
    ApplyAllCells(init, AllWrites(stacks, es), (j, ImageColumn));
    ApplyAllCells(init, AllWrites(stacks, es), (j, LabelColumn));
  }

  /** Cell `(j, <name of es[i]>_<k>)` holds element `k` of `es[i].describe` on
      sample `j`, unless a later extractor with the same name also wrote position
      `k` for that sample: the last write wins. */
  lemma FeatureCell(stacks: seq<Sample>, es: seq<Extractor>, i: nat, j: nat, k: nat)
    requires i < |es| && j < |stacks| && k < |es[i].describe(stacks[j].image)|
    requires forall i' :: i < i' < |es| && es[i'].name == es[i].name ==>
      k >= |es[i'].describe(stacks[j].image)|
    ensures (j, Feature(es[i].name, k)) in Table(stacks, es).cells
    ensures Table(stacks, es).cells[(j, Feature(es[i].name, k))] == Num(es[i].describe(stacks[j].image)[k])
  {
    FeatureLastWrite(stacks, es, i, j, k);
    ApplyAllCells(InitialFrame(stacks), AllWrites(stacks, es), (j, Feature(es[i].name, k)));
  }

  /** The last write to `(j, Feature(es[i].name, k))` comes from `es[i]` when no
      later extractor of that name reaches position `k`. */
  lemma {:induction false} FeatureLastWrite(stacks: seq<Sample>, es: seq<Extractor>, i: nat, j: nat, k: nat)
    requires i < |es| && j < |stacks| && k < |es[i].describe(stacks[j].image)|
    requires forall i' :: i < i' < |es| && es[i'].name == es[i].name ==>
      k >= |es[i'].describe(stacks[j].image)|
    ensures LastWrite(AllWrites(stacks, es), (j, Feature(es[i].name, k))) ==
      Some(Num(es[i].describe(stacks[j].image)[k]))
  {
    var prev, e := es[..|es| - 1], es[|es| - 1];
    var c := Feature(es[i].name, k);
    LastWriteConcat(AllWrites(stacks, prev), ExtractorWrites(stacks, e), (j, c));
    RowsWritesLookup(stacks, e, |stacks|, (j, c));
    if i < |es| - 1 {
      assert prev[i] == es[i];
      FeatureLastWrite(stacks, prev, i, j, k);
    }
  }

  /** A feature cell is missing when no extractor of that name produced position
      `k` for sample `j`: the column exists only through other rows' writes. */
  lemma MissingCell(stacks: seq<Sample>, es: seq<Extractor>, j: nat, name: string, k: nat)
    requires j < |stacks|
    requires forall i :: 0 <= i < |es| && es[i].name == name ==> k >= |es[i].describe(stacks[j].image)|
    ensures (j, Feature(name, k)) !in Table(stacks, es).cells
  {
    TableCells(stacks, es, j, Feature(name, k));
  }

  /** The columns the run writes are exactly those some extractor produces for some sample. */
  lemma ColumnsWritten(stacks: seq<Sample>, es: seq<Extractor>, c: Column)
    ensures c in ColumnsOf(AllWrites(stacks, es)) <==> InSomeRow(stacks, es, c)
  {
    var ws := AllWrites(stacks, es);
    if c in ColumnsOf(ws) {
      var idx :| 0 <= idx < |ws| && ColumnsOf(ws)[idx] == c;
      AllWritesShape(stacks, es);
      assert ws[idx] in ws;
    }
    if InSomeRow(stacks, es, c) {
      var j :| 0 <= j < |stacks| && Written(stacks, es, j, c);
      AllWritesLookup(stacks, es, j, c);
      LastWriteSome(ws, (j, c));
      var idx :| 0 <= idx < |ws| && (ws[idx].row, ws[idx].col) == (j, c);
      assert ColumnsOf(ws)[idx] == c;
    }
  }

  /** A column is a feature column of the table exactly when some extractor wrote
      it for some sample. */
  lemma FeatureColumn(stacks: seq<Sample>, es: seq<Extractor>, c: Column)
    ensures |Table(stacks, es).columns| >= 2
    ensures c in Table(stacks, es).columns[2..] <==> InSomeRow(stacks, es, c)
  {
    var init := InitialFrame(stacks);
    var ws := AllWrites(stacks, es);
    var cols := ApplyAll(init, ws).columns;
    ApplyAllColumnSet(init, ws);
    ColumnsWritten(stacks, es, c);
    SuffixMembers(cols, 2, c);
    assert cols[..2] == [ImageColumn, LabelColumn];
    if InSomeRow(stacks, es, c) {
      WrittenIsFeature(stacks, es, c);
    }
    assert Table(stacks, es).columns == cols;
  }

  /** Only feature columns are ever written. */
  lemma WrittenIsFeature(stacks: seq<Sample>, es: seq<Extractor>, c: Column)
    requires InSomeRow(stacks, es, c)
    ensures c.Feature?
  {
    var j :| 0 <= j < |stacks| && Written(stacks, es, j, c);
    var i :| 0 <= i < |es| && Produces(es[i], stacks[j], c);
  }

  /** The column list: `image`, `label`, then every written feature column once, in
      the order of its first write (extractor order, then sample order, then position). */
  lemma TableColumns(stacks: seq<Sample>, es: seq<Extractor>)
    ensures var cols := Table(stacks, es).columns;
      && |cols| >= 2 && cols[..2] == [ImageColumn, LabelColumn]
      && Distinct(cols)
      && (forall c :: c in cols[2..] <==> InSomeRow(stacks, es, c))
      && FirstOccurrenceOrder(ColumnsOf(AllWrites(stacks, es)), cols[2..])
      && (es == [] ==> cols == [ImageColumn, LabelColumn])
  {
    var init := InitialFrame(stacks);
    var ws := AllWrites(stacks, es);
    ApplyAllColumnSet(init, ws);
    ApplyAllColumnOrder(init, ws);
    forall c ensures c in Table(stacks, es).columns[2..] <==> InSomeRow(stacks, es, c) {
      FeatureColumn(stacks, es, c);
    }
  }

  /** The columns `Feature(name, 0)`, ..., `Feature(name, width - 1)`. The ensures
      only spells out the definition element by element, for the verifier. */
  function FeatureRange(name: string, width: nat): (cs: seq<Column>)
    ensures |cs| == width && forall k :: 0 <= k < width ==> cs[k] == Feature(name, k)
  {
    seq(width, k requires 0 <= k < width => Feature(name, k))
  }

  /** The columns one row of a fixed-width extractor assigns, in order. */
  lemma RowColumns(j: nat, name: string, fv: seq<Value>)
    ensures ColumnsOf(RowWrites(j, name, fv)) == FeatureRange(name, |fv|)
    ensures Distinct(FeatureRange(name, |fv|))
  {
  }

  /** The first row adds the extractor's columns after `image` and `label`. */
  lemma FirstRowColumns(f: Frame<Column>, j: nat, name: string, fv: seq<Value>, width: nat)
    requires |fv| == width
    requires f.columns == [ImageColumn, LabelColumn]
    ensures ApplyAll(f, RowWrites(j, name, fv)).columns ==
      [ImageColumn, LabelColumn] + FeatureRange(name, width)
  {
    RowColumns(j, name, fv);
    ApplyAllFreshColumns(f, RowWrites(j, name, fv));
  }

  /** A later row of the same width only assigns columns already present. */
  lemma LaterRowColumns(f: Frame<Column>, j: nat, name: string, fv: seq<Value>, width: nat)
    requires |fv| == width
    requires f.columns == [ImageColumn, LabelColumn] + FeatureRange(name, width)
    ensures ApplyAll(f, RowWrites(j, name, fv)).columns == f.columns
  {
    var row := RowWrites(j, name, fv);
    forall i | 0 <= i < |row| ensures row[i].col in f.columns {
      assert f.columns[2 + i] == row[i].col;
    }
    ApplyAllKnownColumns(f, row);
  }

  /** The writes for the first sample are that sample's row. */
  lemma FirstRowWrites(stacks: seq<Sample>, e: Extractor)
    requires stacks != []
    ensures RowsWrites(stacks, e, 1) == RowWrites(0, e.name, e.describe(stacks[0].image))
  {
    assert RowsWrites(stacks, e, 0) == [];
  }

  /** Sample `m - 1` keeps the columns the earlier samples produced when its
      vector has the same length. */
  lemma LaterRowsColumns(f: Frame<Column>, stacks: seq<Sample>, e: Extractor, width: nat, m: nat)
    requires 2 <= m <= |stacks|
    requires |e.describe(stacks[m - 1].image)| == width
    requires ApplyAll(f, RowsWrites(stacks, e, m - 1)).columns ==
      [ImageColumn, LabelColumn] + FeatureRange(e.name, width)
    ensures ApplyAll(f, RowsWrites(stacks, e, m)).columns ==
      [ImageColumn, LabelColumn] + FeatureRange(e.name, width)
  {
    var fv := e.describe(stacks[m - 1].image);
    var row := RowWrites(m - 1, e.name, fv);
    var prev := RowsWrites(stacks, e, m - 1);
    assert RowsWrites(stacks, e, m) == prev + row;
    ApplyAllConcat(f, prev, row);
    LaterRowColumns(ApplyAll(f, prev), m - 1, e.name, fv, width);
  }

  /** An extractor whose vectors all have length `width`: after its first `m`
      samples, a frame that starts with the columns `image` and `label` has those
      and the extractor's `width` columns. */
  lemma {:induction false} FixedWidthColumns(f: Frame<Column>, stacks: seq<Sample>, e: Extractor, width: nat, m: nat)
    requires f.columns == [ImageColumn, LabelColumn]
    requires 1 <= m <= |stacks|
    requires forall j :: 0 <= j < |stacks| ==> |e.describe(stacks[j].image)| == width
    ensures ApplyAll(f, RowsWrites(stacks, e, m)).columns ==
      [ImageColumn, LabelColumn] + FeatureRange(e.name, width)
  {
    if m == 1 {
      FirstRowWrites(stacks, e);
      FirstRowColumns(f, 0, e.name, e.describe(stacks[0].image), width);
    } else {
      FixedWidthColumns(f, stacks, e, width, m - 1);
      LaterRowsColumns(f, stacks, e, width, m);
    }
  }

  /** One extractor with a fixed vector length `width` adds exactly the columns
      `<name>_0` .. `<name>_<width-1>`, in that order, after `image` and `label`
      (`SingleExtractorCells` says what each of those cells holds). */
  lemma FixedWidthTable(stacks: seq<Sample>, e: Extractor, width: nat)
    requires stacks != []
    requires forall j :: 0 <= j < |stacks| ==> |e.describe(stacks[j].image)| == width
    ensures Table(stacks, [e]).columns == [ImageColumn, LabelColumn] + FeatureRange(e.name, width)
  {
    var init := InitialFrame(stacks);
    assert init.columns == [ImageColumn, LabelColumn];
    SingleExtractorWrites(stacks, e);
    FixedWidthColumns(init, stacks, e, width, |stacks|);
  }

  /** A single extractor's writes are all the writes of the run. */
  lemma SingleExtractorWrites(stacks: seq<Sample>, e: Extractor)
    ensures AllWrites(stacks, [e]) == RowsWrites(stacks, e, |stacks|)
  {
    assert [e][..|[e]| - 1] == [];
    assert [e][|[e]| - 1] == e;
  }

  /** With a single extractor, every position of every sample's vector is in its cell. */
  lemma SingleExtractorCells(stacks: seq<Sample>, e: Extractor)
    ensures forall j, k :: 0 <= j < |stacks| && 0 <= k < |e.describe(stacks[j].image)| ==>
      (j, Feature(e.name, k)) in Table(stacks, [e]).cells &&
      Table(stacks, [e]).cells[(j, Feature(e.name, k))] == Num(e.describe(stacks[j].image)[k])
  {
    forall j, k | 0 <= j < |stacks| && 0 <= k < |e.describe(stacks[j].image)|
      ensures (j, Feature(e.name, k)) in Table(stacks, [e]).cells &&
        Table(stacks, [e]).cells[(j, Feature(e.name, k))] == Num(e.describe(stacks[j].image)[k])
    {
      SingleExtractorCell(stacks, e, j, k);
    }
  }

  /** With a single extractor, position `k` of sample `j`'s vector is in its cell. */
  lemma SingleExtractorCell(stacks: seq<Sample>, e: Extractor, j: nat, k: nat)
    requires j < |stacks| && k < |e.describe(stacks[j].image)|
    ensures (j, Feature(e.name, k)) in Table(stacks, [e]).cells
    ensures Table(stacks, [e]).cells[(j, Feature(e.name, k))] == Num(e.describe(stacks[j].image)[k])
  {
    assert [e][0] == e;
    FeatureCell(stacks, [e], 0, j, k);
  }

  /** The header of the saved CSV repeats no name: distinct columns carry distinct labels. */
  lemma HeaderDistinct(stacks: seq<Sample>, es: seq<Extractor>)
    ensures var cols := Table(stacks, es).columns;
      forall p, q :: 0 <= p < q < |cols| ==> Label(cols[p]) != Label(cols[q])
  {
    var cols := Table(stacks, es).columns;
    TableColumns(stacks, es);
    forall p, q | 0 <= p < q < |cols| ensures Label(cols[p]) != Label(cols[q]) {
      LabelInjective(cols[p], cols[q]);
    }
  }
}

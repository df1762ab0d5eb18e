/**
 * `transform_split_files`: projects a validated hit-level file onto the
 * analysis columns, expands `product_list` into its `;`-separated
 * sub-fields, splits the rows into five ordered chunks the way
 * `np.array_split` does, writes each chunk under
 * `<today>/<basename>_<i>.tsv`, and writes the `Success.json` marker last.
 */
module Splitter {
  import opened Wrappers
  import opened Text
  import opened Storage

  /** A cell of a parsed file; `None` is pandas' NaN. */
  type Cell = Option<string>

  /** A row: column name to cell. */
  type Row = map<string, Cell>

  /** A parsed tab-separated file: its column order and its rows in file order. */
  datatype Frame = Frame(columns: seq<string>, rows: seq<Row>)

  /** The Lambda's environment variables that the split reads. */
  datatype Config = Config(
    fileType: string,
    expectedColumns: seq<string>,
    colsForAnalysis: seq<string>,
    productListSplitCols: seq<string>)

  /** What makes the split raise. */
  datatype SplitError =
    | MissingColumn(name: string)                      // KeyError on a column selection
    | SubFieldCountMismatch(expected: nat, found: nat) // "Columns must be same length as key"
    | WriteFailed(key: string)                         // a put to the target bucket failed

  /** An object the split writes: a chunk file or the JSON marker. */
  datatype Payload = TsvFile(frame: Frame) | JsonFile(text: string)

  const ChunkCount: nat := 5
  const ProductList: string := "product_list"
  const MarkerBody: string := "{\"Result\": \"Success\"}"

  /** A cell by column name; a column the row lacks reads as NaN. */
  function Get(row: Row, name: string): Cell
  {
    if name in row then row[name] else None
  }

  /* ---------------- projection: hit_data_df[cols_for_analysis] ---------------- */

  predicate HasColumns(f: Frame, names: seq<string>)
  {
    forall i :: 0 <= i < |names| ==> names[i] in f.columns
  }

  /** The first of `names` the frame lacks. */
  function FirstMissing(f: Frame, names: seq<string>): (name: string)
    requires !HasColumns(f, names)
    ensures name in names && name !in f.columns
  {
    if names[0] !in f.columns then names[0] else FirstMissing(f, names[1..])
  }

  function Restrict(row: Row, names: seq<string>): (r: Row)
    ensures r.Keys == set i | 0 <= i < |names| :: names[i]
  {
    map n | n in names :: Get(row, n)
  }

  /**
   * `df[cols]`: the same rows, in the same order, keeping only the listed
   * columns; a KeyError naming a missing column when one is absent.
   */
  function Project(f: Frame, names: seq<string>): (r: Result<Frame, SplitError>)
    ensures r.Success? <==> HasColumns(f, names)
    ensures r.Failure? ==> r.error.MissingColumn? && r.error.name in names && r.error.name !in f.columns
    ensures r.Success? ==>
      && r.value.columns == names
      && |r.value.rows| == |f.rows|
      && (forall i, n :: 0 <= i < |f.rows| && n in names ==>
           n in r.value.rows[i] && r.value.rows[i][n] == Get(f.rows[i], n))
      && (forall i :: 0 <= i < |f.rows| ==> r.value.rows[i].Keys == set n | n in names)
  {
    if HasColumns(f, names) then
      Success(Frame(names, seq(|f.rows|, i requires 0 <= i < |f.rows| => Restrict(f.rows[i], names))))
    else
      Failure(MissingColumn(FirstMissing(f, names)))
  }

  /* ---------------- expansion: df['product_list'].str.split(';', expand=True) ---------------- */

  /** The number of pieces a cell splits into; NaN stays one (null) entry. */
  function PieceCount(c: Cell): nat
  {
    match c
    case None => 1
    case Some(s) => |Split(s, ';')|
  }

  /** Sub-field `j` of a cell: the `j`-th piece, or NaN past the last piece or for a NaN cell. */
  function PieceAt(c: Cell, j: nat): Cell
  {
    match c
    case None => None
    case Some(s) => var p := Split(s, ';'); if j < |p| then Some(p[j]) else None
  }

  /** The column count of the expanded frame: the most pieces any row has (0 with no rows). */
  function MaxPieces(rows: seq<Row>): (m: nat)
    ensures forall i :: 0 <= i < |rows| ==> PieceCount(Get(rows[i], ProductList)) <= m
    ensures |rows| > 0 ==> exists i :: 0 <= i < |rows| && PieceCount(Get(rows[i], ProductList)) == m
    ensures |rows| == 0 ==> m == 0
  {
    if |rows| == 0 then 0
    else
      var here := PieceCount(Get(rows[0], ProductList));
      var rest := MaxPieces(rows[1..]);
      assert forall i :: 1 <= i < |rows| ==> rows[i] == rows[1..][i - 1];
      if here >= rest then here else rest
  }

  /** `df[name] = values`: overwrites the column if present, else appends it. */
  function AssignColumn(f: Frame, name: string, values: seq<Cell>): (r: Frame)
    requires |values| == |f.rows|
    ensures |r.rows| == |f.rows|
    ensures forall i :: 0 <= i < |f.rows| ==> r.rows[i] == f.rows[i][name := values[i]]
    ensures r.columns == if name in f.columns then f.columns else f.columns + [name]
  {
    Frame(if name in f.columns then f.columns else f.columns + [name],
          seq(|f.rows|, i requires 0 <= i < |f.rows| => f.rows[i][name := values[i]]))
  }

  /** The `j`-th sub-field column, computed from the frame before any assignment. */
  function SubFieldColumn(src: Frame, j: nat): (col: seq<Cell>)
    ensures |col| == |src.rows|
  {
    seq(|src.rows|, i requires 0 <= i < |src.rows| => PieceAt(Get(src.rows[i], ProductList), j))
  }

  /** The frame after assigning the first `k` sub-field columns in order. */
  function AssignSubFields(src: Frame, names: seq<string>, k: nat): (r: Frame)
    requires k <= |names|
    ensures |r.rows| == |src.rows|
  {
    if k == 0 then src
    else AssignColumn(AssignSubFields(src, names, k - 1), names[k - 1], SubFieldColumn(src, k - 1))
  }

  /**
   * `df[product_list_split_cols] = df['product_list'].str.split(';', expand=True)`:
   * fails when `product_list` is absent or when the widest split differs
   * from the number of sub-field names; otherwise assigns each sub-field.
   */
  function ExpandProductList(f: Frame, names: seq<string>): (r: Result<Frame, SplitError>)
    ensures r.Success? <==> ProductList in f.columns && MaxPieces(f.rows) == |names|
    ensures r.Success? ==> |r.value.rows| == |f.rows|
  {
    if ProductList !in f.columns then Failure(MissingColumn(ProductList))
    else if MaxPieces(f.rows) != |names| then Failure(SubFieldCountMismatch(|names|, MaxPieces(f.rows)))
    else Success(AssignSubFields(f, names, |names|))
  }

  /**
   * With distinct sub-field names, each row's sub-field `names[j]` holds the
   * `j`-th `;`-piece of its `product_list` (NaN-padded), every other column
   * is untouched; `SubFieldColumns` states where the names go in the
   * column list.
   */
  lemma {:induction false} SubFieldsOfRow(src: Frame, names: seq<string>, k: nat, i: nat)
    requires k <= |names| && i < |src.rows|
    requires forall a, b :: 0 <= a < b < |names| ==> names[a] != names[b]
    ensures forall j :: 0 <= j < k ==>
      names[j] in AssignSubFields(src, names, k).rows[i]
      && AssignSubFields(src, names, k).rows[i][names[j]] == PieceAt(Get(src.rows[i], ProductList), j)
    ensures forall n :: n !in names[..k] ==>
      Get(AssignSubFields(src, names, k).rows[i], n) == Get(src.rows[i], n)
  {
    if k > 0 {
      SubFieldsOfRow(src, names, k - 1, i);
      var prev := AssignSubFields(src, names, k - 1);
      assert AssignSubFields(src, names, k).rows[i] == prev.rows[i][names[k - 1] := SubFieldColumn(src, k - 1)[i]];
      assert names[..k] == names[..k - 1] + [names[k - 1]];
    }
  }

  /**
   * When none of the distinct sub-field names is already a column, the
   * expanded frame lists the existing columns first and then the names in
   * order.
   */
  lemma {:induction false} SubFieldColumns(src: Frame, names: seq<string>, k: nat)
    requires k <= |names|
    requires forall a, b :: 0 <= a < b < |names| ==> names[a] != names[b]
    requires forall j :: 0 <= j < |names| ==> names[j] !in src.columns
    ensures AssignSubFields(src, names, k).columns == src.columns + names[..k]
  {
    if k > 0 {
      SubFieldColumns(src, names, k - 1);
      assert names[..k] == names[..k - 1] + [names[k - 1]];
      assert names[k - 1] !in names[..k - 1];
    }
  }

  /* ---------------- np.array_split(rows, n) ---------------- */

  function Min(a: nat, b: nat): nat
  {
    if a <= b then a else b
  }

  /** The size of chunk `i`: the first `total % n` chunks take one extra row. */
  function ChunkSize(total: nat, n: nat, i: nat): nat
    requires n > 0
  {
    total / n + (if i < total % n then 1 else 0)
  }

  /** Where chunk `i` starts: the sizes of the chunks before it, summed. */
  function ChunkStart(total: nat, n: nat, i: nat): nat
    requires n > 0
  {
    if i == 0 then 0 else ChunkStart(total, n, i - 1) + ChunkSize(total, n, i - 1)
  }

  /** The closed form of a chunk's start: `i * (R / n) + min(i, R % n)`. */
  lemma {:induction false} ChunkStartClosed(total: nat, n: nat, i: nat)
    requires n > 0
    ensures ChunkStart(total, n, i) == i * (total / n) + Min(i, total % n)
  {
    if i > 0 {
      ChunkStartClosed(total, n, i - 1);
      assert i * (total / n) == (i - 1) * (total / n) + total / n;
    }
  }

  /** The `n` chunks cover exactly the `R` rows. */
  lemma ChunkStartEnd(total: nat, n: nat)
    requires n > 0
    ensures ChunkStart(total, n, n) == total
  {
    ChunkStartClosed(total, n, n);
  }

  lemma {:induction false} ChunkStartMono(total: nat, n: nat, i: nat, j: nat)
    requires n > 0 && i <= j <= n
    ensures ChunkStart(total, n, i) <= ChunkStart(total, n, j) <= total
    decreases j - i
  {
    if i < j {
      ChunkStartMono(total, n, i + 1, j);
    } else {
      ChunkStartMono2(total, n, j);
    }
  }

  lemma {:induction false} ChunkStartMono2(total: nat, n: nat, j: nat)
    requires n > 0 && j <= n
    ensures ChunkStart(total, n, j) <= total
    decreases n - j
  {
    if j == n {
      ChunkStartEnd(total, n);
    } else {
      ChunkStartMono2(total, n, j + 1);
    }
  }

  /** `np.array_split(rows, n)`: `n` consecutive slices of the rows. */
  function ArraySplit<T>(rows: seq<T>, n: nat): (chunks: seq<seq<T>>)
    requires n > 0
    ensures |chunks| == n
  {
    seq(n, i requires 0 <= i < n =>
      ChunkStartMono(|rows|, n, i, i + 1);
      rows[ChunkStart(|rows|, n, i)..ChunkStart(|rows|, n, i + 1)])
  }

  /** The chunks written one after another. */
  function Flatten<T>(chunks: seq<seq<T>>): seq<T>
  {
    if |chunks| == 0 then [] else Flatten(chunks[..|chunks| - 1]) + chunks[|chunks| - 1]
  }

  /** The sum of the chunk sizes. */
  function TotalSize<T>(chunks: seq<seq<T>>): nat
  {
    if |chunks| == 0 then 0 else TotalSize(chunks[..|chunks| - 1]) + |chunks[|chunks| - 1]|
  }

  /** Chunk `i` holds `R / n + 1` rows when `i < R % n` and `R / n` otherwise. */
  lemma ArraySplitSizes<T>(rows: seq<T>, n: nat)
    requires n > 0
    ensures forall i :: 0 <= i < n ==> |ArraySplit(rows, n)[i]| == ChunkSize(|rows|, n, i)
    ensures forall i, j :: 0 <= i < n && 0 <= j < n ==>
      |ArraySplit(rows, n)[i]| <= |ArraySplit(rows, n)[j]| + 1
  {
    var chunks := ArraySplit(rows, n);
    forall i | 0 <= i < n ensures |chunks[i]| == ChunkSize(|rows|, n, i) {
      ChunkStartMono(|rows|, n, i, i + 1);
    }
    forall i, j | 0 <= i < n && 0 <= j < n ensures |chunks[i]| <= |chunks[j]| + 1 {
      assert |chunks[i]| <= |rows| / n + 1;
      assert |rows| / n <= |chunks[j]|;
    }
  }

  /** Flattening one more chunk appends its rows; its size adds to the total. */
  lemma FlattenStep<T>(chunks: seq<seq<T>>, k: nat)
    requires 0 < k <= |chunks|
    ensures Flatten(chunks[..k]) == Flatten(chunks[..k - 1]) + chunks[k - 1]
    ensures TotalSize(chunks[..k]) == TotalSize(chunks[..k - 1]) + |chunks[k - 1]|
  {
    assert chunks[..k][..k - 1] == chunks[..k - 1];
  }

  /** Chunk `i` holds the rows from its start to the next chunk's start. */
  lemma ArraySplitAt<T>(rows: seq<T>, n: nat, i: nat)
    requires i < n
    ensures ChunkStart(|rows|, n, i) <= ChunkStart(|rows|, n, i + 1) <= |rows|
    ensures ArraySplit(rows, n)[i] == rows[ChunkStart(|rows|, n, i)..ChunkStart(|rows|, n, i + 1)]
  {
    ChunkStartMono(|rows|, n, i, i + 1);
  }

  /** Chunks that are consecutive slices of `rows` flatten to a prefix of `rows`. */
  lemma FlattenSlices<T>(rows: seq<T>, chunks: seq<seq<T>>, k: nat, a: nat, b: nat)
    requires 0 < k <= |chunks| && a <= b <= |rows|
    requires Flatten(chunks[..k - 1]) == rows[..a] && TotalSize(chunks[..k - 1]) == a
    requires chunks[k - 1] == rows[a..b]
    ensures Flatten(chunks[..k]) == rows[..b] && TotalSize(chunks[..k]) == b
  {
    FlattenStep(chunks, k);
    assert rows[..b] == rows[..a] + rows[a..b];
  }

  /** The first `k` chunks, written in order, are the first rows of the input. */
  lemma {:induction false} FlattenPrefix<T>(rows: seq<T>, n: nat, k: nat)
    requires 0 < n && k <= n
    ensures ChunkStart(|rows|, n, k) <= |rows|
    ensures Flatten(ArraySplit(rows, n)[..k]) == rows[..ChunkStart(|rows|, n, k)]
    ensures TotalSize(ArraySplit(rows, n)[..k]) == ChunkStart(|rows|, n, k)
  {
    if k > 0 {
      FlattenPrefix(rows, n, k - 1);
      ArraySplitAt(rows, n, k - 1);
      FlattenSlices(rows, ArraySplit(rows, n), k, ChunkStart(|rows|, n, k - 1), ChunkStart(|rows|, n, k));
    }
  }

  /** Concatenating the chunks in order gives back every row in its original order; the sizes sum to `R`. */
  lemma ArraySplitConcat<T>(rows: seq<T>, n: nat)
    requires n > 0
    ensures Flatten(ArraySplit(rows, n)) == rows
    ensures TotalSize(ArraySplit(rows, n)) == |rows|
  {
    FlattenPrefix(rows, n, n);
    ChunkStartEnd(|rows|, n);
    assert ArraySplit(rows, n)[..n] == ArraySplit(rows, n);
  }

  /** A 100-row file splits into five chunks of 20 rows. */
  lemma HundredRowsInFives<T>(rows: seq<T>)
    requires |rows| == 100
    ensures forall i :: 0 <= i < ChunkCount ==> |ArraySplit(rows, ChunkCount)[i]| == 20
  {
    ArraySplitSizes(rows, ChunkCount);
  }

  /* ---------------- object keys ---------------- */

  /** `file_name.split('.')[0]`: the text before the first `.`. */
  function BaseName(fileName: string): (base: string)
    ensures '.' !in base
    ensures |base| <= |fileName| && fileName[..|base|] == base
    ensures |base| < |fileName| ==> fileName[|base|] == '.'
  {
    FirstPiece(fileName, '.');
    Split(fileName, '.')[0]
  }

  /** `str(today) + '/' + target_file_name + '_' + str(file_num) + '.tsv'`. */
  function ChunkKey(today: string, base: string, fileNum: nat): string
  {
    today + "/" + base + "_" + NatToString(fileNum) + ".tsv"
  }

  /**
   * A chunk key lies in the `<today>/` folder, continues with the base name
   * and `_`, and ends in `.tsv`.
   */
  lemma ChunkKeyShape(today: string, base: string, fileNum: nat)
    ensures var key := ChunkKey(today, base, fileNum);
      && |key| > |today| + 1 + |base| + 4
      && key[..|today|] == today && key[|today|] == '/'
      && key[|today| + 1..|today| + 1 + |base|] == base && key[|today| + 1 + |base|] == '_'
      && key[|key| - 4..] == ".tsv"
  {
    var key := ChunkKey(today, base, fileNum);
    assert key == today + "/" + base + "_" + (NatToString(fileNum) + ".tsv");
  }

  /** `str(today) + '/' + 'Success' + '.json'`. */
  function MarkerKey(today: string): string
  {
    today + "/" + "Success" + ".json"
  }

  /** The marker key is `Success.json` in the `<today>/` folder. */
  lemma MarkerKeyShape(today: string)
    ensures var key := MarkerKey(today);
      && |key| == |today| + 13
      && key[..|today|] == today && key[|today|] == '/' && key[|today| + 1..] == "Success.json"
  {
  }

  /** Different sequence numbers give different chunk keys. */
  lemma ChunkKeysDistinct(today: string, base: string, i: nat, j: nat)
    requires i != j
    ensures ChunkKey(today, base, i) != ChunkKey(today, base, j)
  {
    NatToStringInjective(i, j);
    var p := today + "/" + base + "_";
    var si, sj := NatToString(i), NatToString(j);
    var ki, kj := ChunkKey(today, base, i), ChunkKey(today, base, j);
    assert ki == p + si + ".tsv";
    assert kj == p + sj + ".tsv";
    if |si| == |sj| {
      assert ki[|p|..|p| + |si|] == si;
      assert kj[|p|..|p| + |sj|] == sj;
    } else {
      assert |ki| != |kj|;
    }
  }

  /** The marker never collides with a chunk: one ends in `.json`, the other in `.tsv`. */
  lemma MarkerIsNotAChunk(today: string, base: string, i: nat)
    ensures MarkerKey(today) != ChunkKey(today, base, i)
  {
    var m, c := MarkerKey(today), ChunkKey(today, base, i);
    assert m[|m| - 1] == 'n';
    assert c[|c| - 1] == 'v';
  }

  /* ---------------- the writes of one split ---------------- */

  /** Chunk files under keys numbered from 1, then the marker, in the order they are written. */
  function BatchWrites(today: string, base: string, columns: seq<string>, chunks: seq<seq<Row>>): (writes: seq<(string, Payload)>)
    ensures |writes| == |chunks| + 1
    ensures writes[|chunks|] == (MarkerKey(today), JsonFile(MarkerBody))
    ensures forall i :: 0 <= i < |chunks| ==>
      writes[i] == (ChunkKey(today, base, i + 1), TsvFile(Frame(columns, chunks[i])))
  {
    seq(|chunks|, i requires 0 <= i < |chunks| =>
      (ChunkKey(today, base, i + 1), TsvFile(Frame(columns, chunks[i]))))
    + [(MarkerKey(today), JsonFile(MarkerBody))]
  }

  /** The writes of one split: the five chunks of the frame's rows, then the marker. */
  function SplitWrites(today: string, base: string, f: Frame): (writes: seq<(string, Payload)>)
    ensures |writes| == ChunkCount + 1
  {
    BatchWrites(today, base, f.columns, ArraySplit(f.rows, ChunkCount))
  }

  /** No two writes of a split share a key, so none overwrites another. */
  lemma SplitWritesDistinct(today: string, base: string, f: Frame)
    ensures var w := SplitWrites(today, base, f);
      forall a, b :: 0 <= a < b < |w| ==> w[a].0 != w[b].0
  {
    var w := SplitWrites(today, base, f);
    forall a, b | 0 <= a < b < |w| ensures w[a].0 != w[b].0 {
      if b == ChunkCount {
        MarkerIsNotAChunk(today, base, a + 1);
      } else {
        ChunkKeysDistinct(today, base, a + 1, b + 1);
      }
    }
  }

  /**
   * The marker is among the first `k` writes exactly when all of them are:
   * a marker in the bucket means every chunk was written.
   */
  lemma MarkerWrittenIffAll(today: string, base: string, f: Frame, k: nat)
    requires k <= ChunkCount + 1
    ensures var w := SplitWrites(today, base, f);
      (MarkerKey(today) in KeysOf(w[..k])) <==> k == |w|
  {
    var w := SplitWrites(today, base, f);
    SplitWritesDistinct(today, base, f);
    if k < |w| {
      forall a | 0 <= a < k ensures KeysOf(w[..k])[a] != MarkerKey(today) {
        assert w[a].0 != w[ChunkCount].0;
      }
    }
    if k == |w| {
      assert KeysOf(w[..k])[ChunkCount] == MarkerKey(today);
    }
  }

  /** The chunk files' rows, read back in key order, are the expanded rows in order. */
  lemma ChunksReassemble(today: string, base: string, f: Frame)
    ensures var w := SplitWrites(today, base, f);
      Flatten(seq(ChunkCount, i requires 0 <= i < ChunkCount => w[i].1.frame.rows)) == f.rows
  {
    var w := SplitWrites(today, base, f);
    assert seq(ChunkCount, i requires 0 <= i < ChunkCount => w[i].1.frame.rows) == ArraySplit(f.rows, ChunkCount);
    ArraySplitConcat(f.rows, ChunkCount);
  }

  /**
   * The whole plan of a split: the projection, the expansion, then the
   * writes; the first error raised when a step fails.
   */
  function SplitPlan(cfg: Config, fileName: string, today: string, hitData: Frame): (plan: Result<seq<(string, Payload)>, SplitError>)
    ensures plan.Success? ==> |plan.value| == ChunkCount + 1
  {
    match Project(hitData, cfg.colsForAnalysis)
    case Failure(e) => Failure(e)
    case Success(subset) =>
      match ExpandProductList(subset, cfg.productListSplitCols)
      case Failure(e) => Failure(e)
      case Success(expanded) => Success(SplitWrites(today, BaseName(fileName), expanded))
  }

  /**
   * The plan takes its steps in order: a failed selection gives its error,
   * a failed expansion gives its error, and otherwise the plan is the
   * split's writes of the expanded frame.
   */
  lemma SplitPlanSteps(cfg: Config, fileName: string, today: string, hitData: Frame)
    ensures var plan := SplitPlan(cfg, fileName, today, hitData);
      var subset := Project(hitData, cfg.colsForAnalysis);
      && (subset.Failure? ==> plan == Failure(subset.error))
      && (subset.Success? ==>
            var expanded := ExpandProductList(subset.value, cfg.productListSplitCols);
            && (expanded.Failure? ==> plan == Failure(expanded.error))
            && (expanded.Success? ==> plan == Success(SplitWrites(today, BaseName(fileName), expanded.value))))
  {
  }

  /**
   * A split plan succeeds exactly when every analysis column exists,
   * `product_list` is among them, and the widest `product_list` has one
   * piece per sub-field name.
   */
  lemma SplitPlanSucceeds(cfg: Config, fileName: string, today: string, hitData: Frame)
    ensures SplitPlan(cfg, fileName, today, hitData).Success? <==>
      && HasColumns(hitData, cfg.colsForAnalysis)
      && ProductList in cfg.colsForAnalysis
      && MaxPieces(Project(hitData, cfg.colsForAnalysis).value.rows) == |cfg.productListSplitCols|
  {
  }

  /** The message appended after a completed split. */
  const NoteHead: string := "\nSuccess! File has been split in "
  const NoteTail: string := " smaller files. Upload is complete."

  function SuccessNote(files: nat): string
  {
    NoteHead + NatToString(files) + NoteTail
  }

  /** After a complete split of five chunks, the note reports five files. */
  lemma SuccessNoteReportsFive()
    ensures SuccessNote(ChunkCount) == NoteHead + "5" + NoteTail
  {
    assert NatToString(5) == "5";
  }

  /**
   * The effect of running a split plan against a bucket whose puts may
   * fail: nothing is written when the plan fails; otherwise the writes go
   * through in order up to the first refused one, where the split raises;
   * when all go through the message gains the success note.
   */
  ghost predicate SplitOutcome(
    plan: Result<seq<(string, Payload)>, SplitError>, refuses: set<string>,
    objects0: map<string, Payload>, log0: seq<string>,
    objects: map<string, Payload>, log: seq<string>,
    msg: string, r: Result<string, SplitError>)
  {
    match plan
    case Failure(e) => r == Failure(e) && objects == objects0 && log == log0
    case Success(w) =>
      var n := Accepted(w, refuses);
      && objects == ApplyWrites(objects0, w[..n])
      && log == log0 + KeysOf(w[..n])
      && r == if n == |w| then Success(msg + SuccessNote(ChunkCount)) else Failure(WriteFailed(w[n].0))
  }

  lemma AcceptedIs<T>(w: seq<(string, T)>, refuses: set<string>, k: nat)
    requires k <= |w|
    requires forall j :: 0 <= j < k ==> w[j].0 !in refuses
    requires k == |w| || w[k].0 in refuses
    ensures Accepted(w, refuses) == k
  {
  }

  lemma WritesStep<T>(m: map<string, T>, w: seq<(string, T)>, i: nat)
    requires i < |w|
    ensures ApplyWrites(m, w[..i + 1]) == ApplyWrites(m, w[..i])[w[i].0 := w[i].1]
    ensures KeysOf(w[..i + 1]) == KeysOf(w[..i]) + [w[i].0]
  {
    assert w[..i + 1][..i] == w[..i];
  }

  /**
   * The loop of `transform_split_files`: the chunk writes of `BatchWrites`
   * go through in order until one is refused, where the loop stops;
   * `fileNum` is the counter's final value.
   */
  method WriteChunks(target: Bucket<Payload>, today: string, base: string, columns: seq<string>, chunks: seq<seq<Row>>)
    returns (failedKey: Option<string>, fileNum: nat)
    modifies target
    ensures var w := BatchWrites(today, base, columns, chunks);
      var n := Accepted(w, target.refuses);
      && (failedKey.Some? ==>
            && n < |chunks| && failedKey.value == w[n].0
            && target.objects == ApplyWrites(old(target.objects), w[..n])
            && target.writeLog == old(target.writeLog) + KeysOf(w[..n]))
      && (failedKey.None? ==>
            && fileNum == |chunks| + 1
            && (forall j :: 0 <= j < |chunks| ==> w[j].0 !in target.refuses)
            && target.objects == ApplyWrites(old(target.objects), w[..|chunks|])
            && target.writeLog == old(target.writeLog) + KeysOf(w[..|chunks|]))
  {
    ghost var w := BatchWrites(today, base, columns, chunks);
    fileNum := 1;
    for i := 0 to |chunks|
      invariant fileNum == i + 1
      invariant forall j :: 0 <= j < i ==> w[j].0 !in target.refuses
      invariant target.objects == ApplyWrites(old(target.objects), w[..i])
      invariant target.writeLog == old(target.writeLog) + KeysOf(w[..i])
    {
      var key, payload := ChunkKey(today, base, fileNum), TsvFile(Frame(columns, chunks[i]));
      assert w[i] == (key, payload);
      var ok := target.Put(key, payload);
      if !ok {
        AcceptedIs(w, target.refuses, i);
        return Some(key), fileNum;
      }
      WritesStep(old(target.objects), w, i);
      fileNum := fileNum + 1;
    }
    failedKey := None;
  }

  /**
   * The writing half of `transform_split_files`: the five chunks of the
   * expanded frame, then the marker, each put stopping the split when the
   * bucket refuses it.
   */
  method WriteBatch(target: Bucket<Payload>, today: string, base: string, frame: Frame, msg: string)
    returns (r: Result<string, SplitError>)
    modifies target
    ensures SplitOutcome(Success(SplitWrites(today, base, frame)), target.refuses,
                         old(target.objects), old(target.writeLog), target.objects, target.writeLog, msg, r)
  {
    ghost var w := SplitWrites(today, base, frame);
    var chunks := ArraySplit(frame.rows, ChunkCount);
    var failedKey, fileNum := WriteChunks(target, today, base, frame.columns, chunks);
    if failedKey.Some? {
      return Failure(WriteFailed(failedKey.value));
    }
    var ok := target.Put(MarkerKey(today), JsonFile(MarkerBody));
    if !ok {
      AcceptedIs(w, target.refuses, ChunkCount);
      return Failure(WriteFailed(MarkerKey(today)));
    }
    WritesStep(old(target.objects), w, ChunkCount);
    AcceptedIs(w, target.refuses, ChunkCount + 1);
    assert w[..ChunkCount + 1] == w;
    r := Success(msg + SuccessNote(fileNum - 1));
  }

  /** `transform_split_files`: project, expand, write the chunks, then the marker. */
  method TransformSplitFiles(target: Bucket<Payload>, cfg: Config, fileName: string, today: string,
                             hitData: Frame, msg: string)
    returns (r: Result<string, SplitError>)
    modifies target
    ensures SplitOutcome(SplitPlan(cfg, fileName, today, hitData), target.refuses,
                         old(target.objects), old(target.writeLog), target.objects, target.writeLog, msg, r)
  {
    var targetFileName := BaseName(fileName);
    var subset := Project(hitData, cfg.colsForAnalysis);
    if subset.Failure? {
      return Failure(subset.error);
    }
    var expanded := ExpandProductList(subset.value, cfg.productListSplitCols);
    if expanded.Failure? {
      return Failure(expanded.error);
    }
    r := WriteBatch(target, today, targetFileName, expanded.value, msg);
  }
}

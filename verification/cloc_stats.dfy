/** Per-file statistics, the per-language aggregate the directory walk feeds,
    the report's rows and totals, and the small library accessors. */
module ClocStats {
  import opened Base
  import opened ClocScanner
  import opened ClocLanguages

  /** Result codes of the library. */
  const CLOC_SUCCESS: int := 0
  const CLOC_ERROR_IO: int := -1
  const CLOC_ERROR_MEM: int := -2
  const CLOC_ERROR_ARG: int := -3
  const CLOC_ERROR_LIMIT: int := -4

  /** Capacity of the aggregate table. */
  const CLOC_MAX_LANGUAGES: nat := 128

  /** A language identifier as the table hands them out. */
  type LangId = x: nat | x <= LANG_JS

  /** What `process_file` reports for one file; `language` is the row's
      identifier, not its index. */
  datatype FileStats = FileStats(path: string, size: nat, counts: LineCounts, language: LangId, error: int)

  /** One row of the aggregate. */
  datatype LangStats = LangStats(name: Option<string>, files: nat, code: nat, comment: nat, blank: nat, bytes: nat)

  /** Column sums over rows or over files. */
  datatype Totals = Totals(files: nat, code: nat, comment: nat, blank: nat, bytes: nat) {
    function Plus(o: Totals): Totals {
      Totals(files + o.files, code + o.code, comment + o.comment, blank + o.blank, bytes + o.bytes)
    }
  }

  const Zero := Totals(0, 0, 0, 0, 0)

  lemma PlusSwap(a: Totals, b: Totals, c: Totals)
    ensures a.Plus(b).Plus(c) == a.Plus(c).Plus(b)
  {
  }

  /** A slot of the zeroed table once its name is set. */
  function NewRow(name: Option<string>): LangStats {
    LangStats(name, 0, 0, 0, 0, 0)
  }

  /** The numbers a row carries. */
  function RowTotals(row: LangStats): Totals {
    Totals(row.files, row.code, row.comment, row.blank, row.bytes)
  }

  /** One file's contribution to every column. */
  function FileTotals(fs: FileStats): Totals {
    Totals(1, fs.counts.code, fs.counts.comment, fs.counts.blank, fs.size)
  }

  /** The update the callback applies to the row it selected. */
  function AddFile(row: LangStats, fs: FileStats): (r: LangStats)
    ensures r.name == row.name && RowTotals(r) == RowTotals(row).Plus(FileTotals(fs))
  {
    row.(files := row.files + 1, code := row.code + fs.counts.code,
         comment := row.comment + fs.counts.comment, blank := row.blank + fs.counts.blank,
         bytes := row.bytes + fs.size)
  }

  /** How the callback picks a row name from a file's identifier: as
      written it indexes the table by the identifier, one row past the
      detected language; as intended it takes the row carrying that
      identifier. */
  datatype Keying = AsWritten | Intended

  function KeyOf(keying: Keying, fs: FileStats): (k: Option<string>)
    ensures keying.AsWritten? ==> k == Languages[fs.language].name
    ensures keying.Intended? ==>
      exists i | 0 <= i < |Languages| :: Languages[i].id == fs.language && k == Languages[i].name
  {
    if keying.AsWritten? then Languages[fs.language].name
    else
      var i := if fs.language == 0 then SENTINEL else fs.language - 1;
      assert Languages[i].id == fs.language;
      Languages[i].name
  }

  /** A file detected as row `i` is filed, as intended, under that row's own
      name, and as written under the name of the next row. */
  lemma KeyOfDetectedRow(fs: FileStats, i: nat)
    requires i < SENTINEL && fs.language == Languages[i].id
    ensures KeyOf(Intended, fs) == Languages[i].name && KeyOf(Intended, fs).Some?
    ensures KeyOf(AsWritten, fs) == Languages[i + 1].name
  {
    TableShape();
  }

  /** As written, a C file is filed under "C++" and a JavaScript file under
      the nameless sentinel row. */
  lemma KeyAsWrittenMisfiles(c: FileStats, js: FileStats)
    requires c.language == LANG_C && js.language == LANG_JS
    ensures KeyOf(AsWritten, c) == Some("C++") && KeyOf(Intended, c) == Some("C")
    ensures KeyOf(AsWritten, js).None? && KeyOf(Intended, js) == Some("JavaScript")
  {
  }

  /** The first row, from `i` on, whose name is `key`. */
  function FindRow(agg: seq<LangStats>, key: Option<string>, i: nat): (r: Option<nat>)
    requires i <= |agg|
    ensures r.Some? ==> i <= r.value < |agg| && agg[r.value].name == key
    ensures r.None? ==> forall k | i <= k < |agg| :: agg[k].name != key
    decreases |agg| - i
  {
    if i == |agg| then None
    else if agg[i].name == key then Some(i)
    else FindRow(agg, key, i + 1)
  }

  /** The callback's result code and the aggregate it leaves behind. */
  datatype Update = Update(code: int, agg: seq<LangStats>)

  /** `update_stats_callback` for a given key: find the row or append one,
      failing with the limit code when a new row does not fit. */
  function UpdateRow(agg: seq<LangStats>, key: Option<string>, fs: FileStats): (u: Update)
    ensures u.code == CLOC_SUCCESS || u.code == CLOC_ERROR_LIMIT
    ensures u.code == CLOC_ERROR_LIMIT
      <==> |agg| >= CLOC_MAX_LANGUAGES && forall k | 0 <= k < |agg| :: agg[k].name != key
    ensures u.code == CLOC_ERROR_LIMIT ==> u.agg == agg
  {
    match FindRow(agg, key, 0)
    case Some(k) => Update(CLOC_SUCCESS, agg[k := AddFile(agg[k], fs)])
    case None =>
      if |agg| >= CLOC_MAX_LANGUAGES then Update(CLOC_ERROR_LIMIT, agg)
      else Update(CLOC_SUCCESS, agg + [AddFile(NewRow(key), fs)])
  }

  /** `update_stats_callback` with the chosen keying: the file's counts go
      to the row of its key, which is created when new and room is left. */
  function UpdateStats(keying: Keying, agg: seq<LangStats>, fs: FileStats): (u: Update)
    ensures u.code == CLOC_SUCCESS || u.code == CLOC_ERROR_LIMIT
    ensures u.code == CLOC_ERROR_LIMIT
      <==> |agg| >= CLOC_MAX_LANGUAGES && KeyOf(keying, fs) !in Names(agg)
    ensures u.code == CLOC_ERROR_LIMIT ==> u.agg == agg
    ensures u.code == CLOC_SUCCESS ==> ColumnSums(u.agg) == ColumnSums(agg).Plus(FileTotals(fs))
  {
    var key := KeyOf(keying, fs);
    var u := UpdateRow(agg, key, fs);
    if u.code != CLOC_SUCCESS then u
    else
      UpdateRowTotals(agg, key, fs);
      u
  }

  /** A first C file lands in a row named "C++" as written and in "C" as intended. */
  lemma FirstCFileRow(fs: FileStats)
    requires fs.language == LANG_C
    ensures UpdateStats(AsWritten, [], fs).agg == [AddFile(NewRow(Some("C++")), fs)]
    ensures UpdateStats(Intended, [], fs).agg == [AddFile(NewRow(Some("C")), fs)]
  {
  }

  predicate DistinctNames(agg: seq<LangStats>) {
    forall i, j | 0 <= i < j < |agg| :: agg[i].name != agg[j].name
  }

  function Names(agg: seq<LangStats>): set<Option<string>> {
    set k | 0 <= k < |agg| :: agg[k].name
  }

  /** The row for `name`, or a zero row when there is none; with distinct
      names this reads the aggregate as a map. */
  function Lookup(agg: seq<LangStats>, name: Option<string>): LangStats {
    match FindRow(agg, name, 0)
    case Some(k) => agg[k]
    case None => NewRow(name)
  }

  lemma LookupAt(agg: seq<LangStats>, k: nat)
    requires DistinctNames(agg) && k < |agg|
    ensures Lookup(agg, agg[k].name) == agg[k]
  {
  }

  lemma LookupAbsent(agg: seq<LangStats>, name: Option<string>)
    requires name !in Names(agg)
    ensures Lookup(agg, name) == NewRow(name)
  {
  }

  /** A successful update adds the file to the row named `key`, creating it
      at the end if needed, and leaves every other name's row, the order of
      the names and their distinctness unchanged. */
  lemma UpdateRowLookup(agg: seq<LangStats>, key: Option<string>, fs: FileStats)
    requires DistinctNames(agg)
    requires UpdateRow(agg, key, fs).code == CLOC_SUCCESS
    ensures var a := UpdateRow(agg, key, fs).agg;
      DistinctNames(a) && Names(a) == Names(agg) + {key}
      && |a| == |agg| + (if key in Names(agg) then 0 else 1)
      && (forall k | 0 <= k < |agg| :: a[k].name == agg[k].name)
      && (forall n :: Lookup(a, n) == if n == key then AddFile(Lookup(agg, n), fs) else Lookup(agg, n))
  {
    match FindRow(agg, key, 0)
    case Some(k) =>
      UpdateFoundNames(agg, k, fs);
      UpdateFoundLookup(agg, k, fs);
    case None =>
      assert key !in Names(agg);
      UpdateAppendNames(agg, key, fs);
      UpdateAppendLookup(agg, key, fs);
  }

  /** Updating the row at `k` keeps every name where it was. */
  lemma UpdateFoundNames(agg: seq<LangStats>, k: nat, fs: FileStats)
    requires DistinctNames(agg) && k < |agg|
    ensures var a := agg[k := AddFile(agg[k], fs)];
      DistinctNames(a) && Names(a) == Names(agg) && |a| == |agg|
      && (forall j | 0 <= j < |agg| :: a[j].name == agg[j].name)
  {
    var a := agg[k := AddFile(agg[k], fs)];
    forall n | n in Names(a) ensures n in Names(agg) {
      var j :| 0 <= j < |a| && a[j].name == n;
      assert agg[j].name == n;
    }
    forall n | n in Names(agg) ensures n in Names(a) {
      var j :| 0 <= j < |agg| && agg[j].name == n;
      assert a[j].name == n;
    }
  }

  /** Updating the row at `k` changes what its name looks up and nothing else. */
  lemma UpdateFoundLookup(agg: seq<LangStats>, k: nat, fs: FileStats)
    requires DistinctNames(agg) && k < |agg|
    ensures var a, key := agg[k := AddFile(agg[k], fs)], agg[k].name;
      forall n :: Lookup(a, n) == if n == key then AddFile(Lookup(agg, n), fs) else Lookup(agg, n)
  {
    var a, key := agg[k := AddFile(agg[k], fs)], agg[k].name;
    UpdateFoundNames(agg, k, fs);
    forall n ensures Lookup(a, n) == if n == key then AddFile(Lookup(agg, n), fs) else Lookup(agg, n) {
      if n == key {
        LookupAt(agg, k);
        LookupAt(a, k);
      } else if n in Names(agg) {
        var j :| 0 <= j < |agg| && agg[j].name == n;
        LookupAt(agg, j);
        LookupAt(a, j);
      } else {
        LookupAbsent(agg, n);
        LookupAbsent(a, n);
      }
    }
  }

  /** Appending a row for a new name adds that name and keeps the others. */
  lemma UpdateAppendNames(agg: seq<LangStats>, key: Option<string>, fs: FileStats)
    requires DistinctNames(agg) && key !in Names(agg)
    ensures var a := agg + [AddFile(NewRow(key), fs)];
      DistinctNames(a) && Names(a) == Names(agg) + {key} && |a| == |agg| + 1
      && (forall j | 0 <= j < |agg| :: a[j].name == agg[j].name)
  {
    var a := agg + [AddFile(NewRow(key), fs)];
    forall n | n in Names(a) ensures n in Names(agg) + {key} {
      var j :| 0 <= j < |a| && a[j].name == n;
      if j < |agg| { assert agg[j].name == n; }
    }
    forall n | n in Names(agg) ensures n in Names(a) {
      var j :| 0 <= j < |agg| && agg[j].name == n;
      assert a[j].name == n;
    }
    assert a[|agg|].name == key;
  }

  /** Appending a row for a new name gives it the file's numbers and leaves
      every other lookup alone. */
  lemma UpdateAppendLookup(agg: seq<LangStats>, key: Option<string>, fs: FileStats)
    requires DistinctNames(agg) && key !in Names(agg)
    ensures var a := agg + [AddFile(NewRow(key), fs)];
      forall n :: Lookup(a, n) == if n == key then AddFile(Lookup(agg, n), fs) else Lookup(agg, n)
  {
    var a := agg + [AddFile(NewRow(key), fs)];
    UpdateAppendNames(agg, key, fs);
    forall n ensures Lookup(a, n) == if n == key then AddFile(Lookup(agg, n), fs) else Lookup(agg, n) {
      if n == key {
        LookupAbsent(agg, n);
        LookupAt(a, |agg|);
      } else if n in Names(agg) {
        var j :| 0 <= j < |agg| && agg[j].name == n;
        LookupAt(agg, j);
        LookupAt(a, j);
      } else {
        LookupAbsent(agg, n);
        LookupAbsent(a, n);
      }
    }
  }

  /** Sum of the rows' columns, as the report's last line accumulates them. */
  function ColumnSums(rows: seq<LangStats>): Totals {
    if |rows| == 0 then Zero else ColumnSums(rows[..|rows| - 1]).Plus(RowTotals(rows[|rows| - 1]))
  }

  /** Sum of the files' contributions. */
  function FileSums(fss: seq<FileStats>): Totals {
    if |fss| == 0 then Zero else FileSums(fss[..|fss| - 1]).Plus(FileTotals(fss[|fss| - 1]))
  }

  lemma {:induction false} ColumnSumsReplace(rows: seq<LangStats>, k: nat, r: LangStats)
    requires k < |rows|
    ensures ColumnSums(rows[k := r]).Plus(RowTotals(rows[k])) == ColumnSums(rows).Plus(RowTotals(r))
    decreases |rows|
  {
    var n := |rows| - 1;
    var rows' := rows[k := r];
    var a, was, now := ColumnSums(rows[..n]), RowTotals(rows[k]), RowTotals(r);
    if k < n {
      var last := RowTotals(rows[n]);
      assert rows'[..n] == rows[..n][k := r] && rows'[n] == rows[n];
      var a' := ColumnSums(rows'[..n]);
      ColumnSumsReplace(rows[..n], k, r);
      assert a'.Plus(was) == a.Plus(now);
      PlusSwap(a', last, was);
      PlusSwap(a, now, last);
    } else {
      assert rows'[..n] == rows[..n];
      PlusSwap(a, now, was);
    }
  }

  lemma ColumnSumsAppend(rows: seq<LangStats>, r: LangStats)
    ensures ColumnSums(rows + [r]) == ColumnSums(rows).Plus(RowTotals(r))
  {
    assert (rows + [r])[..|rows|] == rows;
  }

  /** A successful update adds exactly the file's contribution to the
      column sums. */
  lemma UpdateRowTotals(agg: seq<LangStats>, key: Option<string>, fs: FileStats)
    requires UpdateRow(agg, key, fs).code == CLOC_SUCCESS
    ensures ColumnSums(UpdateRow(agg, key, fs).agg) == ColumnSums(agg).Plus(FileTotals(fs))
  {
    match FindRow(agg, key, 0)
    case Some(k) =>
      ColumnSumsReplace(agg, k, AddFile(agg[k], fs));
    case None =>
      ColumnSumsAppend(agg, AddFile(NewRow(key), fs));
  }

  /** The aggregate after feeding `fss` to the callback, starting from the
      zeroed table of `cloc_init`; a failed update leaves the table as it was. */
  function Aggregate(keying: Keying, fss: seq<FileStats>): seq<LangStats>
  {
    if |fss| == 0 then []
    else UpdateStats(keying, Aggregate(keying, fss[..|fss| - 1]), fss[|fss| - 1]).agg
  }

  /** Reference: one language's row computed straight from the files. */
  function Summary(keying: Keying, fss: seq<FileStats>, name: Option<string>): LangStats
  {
    if |fss| == 0 then NewRow(name)
    else
      var s := Summary(keying, fss[..|fss| - 1], name);
      if KeyOf(keying, fss[|fss| - 1]) == name then AddFile(s, fss[|fss| - 1]) else s
  }

  /** The keys of the files, i.e. the names that must appear in the aggregate. */
  function Keys(keying: Keying, fss: seq<FileStats>): set<Option<string>>
  {
    set i | 0 <= i < |fss| :: KeyOf(keying, fss[i])
  }

  /** The table's name column; every key is drawn from it. */
  const NameColumn: seq<Option<string>> := seq(|Languages|, i requires 0 <= i < |Languages| => Languages[i].name)

  function Image(s: seq<Option<string>>): set<Option<string>> {
    set i | 0 <= i < |s| :: s[i]
  }

  lemma {:induction false} ImageBound(s: seq<Option<string>>)
    ensures |Image(s)| <= |s|
  {
    if |s| > 0 {
      var n := |s| - 1;
      ImageBound(s[..n]);
      assert Image(s) == Image(s[..n]) + {s[n]} by {
        forall x | x in Image(s) ensures x in Image(s[..n]) + {s[n]} {
          var j :| 0 <= j < |s| && s[j] == x;
          if j < n { assert s[..n][j] == x; }
        }
      }
    }
  }

  lemma KeyInColumn(keying: Keying, fs: FileStats)
    ensures KeyOf(keying, fs) in Image(NameColumn)
  {
    var i := if keying.AsWritten? then fs.language
      else if fs.language == 0 then SENTINEL else fs.language - 1;
    assert NameColumn[i] == Languages[i].name == KeyOf(keying, fs);
  }

  /** Rows with distinct names drawn from a set are no more than the set. */
  lemma {:induction false} DistinctBound(agg: seq<LangStats>, s: set<Option<string>>)
    requires DistinctNames(agg) && Names(agg) <= s
    ensures |agg| <= |s|
    decreases |agg|
  {
    if |agg| > 0 {
      var n := |agg| - 1;
      var last := agg[n];
      assert last.name in Names(agg);
      assert Names(agg[..n]) <= s - {last.name} by {
        forall x | x in Names(agg[..n]) ensures x in s - {last.name} {
          var j :| 0 <= j < n && agg[..n][j].name == x;
          assert agg[j].name == x && agg[j].name in Names(agg);
        }
      }
      DistinctBound(agg[..n], s - {last.name});
    }
  }

  /** An aggregate whose names are keys has at most one row per table row,
      far below the capacity. */
  lemma KeyedAggregateIsSmall(keying: Keying, agg: seq<LangStats>, fss: seq<FileStats>)
    requires DistinctNames(agg) && Names(agg) == Keys(keying, fss)
    ensures |agg| <= |Languages| < CLOC_MAX_LANGUAGES
  {
    assert Names(agg) <= Image(NameColumn) by {
      forall x | x in Keys(keying, fss) ensures x in Image(NameColumn) {
        var j :| 0 <= j < |fss| && KeyOf(keying, fss[j]) == x;
        KeyInColumn(keying, fss[j]);
      }
    }
    ImageBound(NameColumn);
    DistinctBound(agg, Image(NameColumn));
  }

  lemma KeysSnoc(keying: Keying, fss: seq<FileStats>)
    requires |fss| > 0
    ensures Keys(keying, fss) == Keys(keying, fss[..|fss| - 1]) + {KeyOf(keying, fss[|fss| - 1])}
  {
    var m := |fss| - 1;
    var pre := fss[..m];
    forall x | x in Keys(keying, fss) ensures x in Keys(keying, pre) + {KeyOf(keying, fss[m])} {
      var j :| 0 <= j < |fss| && KeyOf(keying, fss[j]) == x;
      if j < m { assert KeyOf(keying, pre[j]) == x; }
    }
    forall x | x in Keys(keying, pre) ensures x in Keys(keying, fss) {
      var j :| 0 <= j < m && KeyOf(keying, pre[j]) == x;
      assert KeyOf(keying, fss[j]) == x;
    }
  }

  /** The aggregate of any sequence of files has as names exactly the
      files' keys, each once; so it never holds more rows than the table
      and no update ever meets the capacity limit. */
  lemma {:induction false} AggregateNames(keying: Keying, fss: seq<FileStats>)
    ensures DistinctNames(Aggregate(keying, fss)) && Names(Aggregate(keying, fss)) == Keys(keying, fss)
    ensures |Aggregate(keying, fss)| <= |Languages|
    ensures |fss| > 0 ==>
      UpdateStats(keying, Aggregate(keying, fss[..|fss| - 1]), fss[|fss| - 1]).code == CLOC_SUCCESS
  {
    if |fss| == 0 {
      assert Names([]) == {};
    } else {
      var m := |fss| - 1;
      var pre := fss[..m];
      AggregateNames(keying, pre);
      KeyedAggregateIsSmall(keying, Aggregate(keying, pre), pre);
      UpdateRowLookup(Aggregate(keying, pre), KeyOf(keying, fss[m]), fss[m]);
      KeysSnoc(keying, fss);
      KeyedAggregateIsSmall(keying, Aggregate(keying, fss), fss);
    }
  }

  /** Each row of the aggregate is the reference summary of its name. */
  lemma {:induction false} AggregateRows(keying: Keying, fss: seq<FileStats>)
    ensures forall n :: Lookup(Aggregate(keying, fss), n) == Summary(keying, fss, n)
  {
    if |fss| > 0 {
      var m := |fss| - 1;
      AggregateRows(keying, fss[..m]);
      AggregateNames(keying, fss);
      AggregateNames(keying, fss[..m]);
      UpdateRowLookup(Aggregate(keying, fss[..m]), KeyOf(keying, fss[m]), fss[m]);
    }
  }

  /** The aggregate's column sums are the sums over the files: no file is
      lost or counted twice. */
  lemma {:induction false} AggregateTotals(keying: Keying, fss: seq<FileStats>)
    ensures ColumnSums(Aggregate(keying, fss)) == FileSums(fss)
  {
    if |fss| > 0 {
      var m := |fss| - 1;
      AggregateTotals(keying, fss[..m]);
      AggregateNames(keying, fss);
      UpdateRowTotals(Aggregate(keying, fss[..m]), KeyOf(keying, fss[m]), fss[m]);
    }
  }

  /** The row of a language is present iff some file carries its key. */
  lemma AggregateRowPresent(keying: Keying, fss: seq<FileStats>, name: Option<string>)
    ensures name in Names(Aggregate(keying, fss))
      <==> exists i | 0 <= i < |fss| :: KeyOf(keying, fss[i]) == name
  {
    AggregateNames(keying, fss);
    if name in Keys(keying, fss) {
      var i :| 0 <= i < |fss| && KeyOf(keying, fss[i]) == name;
    }
  }

  /** `get_language_stats`: the first `min(count, max)` rows, or -1 when no
      buffer is given or `max` is zero. */
  datatype Fetched = Fetched(count: int, rows: seq<LangStats>)

  function GetLanguageStats(agg: seq<LangStats>, hasBuffer: bool, maxLangs: nat): (r: Fetched)
    ensures r.count == -1 <==> !hasBuffer || maxLangs == 0
    ensures r.count == -1 ==> r.rows == []
    ensures r.count != -1 ==> r.count == |r.rows| <= maxLangs && r.rows <= agg
    ensures r.count != -1 ==> (r.count == |agg| || r.count == maxLangs)
  {
    if !hasBuffer || maxLangs == 0 then Fetched(-1, [])
    else
      var n := Min(|agg|, maxLangs);
      Fetched(n, agg[..n])
  }

  /** `get_supported_languages`: table rows up to the sentinel, at most `max`. */
  function GetSupportedLanguages(hasBuffer: bool, maxLangs: nat): (r: (int, seq<LangDef>))
    ensures r.0 == -1 <==> !hasBuffer || maxLangs == 0
    ensures r.0 != -1 ==> r.0 == |r.1| == Min(SENTINEL, maxLangs) && r.1 <= Languages
    ensures forall i | 0 <= i < |r.1| :: r.1[i].name.Some?
  {
    if !hasBuffer || maxLangs == 0 then (-1, [])
    else
      var n := Min(SENTINEL, maxLangs);
      TableShape();
      (n, Languages[..n])
  }

  /** `cloc_strerror`. */
  function ClocStrerror(code: int): (s: string)
    ensures s == "Unknown error"
      <==> code !in {CLOC_SUCCESS, CLOC_ERROR_IO, CLOC_ERROR_MEM, CLOC_ERROR_ARG, CLOC_ERROR_LIMIT}
  {
    if code == CLOC_SUCCESS then "Success"
    else if code == CLOC_ERROR_IO then "I/O error"
    else if code == CLOC_ERROR_MEM then "Memory allocation failed"
    else if code == CLOC_ERROR_ARG then "Invalid argument"
    else if code == CLOC_ERROR_LIMIT then "Internal limit reached"
    else "Unknown error"
  }

  /** Distinct known codes have distinct messages. */
  lemma StrerrorInjective(a: int, b: int)
    requires ClocStrerror(a) == ClocStrerror(b) && ClocStrerror(a) != "Unknown error"
    ensures a == b
  {
  }

  const U32: nat := 0x1_0000_0000
  const U64: nat := 0x1_0000_0000_0000_0000

  /** What a cast to an unsigned type with `m` values keeps of `value`: the
      one number below `m` that differs from it by a multiple of `m`, which
      is `value` itself when it fits. */
  predicate Wraps(cell: nat, value: nat, m: nat) {
    cell < m && (cell - value) % m == 0 && (value < m ==> cell == value)
  }

  /** Reducing modulo `m` is such a cast. */
  lemma WrapsMod(x: nat, m: nat)
    requires m == U32 || m == U64
    ensures Wraps(x % m, x, m)
  {
    if m == U32 {
      assert (x % U32 - x) % U32 == 0;
    } else {
      assert (x % U64 - x) % U64 == 0;
    }
  }

  /** A 64-bit value cast to 32 bits keeps the low 32 bits of the original. */
  lemma WrapsTwice(x: nat)
    ensures Wraps((x % U64) % U32, x, U32)
  {
    var q, y := x / U64, x % U64;
    var p, r := y / U32, y % U32;
    assert x == q * U64 + y;
    assert y == p * U32 + r;
    assert r - x == -(p + q * U32) * U32;
    MultipleMod(-(p + q * U32));
    if x < U32 {
      assert q == 0;
    }
  }

  lemma MultipleMod(n: int)
    ensures (n * U32) % U32 == 0
  {
  }

  /** Adding 64-bit values wraps like adding the originals and cutting once. */
  lemma SumWraps(a: nat, b: nat, c: nat)
    ensures Wraps((a % U64 + b % U64 + c % U64) % U64, a + b + c, U64)
  {
    assert ((a % U64 + b % U64 + c % U64) % U64 - (a + b + c)) % U64 == 0;
  }

  /** One printed row: files, code, comments, blank and total, each cast to
      a 32-bit unsigned value; the total is summed in 64 bits first. Each
      cell is its field cut to 32 bits, the field itself when it fits. */
  function ReportRow(row: LangStats): (cells: seq<nat>)
    ensures |cells| == 5
    ensures Wraps(cells[0], row.files, U32) && Wraps(cells[1], row.code, U32)
      && Wraps(cells[2], row.comment, U32) && Wraps(cells[3], row.blank, U32)
      && Wraps(cells[4], row.code + row.comment + row.blank, U32)
  {
    var total := row.code + row.comment + row.blank;
    WrapsMod(row.files, U32);
    WrapsMod(row.code, U32);
    WrapsMod(row.comment, U32);
    WrapsMod(row.blank, U32);
    WrapsTwice(total);
    [row.files % U32, row.code % U32, row.comment % U32, row.blank % U32, (total % U64) % U32]
  }

  /** The report's last line: 64-bit column sums and their total. Each cell
      is the column sum cut to 64 bits, the sum itself when it fits; the
      total is the sum of the three line columns cut likewise. */
  function ReportFooter(rows: seq<LangStats>): (cells: seq<nat>)
    ensures |cells| == 5
    ensures var t := ColumnSums(rows);
      Wraps(cells[0], t.files, U64) && Wraps(cells[1], t.code, U64)
      && Wraps(cells[2], t.comment, U64) && Wraps(cells[3], t.blank, U64)
      && Wraps(cells[4], t.code + t.comment + t.blank, U64)
  {
    var t := ColumnSums(rows);
    WrapsMod(t.files, U64);
    WrapsMod(t.code, U64);
    WrapsMod(t.comment, U64);
    WrapsMod(t.blank, U64);
    SumWraps(t.code, t.comment, t.blank);
    [t.files % U64, t.code % U64, t.comment % U64, t.blank % U64,
     (t.code % U64 + t.comment % U64 + t.blank % U64) % U64]
  }

  /** The printed Total column of the rows. */
  function PrintedTotals(rows: seq<LangStats>): nat {
    if |rows| == 0 then 0 else PrintedTotals(rows[..|rows| - 1]) + ReportRow(rows[|rows| - 1])[4]
  }

  /** When nothing is truncated, the footer's total is the sum of the rows'
      totals, and also the sum of the footer's own three line columns. */
  lemma {:induction false} FooterMatchesRows(rows: seq<LangStats>)
    requires forall i | 0 <= i < |rows| :: rows[i].code + rows[i].comment + rows[i].blank < U32
    requires ColumnSums(rows).code + ColumnSums(rows).comment + ColumnSums(rows).blank < U64
    ensures ReportFooter(rows)[4] == PrintedTotals(rows)
    ensures ReportFooter(rows)[4] == ReportFooter(rows)[1] + ReportFooter(rows)[2] + ReportFooter(rows)[3]
  {
    PrintedTotalsIsSum(rows);
  }

  lemma {:induction false} PrintedTotalsIsSum(rows: seq<LangStats>)
    requires forall i | 0 <= i < |rows| :: rows[i].code + rows[i].comment + rows[i].blank < U32
    ensures PrintedTotals(rows) == ColumnSums(rows).code + ColumnSums(rows).comment + ColumnSums(rows).blank
  {
    if |rows| > 0 {
      var n := |rows| - 1;
      var last := rows[n];
      var x := last.code + last.comment + last.blank;
      assert x < U32;
      assert ReportRow(last)[4] == x;
      assert forall i | 0 <= i < n :: rows[..n][i] == rows[i];
      PrintedTotalsIsSum(rows[..n]);
    }
  }
}

/** `process_file` and `process_directory` over an in-memory directory tree,
    with `update_stats_callback` as the callback. */
module ClocWalker {
  import opened Base
  import opened ClocScanner
  import opened ClocLanguages
  import opened ClocStats

  /** Longest path, terminator included. */
  const CLOC_MAX_PATH: nat := 4096

  /** A directory entry as `lstat` classifies it. A file's content is None
      when it cannot be opened or mapped; a directory that cannot be opened
      is not readable and its children are then irrelevant. `Other` covers symbolic links, devices and entries
      that vanish before `lstat`, all of which the walk passes over. */
  datatype Node =
    | File(name: string, content: Option<string>)
    | Dir(name: string, readable: bool, children: seq<Node>)
    | Other(name: string)

  /** The path kept in the statistics: `strncpy` into a buffer of
      CLOC_MAX_PATH bytes whose last byte is forced to NUL. */
  function StoredPath(path: string): (r: string)
    ensures |r| < CLOC_MAX_PATH && r <= path
    ensures |r| == Min(|CString(path)|, CLOC_MAX_PATH - 1)
  {
    var c := CString(path);
    c[..Min(|c|, CLOC_MAX_PATH - 1)]
  }

  datatype Processed = Processed(code: int, stats: FileStats)

  /** `process_file`: detect the language (sniffing a header through the same
      content), then count the lines of a non-empty file. An empty file
      succeeds with zero counts and size zero. */
  function ProcessFile(path: string, content: Option<string>): (p: Processed)
    ensures p.code == CLOC_SUCCESS || p.code == CLOC_ERROR_IO || p.code == CLOC_ERROR_ARG
    ensures p.code == CLOC_ERROR_ARG <==> DetectLanguage(path, content).None?
    ensures p.code == CLOC_ERROR_IO <==> DetectLanguage(path, content).Some? && content.None?
    ensures p.stats.path == StoredPath(path)
    ensures p.code != CLOC_ERROR_ARG ==>
      p.stats.language == Languages[DetectLanguage(path, content).value].id && 1 <= p.stats.language <= SENTINEL
    ensures p.code == CLOC_ERROR_IO ==> p.stats.error == CLOC_ERROR_IO
    ensures p.code == CLOC_SUCCESS ==> p.stats.error == CLOC_SUCCESS && p.stats.size == |content.value|
    ensures p.code == CLOC_SUCCESS ==>
      Newlines(content.value) <= (p.stats.counts.code + p.stats.counts.comment + p.stats.counts.blank) <= Newlines(content.value) + 1
    ensures p.code == CLOC_SUCCESS && |content.value| > 0 && content.value[|content.value| - 1] == '\n' ==>
      (p.stats.counts.code + p.stats.counts.comment + p.stats.counts.blank) == Newlines(content.value)
    ensures p.code == CLOC_SUCCESS ==>
      p.stats.counts == if |content.value| == 0 then NoLines
        else CountLines(SyntaxOf(DetectLanguage(path, content).value), content.value)
  {
    var init := FileStats(StoredPath(path), 0, NoLines, 0, CLOC_SUCCESS);
    match DetectLanguage(path, content)
    case None => Processed(CLOC_ERROR_ARG, init)
    case Some(i) =>
      TableShape();
      var fs := init.(language := Languages[i].id);
      if content.None? then Processed(CLOC_ERROR_IO, fs.(error := CLOC_ERROR_IO))
      else if |content.value| == 0 then Processed(CLOC_SUCCESS, fs)
      else
        Processed(CLOC_SUCCESS,
          fs.(size := |content.value|, counts := CountLines(SyntaxOf(i), content.value)))
  }

  /** Entries the walk passes over before looking at their type. */
  predicate Hidden(name: string) {
    |name| > 0 && name[0] == '.'
  }

  predicate TooLong(path: string, name: string) {
    |path| + |name| + 2 > CLOC_MAX_PATH
  }

  function Join(path: string, name: string): string {
    path + "/" + name
  }

  datatype Walk = Walk(code: int, agg: seq<LangStats>)

  /** The loop of `process_directory` over the listing `es` of `path`:
      skipped names, recursion that breaks on a subdirectory's error, and
      delivery of each successfully processed file to the callback, whose
      failure ends the loop with the argument error. */
  function WalkEntries(keying: Keying, path: string, es: seq<Node>, agg: seq<LangStats>): (w: Walk)
    ensures w.code == CLOC_SUCCESS || w.code == CLOC_ERROR_IO || w.code == CLOC_ERROR_ARG
    decreases es
  {
    if |es| == 0 then Walk(CLOC_SUCCESS, agg)
    else
      var e := es[0];
      if Hidden(e.name) || TooLong(path, e.name) then WalkEntries(keying, path, es[1..], agg)
      else
        var full := Join(path, e.name);
        match e
        case Other(_) => WalkEntries(keying, path, es[1..], agg)
        case Dir(_, readable, children) =>
          var sub := if !readable then Walk(CLOC_ERROR_IO, agg)
            else WalkEntries(keying, full, children, agg);
          if sub.code != CLOC_SUCCESS then sub else WalkEntries(keying, path, es[1..], sub.agg)
        case File(_, content) =>
          var p := ProcessFile(full, content);
          if p.code != CLOC_SUCCESS then WalkEntries(keying, path, es[1..], agg)
          else
            var u := UpdateStats(keying, agg, p.stats);
            if u.code != CLOC_SUCCESS then Walk(CLOC_ERROR_ARG, u.agg)
            else WalkEntries(keying, path, es[1..], u.agg)
  }

  /** `process_directory` on a directory whose listing may be unreadable. */
  function ProcessDirectory(keying: Keying, path: string, listing: Option<seq<Node>>, agg: seq<LangStats>): (w: Walk)
    ensures listing.None? ==> w == Walk(CLOC_ERROR_IO, agg)
    ensures w.code == CLOC_SUCCESS || w.code == CLOC_ERROR_IO || w.code == CLOC_ERROR_ARG
  {
    if listing.None? then Walk(CLOC_ERROR_IO, agg) else WalkEntries(keying, path, listing.value, agg)
  }

  /** Reference: which files reach the callback, in order, and whether an
      unreadable subdirectory cut the walk short. */
  datatype Trace = Trace(files: seq<FileStats>, stopped: bool)

  function Visit(path: string, es: seq<Node>): (t: Trace)
    decreases es
  {
    if |es| == 0 then Trace([], false)
    else
      var e := es[0];
      if Hidden(e.name) || TooLong(path, e.name) then Visit(path, es[1..])
      else
        var full := Join(path, e.name);
        match e
        case Other(_) => Visit(path, es[1..])
        case Dir(_, readable, children) =>
          if !readable then Trace([], true)
          else
            var t := Visit(full, children);
            if t.stopped then t
            else
              var r := Visit(path, es[1..]);
              Trace(t.files + r.files, r.stopped)
        case File(_, content) =>
          var p := ProcessFile(full, content);
          var r := Visit(path, es[1..]);
          if p.code == CLOC_SUCCESS then Trace([p.stats] + r.files, r.stopped) else r
  }

  /** Every directory the walk would enter can be listed. */
  predicate Readable(path: string, es: seq<Node>)
    decreases es
  {
    |es| == 0 ||
    (var e := es[0];
     Readable(path, es[1..]) &&
     (Hidden(e.name) || TooLong(path, e.name) || !e.Dir? ||
      (e.readable && Readable(Join(path, e.name), e.children))))
  }

  lemma {:induction false} ReadableNeverStops(path: string, es: seq<Node>)
    requires Readable(path, es)
    ensures !Visit(path, es).stopped
    decreases es
  {
    if |es| > 0 {
      var e := es[0];
      ReadableNeverStops(path, es[1..]);
      if !(Hidden(e.name) || TooLong(path, e.name)) && e.Dir? {
        ReadableNeverStops(Join(path, e.name), e.children);
      }
    }
  }

  lemma AggregateSnoc(keying: Keying, prior: seq<FileStats>, fs: FileStats)
    ensures UpdateStats(keying, Aggregate(keying, prior), fs)
      == Update(CLOC_SUCCESS, Aggregate(keying, prior + [fs]))
  {
    var all := prior + [fs];
    assert all[..|prior|] == prior && all[|prior|] == fs;
    AggregateNames(keying, all);
  }

  /** Starting from the aggregate of earlier files, the walk leaves the
      aggregate of those files followed by the files it delivers, in
      listing order, and fails only when a subdirectory cannot be listed:
      the callback never fails and the capacity limit is never met. */
  lemma {:induction false} WalkIsAggregate(keying: Keying, path: string, es: seq<Node>, prior: seq<FileStats>)
    ensures var t := Visit(path, es);
      WalkEntries(keying, path, es, Aggregate(keying, prior))
        == Walk(if t.stopped then CLOC_ERROR_IO else CLOC_SUCCESS, Aggregate(keying, prior + t.files))
    decreases es
  {
    if |es| == 0 {
      assert prior + [] == prior;
    } else {
      var e := es[0];
      var rest := es[1..];
      if Hidden(e.name) || TooLong(path, e.name) || e.Other? {
        WalkIsAggregate(keying, path, rest, prior);
      } else if e.Dir? {
        var full := Join(path, e.name);
        if e.readable {
          WalkIsAggregate(keying, full, e.children, prior);
          var t := Visit(full, e.children);
          if !t.stopped {
            WalkIsAggregate(keying, path, rest, prior + t.files);
            AppendAssoc(prior, t.files, Visit(path, rest).files);
          }
        } else {
          assert prior + [] == prior;
        }
      } else {
        var full := Join(path, e.name);
        var p := ProcessFile(full, e.content);
        if p.code == CLOC_SUCCESS {
          AggregateSnoc(keying, prior, p.stats);
          WalkIsAggregate(keying, path, rest, prior + [p.stats]);
          AppendAssoc(prior, [p.stats], Visit(path, rest).files);
        } else {
          WalkIsAggregate(keying, path, rest, prior);
        }
      }
    }
  }

  /** On a fully readable tree the walk from the zeroed table succeeds, and
      every row is the summary of the delivered files under its name, with
      column sums equal to the sums over those files. */
  lemma WalkReadableTree(keying: Keying, path: string, es: seq<Node>)
    requires Readable(path, es)
    ensures var w := WalkEntries(keying, path, es, []); var files := Visit(path, es).files;
      w.code == CLOC_SUCCESS && Names(w.agg) == Keys(keying, files) && DistinctNames(w.agg)
      && (forall n :: Lookup(w.agg, n) == Summary(keying, files, n))
      && ColumnSums(w.agg) == FileSums(files)
  {
    ReadableNeverStops(path, es);
    WalkIsAggregate(keying, path, es, []);
    var files := Visit(path, es).files;
    assert [] + files == files;
    AggregateNames(keying, files);
    AggregateRows(keying, files);
    AggregateTotals(keying, files);
  }

  /** A hidden entry, or one whose joined path would not fit, is passed
      over without effect. */
  lemma SkippedEntry(keying: Keying, path: string, e: Node, es: seq<Node>, agg: seq<LangStats>)
    requires Hidden(e.name) || TooLong(path, e.name)
    ensures WalkEntries(keying, path, [e] + es, agg) == WalkEntries(keying, path, es, agg)
    ensures Visit(path, [e] + es) == Visit(path, es)
  {
    assert ([e] + es)[1..] == es;
  }

  /** A subdirectory that cannot be listed ends the walk of its parent with
      the I/O error; later siblings are not visited. */
  lemma UnreadableSubdirectoryStops(keying: Keying, path: string, name: string, children: seq<Node>,
                                    es: seq<Node>, agg: seq<LangStats>)
    requires !Hidden(name) && !TooLong(path, name)
    ensures WalkEntries(keying, path, [Dir(name, false, children)] + es, agg) == Walk(CLOC_ERROR_IO, agg)
  {
  }

  /** A file whose processing fails is not delivered: the walk goes on as if
      it were absent. */
  lemma FailedFileSkipped(keying: Keying, path: string, e: Node, es: seq<Node>, agg: seq<LangStats>)
    requires e.File? && !Hidden(e.name) && !TooLong(path, e.name)
    requires ProcessFile(Join(path, e.name), e.content).code != CLOC_SUCCESS
    ensures WalkEntries(keying, path, [e] + es, agg) == WalkEntries(keying, path, es, agg)
  {
    assert ([e] + es)[1..] == es;
  }

  /** One step of the loop on a file entry that is not skipped. */
  lemma WalkFileStep(keying: Keying, path: string, e: Node, es: seq<Node>, agg: seq<LangStats>)
    requires e.File? && !Hidden(e.name) && !TooLong(path, e.name)
    ensures var p := ProcessFile(Join(path, e.name), e.content);
      WalkEntries(keying, path, [e] + es, agg)
        == if p.code != CLOC_SUCCESS then WalkEntries(keying, path, es, agg)
           else if UpdateStats(keying, agg, p.stats).code != CLOC_SUCCESS
           then Walk(CLOC_ERROR_ARG, UpdateStats(keying, agg, p.stats).agg)
           else WalkEntries(keying, path, es, UpdateStats(keying, agg, p.stats).agg)
  {
    var all := [e] + es;
    assert all[0] == e && all[1..] == es;
  }

  /** When the callback refuses a delivered file (a full table without its
      name), the walk stops at once with the argument error, not the limit
      code, and the table is left as it was. */
  lemma CallbackFailureIsArg(keying: Keying, path: string, e: Node, es: seq<Node>, agg: seq<LangStats>)
    requires e.File? && !Hidden(e.name) && !TooLong(path, e.name)
    requires var p := ProcessFile(Join(path, e.name), e.content);
      p.code == CLOC_SUCCESS && UpdateStats(keying, agg, p.stats).code != CLOC_SUCCESS
    ensures WalkEntries(keying, path, [e] + es, agg) == Walk(CLOC_ERROR_ARG, agg)
  {
    WalkFileStep(keying, path, e, es, agg);
  }
}

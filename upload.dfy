/**
 * The upload itself: `upload_files` sends the queued files in batches of
 * ten, each batch as one request whose verb is PUT when the update is
 * forced and PATCH otherwise, and appends each batch to the ledger file
 * whatever the response; `upload` reads the configured roots, discovers
 * the stale files below them and uploads them.
 *
 * The server's answers, the file contents and the modification times at
 * saving time are parameters: `status(j)` is the status code returned for
 * the batch numbered j from 0, `textOf(p)` the decoded text of the file at
 * `p`, `bytesOf(p)` its bytes and `mtimeOf(p)` its modification time.
 */
module Upload {
  import opened Text
  import opened Wrappers
  import opened Excalidraw
  import opened Mime
  import opened ModificationLedger
  import opened Discovery

  const BatchSize: nat := 10
  const DefaultFileTypes: string := ".md,.pdf"
  const Excludes: string := ".obsidian/,.trash/,plugins/,Template/"

  datatype Verb = Put | Patch

  /** What a file is sent as: text after filtering, or its raw bytes. */
  datatype Body = TextBody(text: string) | BinaryBody(data: seq<bv8>)

  /** One `('files', (name, content, mime))` entry of the form data. */
  datatype Part = Part(name: string, body: Body, mime: string)

  datatype Request = Request(verb: Verb, parts: seq<Part>)

  /** What is reported after a batch: its number from 1, whether the
      server answered 200, and the running count of files sent. */
  datatype BatchReport = BatchReport(number: nat, ok: bool, completed: nat)

  // ---- batches ----

  /** The number of batches for `n` files: n / 10 rounded up. */
  function NumBatches(n: nat): (b: nat)
    ensures BatchSize * b >= n
    ensures b > 0 ==> BatchSize * (b - 1) < n
  {
    (n + BatchSize - 1) / BatchSize
  }

  function Min(a: int, b: int): int
  {
    if a <= b then a else b
  }

  /** `files[i:i + BATCH_SIZE]` for the batch starting at `i = 10 * j`. */
  function Batch(files: seq<string>, j: nat): seq<string>
    requires j < NumBatches(|files|)
  {
    files[BatchSize * j..Min(BatchSize * (j + 1), |files|)]
  }

  /** `completed_files` after `j` batches. */
  function Completed(n: nat, j: nat): nat
  {
    Min(BatchSize * j, n)
  }

  /** The first `k` batches, concatenated. */
  function FirstBatches(files: seq<string>, k: nat): seq<string>
    requires k <= NumBatches(|files|)
  {
    if k == 0 then [] else FirstBatches(files, k - 1) + Batch(files, k - 1)
  }

  /** The batches cover the files exactly, in order: the first `k` batches
      are the first `min(10k, n)` files, and all of them are all the files. */
  lemma {:induction false} BatchesCoverFiles(files: seq<string>, k: nat)
    requires k <= NumBatches(|files|)
    ensures FirstBatches(files, k) == files[..Completed(|files|, k)]
    ensures k == NumBatches(|files|) ==> FirstBatches(files, k) == files
  {
    if k > 0 {
      BatchesCoverFiles(files, k - 1);
      assert files[..Completed(|files|, k)]
        == files[..Completed(|files|, k - 1)] + Batch(files, k - 1);
    }
    if k == NumBatches(|files|) {
      assert files[..Completed(|files|, k)] == files;
    }
  }

  /** Every batch holds between 1 and 10 files, and every batch but the
      last holds exactly 10. */
  lemma BatchSizes(files: seq<string>, j: nat)
    requires j < NumBatches(|files|)
    ensures 1 <= |Batch(files, j)| <= BatchSize
    ensures j < NumBatches(|files|) - 1 ==> |Batch(files, j)| == BatchSize
  {
  }

  /** The progress count ends at the number of files. */
  lemma CompletedEndsAtTotal(n: nat)
    ensures Completed(n, NumBatches(n)) == n
    ensures forall j :: 0 < j < NumBatches(n) ==> Completed(n, j) == BatchSize * j < n
  {
  }

  /** Appending the records of two runs of paths is appending the records
      of the paths of both. */
  lemma {:induction false} SerializeAppend(a: seq<string>, b: seq<string>, mtimeOf: string -> nat)
    ensures Serialize(a + b, mtimeOf) == Serialize(a, mtimeOf) + Serialize(b, mtimeOf)
  {
    if b == [] {
      assert a + b == a;
    } else {
      var ab, init, last := a + b, b[..|b| - 1], b[|b| - 1];
      assert ab[..|ab| - 1] == a + init && ab[|ab| - 1] == last;
      var record := FormatRecord(last, mtimeOf(last));
      assert Serialize(ab, mtimeOf) == Serialize(a + init, mtimeOf) + record;
      assert Serialize(b, mtimeOf) == Serialize(init, mtimeOf) + record;
      SerializeAppend(a, init, mtimeOf);
      AppendAssoc(Serialize(a, mtimeOf), Serialize(init, mtimeOf), record);
    }
  }

  // ---- the form data of a batch ----

  /** The form entry for one file: the MIME type comes from the extension;
      text is read with universal newlines and passed through `my_filter`,
      anything else is sent as it is. */
  function PartFor(path: string, textOf: string -> string, bytesOf: string -> seq<bv8>): (part: Part)
    ensures part.name == path
  {
    var mime := MimeType(Extension(path));
    if IsTextMime(mime) then Part(path, TextBody(FilterText(path, TranslateNewlines(textOf(path)))), mime)
    else Part(path, BinaryBody(bytesOf(path)), mime)
  }

  /** The form entries for a batch, in order. */
  function PartsFor(batch: seq<string>, textOf: string -> string, bytesOf: string -> seq<bv8>): seq<Part>
  {
    if batch == [] then []
    else PartsFor(batch[..|batch| - 1], textOf, bytesOf) + [PartFor(batch[|batch| - 1], textOf, bytesOf)]
  }

  /** One form entry per file of the batch, in the batch's order. */
  lemma {:induction false} PartsPerFile(batch: seq<string>, textOf: string -> string, bytesOf: string -> seq<bv8>)
    ensures |PartsFor(batch, textOf, bytesOf)| == |batch|
    ensures forall k :: 0 <= k < |batch| ==> PartsFor(batch, textOf, bytesOf)[k] == PartFor(batch[k], textOf, bytesOf)
  {
    if batch != [] {
      var init := batch[..|batch| - 1];
      PartsPerFile(init, textOf, bytesOf);
      var parts := PartsFor(batch, textOf, bytesOf);
      var initParts := PartsFor(init, textOf, bytesOf);
      assert parts == initParts + [PartFor(batch[|batch| - 1], textOf, bytesOf)];
      forall k | 0 <= k < |batch| - 1
        ensures parts[k] == PartFor(batch[k], textOf, bytesOf)
      {
        assert parts[k] == initParts[k];
        assert init[k] == batch[k];
      }
    }
  }

  /** The loop of `upload_files` over the files of one batch. */
  method BuildForm(batch: seq<string>, textOf: string -> string, bytesOf: string -> seq<bv8>)
    returns (parts: seq<Part>)
    ensures parts == Form(textOf, bytesOf)(batch)
  {
    parts := [];
    for i := 0 to |batch|
      invariant parts == PartsFor(batch[..i], textOf, bytesOf)
    {
      assert batch[..i + 1][..i] == batch[..i];
      var path := batch[i];
      var mime := MimeType(Extension(path));
      var part;
      if IsTextMime(mime) {
        var content := Filter(path, TranslateNewlines(textOf(path)));
        part := Part(path, TextBody(content), mime);
      } else {
        part := Part(path, BinaryBody(bytesOf(path)), mime);
      }
      assert part == PartFor(batch[i], textOf, bytesOf);
      parts := parts + [part];
    }
    assert batch[..|batch|] == batch;
  }

  /** `PartsFor` as a function of the batch alone. */
  function Form(textOf: string -> string, bytesOf: string -> seq<bv8>): seq<string> -> seq<Part>
  {
    batch => PartsFor(batch, textOf, bytesOf)
  }

  /** The requests for the first `k` batches of `files`. */
  function Requests(files: seq<string>, verb: Verb, form: seq<string> -> seq<Part>, k: nat): seq<Request>
    requires k <= NumBatches(|files|)
  {
    if k == 0 then [] else Requests(files, verb, form, k - 1) + [Request(verb, form(Batch(files, k - 1)))]
  }

  /** The reports after the first `k` of `n` files' batches. */
  function Reports(n: nat, status: nat -> int, k: nat): seq<BatchReport>
  {
    if k == 0 then [] else Reports(n, status, k - 1) + [BatchReport(k, status(k - 1) == 200, Completed(n, k))]
  }

  /** The requests and reports `upload_files` produces for `files`. */
  predicate SentInBatches(files: seq<string>, force: bool, status: nat -> int,
                          textOf: string -> string, bytesOf: string -> seq<bv8>,
                          requests: seq<Request>, reports: seq<BatchReport>)
  {
    && requests == Requests(files, if force then Put else Patch, Form(textOf, bytesOf), NumBatches(|files|))
    && reports == Reports(|files|, status, NumBatches(|files|))
  }

  /** One request per batch, in order, each with the verb and the form
      entries of its batch. */
  lemma {:induction false} RequestsPerBatch(files: seq<string>, verb: Verb, form: seq<string> -> seq<Part>, k: nat)
    requires k <= NumBatches(|files|)
    ensures var requests := Requests(files, verb, form, k);
      && |requests| == k
      && forall j :: 0 <= j < k ==> requests[j] == Request(verb, form(Batch(files, j)))
  {
    if k > 0 {
      RequestsPerBatch(files, verb, form, k - 1);
    }
  }

  /** One report per batch: batch `j` (from 0) is reported as number j + 1,
      as successful exactly when its status is 200, with min(10(j + 1), n)
      files completed. */
  lemma {:induction false} ReportsPerBatch(n: nat, status: nat -> int, k: nat)
    ensures var reports := Reports(n, status, k);
      && |reports| == k
      && forall j :: 0 <= j < k ==>
           && reports[j].number == j + 1
           && (reports[j].ok <==> status(j) == 200)
           && reports[j].completed == Min(BatchSize * (j + 1), n)
  {
    if k > 0 {
      ReportsPerBatch(n, status, k - 1);
    }
  }

  /** The batch at offset `i = 10 * j` of the loop of `upload_files`. */
  lemma BatchStep(files: seq<string>, i: nat, j: nat)
    requires i == BatchSize * j && i < |files|
    ensures j < NumBatches(|files|) && i / BatchSize == j
    ensures files[i..Min(i + BatchSize, |files|)] == Batch(files, j)
    ensures Completed(|files|, j) + |Batch(files, j)| == Completed(|files|, j + 1)
    ensures FirstBatches(files, j + 1) == FirstBatches(files, j) + Batch(files, j)
  {
  }

  /** The loop stops after the last batch. */
  lemma AllBatchesSent(n: nat, k: nat)
    requires k <= NumBatches(n) && BatchSize * k >= n
    ensures k == NumBatches(n)
  {
  }

  /** `upload_files(files, force_update)`. Every batch is appended to the
      ledger file after its request, whatever the status code. */
  method UploadFiles(ledger: Ledger, files: seq<string>, force: bool, status: nat -> int,
                     textOf: string -> string, bytesOf: string -> seq<bv8>, mtimeOf: string -> nat)
    returns (requests: seq<Request>, reports: seq<BatchReport>)
    modifies ledger
    ensures SentInBatches(files, force, status, textOf, bytesOf, requests, reports)
    ensures ledger.persisted == old(ledger.persisted) + Serialize(files, mtimeOf)
    ensures ledger.records == old(ledger.records)
  {
    var total := |files|;
    var completed := 0;
    requests := [];
    reports := [];
    var i := 0;
    while i < total
      invariant |requests| <= NumBatches(total) && i == BatchSize * |requests|
      invariant requests == Requests(files, if force then Put else Patch, Form(textOf, bytesOf), |requests|)
      invariant reports == Reports(total, status, |requests|)
      invariant completed == Completed(total, |requests|)
      invariant ledger.persisted == old(ledger.persisted) + Serialize(FirstBatches(files, |requests|), mtimeOf)
      invariant ledger.records == old(ledger.records)
      decreases total - i
    {
      ghost var j := |requests|;
      BatchStep(files, i, j);
      var batch := files[i..Min(i + BatchSize, total)];
      ghost var sent := Requests(files, if force then Put else Patch, Form(textOf, bytesOf), j + 1);
      var parts := BuildForm(batch, textOf, bytesOf);
      var verb := if force then Put else Patch;
      var code := status(i / BatchSize);
      assert sent == requests + [Request(verb, parts)];
      requests := requests + [Request(verb, parts)];
      completed := completed + |batch|;
      assert i / BatchSize == j && code == status(j);
      assert |batch| == |Batch(files, j)|;
      assert completed == Completed(total, j + 1);
      reports := reports + [BatchReport(i / BatchSize + 1, code == 200, completed)];
      assert reports == Reports(total, status, j + 1);
      assert requests == Requests(files, verb, Form(textOf, bytesOf), j + 1);
      SerializeAppend(FirstBatches(files, j), batch, mtimeOf);
      AppendAssoc(old(ledger.persisted), Serialize(FirstBatches(files, j), mtimeOf), Serialize(batch, mtimeOf));
      ledger.Save(batch, mtimeOf);
      assert ledger.persisted == old(ledger.persisted) + Serialize(FirstBatches(files, j + 1), mtimeOf);
      i := i + BatchSize;
      assert |requests| == j + 1;
      assert reports == Reports(total, status, j + 1);
    }
    AllBatchesSent(total, |requests|);
    BatchesCoverFiles(files, |requests|);
  }

  // ---- the whole run ----

  /** The roots listed in the paths file: its lines stripped, blank ones
      dropped. */
  function RootsOf(lines: seq<string>): seq<string>
  {
    if lines == [] then []
    else
      var root := Strip(lines[|lines| - 1]);
      RootsOf(lines[..|lines| - 1]) + (if root == [] then [] else [root])
  }

  /** No root is configured exactly when every line is blank. */
  lemma {:induction false} NoRootsIffBlank(lines: seq<string>)
    ensures RootsOf(lines) == [] <==> forall i :: 0 <= i < |lines| ==> Strip(lines[i]) == []
  {
    if lines != [] {
      var init := lines[..|lines| - 1];
      NoRootsIffBlank(init);
      assert forall i :: 0 <= i < |init| ==> init[i] == lines[i];
    }
  }

  /** `[pattern.strip() for pattern in patterns]`. */
  function StripEach(patterns: seq<string>): (r: seq<string>)
    ensures |r| == |patterns|
    ensures forall i :: 0 <= i < |patterns| ==> r[i] == Strip(patterns[i])
  {
    if patterns == [] then [] else StripEach(patterns[..|patterns| - 1]) + [Strip(patterns[|patterns| - 1])]
  }

  /** The suffixes files are selected by. */
  function FileTypes(): seq<string>
  {
    Split(DefaultFileTypes, ',')
  }

  /** The exclusion patterns. */
  function ExcludePatterns(): seq<string>
  {
    StripEach(Split(Excludes, ','))
  }

  /** How a run ends. */
  datatype Outcome =
    | MissingPathsFile   // the paths file does not exist
    | NoPathsConfigured  // it lists no path
    | Synced(queued: seq<string>, invalid: seq<string>, auditLog: string,
             requests: seq<Request>, reports: seq<BatchReport>)

  /** `upload(force_update)`. `pathsFile` is the text of the paths file, if
      it exists; `lookup` says what each configured root names. After an
      upload the whole map is appended to the ledger file once more, in an
      order returned as `order`. */
  method Sync(ledger: Ledger, pathsFile: Option<string>, lookup: string -> Entry, force: bool,
              status: nat -> int, textOf: string -> string, bytesOf: string -> seq<bv8>,
              mtimeOf: string -> nat)
    returns (outcome: Outcome, ghost order: seq<string>)
    modifies ledger
    ensures pathsFile.None? ==> outcome == MissingPathsFile
    ensures pathsFile.Some? && RootsOf(ReadLines(pathsFile.value)) == [] ==> outcome == NoPathsConfigured
    ensures pathsFile.Some? && RootsOf(ReadLines(pathsFile.value)) != [] ==> outcome.Synced?
    ensures !outcome.Synced? ==> ledger.records == old(ledger.records) && ledger.persisted == old(ledger.persisted)
    ensures outcome.Synced? ==>
      && pathsFile.Some?
      && var roots := RootsOf(ReadLines(pathsFile.value));
      && var sel := Select(old(ledger.records), AllCandidates(roots, lookup, FileTypes(), ExcludePatterns()));
      && outcome.queued == Paths(sel.queued)
      && ledger.records == sel.records
      && outcome.invalid == InvalidRoots(roots, lookup, FileTypes(), ExcludePatterns())
      && outcome.auditLog == Join("\n", outcome.queued)
      && SentInBatches(outcome.queued, force, status, textOf, bytesOf, outcome.requests, outcome.reports)
      && (outcome.queued == [] ==> ledger.persisted == old(ledger.persisted))
      && (outcome.queued != [] ==>
            && (forall p :: p in order <==> p in sel.records)
            && |order| == |sel.records.Keys|
            && ledger.persisted == old(ledger.persisted) + Serialize(outcome.queued, mtimeOf) + Serialize(order, mtimeOf))
  {
    order := [];
    if pathsFile.None? {
      return MissingPathsFile, order;
    }
    var roots := RootsOf(ReadLines(pathsFile.value));
    if roots == [] {
      return NoPathsConfigured, order;
    }
    var exts := FileTypes();
    var pats := ExcludePatterns();
    var queued, invalid := Discover(ledger, roots, lookup, exts, pats);
    var auditLog := Join("\n", queued);
    var requests: seq<Request> := [];
    var reports: seq<BatchReport> := [];
    if queued != [] {
      requests, reports := UploadFiles(ledger, queued, force, status, textOf, bytesOf, mtimeOf);
      order := ledger.SaveAll(mtimeOf);
    }
    outcome := Synced(queued, invalid, auditLog, requests, reports);
  }
}

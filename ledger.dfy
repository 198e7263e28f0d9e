/**
 * The modification ledger: the in-memory map from a normalised file path to
 * the modification time recorded when it was last queued for upload, and
 * the append-only text file behind it, one "path:mtime" record per line.
 * A file is queued when it is missing from the map or its recorded time is
 * strictly older than its current one; queuing it records the current time.
 */
module ModificationLedger {
  import opened Text
  import opened Wrappers

  /** A file met during discovery: its path and its current modification time. */
  datatype Candidate = Candidate(path: string, mtime: nat)

  /** Why loading the ledger file fails; both abort the program. */
  datatype LedgerError =
    | MissingColon(line: string)  // the line has no ':' to split at
    | BadTime(line: string)       // the text after the last ':' is not a number

  // ---- the file format ----

  /** The line appended to the ledger file for one path. */
  function FormatRecord(path: string, mtime: nat): string
  {
    path + ":" + NatToString(mtime) + "\n"
  }

  /** One line of the ledger file: split at its last ':', strip both halves. */
  function ParseRecord(line: string): Result<(string, nat), LedgerError>
  {
    var colon := LastIndexOf(line, ':');
    if colon < 0 then Err(MissingColon(line))
    else
      var time := Strip(line[colon + 1..]);
      if IsDecimal(time) then Ok((Strip(line[..colon]), ParseNat(time)))
      else Err(BadTime(line))
  }

  /** The map built from the lines of the ledger file, each line overwriting
      what earlier lines said about its path; the first bad line is the error. */
  function ParseLines(lines: seq<string>): Result<map<string, nat>, LedgerError>
  {
    if lines == [] then Ok(map[])
    else
      match ParseLines(lines[..|lines| - 1])
      case Err(e) => Err(e)
      case Ok(m) =>
        var line := lines[|lines| - 1];
        if line == [] then Ok(m)
        else
          match ParseRecord(line)
          case Err(e) => Err(e)
          case Ok(rec) => Ok(m[rec.0 := rec.1])
  }

  /** `load_modification_records`: an absent file gives the empty map. */
  function LoadText(file: Option<string>): Result<map<string, nat>, LedgerError>
  {
    match file
    case None => Ok(map[])
    case Some(text) => ParseLines(ReadLines(text))
  }

  /** The text `save_modification_records` appends for `paths`, reading
      each path's modification time at that moment through `mtimeOf`. */
  function Serialize(paths: seq<string>, mtimeOf: string -> nat): string
  {
    if paths == [] then ""
    else Serialize(paths[..|paths| - 1], mtimeOf) + FormatRecord(paths[|paths| - 1], mtimeOf(paths[|paths| - 1]))
  }

  /** Once a prefix of the lines fails, the whole file fails with that error. */
  lemma {:induction false} ErrorPersists(lines: seq<string>, k: nat)
    requires k <= |lines| && ParseLines(lines[..k]).Err?
    ensures ParseLines(lines) == ParseLines(lines[..k])
    decreases |lines|
  {
    if k < |lines| {
      var init := lines[..|lines| - 1];
      assert init[..k] == lines[..k];
      ErrorPersists(init, k);
    } else {
      assert lines[..k] == lines;
    }
  }

  /** `load_modification_records`: the loop over the lines of the file. */
  method LoadRecords(file: Option<string>) returns (r: Result<map<string, nat>, LedgerError>)
    ensures r == LoadText(file)
  {
    if file == None {
      return Ok(map[]);
    }
    var lines := ReadLines(file.value);
    var records: map<string, nat> := map[];
    for i := 0 to |lines|
      invariant ParseLines(lines[..i]) == Ok(records)
    {
      var prefix := lines[..i + 1];
      assert prefix[..i] == lines[..i] && prefix[i] == lines[i];
      var line := lines[i];
      if |line| > 0 {
        var rec := ParseRecord(line);
        if rec.Err? {
          assert ParseLines(prefix) == Err(rec.error);
          ErrorPersists(lines, i + 1);
          assert lines[..|lines|] == lines;
          return Err(rec.error);
        }
        records := records[rec.value.0 := rec.value.1];
      }
      assert ParseLines(prefix) == Ok(records);
    }
    assert lines[..|lines|] == lines;
    r := Ok(records);
  }

  /** A non-empty line without ':' (a blank line read from the file is "\n")
      makes loading fail. */
  lemma {:induction false} LineWithoutColonFails(lines: seq<string>, i: nat)
    requires i < |lines| && lines[i] != [] && LastIndexOf(lines[i], ':') < 0
    ensures ParseLines(lines).Err?
  {
    var prefix := lines[..i + 1];
    assert prefix[..i] == lines[..i];
    assert ParseLines(prefix).Err?;
    ErrorPersists(lines, i + 1);
  }

  /** Of several lines for one path, the last one decides its time. */
  lemma {:induction false} LastRecordWins(lines: seq<string>, i: nat)
    requires ParseLines(lines).Ok?
    requires i < |lines| && ParseRecord(lines[i]).Ok?
    requires forall j :: i < j < |lines| && ParseRecord(lines[j]).Ok? ==>
      ParseRecord(lines[j]).value.0 != ParseRecord(lines[i]).value.0
    ensures ParseRecord(lines[i]).value.0 in ParseLines(lines).value
    ensures ParseLines(lines).value[ParseRecord(lines[i]).value.0] == ParseRecord(lines[i]).value.1
    decreases |lines|
  {
    var init := lines[..|lines| - 1];
    assert lines[i] != [] by {
      assert LastIndexOf(lines[i], ':') >= 0;
    }
    if ParseLines(init).Err? {
      assert false;
    }
    if i < |lines| - 1 {
      assert init[i] == lines[i];
      forall j | i < j < |init| && ParseRecord(init[j]).Ok?
        ensures ParseRecord(init[j]).value.0 != ParseRecord(init[i]).value.0
      {
        assert init[j] == lines[j];
      }
      LastRecordWins(init, i);
    }
  }

  /** A path without surrounding whitespace survives a write and a read of
      its record, even when it contains ':'. */
  lemma ParseFormatRecord(path: string, mtime: nat)
    requires Strip(path) == path
    ensures ParseRecord(FormatRecord(path, mtime)) == Ok((path, mtime))
  {
    var digits := NatToString(mtime);
    ParseRecordLine(path, digits);
    ParseNatToString(mtime);
  }

  /** A record line with a decimal time parses back to its path and value. */
  lemma ParseRecordLine(path: string, digits: string)
    requires Strip(path) == path && IsDecimal(digits)
    ensures ParseRecord(path + ":" + digits + "\n") == Ok((path, ParseNat(digits)))
  {
    var line := path + ":" + digits + "\n";
    RecordColon(path, digits);
    assert line[..|path|] == path;
    assert line[|path| + 1..] == digits + "\n";
    StripDigitsLine(digits);
  }

  /** The ':' written after the path is the last one of its line. */
  lemma RecordColon(path: string, digits: string)
    requires IsDecimal(digits)
    ensures LastIndexOf(path + ":" + digits + "\n", ':') == |path|
  {
    var tail := digits + "\n";
    assert Lacks(tail, ':') by {
      forall k | 0 <= k < |tail| ensures tail[k] != ':' {
        if k < |digits| { assert tail[k] == digits[k]; }
      }
    }
    assert path + ":" + digits + "\n" == path + [':'] + tail;
    LastIndexAt(path, ':', tail);
  }

  /** Stripping the time text with its line break leaves the digits. */
  lemma StripDigitsLine(digits: string)
    requires IsDecimal(digits)
    ensures Strip(digits + "\n") == digits
  {
    var tail := digits + "\n";
    assert StripLeading(tail) == tail by { assert !IsSpace(tail[0]); }
    assert tail[..|tail| - 1] == digits;
    assert StripTrailing(digits) == digits by { assert !IsSpace(digits[|digits| - 1]); }
    assert StripTrailing(tail) == StripTrailing(digits);
  }

  // ---- appending to the file and loading it back ----

  /** No carriage return anywhere in `s`. */
  predicate NoCarriageReturn(s: string)
  {
    forall k :: 0 <= k < |s| ==> s[k] != '\r'
  }

  /** A path that can be written to the ledger and read back: no whitespace
      around it and no line break inside it. */
  predicate IsRecordablePath(path: string)
  {
    Strip(path) == path && NoCarriageReturn(path) && forall k :: 0 <= k < |path| ==> path[k] != '\n'
  }

  /** The state the program's own appends leave the file in: empty or
      ending with a line break, and without carriage returns. */
  predicate IsLedgerText(text: string)
  {
    NoCarriageReturn(text) && (text == [] || text[|text| - 1] == '\n')
  }

  /** The first line of text ending in a line break: it ends at the first
      "\n", and the rest of the text again ends in one or is empty. */
  lemma FirstPiece(a: string, i: nat, piece: string, rest: string)
    requires a != [] && a[|a| - 1] == '\n'
    requires i < |a| && a[i] == '\n' && forall k :: 0 <= k < i ==> a[k] != '\n'
    requires piece == a[..i + 1] && rest == a[i + 1..]
    ensures a == piece + rest
    ensures piece != [] && piece[|piece| - 1] == '\n'
    ensures forall k :: 0 <= k < |piece| - 1 ==> piece[k] != '\n'
    ensures rest == [] || rest[|rest| - 1] == '\n'
  {
    assert a[..i + 1] + a[i + 1..] == a;
    forall k | 0 <= k < |piece| - 1 ensures piece[k] != '\n' {
      assert piece[k] == a[k];
    }
    if rest != [] { assert rest[|rest| - 1] == a[|a| - 1]; }
  }

  /** Splitting text whose first line is `piece`, followed by `rest`. */
  lemma SplitFirstPiece(s: string, piece: string, rest: string)
    requires s == piece + rest && piece != [] && piece[|piece| - 1] == '\n'
    requires forall k :: 0 <= k < |piece| - 1 ==> piece[k] != '\n'
    ensures SplitKeepEnds(s) == [piece] + SplitKeepEnds(rest)
  {
    SplitKeepEndsCons(piece, rest);
  }

  /** Text that ends with a line break splits independently of what follows. */
  lemma {:induction false} SplitKeepEndsAppend(a: string, b: string)
    requires a == [] || a[|a| - 1] == '\n'
    ensures SplitKeepEnds(a + b) == SplitKeepEnds(a) + SplitKeepEnds(b)
    decreases |a|
  {
    if a == [] {
      assert a + b == b;
    } else {
      var i := IndexOf(a, '\n');
      var piece, rest := a[..i + 1], a[i + 1..];
      FirstPiece(a, i, piece, rest);
      SplitFirstPiece(a, piece, rest);
      AppendAssoc(piece, rest, b);
      SplitFirstPiece(a + b, piece, rest + b);
      SplitKeepEndsAppend(rest, b);
      AppendAssoc([piece], SplitKeepEnds(rest), SplitKeepEnds(b));
    }
  }

  /** A record is one line, ending in its only line break, without carriage returns. */
  lemma RecordIsOneLine(path: string, mtime: nat)
    requires IsRecordablePath(path)
    ensures var rec := FormatRecord(path, mtime);
      && NoCarriageReturn(rec) && rec[|rec| - 1] == '\n'
      && forall k :: 0 <= k < |rec| - 1 ==> rec[k] != '\n'
  {
    var rec := FormatRecord(path, mtime);
    var digits := NatToString(mtime);
    forall k | |path| < k < |rec| - 1 ensures rec[k] != '\n' && rec[k] != '\r' {
      assert rec[k] == digits[k - |path| - 1];
    }
  }

  /** Appending a line keeps a ledger file well formed. */
  lemma LedgerTextAppend(text: string, line: string)
    requires IsLedgerText(text)
    requires line != [] && NoCarriageReturn(line) && line[|line| - 1] == '\n'
    ensures IsLedgerText(text + line)
  {
  }

  /** Reading a ledger file with one more line appended yields that line last. */
  lemma ReadLinesAppend(text: string, line: string)
    requires IsLedgerText(text)
    requires line != [] && NoCarriageReturn(line) && line[|line| - 1] == '\n'
    requires forall k :: 0 <= k < |line| - 1 ==> line[k] != '\n'
    ensures ReadLines(text + line) == ReadLines(text) + [line]
  {
    LedgerTextAppend(text, line);
    TranslateNoCarriageReturn(text);
    TranslateNoCarriageReturn(text + line);
    SplitKeepEndsAppend(text, line);
    SplitKeepEndsCons(line, "");
    assert line + "" == line;
  }

  /** Appending one record to a well-formed ledger file and loading it gives
      the old map with that path set to that time: the last record wins. */
  lemma AppendThenLoad(text: string, m: map<string, nat>, path: string, mtime: nat)
    requires IsLedgerText(text) && IsRecordablePath(path)
    requires LoadText(Some(text)) == Ok(m)
    ensures IsLedgerText(text + FormatRecord(path, mtime))
    ensures LoadText(Some(text + FormatRecord(path, mtime))) == Ok(m[path := mtime])
  {
    var rec := FormatRecord(path, mtime);
    RecordIsOneLine(path, mtime);
    LedgerTextAppend(text, rec);
    ReadLinesAppend(text, rec);
    var lines := ReadLines(text + rec);
    assert lines[..|lines| - 1] == ReadLines(text);
    ParseFormatRecord(path, mtime);
  }

  /** The map after setting each path in turn to its time. */
  function ApplyAll(m: map<string, nat>, paths: seq<string>, mtimeOf: string -> nat): map<string, nat>
  {
    if paths == [] then m
    else ApplyAll(m, paths[..|paths| - 1], mtimeOf)[paths[|paths| - 1] := mtimeOf(paths[|paths| - 1])]
  }

  /** Appending the records of `paths` to a well-formed ledger file and
      loading it gives the old map updated path by path, in order. */
  lemma {:induction false} SaveThenLoad(text: string, m: map<string, nat>, paths: seq<string>, mtimeOf: string -> nat)
    requires IsLedgerText(text) && LoadText(Some(text)) == Ok(m)
    requires forall i :: 0 <= i < |paths| ==> IsRecordablePath(paths[i])
    ensures IsLedgerText(text + Serialize(paths, mtimeOf))
    ensures LoadText(Some(text + Serialize(paths, mtimeOf))) == Ok(ApplyAll(m, paths, mtimeOf))
  {
    if paths != [] {
      var init := paths[..|paths| - 1];
      var last := paths[|paths| - 1];
      assert forall i :: 0 <= i < |init| ==> init[i] == paths[i];
      SaveThenLoad(text, m, init, mtimeOf);
      var before := text + Serialize(init, mtimeOf);
      assert IsRecordablePath(last);
      AppendThenLoad(before, ApplyAll(m, init, mtimeOf), last, mtimeOf(last));
      var rec := FormatRecord(last, mtimeOf(last));
      assert Serialize(paths, mtimeOf) == Serialize(init, mtimeOf) + rec;
      AppendAssoc(text, Serialize(init, mtimeOf), rec);
      assert ApplyAll(m, paths, mtimeOf) == ApplyAll(m, init, mtimeOf)[last := mtimeOf(last)];
    } else {
      assert text + Serialize(paths, mtimeOf) == text;
    }
  }

  // ---- staleness and the discovery pass ----

  /** The staleness test of `find_files` and `upload`. */
  predicate Stale(records: map<string, nat>, path: string, mtime: nat)
  {
    path !in records || records[path] < mtime
  }

  /** The files a discovery pass queues, and the map after it. */
  datatype Selection = Selection(queued: seq<Candidate>, records: map<string, nat>)

  /** A discovery pass over `cands` in order: each stale candidate is queued
      and its time recorded at once, so later candidates see the update. */
  function Select(records: map<string, nat>, cands: seq<Candidate>): Selection
  {
    if cands == [] then Selection([], records)
    else
      var s := Select(records, cands[..|cands| - 1]);
      var c := cands[|cands| - 1];
      if Stale(s.records, c.path, c.mtime) then Selection(s.queued + [c], s.records[c.path := c.mtime])
      else s
  }

  /** The paths of `cands`, in order. */
  function Paths(cands: seq<Candidate>): (paths: seq<string>)
    ensures |paths| == |cands|
    ensures forall i :: 0 <= i < |cands| ==> paths[i] == cands[i].path
  {
    if cands == [] then [] else Paths(cands[..|cands| - 1]) + [cands[|cands| - 1].path]
  }

  /** After a pass, a path is stale for a time exactly when it was stale
      before the pass and every candidate with that path was older. */
  lemma {:induction false} StaleAfterSelect(records: map<string, nat>, cands: seq<Candidate>, path: string, mtime: nat)
    ensures Stale(Select(records, cands).records, path, mtime) <==>
      Stale(records, path, mtime)
      && forall j :: 0 <= j < |cands| && cands[j].path == path ==> cands[j].mtime < mtime
  {
    if cands != [] {
      var n := |cands|;
      var init := cands[..n - 1];
      var c := cands[n - 1];
      var s := Select(records, init);
      StaleAfterSelect(records, init, path, mtime);
      StaleAfterSelect(records, init, c.path, c.mtime);
      assert forall j :: 0 <= j < n - 1 ==> cands[j] == init[j];
      if Stale(s.records, c.path, c.mtime) && path == c.path {
        if c.mtime < mtime {
          assert forall j :: 0 <= j < n - 1 && init[j].path == path ==> init[j].mtime < mtime;
        }
      }
    }
  }

  /** Candidate `i` is seen stale: its path is stale in `records` and every
      earlier candidate with that path is older. */
  ghost predicate FirstSeenStale(records: map<string, nat>, cands: seq<Candidate>, i: nat)
    requires i < |cands|
  {
    && Stale(records, cands[i].path, cands[i].mtime)
    && forall j :: 0 <= j < i && cands[j].path == cands[i].path ==> cands[j].mtime < cands[i].mtime
  }

  /** The candidates a pass ought to queue, judged against the map before the pass. */
  ghost function ExpectedQueue(records: map<string, nat>, cands: seq<Candidate>): seq<Candidate>
  {
    if cands == [] then []
    else
      ExpectedQueue(records, cands[..|cands| - 1])
      + (if FirstSeenStale(records, cands, |cands| - 1) then [cands[|cands| - 1]] else [])
  }

  /** A pass queues exactly the candidates that are stale when they are met. */
  lemma {:induction false} SelectQueuesExpected(records: map<string, nat>, cands: seq<Candidate>)
    ensures Select(records, cands).queued == ExpectedQueue(records, cands)
  {
    if cands != [] {
      var n := |cands|;
      var init := cands[..n - 1];
      var c := cands[n - 1];
      SelectQueuesExpected(records, init);
      StaleAfterSelect(records, init, c.path, c.mtime);
      assert forall j :: 0 <= j < n - 1 ==> cands[j] == init[j];
    }
  }

  /** Only candidates of the pass are queued. */
  lemma {:induction false} QueuedAreCandidates(records: map<string, nat>, cands: seq<Candidate>)
    ensures forall x | x in Select(records, cands).queued :: x in cands
  {
    if cands != [] {
      QueuedAreCandidates(records, cands[..|cands| - 1]);
    }
  }

  /** A path queued twice in one pass is queued with a strictly newer time
      the second time; never twice with the same time. */
  lemma {:induction false} QueuedTimesIncrease(records: map<string, nat>, cands: seq<Candidate>)
    ensures var q := Select(records, cands).queued;
      forall a, b :: 0 <= a < b < |q| && q[a].path == q[b].path ==> q[a].mtime < q[b].mtime
  {
    if cands != [] {
      var n := |cands|;
      var init := cands[..n - 1];
      var c := cands[n - 1];
      var s := Select(records, init);
      QueuedTimesIncrease(records, init);
      if Stale(s.records, c.path, c.mtime) {
        forall a | 0 <= a < |s.queued| && s.queued[a].path == c.path
          ensures s.queued[a].mtime < c.mtime
        {
          QueuedRecorded(records, init, s.queued[a]);
        }
        var q := s.queued + [c];
        assert Select(records, cands).queued == q;
        forall a, b | 0 <= a < b < |q| && q[a].path == q[b].path
          ensures q[a].mtime < q[b].mtime
        {
          if b < |s.queued| {
            assert q[a] == s.queued[a] && q[b] == s.queued[b];
          } else {
            assert q[a] == s.queued[a];
          }
        }
      }
    }
  }

  /** Each queued file's time is at most what the pass leaves recorded. */
  lemma QueuedRecorded(records: map<string, nat>, cands: seq<Candidate>, x: Candidate)
    requires x in Select(records, cands).queued
    ensures !Stale(Select(records, cands).records, x.path, x.mtime)
  {
    QueuedAreCandidates(records, cands);
    assert x in cands;
    var j :| 0 <= j < |cands| && cands[j] == x;
    SelectCoversCandidates(records, cands, j);
  }

  /** No path loses its record or gets an older time from a pass. */
  lemma RecordsGrow(records: map<string, nat>, cands: seq<Candidate>, path: string)
    requires path in records
    ensures path in Select(records, cands).records
    ensures Select(records, cands).records[path] >= records[path]
  {
    StaleAfterSelect(records, cands, path, records[path]);
  }

  /** After a pass, no candidate of it is stale any more. */
  lemma SelectCoversCandidates(records: map<string, nat>, cands: seq<Candidate>, i: nat)
    requires i < |cands|
    ensures !Stale(Select(records, cands).records, cands[i].path, cands[i].mtime)
  {
    StaleAfterSelect(records, cands, cands[i].path, cands[i].mtime);
  }

  /** A pass in which no candidate is stale queues nothing and changes nothing. */
  lemma {:induction false} SelectNothingStale(records: map<string, nat>, cands: seq<Candidate>)
    requires forall i :: 0 <= i < |cands| ==> !Stale(records, cands[i].path, cands[i].mtime)
    ensures Select(records, cands) == Selection([], records)
  {
    if cands != [] {
      SelectNothingStale(records, cands[..|cands| - 1]);
    }
  }

  /** A second pass over the same candidates queues nothing and leaves the
      map as the first pass left it. */
  lemma SelectIdempotent(records: map<string, nat>, cands: seq<Candidate>)
    ensures var after := Select(records, cands).records;
      Select(after, cands) == Selection([], after)
  {
    var after := Select(records, cands).records;
    forall i | 0 <= i < |cands| ensures !Stale(after, cands[i].path, cands[i].mtime) {
      SelectCoversCandidates(records, cands, i);
    }
    SelectNothingStale(after, cands);
  }

  /** One pass over `a` and then over `b` is one pass over `a + b`. */
  lemma {:induction false} SelectAppend(records: map<string, nat>, a: seq<Candidate>, b: seq<Candidate>)
    ensures var first := Select(records, a);
      var second := Select(first.records, b);
      Select(records, a + b) == Selection(first.queued + second.queued, second.records)
  {
    if b == [] {
      assert a + b == a;
    } else {
      var ab := a + b;
      assert ab[..|ab| - 1] == a + b[..|b| - 1];
      assert ab[|ab| - 1] == b[|b| - 1];
      SelectAppend(records, a, b[..|b| - 1]);
    }
  }

  /** A missing ledger file loads like an empty one. */
  lemma MissingLoadsAsEmpty()
    ensures LoadText(None) == LoadText(Some("")) == Ok(map[])
  {
    assert ReadLines("") == [];
  }

  /** The start-up of the program: `modification_records =
      load_modification_records()`, with the ledger file's text as it is
      found (an absent file is appended to as an empty one). */
  method StartUp(file: Option<string>) returns (r: Result<Ledger, LedgerError>)
    ensures r.Ok? <==> LoadText(file).Ok?
    ensures r.Err? ==> r.error == LoadText(file).error
    ensures r.Ok? ==>
      && fresh(r.value)
      && r.value.records == LoadText(file).value
      && r.value.persisted == (if file.None? then "" else file.value)
  {
    var loaded := LoadRecords(file);
    if loaded.Err? {
      return Err(loaded.error);
    }
    var text := if file.None? then "" else file.value;
    MissingLoadsAsEmpty();
    var ledger := new Ledger(loaded.value, text);
    r := Ok(ledger);
  }

  /**
   * The program's global state around the ledger: `records` is the map
   * loaded at start-up and updated as files are queued, `persisted` the
   * text of the ledger file, to which records are only ever appended.
   */
  class Ledger {
    var records: map<string, nat>
    var persisted: string

    /** A ledger whose map is the one loaded from the text of its file. */
    constructor (records: map<string, nat>, persisted: string)
      requires LoadText(Some(persisted)) == Ok(records)
      ensures this.records == records && this.persisted == persisted
    {
      this.records := records;
      this.persisted := persisted;
    }

    /** The test-and-update of `find_files` and `upload`: queue the path when
        it is stale, and then record its current time. */
    method Consider(path: string, mtime: nat) returns (queued: bool)
      modifies this
      ensures queued <==> (path !in old(records) || old(records)[path] < mtime)
      ensures queued ==> records == old(records)[path := mtime]
      ensures !queued ==> records == old(records)
      ensures persisted == old(persisted)
    {
      queued := path !in records || records[path] < mtime;
      if queued {
        records := records[path := mtime];
      }
    }

    /** `save_modification_records(paths)`: append one record per path. */
    method Save(paths: seq<string>, mtimeOf: string -> nat)
      modifies this
      ensures persisted == old(persisted) + Serialize(paths, mtimeOf)
      ensures records == old(records)
    {
      for i := 0 to |paths|
        invariant persisted == old(persisted) + Serialize(paths[..i], mtimeOf)
        invariant records == old(records)
      {
        assert paths[..i + 1][..i] == paths[..i];
        persisted := persisted + FormatRecord(paths[i], mtimeOf(paths[i]));
      }
      assert paths[..|paths|] == paths;
    }

    /** `save_modification_records(modification_records)`: append one record
        for every path in the map, in the map's iteration order, which the
        model leaves open and returns as `order`. */
    method SaveAll(mtimeOf: string -> nat) returns (ghost order: seq<string>)
      modifies this
      ensures |order| == |old(records).Keys|
      ensures forall p :: p in order <==> p in old(records)
      ensures persisted == old(persisted) + Serialize(order, mtimeOf)
      ensures records == old(records)
    {
      var left := records.Keys;
      order := [];
      while left != {}
        invariant left <= records.Keys && records == old(records)
        invariant forall p :: p in order <==> p in records && p !in left
        invariant |order| + |left| == |records.Keys|
        invariant persisted == old(persisted) + Serialize(order, mtimeOf)
        decreases left
      {
        var p :| p in left;
        assert p !in order;
        ghost var next := order + [p];
        assert next[..|order|] == order && next[|order|] == p;
        assert Serialize(next, mtimeOf) == Serialize(order, mtimeOf) + FormatRecord(p, mtimeOf(p));
        AppendAssoc(old(persisted), Serialize(order, mtimeOf), FormatRecord(p, mtimeOf(p)));
        persisted := persisted + FormatRecord(p, mtimeOf(p));
        order := next;
        assert |left - {p}| == |left| - 1;
        left := left - {p};
      }
    }
  }
}

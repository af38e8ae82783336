/**
 The file-backed audit store (crates/streamhouse-api/src/audit_store.rs): append with rotation, reopening,
 chain verification and queries, over a directory of log files. A file's name is the second in which it was
 started, so the order of names is the order of time; the clock does not go back.
 */
module AuditStore {
  import opened Ordering
  import opened AuditChain

  datatype AuditError = Serialization | IntegrityViolation(number: nat)

  datatype Result<+T> = Ok(value: T) | Err(error: AuditError)

  datatype ChainError = ChainBroken | HashMismatch

  datatype VerificationResult = VerificationResult(valid: bool, recordsVerified: nat, firstInvalid: Option<nat>, error: Option<ChainError>)

  // ---------- verification ----------

  ghost predicate GoodTo(lines: seq<Line>, k: nat, h: HashFn)
    requires k <= |lines|
  {
    Readable(lines[..k]) && Chain(Records(lines[..k]), h)
  }

  /** Line `k` is the first that is not a record or does not continue the chain. */
  ghost predicate BadAt(lines: seq<Line>, k: int, h: HashFn) {
    && 0 <= k < |lines| && GoodTo(lines, k, h)
    && (lines[k].Malformed? || (lines[k].Stored? && !Chain(Records(lines[..k + 1]), h)))
  }

  /** What a verification of these lines must say. */
  ghost predicate Verdict(r: Result<VerificationResult>, lines: seq<Line>, h: HashFn) {
    match r
    case Err(e) => e == Serialization && exists k :: BadAt(lines, k, h) && lines[k].Malformed?
    case Ok(v) =>
      if v.valid then GoodTo(lines, |lines|, h) && v == VerificationResult(true, |Records(lines)|, None, None)
      else exists k :: BadAt(lines, k, h) && lines[k].Stored? && BadVerdict(v, lines, k)
  }

  /** What is wrong with a record that does not continue the log: its predecessor, or else its own hash. */
  ghost function Complaint(log: seq<Record>, r: Record): ChainError {
    if r.prevHash != HashBefore(log, |log|) then ChainBroken else HashMismatch
  }

  ghost predicate BadVerdict(v: VerificationResult, lines: seq<Line>, k: int) {
    && 0 <= k < |lines| && lines[k].Stored?
    && v.recordsVerified == |Records(lines[..k])|
    && v.firstInvalid == Some(lines[k].record.number)
    && v.error == Some(Complaint(Records(lines[..k]), lines[k].record))
  }

  /** Valid means exactly: every line can be read and the records form a chain. */
  lemma VerdictExact(r: Result<VerificationResult>, lines: seq<Line>, h: HashFn)
    requires Verdict(r, lines, h)
    ensures r.Ok? && r.value.valid <==> Readable(lines) && Chain(Records(lines), h)
    ensures r.Ok? && r.value.valid ==> r.value.recordsVerified == |Records(lines)|
  {
    assert lines[..|lines|] == lines;
    if k :| BadAt(lines, k, h) {
      assert lines == lines[..k + 1] + lines[k + 1..];
      RecordsConcat(lines[..k + 1], lines[k + 1..]);
      if Chain(Records(lines), h) {
        ChainPrefix(Records(lines), h, |Records(lines[..k + 1])|);
        assert Records(lines)[..|Records(lines[..k + 1])|] == Records(lines[..k + 1]);
      }
    }
  }

  lemma VerdictStands(r: Result<VerificationResult>, lines: seq<Line>, more: seq<Line>, h: HashFn)
    requires Verdict(r, lines, h) && !(r.Ok? && r.value.valid)
    ensures Verdict(r, lines + more, h)
  {
    var all := lines + more;
    var k :| BadAt(lines, k, h) && (r.Err? ==> lines[k].Malformed?) && (r.Ok? ==> lines[k].Stored? && BadVerdict(r.value, lines, k));
    assert all[..k] == lines[..k] && all[..k + 1] == lines[..k + 1];
    assert BadAt(all, k, h);
  }

  lemma RecordsSnoc(lines: seq<Line>, line: Line)
    ensures Records(lines + [line]) == if line.Stored? then Records(lines) + [line.record] else Records(lines)
  {
    assert (lines + [line])[..|lines|] == lines;
  }

  datatype Progress = Going(prevHash: string, count: nat) | Ended(result: Result<VerificationResult>)

  ghost predicate Tracks(p: Progress, lines: seq<Line>, h: HashFn) {
    match p
    case Going(prev, count) =>
      GoodTo(lines, |lines|, h) && prev == HashBefore(Records(lines), |Records(lines)|) && count == |Records(lines)|
    case Ended(r) => Verdict(r, lines, h) && !(r.Ok? && r.value.valid)
  }

  /** One record against the chain so far: the body shared by verify_files and verify_memory. */
  method CheckLine(h: HashFn, line: Line, prevHash: string, count: nat, ghost before: seq<Line>) returns (p: Progress)
    requires Tracks(Going(prevHash, count), before, h)
    ensures Tracks(p, before + [line], h)
  {
    ghost var lines := before + [line];
    ghost var k := |before|;
    assert lines[..k] == before && before[..k] == before && lines[..k + 1] == lines;
    RecordsSnoc(before, line);
    match line {
      case Blank =>
        p := Going(prevHash, count);
      case Malformed =>
        p := Ended(Err(Serialization));
        assert BadAt(lines, k, h);
      case Stored(record) =>
        ChainStep(Records(before), record, h);
        if record.prevHash != prevHash {
          p := Ended(Ok(VerificationResult(false, count, Some(record.number), Some(ChainBroken))));
          assert BadAt(lines, k, h) && BadVerdict(p.result.value, lines, k);
        } else if !Verifies(h, record) {
          p := Ended(Ok(VerificationResult(false, count, Some(record.number), Some(HashMismatch))));
          assert BadAt(lines, k, h) && BadVerdict(p.result.value, lines, k);
        } else {
          p := Going(record.hash, count + 1);
        }
    }
  }

  /** The inner loop of verify_files. */
  method VerifyFile(h: HashFn, file: seq<Line>, prevHash: string, count: nat, ghost before: seq<Line>) returns (p: Progress)
    requires Tracks(Going(prevHash, count), before, h)
    ensures Tracks(p, before + file, h)
  {
    p := Going(prevHash, count);
    assert before + file[..0] == before;
    for i := 0 to |file|
      invariant p.Going? && Tracks(p, before + file[..i], h)
    {
      assert before + file[..i + 1] == before + file[..i] + [file[i]];
      p := CheckLine(h, file[i], p.prevHash, p.count, before + file[..i]);
      if p.Ended? {
        assert before + file == before + file[..i + 1] + file[i + 1..];
        VerdictStands(p.result, before + file[..i + 1], file[i + 1..], h);
        return;
      }
    }
    assert file[..|file|] == file;
  }

  /** The names in the directory, listed in any order and sorted. */
  method ListFiles(files: map<nat, seq<Line>>) returns (names: seq<nat>)
    ensures TotalOrder(NatLe) && names == SortedListing(files.Keys, NatLe)
    ensures forall n :: n in names <==> n in files
  {
    NatOrder();
    names := SortedKeys(files.Keys, NatLe);
    ListsUnique(names, SortedListing(files.Keys, NatLe), files.Keys, NatLe);
    ListedFiles(files);
  }

  ghost function Flat(contents: seq<seq<Line>>): seq<Line> {
    if contents == [] then [] else Flat(contents[..|contents| - 1]) + contents[|contents| - 1]
  }

  lemma {:induction false} FlatConcat(a: seq<seq<Line>>, b: seq<seq<Line>>)
    ensures Flat(a + b) == Flat(a) + Flat(b)
  {
    if b == [] {
      assert a + b == a;
    } else {
      FlatConcat(a, b[..|b| - 1]);
      assert (a + b)[..|a + b| - 1] == a + b[..|b| - 1];
    }
  }

  lemma FlatSplit(contents: seq<seq<Line>>, i: nat)
    requires i <= |contents|
    ensures Flat(contents) == Flat(contents[..i]) + Flat(contents[i..])
  {
    var a, b := contents[..i], contents[i..];
    assert a + b == contents;
    FlatConcat(a, b);
  }

  lemma FlatSnoc(contents: seq<seq<Line>>, i: nat)
    requires i < |contents|
    ensures Flat(contents[..i + 1]) == Flat(contents[..i]) + contents[i]
  {
    assert contents[..i + 1][..i] == contents[..i];
  }

  /** The files of the directory in name order. */
  method ReadFiles(files: map<nat, seq<Line>>) returns (contents: seq<seq<Line>>)
    ensures Flat(contents) == AllLines(files)
  {
    var names := ListFiles(files);
    contents := [];
    for i := 0 to |names|
      invariant forall n :: n in names[..i] ==> n in files
      invariant Flat(contents) == Joined(files, names[..i])
    {
      assert names[i] in names && names[..i + 1][..i] == names[..i];
      contents := contents + [files[names[i]]];
    }
    assert names[..|names|] == names;
  }

  /** verify_files, on any directory. */
  method VerifyFiles(h: HashFn, files: map<nat, seq<Line>>) returns (r: Result<VerificationResult>)
    ensures Verdict(r, AllLines(files), h)
  {
    var contents := ReadFiles(files);
    r := VerifyContents(h, contents);
  }

  method VerifyContents(h: HashFn, contents: seq<seq<Line>>) returns (r: Result<VerificationResult>)
    ensures Verdict(r, Flat(contents), h)
  {
    var prev, count := "", 0;
    for i := 0 to |contents|
      invariant Tracks(Going(prev, count), Flat(contents[..i]), h)
    {
      FlatSnoc(contents, i);
      var p := VerifyFile(h, contents[i], prev, count, Flat(contents[..i]));
      match p {
        case Ended(result) =>
          FlatSplit(contents, i + 1);
          VerdictStands(result, Flat(contents[..i + 1]), Flat(contents[i + 1..]), h);
          return result;
        case Going(prev', count') =>
          prev, count := prev', count';
      }
    }
    assert contents[..|contents|] == contents;
    r := Ok(VerificationResult(true, count, None, None));
  }

  /** verify_memory. */
  method VerifyMemory(h: HashFn, log: seq<Record>) returns (v: VerificationResult)
    ensures v.valid <==> Chain(log, h)
    ensures v.recordsVerified <= |log| && Chain(log[..v.recordsVerified], h)
    ensures v.valid ==> v == VerificationResult(true, |log|, None, None)
    ensures !v.valid ==>
              v.recordsVerified < |log| && !Chain(log[..v.recordsVerified + 1], h)
              && v.firstInvalid == Some(log[v.recordsVerified].number)
              && v.error == Some(Complaint(log[..v.recordsVerified], log[v.recordsVerified]))
  {
    var prev := "";
    for i := 0 to |log|
      invariant Chain(log[..i], h) && prev == HashBefore(log[..i], i)
    {
      assert log[..i + 1] == log[..i] + [log[i]];
      ChainStep(log[..i], log[i], h);
      if log[i].prevHash != prev || !Verifies(h, log[i]) {
        if Chain(log, h) { ChainPrefix(log, h, i + 1); }
        return VerificationResult(false, i, Some(log[i].number), Some(if log[i].prevHash != prev then ChainBroken else HashMismatch));
      }
      prev := log[i].hash;
    }
    assert log[..|log|] == log;
    v := VerificationResult(true, |log|, None, None);
  }

  // ---------- queries ----------

  /** Where the query loop stands after the records `log`: done, or so many skipped and so many found. */
  ghost predicate Found(q: AuditQuery, log: seq<Record>, done: bool, skipped: nat, results: seq<Record>) {
    && results == QueryAllFiles(log, q)
    && (if done then |results| == FileLimit(q) else |results| < FileLimit(q) && skipped == Min(OffsetOf(q), |Filter(log, q)|))
  }

  lemma FoundStep(q: AuditQuery, log: seq<Record>, r: Record, skipped: nat, results: seq<Record>)
    requires Found(q, log, false, skipped, results)
    ensures !Matches(q, r) ==> Found(q, log + [r], false, skipped, results)
    ensures Matches(q, r) && skipped < OffsetOf(q) ==> Found(q, log + [r], false, skipped + 1, results)
    ensures Matches(q, r) && skipped >= OffsetOf(q) ==>
              Found(q, log + [r], |results| + 1 >= LimitOf(q), skipped, results + [r])
  {
    assert (log + [r])[..|log|] == log;
    var m := Filter(log, q);
    if Matches(q, r) {
      assert Filter(log + [r], q) == m + [r];
      PageStep(m, r, OffsetOf(q), FileLimit(q));
    } else {
      assert Filter(log + [r], q) == m;
    }
  }

  lemma PageStep<T>(s: seq<T>, x: T, offset: nat, limit: nat)
    requires |Page(s, offset, limit)| < limit
    ensures Page(s + [x], offset, limit) == if |s| < offset then Page(s, offset, limit) else Page(s, offset, limit) + [x]
    ensures |s| < offset ==> Page(s, offset, limit) == []
  {
  }

  lemma FoundStands(q: AuditQuery, log: seq<Record>, more: seq<Record>, skipped: nat, results: seq<Record>)
    requires Found(q, log, true, skipped, results)
    ensures Found(q, log + more, true, skipped, results)
  {
    FilterConcat(log, more, q);
    FullPage(Filter(log, q), Filter(more, q), OffsetOf(q), FileLimit(q));
  }

  lemma ResultsStand(q: AuditQuery, lines: seq<Line>, more: seq<Line>, skipped: nat, results: seq<Record>)
    requires Found(q, Records(lines), true, skipped, results)
    ensures Found(q, Records(lines + more), true, skipped, results)
  {
    RecordsConcat(lines, more);
    FoundStands(q, Records(lines), Records(more), skipped, results);
  }

  /** The body of the query loop. */
  method QueryLine(q: AuditQuery, line: Line, skipped: nat, results: seq<Record>, ghost before: seq<Line>)
    returns (done: bool, skipped': nat, results': seq<Record>)
    requires Found(q, Records(before), false, skipped, results)
    ensures Found(q, Records(before + [line]), done, skipped', results')
  {
    done, skipped', results' := false, skipped, results;
    RecordsSnoc(before, line);
    if line.Stored? {
      FoundStep(q, Records(before), line.record, skipped, results);
      if Matches(q, line.record) {
        if skipped < OffsetOf(q) {
          skipped' := skipped + 1;
        } else {
          results' := results + [line.record];
          done := |results'| >= LimitOf(q);
        }
      }
    }
  }

  /** The inner loop of query_files. */
  method QueryFile(q: AuditQuery, file: seq<Line>, skipped: nat, results: seq<Record>, ghost before: seq<Line>)
    returns (done: bool, skipped': nat, results': seq<Record>)
    requires Found(q, Records(before), false, skipped, results)
    ensures Found(q, Records(before + file), done, skipped', results')
  {
    done, skipped', results' := false, skipped, results;
    ghost var lines := before;
    for i := 0 to |file|
      invariant lines == before + file[..i]
      invariant !done && Found(q, Records(lines), false, skipped', results')
    {
      done, skipped', results' := QueryLine(q, file[i], skipped', results', lines);
      lines := lines + [file[i]];
      if done {
        ResultsStand(q, lines, file[i + 1..], skipped', results');
        assert lines + file[i + 1..] == before + file;
        return;
      }
    }
    assert file[..|file|] == file;
  }

  /** query_files, on any directory: filter, skip, take over the whole log, although it stops as soon as the page is full. */
  method QueryFiles(q: AuditQuery, files: map<nat, seq<Line>>) returns (results: seq<Record>)
    ensures results == QueryAllFiles(Log(files), q)
    ensures 0 < LimitOf(q) ==> results == QueryMemory(Log(files), q)
  {
    QueriesAgree(Log(files), q);
    var contents := ReadFiles(files);
    results := QueryContents(q, contents);
  }

  method QueryContents(q: AuditQuery, contents: seq<seq<Line>>) returns (results: seq<Record>)
    ensures results == QueryAllFiles(Records(Flat(contents)), q)
  {
    var skipped := 0;
    results := [];
    for i := 0 to |contents|
      invariant Found(q, Records(Flat(contents[..i])), false, skipped, results)
    {
      FlatSnoc(contents, i);
      var done: bool;
      done, skipped, results := QueryFile(q, contents[i], skipped, results, Flat(contents[..i]));
      if done {
        FlatSplit(contents, i + 1);
        ResultsStand(q, Flat(contents[..i + 1]), Flat(contents[i + 1..]), skipped, results);
        return;
      }
    }
    assert contents[..|contents|] == contents;
  }

  // ---------- the store ----------

  ghost predicate RecordsOnly(file: seq<Line>) {
    file != [] && forall i :: 0 <= i < |file| ==> file[i].Stored?
  }

  ghost predicate NumberedFromOne(log: seq<Record>) {
    forall i :: 0 <= i < |log| ==> log[i].number == i + 1
  }

  /** A directory as this store leaves it: whole records only, no empty file, one chain numbered from 1. */
  ghost predicate FilesOk(files: map<nat, seq<Line>>, h: HashFn) {
    && (forall n :: n in files ==> RecordsOnly(files[n]))
    && Chain(Log(files), h) && NumberedFromOne(Log(files))
  }

  lemma {:induction false} JoinedReadable(files: map<nat, seq<Line>>, names: seq<nat>)
    requires forall n :: n in names ==> n in files && RecordsOnly(files[n])
    ensures Readable(Joined(files, names))
  {
    if names != [] {
      JoinedReadable(files, names[..|names| - 1]);
      assert RecordsOnly(files[names[|names| - 1]]);
    }
  }

  lemma FilesReadable(files: map<nat, seq<Line>>, h: HashFn)
    requires FilesOk(files, h)
    ensures Readable(AllLines(files))
  {
    ListedFiles(files);
    JoinedReadable(files, SortedListing(files.Keys, NatLe));
  }

  /** Writing the next record of the chain to the newest file keeps the directory good. */
  lemma WriteKeeps(files: map<nat, seq<Line>>, f: nat, r: Record, h: HashFn)
    requires FilesOk(files, h) && Newest(files, f)
    requires r.number == |Log(files)| + 1 && Verifies(h, r) && r.prevHash == HashBefore(Log(files), |Log(files)|)
    ensures FilesOk(Written(files, f, Stored(r)), h)
    ensures Log(Written(files, f, Stored(r))) == Log(files) + [r]
  {
    WriteGoesLast(files, f, Stored(r));
    RecordsSnoc(AllLines(files), Stored(r));
    ChainStep(Log(files), r, h);
  }

  /** The number and hash of the last record; 0 and the empty string without one. */
  ghost function LastState(log: seq<Record>): (nat, string) {
    (if log == [] then 0 else log[|log| - 1].number, HashBefore(log, |log|))
  }

  /**
   On any directory the newest file tells the last number and hash of the whole log exactly when it holds a
   record, or when there is nothing to tell: no record at all, or a last one with number 0 and an empty hash.
   */
  lemma LastOfNewest(files: map<nat, seq<Line>>, f: nat)
    requires f in files && Newest(files, f)
    ensures LastState(Records(files[f])) == LastState(Log(files)) <==> Records(files[f]) != [] || LastState(Log(files)) == (0, "")
    ensures (forall i :: 0 <= i < |Log(files)| ==> 0 < Log(files)[i].number) ==> (LastState(Log(files)) == (0, "") <==> Log(files) == [])
  {
    NewestIsLast(files, f);
    ListedFiles(files);
    var names := SortedListing(files.Keys, NatLe);
    RecordsConcat(Joined(files, names[..|names| - 1]), files[f]);
  }

  lemma WrittenLog(files: map<nat, seq<Line>>, f: nat, r: Record)
    requires Newest(files, f)
    ensures Log(Written(files, f, Stored(r))) == Log(files) + [r]
  {
    WriteGoesLast(files, f, Stored(r));
    RecordsSnoc(AllLines(files), Stored(r));
  }

  /**
   So the record that is appended first after reopening a chained directory continues the chain exactly when the
   newest file holds a record, or the log ends in an empty hash or not at all.
   */
  lemma FirstAppendChainsIff(files: map<nat, seq<Line>>, f: nat, h: HashFn, entry: Entry, now: int)
    requires f in files && Newest(files, f) && Chain(Log(files), h)
    ensures var (number, prevHash) := LastState(Records(files[f]));
            var r := NewRecord(h, number + 1, now, entry, prevHash);
            Chain(Log(Written(files, f, Stored(r))), h) <==> Records(files[f]) != [] || LastState(Log(files)).1 == ""
  {
    LastOfNewest(files, f);
    var (number, prevHash) := LastState(Records(files[f]));
    var r := NewRecord(h, number + 1, now, entry, prevHash);
    WrittenLog(files, f, r);
    ChainStep(Log(files), r, h);
  }

  lemma RecordsOnlyCount(file: seq<Line>)
    requires RecordsOnly(file)
    ensures Records(file) != []
  {
  }

  class Directory {
    var files: map<nat, seq<Line>>

    constructor ()
      ensures files == map[]
    {
      files := map[];
    }
  }

  datatype AuditStoreConfig = AuditStoreConfig(maxFileSize: nat, verifyOnStartup: bool)

  class AuditStore {
    const config: AuditStoreConfig
    const hash: HashFn
    const sizeOf: seq<Line> -> nat
    const dir: Directory
    var sequence: nat
    var lastHash: string
    var currentFile: Option<nat>
    var currentSize: nat

    /** The latest clock reading, in milliseconds. */
    ghost var clock: nat

    ghost predicate Valid()
      reads this, dir
    {
      && FilesOk(dir.files, hash)
      && sequence == |Log(dir.files)| && lastHash == HashBefore(Log(dir.files), sequence)
      && currentFile.Some? && Newest(dir.files, currentFile.value) && currentFile.value <= clock / 1000
    }

    /** The fields as AuditStore::new sets them before it looks at the directory. */
    constructor (config: AuditStoreConfig, hash: HashFn, sizeOf: seq<Line> -> nat, dir: Directory, now: nat)
      ensures this.config == config && this.hash == hash && this.sizeOf == sizeOf && this.dir == dir && clock == now
    {
      this.config, this.hash, this.sizeOf, this.dir := config, hash, sizeOf, dir;
      sequence, lastHash, currentFile, currentSize, clock := 0, "", None, 0, now;
    }

    /** load_file_state: the last record of a file, past blank lines and lines that cannot be read. */
    static method LoadFileState(file: seq<Line>) returns (number: nat, lastHash: string)
      ensures (number, lastHash) == LastState(Records(file))
    {
      number, lastHash := 0, "";
      for i := 0 to |file|
        invariant (number, lastHash) == LastState(Records(file[..i]))
      {
        assert file[..i + 1][..i] == file[..i];
        if file[i].Stored? {
          number, lastHash := file[i].record.number, file[i].record.hash;
        }
      }
      assert file[..|file|] == file;
    }

    /**
     init_file_backend, on any directory: the state of the newest file, or a first file. A directory that this
     store left behind gives back the true last number and hash.
     */
    method InitFileBackend(now: nat)
      requires clock <= now
      modifies this
      ensures clock == now && currentFile.Some?
      ensures dir.files == map[] ==> (sequence, lastHash) == (0, "") && currentFile == Some(now / 1000)
      ensures dir.files != map[] ==>
                && currentFile.value in dir.files && Newest(dir.files, currentFile.value)
                && (sequence, lastHash) == LastState(Records(dir.files[currentFile.value]))
      ensures FilesOk(dir.files, hash) && Newest(dir.files, now / 1000) ==> Valid()
    {
      var names := ListFiles(dir.files);
      clock := now;
      if names != [] {
        var latest := names[|names| - 1];
        assert latest in names;
        sequence, lastHash := LoadFileState(dir.files[latest]);
        currentSize := sizeOf(dir.files[latest]);
        currentFile := Some(latest);
        LatestIsNewest(dir.files);
        if FilesOk(dir.files, hash) {
          RecordsOnlyCount(dir.files[latest]);
          LastOfNewest(dir.files, latest);
        }
      } else {
        sequence, lastHash, currentSize := 0, "", 0;
        currentFile := Some(now / 1000);
        assert dir.files == map[];
        assert AllLines(dir.files) == [];
      }
    }

    static lemma LatestIsNewest(files: map<nat, seq<Line>>)
      ensures TotalOrder(NatLe)
      ensures var names := SortedListing(files.Keys, NatLe);
              names != [] ==> names[|names| - 1] in files && Newest(files, names[|names| - 1])
    {
      ListedFiles(files);
      var names := SortedListing(files.Keys, NatLe);
      if names != [] {
        assert names[|names| - 1] in names;
        forall n | n in files ensures n <= names[|names| - 1] {
          assert n in names;
          var i :| 0 <= i < |names| && names[i] == n;
          if i < |names| - 1 { assert NatLe(names[i], names[|names| - 1]); }
        }
      }
    }

    /**
     AuditStore::new on a directory. One that earlier runs of the store left behind opens, with the true last
     number and hash; when verification is on, one that does not verify is refused.
     */
    static method Open(config: AuditStoreConfig, hash: HashFn, sizeOf: seq<Line> -> nat, dir: Directory, now: nat)
      returns (r: Result<AuditStore>)
      ensures FilesOk(dir.files, hash) && Newest(dir.files, now / 1000) ==>
                r.Ok? && fresh(r.value) && r.value.Valid() && r.value.dir == dir && r.value.clock == now
                && r.value.hash == hash && r.value.config == config
      ensures r.Err? ==> config.verifyOnStartup && !(Readable(AllLines(dir.files)) && Chain(Log(dir.files), hash))
      ensures r.Ok? && config.verifyOnStartup ==> Readable(AllLines(dir.files)) && Chain(Log(dir.files), hash)
    {
      var store := new AuditStore(config, hash, sizeOf, dir, now);
      store.InitFileBackend(now);
      if config.verifyOnStartup {
        var v := VerifyFiles(hash, dir.files);
        VerdictExact(v, AllLines(dir.files), hash);
        if FilesOk(dir.files, hash) {
          FilesReadable(dir.files, hash);
        }
        if v.Err? {
          return Err(v.error);
        }
        if !v.value.valid {
          return Err(IntegrityViolation(if v.value.firstInvalid.Some? then v.value.firstInvalid.value else 0));
        }
      }
      r := Ok(store);
    }

    /** append, with append_to_file and rotate_log_file. */
    method Append(entry: Entry, now: nat) returns (record: Record)
      requires Valid() && clock <= now
      modifies this, dir
      ensures Valid() && clock == now
      ensures record == NewRecord(hash, old(sequence) + 1, now, entry, old(lastHash))
      ensures record.number == sequence && record.storedAt == now && record.entry == entry && record.prevHash == old(lastHash)
      ensures lastHash == record.hash
      ensures currentFile == if config.maxFileSize <= old(currentSize) then Some(now / 1000) else old(currentFile)
      ensures currentSize == (if config.maxFileSize <= old(currentSize) then 0 else old(currentSize)) + sizeOf([Stored(record)])
      ensures dir.files == Written(old(dir.files), currentFile.value, Stored(record))
      ensures Log(dir.files) == old(Log(dir.files)) + [record]
      ensures sequence == old(sequence) + 1
    {
      sequence := sequence + 1;
      record := NewRecord(hash, sequence, now, entry, lastHash);
      lastHash := record.hash;
      if currentSize >= config.maxFileSize {
        currentFile := Some(now / 1000);
        currentSize := 0;
      }
      var file := currentFile.value;
      WriteKeeps(dir.files, file, record, hash);
      WriteGoesLast(dir.files, file, Stored(record));
      dir.files := Written(dir.files, file, Stored(record));
      currentSize := currentSize + sizeOf([Stored(record)]);
      clock := now;
    }

    /** verify_chain on a store in use: always valid, and counting every record ever appended. */
    method VerifyChain() returns (r: Result<VerificationResult>)
      requires Valid()
      ensures r == Ok(VerificationResult(true, sequence, None, None))
    {
      r := VerifyFiles(hash, dir.files);
      FilesReadable(dir.files, hash);
      VerdictExact(r, AllLines(dir.files), hash);
    }
  }

  // ---------- whole runs ----------

  datatype Command = AppendEntry(entry: Entry) | Reopen(config: AuditStoreConfig)

  /** The entries that a program appends. */
  ghost function Appended(commands: seq<Command>): seq<Entry> {
    if commands == [] then []
    else
      var init := Appended(commands[..|commands| - 1]);
      match commands[|commands| - 1]
      case AppendEntry(entry) => init + [entry]
      case Reopen(_) => init
  }

  ghost predicate Holds(log: seq<Record>, entries: seq<Entry>) {
    |log| == |entries| && forall i :: 0 <= i < |log| ==> log[i].entry == entries[i]
  }

  /** The log before and after one command. */
  ghost predicate Ran(command: Command, before: seq<Record>, after: seq<Record>) {
    match command
    case AppendEntry(entry) => |after| == |before| + 1 && after[..|before|] == before && after[|before|].entry == entry
    case Reopen(_) => after == before
  }

  lemma HoldsStep(before: seq<Record>, after: seq<Record>, commands: seq<Command>, i: nat)
    requires i < |commands| && Holds(before, Appended(commands[..i])) && Ran(commands[i], before, after)
    ensures Holds(after, Appended(commands[..i + 1]))
  {
    assert commands[..i + 1][..i] == commands[..i];
    assert forall k :: 0 <= k < |before| && |before| <= |after| ==> after[..|before|][k] == after[k];
  }

  /**
   Any sequence of appends and reopenings, with any file sizes and settings, starting from an empty directory:
   every reopening succeeds, and the directory ends as one chain that holds the appended entries in order.
   */
  method RunCommands(commands: seq<Command>, times: seq<nat>, config: AuditStoreConfig, hash: HashFn, sizeOf: seq<Line> -> nat)
    returns (store: AuditStore)
    requires |times| == |commands| && forall i, j :: 0 <= i < j < |times| ==> times[i] <= times[j]
    ensures store.Valid() && store.sequence == |Appended(commands)| && Holds(Log(store.dir.files), Appended(commands))
  {
    var dir := new Directory();
    assert AllLines(dir.files) == [];
    var result := AuditStore.Open(config, hash, sizeOf, dir, 0);
    store := result.value;
    for i := 0 to |commands|
      invariant fresh(store) && fresh(store.dir) && store.Valid() && store.hash == hash
      invariant Holds(Log(store.dir.files), Appended(commands[..i]))
      invariant forall j :: i <= j < |times| ==> store.clock <= times[j]
    {
      ghost var before := Log(store.dir.files);
      store := RunCommand(store, commands[i], times[i], sizeOf);
      HoldsStep(before, Log(store.dir.files), commands, i);
    }
    assert commands[..|commands|] == commands;
  }

  method RunCommand(store: AuditStore, command: Command, now: nat, sizeOf: seq<Line> -> nat) returns (store': AuditStore)
    requires store.Valid() && store.clock <= now
    modifies store, store.dir
    ensures (store' == store || fresh(store')) && store'.dir == store.dir
    ensures store'.Valid() && store'.hash == store.hash && store'.clock == now
    ensures Ran(command, old(Log(store.dir.files)), Log(store'.dir.files))
  {
    match command {
      case AppendEntry(entry) =>
        var _ := store.Append(entry, now);
        store' := store;
      case Reopen(settings) =>
        assert Newest(store.dir.files, now / 1000);
        var result := AuditStore.Open(settings, store.hash, sizeOf, store.dir, now);
        store' := result.value;
    }
  }
}

/** `main`: read a caption and a token, then fetch the image, save it, make
    sure the remote folder exists, upload the file, append a record to the
    log and remove the local file. The steps run strictly forward and the
    first one that raises ends the run. */
module Pipeline {

  import opened Wrappers
  import opened Text
  import opened Sanitizer
  import opened Naming
  import opened Http
  import opened BackupLog

  /** The steps of `main` after the two prompts, in program order. */
  datatype Stage = Fetch | Persist | EnsureFolder | RequestUploadLink | PutFile | WriteLog | RemoveLocal

  const Stages: seq<Stage> := [Fetch, Persist, EnsureFolder, RequestUploadLink, PutFile, WriteLog, RemoveLocal]

  /** Where a stage sits in `Stages`. */
  function Position(s: Stage): (i: nat)
    ensures i < |Stages| && Stages[i] == s
  {
    match s
    case Fetch => 0
    case Persist => 1
    case EnsureFolder => 2
    case RequestUploadLink => 3
    case PutFile => 4
    case WriteLog => 5
    case RemoveLocal => 6
  }

  /** No stage appears twice in `Stages`. */
  lemma StagesDistinct(i: nat)
    requires i < |Stages|
    ensures Position(Stages[i]) == i
  {
  }

  /** Everything outside the script that decides how a run goes: the two
      lines typed at the prompts, the outcome of each request, of each file
      operation, and the clock. */
  datatype Environment = Environment(
    textLine: string,
    tokenLine: string,
    image: Response,
    savedSize: Option<nat>,
    folder: Response,
    uploadLink: Response,
    upload: Response,
    logFile: LogFile,
    now: string,
    logWritten: bool,
    removed: bool)

  /** Whether a stage completes without raising:
      - Fetch: the image GET and its `raise_for_status()`;
      - Persist: writing the bytes and `os.path.getsize` (None when either raised);
      - EnsureFolder: `create_folder_on_yadisk`;
      - RequestUploadLink: the GET of `upload_to_yadisk` with its
        `raise_for_status()` and the parsing of its reply; a reply whose
        body is not a JSON object raises here, so `env.uploadLink` is then
        `ConnectionFailed`;
      - PutFile: the PUT with its `raise_for_status()` (a reply without an
        upload link makes the PUT raise, so it shows as a failed PutFile);
      - WriteLog: opening and reading the old log (any error other than
        `json.JSONDecodeError`), then opening the log for writing and
        `json.dump`;
      - RemoveLocal: `os.remove`. */
  predicate StageSucceeds(env: Environment, s: Stage)
  {
    match s
    case Fetch => RequestPasses(env.image)
    case Persist => env.savedSize.Some?
    case EnsureFolder => FolderCreated(env.folder)
    case RequestUploadLink => RequestPasses(env.uploadLink)
    case PutFile => RequestPasses(env.upload)
    case WriteLog => env.logWritten
    case RemoveLocal => env.removed
  }

  /** A stage the run entered, with what it acted on: the caption for Fetch,
      the folder for EnsureFolder, the remote path for RequestUploadLink, the
      log file for WriteLog and the local image file otherwise. */
  datatype Event = Event(stage: Stage, target: string)

  /** How `main` ends when it ends: at one of the two empty-input checks, at
      the stage whose exception ends it, or after removing the local file.
      No request sets a timeout, so a request that never answers keeps
      `main` from ending at all; such runs are not modelled. */
  datatype Outcome = EmptyText | EmptyToken | Aborted(at: Stage) | Completed

  /** The stages entered, how the run ended, and the list written to the log
      file if that write went through. None says only that no new list was
      written: a run aborted at WriteLog may already have emptied the file
      when it opened it for writing. */
  datatype Run = Run(trace: seq<Event>, outcome: Outcome, log: Option<seq<BackupRecord>>)

  /** The position of the first stage that fails, or |Stages| when every
      stage succeeds (see FirstFailureSpec). */
  function FirstFailure(env: Environment): (k: nat)
    ensures k <= |Stages|
  {
    if !StageSucceeds(env, Fetch) then 0
    else if !StageSucceeds(env, Persist) then 1
    else if !StageSucceeds(env, EnsureFolder) then 2
    else if !StageSucceeds(env, RequestUploadLink) then 3
    else if !StageSucceeds(env, PutFile) then 4
    else if !StageSucceeds(env, WriteLog) then 5
    else if !StageSucceeds(env, RemoveLocal) then 6
    else 7
  }

  /** `FirstFailure` finds the first failing stage: every stage before it
      succeeds and the stage at it fails. */
  lemma FirstFailureSpec(env: Environment)
    ensures forall j :: 0 <= j < FirstFailure(env) ==> StageSucceeds(env, Stages[j])
    ensures FirstFailure(env) < |Stages| ==> !StageSucceeds(env, Stages[FirstFailure(env)])
  {
  }

  /** The seven stages for a caption and the name sanitised from it, with
      what each acts on. */
  function Plan(text: string, safe: string): seq<Event>
  {
    [Event(Fetch, text), Event(Persist, LocalPath(safe)), Event(EnsureFolder, GroupFolder),
     Event(RequestUploadLink, RemotePath(safe)), Event(PutFile, LocalPath(safe)),
     Event(WriteLog, LogFileName), Event(RemoveLocal, LocalPath(safe))]
  }

  /** What the stages do once the caption `text` and its sanitised name
      `safe` are known, stage by stage: the first stage that fails ends the
      run after being entered; the log holds the new record once the log
      write has gone through. */
  function Proceed(env: Environment, text: string, safe: string): Run
  {
    var plan := Plan(text, safe);
    if !StageSucceeds(env, Fetch) then Run(plan[..1], Aborted(Fetch), None)
    else if !StageSucceeds(env, Persist) then Run(plan[..2], Aborted(Persist), None)
    else
      var log := Some(Appended(env.logFile, MakeRecord(safe, text, env.savedSize.value, env.now, RemotePath(safe))));
      if !StageSucceeds(env, EnsureFolder) then Run(plan[..3], Aborted(EnsureFolder), None)
      else if !StageSucceeds(env, RequestUploadLink) then Run(plan[..4], Aborted(RequestUploadLink), None)
      else if !StageSucceeds(env, PutFile) then Run(plan[..5], Aborted(PutFile), None)
      else if !StageSucceeds(env, WriteLog) then Run(plan[..6], Aborted(WriteLog), None)
      else if !StageSucceeds(env, RemoveLocal) then Run(plan, Aborted(RemoveLocal), log)
      else Run(plan, Completed, log)
  }

  /** `Proceed` in terms of the first failing stage: the run enters the plan
      up to and including that stage (all of it when none fails), aborts at
      it, and holds the new log exactly when the log write comes before it. */
  lemma ProceedStopsAtFirstFailure(env: Environment, text: string, safe: string)
    ensures var k := FirstFailure(env);
            var r := Proceed(env, text, safe);
            && r.trace == Plan(text, safe)[..if k < |Stages| then k + 1 else |Stages|]
            && r.outcome == (if k < |Stages| then Aborted(Stages[k]) else Completed)
            && (r.log.Some? <==> k > Position(WriteLog))
            && (r.log.Some? ==>
                  env.savedSize.Some? && r.log.value == Appended(env.logFile, MakeRecord(safe, text, env.savedSize.value, env.now, RemotePath(safe))))
  {
    var k := FirstFailure(env);
    var plan := Plan(text, safe);
    if k == |Stages| {
      assert plan[..|Stages|] == plan;
    }
  }

  /** What a run does, stated declaratively: nothing when either stripped
      input is empty, otherwise the stages for the stripped caption and its
      sanitised name. */
  function Expected(env: Environment): Run
  {
    var text := Strip(env.textLine);
    if text == [] then Run([], EmptyText, None)
    else if Strip(env.tokenLine) == [] then Run([], EmptyToken, None)
    else Proceed(env, text, Sanitize(text))
  }

  /** The stages of the plan appear in program order, and each acts on the
      name it should: the local file for Persist, PutFile and RemoveLocal, the
      remote path for RequestUploadLink. */
  lemma PlanFollowsStages(text: string, safe: string)
    ensures |Plan(text, safe)| == |Stages|
    ensures forall i :: 0 <= i < |Stages| ==> Plan(text, safe)[i].stage == Stages[i]
    ensures forall i :: 0 <= i < |Stages| && Plan(text, safe)[i].stage in {Persist, PutFile, RemoveLocal} ==>
              Plan(text, safe)[i].target == LocalPath(safe)
    ensures forall i :: 0 <= i < |Stages| && Plan(text, safe)[i].stage == RequestUploadLink ==>
              Plan(text, safe)[i].target == RemotePath(safe)
  {
    var p := Plan(text, safe);
    forall i | 0 <= i < |Stages|
      ensures p[i].stage == Stages[i]
      ensures p[i].stage in {Persist, PutFile, RemoveLocal} ==> p[i].target == LocalPath(safe)
      ensures p[i].stage == RequestUploadLink ==> p[i].target == RemotePath(safe)
    {
      if i == 0 { } else if i == 1 { } else if i == 2 { } else if i == 3 { }
      else if i == 4 { } else if i == 5 { } else { assert i == 6; }
    }
  }

  /** `main` up to the first stage: the two prompts with their empty-input
      checks, then the name derived from the caption. */
  method RunBackup(env: Environment) returns (run: Run)
    ensures run == Expected(env)
  {
    var text := Strip(env.textLine);
    if text == [] {
      return Run([], EmptyText, None);
    }
    var token := Strip(env.tokenLine);
    if token == [] {
      return Run([], EmptyToken, None);
    }
    var safe := SanitizeFilename(text);
    run := RunStages(env, text, safe);
  }

  /** The stages of `main`, step by step: each stage is recorded as it is
      entered, and the first one that raises ends the run. This part fetches
      the image, saves it and makes sure the folder exists. */
  method RunStages(env: Environment, text: string, safe: string) returns (run: Run)
    ensures run == Proceed(env, text, safe)
  {
    var localPath := LocalPath(safe);
    var trace: seq<Event> := [];

    trace := trace + [Event(Fetch, text)];
    if !RequestPasses(env.image) {
      return Run(trace, Aborted(Fetch), None);
    }

    trace := trace + [Event(Persist, localPath)];
    if env.savedSize.None? {
      return Run(trace, Aborted(Persist), None);
    }
    var fileSize := env.savedSize.value;

    trace := trace + [Event(EnsureFolder, GroupFolder)];
    if !FolderCreated(env.folder) {
      return Run(trace, Aborted(EnsureFolder), None);
    }
    assert trace == Plan(text, safe)[..3];
    run := FinishStages(env, text, safe, fileSize, trace);
  }

  /** The two requests of `upload_to_yadisk`, once the folder exists. */
  method FinishStages(env: Environment, text: string, safe: string, fileSize: nat, entered: seq<Event>)
      returns (run: Run)
    requires env.savedSize == Some(fileSize)
    requires StageSucceeds(env, Fetch) && StageSucceeds(env, Persist) && StageSucceeds(env, EnsureFolder)
    requires entered == Plan(text, safe)[..3]
    ensures run == Proceed(env, text, safe)
  {
    var localPath := LocalPath(safe);
    var remotePath := RemotePath(safe);
    var trace := entered;

    trace := trace + [Event(RequestUploadLink, remotePath)];
    if !RequestPasses(env.uploadLink) {
      return Run(trace, Aborted(RequestUploadLink), None);
    }
    trace := trace + [Event(PutFile, localPath)];
    if !RequestPasses(env.upload) {
      return Run(trace, Aborted(PutFile), None);
    }
    assert trace == Plan(text, safe)[..5];
    run := RecordAndClean(env, text, safe, fileSize, trace);
  }

  /** After the upload: the log is read, extended by the new record and
      written back, then the local image is removed. */
  method RecordAndClean(env: Environment, text: string, safe: string, fileSize: nat, entered: seq<Event>)
      returns (run: Run)
    requires env.savedSize == Some(fileSize)
    requires StageSucceeds(env, Fetch) && StageSucceeds(env, Persist) && StageSucceeds(env, EnsureFolder)
    requires StageSucceeds(env, RequestUploadLink) && StageSucceeds(env, PutFile)
    requires entered == Plan(text, safe)[..5]
    ensures run == Proceed(env, text, safe)
  {
    var localPath := LocalPath(safe);
    var metadata := MakeRecord(safe, text, fileSize, env.now, RemotePath(safe));
    var logData := UpdateLog(env.logFile, metadata);
    var trace := entered + [Event(WriteLog, LogFileName)];
    if !env.logWritten {
      return Run(trace, Aborted(WriteLog), None);
    }

    trace := trace + [Event(RemoveLocal, localPath)];
    if !env.removed {
      return Run(trace, Aborted(RemoveLocal), Some(logData));
    }
    return Run(trace, Completed, Some(logData));
  }

  /** Empty text or an empty token ends the run before any network or file
      stage, and the log is left alone. */
  lemma EarlyReturnTouchesNothing(env: Environment)
    requires Strip(env.textLine) == [] || Strip(env.tokenLine) == []
    ensures Expected(env).trace == [] && Expected(env).log == None
    ensures Expected(env).outcome == if Strip(env.textLine) == [] then EmptyText else EmptyToken
  {
  }

  /** The stages run forward only, whatever the caption and name: the stages
      entered are a prefix of the program order, every stage but the last one
      entered succeeded, an aborted run ends at the stage that failed, and the
      run completes exactly when every stage succeeds. */
  lemma ProceedInOrder(env: Environment, text: string, safe: string)
    ensures var r := Proceed(env, text, safe);
            && 0 < |r.trace| <= |Stages|
            && (forall i :: 0 <= i < |r.trace| ==> r.trace[i].stage == Stages[i])
            && (forall i :: 0 <= i < |r.trace| - 1 ==> StageSucceeds(env, Stages[i]))
            && (r.outcome.Aborted? ==>
                  r.trace[|r.trace| - 1].stage == r.outcome.at && !StageSucceeds(env, r.outcome.at))
            && (r.outcome.Completed? <==> forall s :: StageSucceeds(env, s))
            && (r.outcome.Aborted? || r.outcome.Completed?)
  {
    PlanFollowsStages(text, safe);
    FirstFailureSpec(env);
    ProceedStopsAtFirstFailure(env, text, safe);
    var k := FirstFailure(env);
    if k < |Stages| {
      assert !StageSucceeds(env, Stages[k]);
    }
  }

  /** The same for a whole run: the stages entered are a prefix of the
      program order, every stage but the last one entered succeeded, an
      aborted run ends at the stage that failed, and a run completes exactly
      when both inputs are non-empty after stripping and every stage
      succeeds. */
  lemma StagesRunInOrder(env: Environment)
    ensures var r := Expected(env);
            && |r.trace| <= |Stages|
            && (forall i :: 0 <= i < |r.trace| ==> r.trace[i].stage == Stages[i])
            && (forall i :: 0 <= i < |r.trace| - 1 ==> StageSucceeds(env, Stages[i]))
            && (r.outcome.Aborted? ==>
                  r.trace != [] && r.trace[|r.trace| - 1].stage == r.outcome.at &&
                  !StageSucceeds(env, r.outcome.at))
            && (r.outcome.Completed? <==>
                  Strip(env.textLine) != [] && Strip(env.tokenLine) != [] &&
                  forall s :: StageSucceeds(env, s))
  {
    var text := Strip(env.textLine);
    if text != [] && Strip(env.tokenLine) != [] {
      ProceedInOrder(env, text, Sanitize(text));
    }
  }

  /** A failing stage prevents every later stage: no stage after it in the
      program order is ever entered. */
  lemma FailureStopsLaterStages(env: Environment, s: Stage)
    requires !StageSucceeds(env, s)
    ensures forall i :: 0 <= i < |Expected(env).trace| ==>
              Position(Expected(env).trace[i].stage) <= Position(s)
  {
    var text := Strip(env.textLine);
    if text != [] && Strip(env.tokenLine) != [] {
      ProceedStopsAt(env, text, Sanitize(text), s);
    }
  }

  /** A stage that fails is the last one a run can enter. */
  lemma ProceedStopsAt(env: Environment, text: string, safe: string, s: Stage)
    requires !StageSucceeds(env, s)
    ensures var r := Proceed(env, text, safe);
            forall i :: 0 <= i < |r.trace| ==> Position(r.trace[i].stage) <= Position(s)
  {
    PlanFollowsStages(text, safe);
  }

  /** The local file is removed only after the log has been written: a run
      that enters RemoveLocal entered WriteLog just before it, that write went
      through, and the log holds the new record after the kept entries. */
  lemma RemovedOnlyAfterLogWritten(env: Environment)
    ensures var r := Expected(env);
            var text := Strip(env.textLine);
            var safe := Sanitize(text);
            forall i :: 0 <= i < |r.trace| && r.trace[i].stage == RemoveLocal ==>
              && i > 0 && r.trace[i - 1].stage == WriteLog
              && env.logWritten && env.savedSize.Some?
              && r.log == Some(Appended(env.logFile, MakeRecord(safe, text, env.savedSize.value, env.now, RemotePath(safe))))
  {
    var text := Strip(env.textLine);
    if text != [] && Strip(env.tokenLine) != [] {
      ProceedRemovesAfterLog(env, text, Sanitize(text));
    }
  }

  /** `RemovedOnlyAfterLogWritten` for the stages alone. */
  lemma ProceedRemovesAfterLog(env: Environment, text: string, safe: string)
    ensures var r := Proceed(env, text, safe);
            forall i :: 0 <= i < |r.trace| && r.trace[i].stage == RemoveLocal ==>
              && i > 0 && r.trace[i - 1].stage == WriteLog
              && env.logWritten && env.savedSize.Some?
              && r.log == Some(Appended(env.logFile, MakeRecord(safe, text, env.savedSize.value, env.now, RemotePath(safe))))
  {
    var r := Proceed(env, text, safe);
    ProceedInOrder(env, text, safe);
    ProceedStopsAtFirstFailure(env, text, safe);
    FirstFailureSpec(env);
    forall i | 0 <= i < |r.trace| && r.trace[i].stage == RemoveLocal
      ensures i > 0 && r.trace[i - 1].stage == WriteLog && env.logWritten && env.savedSize.Some?
      ensures r.log == Some(Appended(env.logFile, MakeRecord(safe, text, env.savedSize.value, env.now, RemotePath(safe))))
    {
      StagesDistinct(i);
      assert FirstFailure(env) >= Position(RemoveLocal);
      assert StageSucceeds(env, Stages[Position(WriteLog)]);
    }
  }

  /** The names used by the stages agree: the file that is saved, uploaded and
      removed is the sanitised caption plus ".jpg"; the upload goes to that
      name inside the group folder; and the logged record's file name,
      remote path, caption, size and time are those of this run, appended
      after the entries kept from the old log. */
  lemma NamesAgree(env: Environment)
    requires Strip(env.textLine) != [] && Strip(env.tokenLine) != []
    ensures var r := Expected(env);
            var safe := Sanitize(Strip(env.textLine));
            && (forall i :: 0 <= i < |r.trace| && r.trace[i].stage in {Persist, PutFile, RemoveLocal} ==>
                  r.trace[i].target == LocalPath(safe))
            && (forall i :: 0 <= i < |r.trace| && r.trace[i].stage == RequestUploadLink ==>
                  r.trace[i].target == RemotePath(safe))
            && (r.log.Some? ==>
                  var log := r.log.value;
                  var rec := log[|log| - 1];
                  && log == PriorEntries(env.logFile) + [rec]
                  && env.savedSize.Some?
                  && rec.filename == LocalPath(safe)
                  && rec.remotePath == RemotePath(safe)
                  && rec.originalText == Strip(env.textLine)
                  && rec.fileSizeBytes == env.savedSize.value
                  && rec.uploadedAt == env.now)
  {
    var text := Strip(env.textLine);
    ProceedNamesAgree(env, text, Sanitize(text));
  }

  /** `NamesAgree` for the stages alone, for any caption and name. */
  lemma ProceedNamesAgree(env: Environment, text: string, safe: string)
    ensures var r := Proceed(env, text, safe);
            && (forall i :: 0 <= i < |r.trace| && r.trace[i].stage in {Persist, PutFile, RemoveLocal} ==>
                  r.trace[i].target == LocalPath(safe))
            && (forall i :: 0 <= i < |r.trace| && r.trace[i].stage == RequestUploadLink ==>
                  r.trace[i].target == RemotePath(safe))
            && (r.log.Some? ==>
                  var log := r.log.value;
                  var rec := log[|log| - 1];
                  && log == PriorEntries(env.logFile) + [rec]
                  && env.savedSize.Some?
                  && rec.filename == LocalPath(safe)
                  && rec.remotePath == RemotePath(safe)
                  && rec.originalText == text
                  && rec.fileSizeBytes == env.savedSize.value
                  && rec.uploadedAt == env.now)
  {
    PlanFollowsStages(text, safe);
  }

  /** One complete run: caption "Hello", a 50-byte image, a folder that
      already exists (409), a successful upload, log write and removal. Every
      stage is entered in order on the expected names, and the log gains the
      record for "Hello.jpg" after the entries it already had. */
  lemma HelloEndToEnd(token: string, log: LogFile, now: string)
    requires Strip(token) != []
    ensures Expected(Environment("Hello", token, Status(200), Some(50), Status(409),
                                 Status(200), Status(201), log, now, true, true))
         == Run([Event(Fetch, "Hello"), Event(Persist, "Hello.jpg"), Event(EnsureFolder, "SPD-138"),
                 Event(RequestUploadLink, "SPD-138/Hello.jpg"), Event(PutFile, "Hello.jpg"),
                 Event(WriteLog, "backup_log.json"), Event(RemoveLocal, "Hello.jpg")],
                Completed,
                Some(PriorEntries(log) + [BackupRecord("Hello.jpg", "Hello", 50, now, "SPD-138/Hello.jpg")]))
  {
    HelloIsValidName();
    assert LocalPath("Hello") == "Hello.jpg";
    assert RemotePath("Hello") == "SPD-138/Hello.jpg";
  }

  /** "Hello" is its own sanitised name. */
  lemma HelloIsValidName()
    ensures Strip("Hello") == "Hello" && Sanitize("Hello") == "Hello"
  {
    var name := "Hello";
    assert !IsSpace(name[0]) && !IsSpace(name[4]);
    StripStripped(name);
    forall k | 0 <= k < |name| ensures !IsInvalid(name[k]) {
      assert name[k] in {'H', 'e', 'l', 'o'};
    }
    SanitizeKeepsValidName(name);
  }
}

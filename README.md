# Cat picture backup: a Dafny model

`backup_cats.py` is a one-shot script. It asks for a caption and a
Yandex.Disk OAuth token. It downloads a cat picture with that caption from
cataas.com, saves it in the current working directory, makes sure the group folder
`SPD-138` exists on the disk, uploads the picture there, appends a record to
`backup_log.json` and removes the local copy.

This project models the parts of the script that decide what happens:

- `sanitize_filename`, which turns the caption into a file-name stem;
- the local and remote names built from that stem;
- the status rule for folder creation (201 and 409 pass);
- the read-modify-write of the log;
- the order of the stages in `main`, including the early returns and the
  fact that the first exception ends the run.

Modules:

- `Wrappers`: `Option`.
- `Text`: Python's `str.isspace()` and `str.strip()`, and a count of
  one character, used to state that the remote path holds exactly one '/'.
- `Sanitizer`: the replacement loop, strip and cut. It has a step-by-step
  method, `SanitizeFilename`, proved equal to a declarative function,
  `Sanitize`.
- `Naming`: the local file name, the remote path and the log record.
- `Http`: `raise_for_status()` and the folder-creation rule.
- `BackupLog`: the log update. It has a method, `UpdateLog`, mirroring the
  statements of `main`, proved equal to the function `Appended`.
- `Pipeline`: `main` itself. The methods `RunBackup`, `RunStages`,
  `FinishStages` and `RecordAndClean` follow the statements of `main` and
  record each stage as it is entered. They are proved equal to the
  declarative `Expected` and `Proceed`, and the ordering properties are
  lemmas about those functions.

The outside world is a parameter, `Pipeline.Environment`. It holds:

- the two lines typed at the prompts;
- the response to each request;
- whether saving the image and writing the log succeed, and the file size;
- whether removing the local image (`os.remove`) succeeds;
- the log file as found on disk;
- the timestamp.

Points where the code's behaviour is easy to misread:

- The name can end in whitespace. The cut to 100 characters happens after
  the strip, so 99 characters, a space and one more character give a name
  that ends in the space (`Sanitizer.SanitizeMayEndInSpace`). For the same
  reason, sanitising is not idempotent.
- The image download fails only for 4xx and 5xx statuses, which is what
  `raise_for_status()` checks. Other statuses that are not 2xx, such as a
  3xx or 1xx the client hands back, let the run go on.
- `main` has no exception handler except the one around `json.load`. Any
  failing request or file operation ends the run at that stage and nothing
  later runs.
- No request sets a timeout, so a server that never answers blocks `main`
  forever at Fetch, EnsureFolder, RequestUploadLink or PutFile.
- Sanitising is not injective: captions that differ only in their invalid
  characters share the local file and the remote path, and the upload asks
  for the earlier file to be overwritten (`Naming.CaptionsCanCollide`).

## Model

| member | source | states |
|---|---|---|
| Text.StripSpec | backup_cats.py:16 | `str.strip()` returns the infix of its argument that starts at the first non-whitespace character, with only whitespace around it and non-whitespace at both ends; it is empty exactly when the argument is all whitespace |
| Text.StripUnique | backup_cats.py:43 | reference characterisation of strip: for any split into whitespace, a body with non-whitespace ends, and whitespace, strip returns the body |
| Text.StripStripped | backup_cats.py:43 | stripping text whose ends are not whitespace changes nothing |
| Text.Occurrences | backup_cats.py:56 | the count of a character is at most the length and is zero exactly when the character is absent |
| Text.OccurrencesConcat | backup_cats.py:56 | counting a character distributes over concatenation |
| Sanitizer.ReplaceChar | backup_cats.py:15 | one `replace` call keeps the length, replaces exactly the occurrences of the character in place, and leaves none of it behind |
| Sanitizer.Replaced | backup_cats.py:13-15 | the whole replacement pass keeps the length, leaves no invalid character, and keeps each position's whitespace status |
| Sanitizer.Truncate | backup_cats.py:16 | slicing to n characters gives a prefix of length min(len, n) |
| Sanitizer.Sanitize | backup_cats.py:11-16 | the sanitised name is at most 100 characters long and contains none of `<>:"/\|?*` |
| Sanitizer.SanitizeIsPrefix | backup_cats.py:16 | the name is the stripped, replaced text cut to 100 characters, as a prefix of it |
| Sanitizer.SanitizeFilename | backup_cats.py:11-16 | the loop over the invalid characters followed by strip and cut computes `Sanitize`; its result is at most 100 characters and has no invalid character |
| Sanitizer.ReplacedConcat | backup_cats.py:14-15 | the replacement pass distributes over concatenation |
| Sanitizer.ReplacedShape | backup_cats.py:14-15 | the replacement pass keeps all-whitespace strings all-whitespace and non-whitespace ends non-whitespace |
| Sanitizer.StripReplaced | backup_cats.py:14-16 | replacing then stripping equals stripping then replacing, so replacement keeps positions relative to the stripped text |
| Sanitizer.ReplacedValid | backup_cats.py:14-15 | text without invalid characters is left unchanged by the replacement pass |
| Sanitizer.SanitizeStrippedText | backup_cats.py:54 | for the already stripped caption, the name is the replaced caption cut to 100 characters |
| Sanitizer.SanitizeNonEmpty | backup_cats.py:16 | a caption that is not empty after stripping gives a name that is not empty and does not start with whitespace |
| Sanitizer.SanitizeKeepsValidName | backup_cats.py:11-16 | a stripped name of at most 100 valid characters is returned unchanged |
| Sanitizer.SanitizeMayEndInSpace | backup_cats.py:16 | 99 valid characters, a space and one more character give a name that ends in the space, and sanitising that name again changes it |
| Naming.MakeRecord | backup_cats.py:80-86 | the log record's file name is the local file name, and its caption, size, time and remote path are the ones passed in |
| Naming.LocalPathIsPlainName | backup_cats.py:55 | the local file name holds neither '/' nor '\\', has at most 104 characters and ends in ".jpg" |
| Naming.RemotePathShape | backup_cats.py:56 | a remote path built from a name without '/' has exactly one '/', right after `SPD-138`, followed by the local file name |
| Naming.RemotePathSingleSeparator | backup_cats.py:54-56 | the remote path built from any caption has exactly one '/' |
| Naming.CaptionsCanCollide | backup_cats.py:11-56 | two captions that differ only in the invalid character at their end give the same name, local file and remote path |
| Naming.RemotePathInjective | backup_cats.py:55-56 | two names with the same remote path, or the same local file name, are equal |
| Http.FolderCreated | backup_cats.py:32-39 | folder creation succeeds exactly for 201, 409 and statuses outside 400..599, that is, where `raise_for_status()` passes or the status is 409 |
| BackupLog.Appended | backup_cats.py:89-99 | the list written back has one more entry than the entries kept, keeps them in order, and ends with the new record |
| BackupLog.UpdateLog | backup_cats.py:89-99 | the statements computing `log_data` give `Appended`: a log of N decoded entries becomes N + 1 entries with the old ones first, and a log that is missing or is not valid JSON becomes exactly the new record |
| BackupLog.AppendedTwice | backup_cats.py:89-102 | a log written by one run and read back by the next keeps both records after the earlier entries, in order |
| Pipeline.FirstFailureSpec | backup_cats.py:63-107 | every stage before the first failing one succeeds, and the stage at that index fails |
| Pipeline.ProceedStopsAtFirstFailure | backup_cats.py:63-107 | the stage-by-stage run enters the stages up to and including the first failing one, aborts there, and holds the new log exactly when the log write comes before it |
| Pipeline.PlanFollowsStages | backup_cats.py:54-107 | the seven stages are in program order; Persist, PutFile and RemoveLocal act on the local file name, RequestUploadLink on the remote path |
| Pipeline.RunBackup | backup_cats.py:41-56 | the statements of `main` compute `Expected`: the two prompt checks, the sanitised name, then the stages |
| Pipeline.RunStages | backup_cats.py:63-72 | fetching, saving and folder creation, each entered in turn and ending the run when it raises, followed by the rest of the stages, compute `Proceed` |
| Pipeline.FinishStages | backup_cats.py:18-30 | the two requests of the upload, followed by the rest of the stages, compute `Proceed` once the earlier stages have succeeded |
| Pipeline.RecordAndClean | backup_cats.py:80-107 | building the record, updating and writing the log, then removing the local file, compute `Proceed` once the upload has succeeded |
| Pipeline.EarlyReturnTouchesNothing | backup_cats.py:43-51 | an empty stripped caption or token ends the run before any stage and leaves the log alone, with the caption checked first |
| Pipeline.ProceedInOrder | backup_cats.py:63-107 | the stages entered are a non-empty prefix of the program order; all but the last one entered succeeded; an aborted run ends at the failing stage; the run completes exactly when every stage succeeds |
| Pipeline.StagesRunInOrder | backup_cats.py:41-107 | the same for a whole run, where completion also needs both inputs to be non-empty after stripping |
| Pipeline.ProceedStopsAt | backup_cats.py:63-107 | no stage after a failing stage is entered |
| Pipeline.FailureStopsLaterStages | backup_cats.py:41-107 | in a whole run, a failing stage prevents every later stage |
| Pipeline.ProceedRemovesAfterLog | backup_cats.py:99-107 | RemoveLocal is entered only right after WriteLog, when the log write went through, and the log is then the kept entries followed by this run's record |
| Pipeline.RemovedOnlyAfterLogWritten | backup_cats.py:41-107 | the same for a whole run: the local file is removed only after the log has been written, and the log then ends with this run's record for the sanitised caption |
| Pipeline.ProceedNamesAgree | backup_cats.py:54-107 | the saved, uploaded and removed file is the local name, the upload goes to the remote path, and the logged record carries this run's name, caption, size and time after the kept entries |
| Pipeline.NamesAgree | backup_cats.py:41-107 | the same for a whole run, with the name sanitised from the stripped caption |
| Pipeline.HelloIsValidName | backup_cats.py:11-16 | "Hello" is already stripped and is its own sanitised name |
| Pipeline.HelloEndToEnd | backup_cats.py:41-107 | the caption "Hello" with a 409 from folder creation and every other stage succeeding gives the full stage list on "Hello.jpg" and "SPD-138/Hello.jpg", completes, and logs the record for "Hello.jpg" after the entries already there |

## Left out

- The HTTP requests themselves (URLs, headers, query parameters, the response body) are not modelled. Each request is reduced to its outcome, a status code or a connection failure, given by the environment.
- URL encoding of the caption (`quote`) is not modelled. It only affects the download URL, which the model does not build; the Fetch stage records the caption.
- The JSON body of the upload-link response is not modelled. A 2xx reply whose body is not a JSON object makes `response.json().get` raise, so it is given as `ConnectionFailed` for the upload-link request and the run ends at RequestUploadLink. A JSON object without `href` makes the PUT raise, so it appears as a failed PutFile.
- File I/O (writing the image, `os.path.getsize`, `os.path.exists`, opening, reading and writing the log, `os.remove`) is reduced to outcomes given by the environment. The image bytes are not modelled.
- JSON encoding and decoding are not modelled. A log file is missing, parses to a list of records, or raises `json.JSONDecodeError`, which the script catches and treats as an empty log. A file that parses to something other than a list, which would make the append raise, is not modelled.
- A log that exists but cannot be opened (a directory, say) or is not valid UTF-8 raises an error the script does not catch, before anything is written. The model has no separate outcome for this: such a run is given as `logWritten == false` and aborts at WriteLog.
- `Run.log == None` after `Aborted(WriteLog)` means only that no new list was written. It does not mean the old log survived: opening the file for writing empties it before `json.dump` runs, and the model does not track the file's contents after a failed write.
- No request sets a timeout, so a request can block forever and `main` never returns; the model covers only runs in which every request returns or raises.
- A log whose list holds values other than records is not modelled: the decoded log is a list of records, although `json.load` may return a list of any JSON values and the append works on it just the same.
- The clock (`datetime.now().isoformat()`) is a string parameter, and the prompts (`input`) are the two lines in the environment. The messages printed by `print` are not modelled.
- Python's `str.isspace()` is modelled by its fixed set of whitespace characters. The Unicode database it comes from is not modelled.
- Sanitizer.Sanitize: does not promise that the name has no trailing whitespace, because the code cuts after stripping and can leave a trailing space (see `Sanitizer.SanitizeMayEndInSpace`).

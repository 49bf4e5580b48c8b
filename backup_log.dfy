/** The read-modify-write of `backup_log.json`: the prior entries are loaded
    if the file exists and decodes, the new record is appended, and the whole
    list is written back. */
module BackupLog {

  import opened Wrappers
  import opened Naming

  const LogFileName: string := "backup_log.json"

  /** The log file as `main` finds it when it can be opened and read: absent,
      or present with contents that either parse as JSON to a list of records
      or raise `json.JSONDecodeError`, the one error the script catches
      (None). A log that cannot be opened or read as UTF-8 raises past that
      handler; such a run fails at the WriteLog stage of the pipeline. */
  datatype LogFile = Missing | Present(decoded: Option<seq<BackupRecord>>)

  /** The entries the script keeps from an existing log: all of them when the
      file parses, none when it is missing or is not valid JSON. */
  function PriorEntries(f: LogFile): seq<BackupRecord>
  {
    if f.Present? && f.decoded.Some? then f.decoded.value else []
  }

  /** The list written back: the kept entries, unchanged and in order, then the
      new record. */
  function Appended(f: LogFile, rec: BackupRecord): (log: seq<BackupRecord>)
    ensures |log| == |PriorEntries(f)| + 1
    ensures log[..|PriorEntries(f)|] == PriorEntries(f)
    ensures log[|log| - 1] == rec
  {
    PriorEntries(f) + [rec]
  }

  /** The statements that build `log_data`: start from an empty list, replace
      it by the decoded file when there is one, then append the record. A
      valid log of N entries becomes N + 1 entries with the old ones first; a
      missing or corrupt log becomes exactly the new record. */
  method UpdateLog(f: LogFile, rec: BackupRecord) returns (logData: seq<BackupRecord>)
    ensures logData == Appended(f, rec)
    ensures f.Present? && f.decoded.Some? ==>
              |logData| == |f.decoded.value| + 1 &&
              logData[..|f.decoded.value|] == f.decoded.value &&
              logData[|f.decoded.value|] == rec
    ensures f.Missing? || f.decoded.None? ==> logData == [rec]
  {
    logData := [];
    if f.Present? {
      match f.decoded
      case Some(entries) =>
        logData := entries;
      case None =>
        logData := [];
    }
    logData := logData + [rec];
  }

  /** The log only grows: when the next run reads back the list this run
      wrote, it keeps every earlier entry and both records, in order. */
  lemma AppendedTwice(f: LogFile, first: BackupRecord, second: BackupRecord)
    ensures Appended(Present(Some(Appended(f, first))), second) == PriorEntries(f) + [first, second]
  {
    assert PriorEntries(Present(Some(Appended(f, first)))) == PriorEntries(f) + [first];
  }
}

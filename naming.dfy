/** The names `main` derives from the sanitised caption: the local image file,
    the path of the upload inside the group folder, and the log record that
    describes the upload. */
module Naming {

  import opened Text
  import opened Sanitizer

  /** The remote folder every image goes to. */
  const GroupFolder: string := "SPD-138"
  const Extension: string := ".jpg"

  /** `f"{safe_text}.jpg"`: the local image file, in the working directory. */
  function LocalPath(safe: string): string
  {
    safe + Extension
  }

  /** `f"{GROUP_FOLDER}/{safe_text}.jpg"`: where the image is uploaded. */
  function RemotePath(safe: string): string
  {
    GroupFolder + "/" + safe + Extension
  }

  /** One entry of the backup log. */
  datatype BackupRecord = BackupRecord(
    filename: string,
    originalText: string,
    fileSizeBytes: nat,
    uploadedAt: string,
    remotePath: string)

  /** The `metadata` dictionary `main` builds once the upload is done. Its
      file name is spelled out again as `safe_text + ".jpg"` rather than taken
      from the local path; the remote path and the timestamp are passed in. */
  function MakeRecord(safe: string, text: string, fileSize: nat, uploadedAt: string, remotePath: string): (r: BackupRecord)
    ensures r.filename == LocalPath(safe)
    ensures r.originalText == text && r.fileSizeBytes == fileSize
    ensures r.uploadedAt == uploadedAt && r.remotePath == remotePath
  {
    BackupRecord(safe + ".jpg", text, fileSize, uploadedAt, remotePath)
  }

  /** The local file name built from a sanitised caption holds no path
      separator of either kind, so the image is written in the working
      directory; it is at most 104 characters long and ends in ".jpg". */
  lemma LocalPathIsPlainName(text: string)
    ensures var p := LocalPath(Sanitize(text));
            '/' !in p && '\\' !in p && |p| <= MaxNameLength + 4 && p[|p| - 4..] == ".jpg"
  {
    var safe := Sanitize(text);
    var p := LocalPath(safe);
    assert IsInvalid('/') && IsInvalid('\\');
    forall k | 0 <= k < |p| ensures p[k] != '/' && p[k] != '\\' {
      if k < |safe| {
        assert p[k] == safe[k] && !IsInvalid(safe[k]);
      } else {
        assert p[k] == Extension[k - |safe|];
      }
    }
  }

  /** A remote path built from a name without '/' contains exactly one '/',
      right after the group folder; what follows it is the local file name. */
  lemma RemotePathShape(safe: string)
    requires '/' !in safe
    ensures var p := RemotePath(safe);
            && Occurrences(p, '/') == 1
            && p[..|GroupFolder|] == GroupFolder
            && p[|GroupFolder|] == '/'
            && p[|GroupFolder| + 1..] == LocalPath(safe)
  {
    var local := LocalPath(safe);
    assert '/' !in local;
    assert '/' !in GroupFolder;
    OccurrencesConcat(GroupFolder, "/", '/');
    OccurrencesConcat(GroupFolder + "/", local, '/');
    assert RemotePath(safe) == GroupFolder + "/" + local;
  }

  /** In particular, the remote path `main` uploads to has exactly one '/'. */
  lemma RemotePathSingleSeparator(text: string)
    ensures Occurrences(RemotePath(Sanitize(text)), '/') == 1
  {
    LocalPathIsPlainName(text);
    RemotePathShape(Sanitize(text));
  }

  /** Captions that differ only in which invalid character ends them give the
      same name, hence the same local file and remote path, so with
      `"overwrite": "true"` the later upload replaces the earlier one
      ("a?" and "a*" both give "a_"). */
  lemma CaptionsCanCollide(prefix: string, c: char, d: char)
    requires IsInvalid(c) && IsInvalid(d)
    ensures Sanitize(prefix + [c]) == Sanitize(prefix + [d])
    ensures RemotePath(Sanitize(prefix + [c])) == RemotePath(Sanitize(prefix + [d]))
    ensures LocalPath(Sanitize(prefix + [c])) == LocalPath(Sanitize(prefix + [d]))
  {
    ReplacedConcat(prefix, [c]);
    ReplacedConcat(prefix, [d]);
    assert Replaced([c]) == Replaced([d]);
  }

  /** Different sanitised names never share a remote path (nor a local one). */
  lemma RemotePathInjective(a: string, b: string)
    requires RemotePath(a) == RemotePath(b) || LocalPath(a) == LocalPath(b)
    ensures a == b
  {
    if RemotePath(a) == RemotePath(b) {
      assert |a| == |b|;
      assert a == RemotePath(a)[|GroupFolder| + 1..|GroupFolder| + 1 + |a|];
    } else {
      assert a == LocalPath(a)[..|a|];
    }
  }
}

/**
 * The Apps Script side of the backup (Code.js): it fetches the newest backup from the
 * bridge, stores it in a Drive folder under a dated name, and keeps only the three most
 * recently created files of that folder.
 */
module DriveBackup {
  import opened JsString
  import StableSort

  /** Number of files `cleanupOldBackups` keeps. */
  const Keep := 3

  /** The extension whose first occurrence receives the date stamp. */
  const Ext := ".zpaq"

  /** The message thrown when the download answers with another code than 200. */
  const DownloadFailed := "Download mislukt"

  /** A Drive file; `setTrashed` changes it in place, whatever array refers to it. */
  class DriveFile {
    var name: string
    // creation time in milliseconds
    const created: int
    var trashed: bool

    constructor (name: string, created: int)
      ensures this.name == name && this.created == created && !trashed
    {
      this.name := name;
      this.created := created;
      trashed := false;
    }

    method SetName(name: string)
      modifies this
      ensures this.name == name && trashed == old(trashed)
    {
      this.name := name;
    }

    method SetTrashed(trashed: bool)
      modifies this
      ensures this.trashed == trashed && name == old(name)
    {
      this.trashed := trashed;
    }
  }

  /** A Drive folder; `files` is what its file iterator yields, in that order. */
  class DriveFolder {
    var files: seq<DriveFile>

    constructor (files: seq<DriveFile>)
      ensures this.files == files
    {
      this.files := files;
    }

    /** `folder.createFile(blob)`: a new file, yielded after the existing ones. */
    method CreateFile(name: string, created: int) returns (f: DriveFile)
      modifies this
      ensures fresh(f) && f.name == name && f.created == created && !f.trashed
      ensures files == old(files) + [f]
    {
      f := new DriveFile(name, created);
      files := files + [f];
    }
  }

  /** The sort key of the comparator `(a, b) => b.getDateCreated() - a.getDateCreated()`. */
  function CreatedOf(f: DriveFile): int
  {
    f.created
  }

  function Min(a: int, b: int): int
  {
    if a < b then a else b
  }

  /** The folder's files, newest first, as the stable sort leaves them. */
  function Newest(files: seq<DriveFile>): seq<DriveFile>
  {
    StableSort.Sort(files, CreatedOf)
  }

  /** The files cleanup leaves alone: sorted indices below `Keep`. */
  function Kept(files: seq<DriveFile>): seq<DriveFile>
  {
    Newest(files)[..Min(Keep, |files|)]
  }

  /** The files cleanup trashes: sorted indices from `Keep` on. */
  function ToTrash(files: seq<DriveFile>): seq<DriveFile>
  {
    Newest(files)[Min(Keep, |files|)..]
  }

  /** The name the backup is stored under: `filename.replace(".zpaq", "_" + datum + ".zpaq")`. */
  function TargetName(filename: string, datum: string): (r: string)
    ensures !Contains(filename, Ext) ==> r == filename
    ensures forall k: nat :: FirstOccurrence(filename, Ext, k) ==>
      r == filename[..k] + "_" + datum + filename[k..]
  {
    ReplaceBeforePattern(filename, Ext, "_" + datum);
    Replace(filename, Ext, "_" + datum + Ext)
  }

  /** A stored name keeps the `.zpaq` extension of the name it came from. */
  lemma TargetNameKeepsExtension(filename: string, datum: string)
    requires EndsWith(filename, Ext)
    ensures EndsWith(TargetName(filename, datum), Ext)
    ensures |TargetName(filename, datum)| == |filename| + 1 + |datum|
  {
    var k := IndexOf(filename, Ext, 0);
    assert OccursAt(filename, Ext, |filename| - |Ext|);
    assert FirstOccurrence(filename, Ext, k);
  }

  /** `cleanupOldBackups` trashes `max(0, n - 3)` files; a folder of at most three loses none. */
  lemma RetentionCount(files: seq<DriveFile>)
    ensures |Kept(files)| == Min(Keep, |files|)
    ensures |ToTrash(files)| == if |files| > Keep then |files| - Keep else 0
    ensures |files| <= Keep ==> ToTrash(files) == [] && Kept(files) == Newest(files)
    ensures Kept(files) + ToTrash(files) == Newest(files)
  {
  }

  /** Every trashed file was created no later than every kept one. */
  lemma TrashedNoNewerThanKept(files: seq<DriveFile>)
    ensures forall k, t :: k in Kept(files) && t in ToTrash(files) ==> t.created <= k.created
  {
    var o, m := Newest(files), Min(Keep, |files|);
    StableSort.SortNonIncreasing(files, CreatedOf);
    forall k, t | k in Kept(files) && t in ToTrash(files) ensures t.created <= k.created {
      var i :| 0 <= i < m && o[..m][i] == k;
      var j :| 0 <= j < |o| - m && o[m..][j] == t;
      assert CreatedOf(o[m + j]) <= CreatedOf(o[i]);
    }
  }

  /** A file created strictly later than some kept file is itself kept. */
  lemma NewerThanKeptIsKept(files: seq<DriveFile>, f: DriveFile, k: DriveFile)
    requires f in files && k in Kept(files) && k.created < f.created
    ensures f in Kept(files) && f !in ToTrash(files)
  {
    StableSort.SortPermutation(files, CreatedOf);
    assert f in multiset(Newest(files));
    TrashedNoNewerThanKept(files);
    RetentionCount(files);
    assert f in Kept(files) + ToTrash(files);
  }

  /** Every file is kept or trashed: together they are the folder's files, counted with repetition. */
  lemma KeptOrTrashed(files: seq<DriveFile>)
    ensures multiset(Kept(files)) + multiset(ToTrash(files)) == multiset(files)
  {
    RetentionCount(files);
    StableSort.SortPermutation(files, CreatedOf);
  }

  /** When the iterator yields each file once, no file is both kept and trashed. */
  lemma KeptNotTrashed(files: seq<DriveFile>)
    requires StableSort.Distinct(files)
    ensures forall f :: f in Kept(files) ==> f !in ToTrash(files)
  {
    RetentionCount(files);
    StableSort.SortDistinct(files, CreatedOf);
  }

  /** A file created strictly after all others in the folder is never trashed. */
  lemma NewestFileIsKept(files: seq<DriveFile>, f: DriveFile)
    requires StableSort.Distinct(files) && f in files
    requires forall g :: g in files && g != f ==> g.created < f.created
    ensures f in Kept(files) && f !in ToTrash(files)
  {
    var o := Newest(files);
    RetentionCount(files);
    StableSort.SortPermutation(files, CreatedOf);
    assert o[0] in multiset(files);
    assert o[0] in Kept(files);
    if o[0] != f {
      NewerThanKeptIsKept(files, f, o[0]);
    } else {
      KeptNotTrashed(files);
    }
  }

  /** `while (it.hasNext()) files.push(it.next())`: the files the folder's iterator yields. */
  method CollectFiles(folder: DriveFolder) returns (files: array<DriveFile>)
    ensures fresh(files) && files[..] == folder.files
  {
    var it := folder.files;
    var collected: seq<DriveFile> := [];
    var pos := 0;
    while pos < |it|
      invariant 0 <= pos <= |it|
      invariant collected == it[..pos]
    {
      collected := collected + [it[pos]];
      pos := pos + 1;
    }
    files := new DriveFile[|collected|](k requires 0 <= k < |collected| => collected[k]);
  }

  /** The trash loop: every file from index `Keep` on is trashed and counted. */
  method TrashFromKeep(files: array<DriveFile>) returns (deletedCount: nat)
    modifies files[..]
    ensures deletedCount == if files.Length > Keep then files.Length - Keep else 0
    ensures forall f :: f in old(files[..]) ==> f.name == old(f.name)
    ensures forall f :: f in old(files[..]) ==>
      f.trashed == (old(f.trashed) || f in old(files[..])[Min(Keep, files.Length)..])
  {
    ghost var s := files[..];
    var i := Keep;
    deletedCount := 0;
    while i < files.Length
      invariant Keep <= i && (i == Keep || i <= files.Length)
      invariant files[..] == s
      invariant deletedCount == i - Keep
      invariant forall f :: f in s ==> f.name == old(f.name)
      invariant forall f :: f in s ==>
        f.trashed == (old(f.trashed) || (i <= files.Length && f in s[Keep..i]))
    {
      assert s[Keep..i + 1] == s[Keep..i] + [files[i]];
      files[i].SetTrashed(true);
      deletedCount := deletedCount + 1;
      i := i + 1;
    }
  }

  /**
   * `cleanupOldBackups(folder)`: collects every file the folder's iterator yields, sorts
   * them newest first and trashes each one from index `Keep` on; returns how many.
   */
  method CleanupOldBackups(folder: DriveFolder) returns (deletedCount: nat)
    modifies folder.files
    ensures folder.files == old(folder.files)
    ensures deletedCount == if |folder.files| > Keep then |folder.files| - Keep else 0
    ensures forall f :: f in folder.files ==> f.name == old(f.name)
    ensures forall f :: f in folder.files ==>
      f.trashed == (old(f.trashed) || f in ToTrash(folder.files))
  {
    var files := CollectFiles(folder);
    StableSort.SortInPlace(files, CreatedOf);
    ghost var sorted := files[..];
    assert sorted == Newest(folder.files);
    StableSort.SortMembers(folder.files, CreatedOf);
    assert forall k :: 0 <= k < files.Length ==> files[k] in sorted;
    deletedCount := TrashFromKeep(files);
  }

  /** What `/meta` answered, once parsed: the source file name and the formatted date. */
  datatype Meta = Meta(filename: string, datumString: string)

  /** Fetching and parsing the metadata either gives it or throws. */
  datatype MetaFetch = MetaOk(meta: Meta) | MetaFailed(message: string)

  /** Fetching `/run` either answers with a status code or throws. */
  datatype RunFetch = Responded(code: int) | FetchFailed(message: string)

  /** Sending a mail either goes through or throws. */
  datatype MailSend = Delivered | SendFailed(message: string)

  /** What the services outside the script do during one run. */
  datatype BackupEnv = BackupEnv(
    meta: MetaFetch,
    run: RunFetch,
    blobName: string,   // the name Drive gives the blob before `setName`
    createdAt: int,     // Drive's creation time of the stored file
    successMail: MailSend)

  /** The two mails: the success report carries the date, the stored name and the count. */
  datatype Mail = SuccessMail(datum: string, filename: string, deleted: nat) | FailureMail(message: string)

  /** The observable steps of a run, in order. */
  datatype Step = FetchMeta | FetchRun | StoreFile(name: string) | Cleanup(deleted: nat) | SendMail(mail: Mail)

  /** The download answered with HTTP 200, the only case in which anything is stored. */
  predicate Downloaded(env: BackupEnv)
  {
    env.meta.MetaOk? && env.run.Responded? && env.run.code == 200
  }

  /** `folder.createFile(blob)` followed by `file.setName(filename)`. */
  method AddFile(folder: DriveFolder, blobName: string, created: int, filename: string) returns (file: DriveFile)
    modifies folder
    ensures fresh(file) && folder.files == old(folder.files) + [file]
    ensures file.name == filename && file.created == created && !file.trashed
    ensures forall g :: g in old(folder.files) ==> g.trashed == old(g.trashed) && g.name == old(g.name)
  {
    file := folder.CreateFile(blobName, created);
    file.SetName(filename);
  }

  /** The part of `getMonsterBackup` after a 200 answer: store, clean up, report. */
  method StoreBackup(folder: DriveFolder, env: BackupEnv, filename: string, datum: string)
    returns (steps: seq<Step>)
    modifies folder, folder.files
    ensures
      var n := |old(folder.files)|;
      var deleted := if n + 1 > Keep then n + 1 - Keep else 0;
      |folder.files| == n + 1 && folder.files[..n] == old(folder.files) &&
      fresh(folder.files[n]) && folder.files[n].name == filename && folder.files[n].created == env.createdAt &&
      folder.files[n].trashed == (folder.files[n] in ToTrash(folder.files)) &&
      (forall g :: g in old(folder.files) ==>
        g.name == old(g.name) && g.trashed == (old(g.trashed) || g in ToTrash(folder.files))) &&
      steps == [StoreFile(filename), Cleanup(deleted), SendMail(SuccessMail(datum, filename, deleted))]
        + (if env.successMail.SendFailed? then [SendMail(FailureMail(env.successMail.message))] else [])
    ensures StableSort.Distinct(old(folder.files)) &&
              (forall g :: g in old(folder.files) ==> g.created < env.createdAt)
            ==> !folder.files[|old(folder.files)|].trashed
  {
    ghost var before := folder.files;
    var file := AddFile(folder, env.blobName, env.createdAt, filename);
    steps := [StoreFile(filename)];
    var deletedCount := CleanupOldBackups(folder);
    steps := steps + [Cleanup(deletedCount), SendMail(SuccessMail(datum, filename, deletedCount))];
    if env.successMail.SendFailed? {
      steps := steps + [SendMail(FailureMail(env.successMail.message))];
    }
    if StableSort.Distinct(before) && forall g :: g in before ==> g.created < env.createdAt {
      NewestFileIsKept(folder.files, file);
    }
  }

  /** `getMonsterBackup()`, after the wake-up ping. */
  method GetMonsterBackup(folder: DriveFolder, env: BackupEnv) returns (steps: seq<Step>)
    modifies folder, folder.files
    ensures env.meta.MetaFailed? ==> steps == [FetchMeta, SendMail(FailureMail(env.meta.message))]
    ensures env.meta.MetaOk? && env.run.FetchFailed? ==>
      steps == [FetchMeta, FetchRun, SendMail(FailureMail(env.run.message))]
    ensures env.meta.MetaOk? && env.run.Responded? && env.run.code != 200 ==>
      steps == [FetchMeta, FetchRun, SendMail(FailureMail(DownloadFailed))]
    ensures !Downloaded(env) ==> folder.files == old(folder.files)
    ensures !Downloaded(env) ==> forall f :: f in folder.files ==>
      f.trashed == old(f.trashed) && f.name == old(f.name)
    ensures Downloaded(env) ==>
      var n, datum := |old(folder.files)|, env.meta.meta.datumString;
      var name := TargetName(env.meta.meta.filename, datum);
      var deleted := if n + 1 > Keep then n + 1 - Keep else 0;
      |folder.files| == n + 1 && folder.files[..n] == old(folder.files) &&
      fresh(folder.files[n]) && folder.files[n].name == name && folder.files[n].created == env.createdAt &&
      folder.files[n].trashed == (folder.files[n] in ToTrash(folder.files)) &&
      (forall g :: g in old(folder.files) ==>
        g.name == old(g.name) && g.trashed == (old(g.trashed) || g in ToTrash(folder.files))) &&
      steps == [FetchMeta, FetchRun, StoreFile(name), Cleanup(deleted), SendMail(SuccessMail(datum, name, deleted))]
        + (if env.successMail.SendFailed? then [SendMail(FailureMail(env.successMail.message))] else [])
    ensures Downloaded(env) && StableSort.Distinct(old(folder.files)) &&
              (forall g :: g in old(folder.files) ==> g.created < env.createdAt)
            ==> !folder.files[|old(folder.files)|].trashed
  {
    steps := [FetchMeta];
    if env.meta.MetaFailed? {
      steps := steps + [SendMail(FailureMail(env.meta.message))];
      return;
    }
    var meta := env.meta.meta;
    var filename := TargetName(meta.filename, meta.datumString);
    steps := steps + [FetchRun];
    if env.run.FetchFailed? {
      steps := steps + [SendMail(FailureMail(env.run.message))];
      return;
    }
    if env.run.code != 200 {
      steps := steps + [SendMail(FailureMail(DownloadFailed))];
      return;
    }
    var stored := StoreBackup(folder, env, filename, meta.datumString);
    steps := steps + stored;
  }
}

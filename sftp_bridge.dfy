/**
 * The `/run` handler of the SFTP bridge (index.js): it lists the SFTP root, picks the most
 * recently modified `.zpaq` file, downloads it to `/tmp/backups` and answers with JSON.
 */
module SftpBridge {
  import opened JsString
  import StableSort

  /** One entry of `sftp.list(remoteDir)`; `modifyTime` in milliseconds. */
  datatype RemoteFile = RemoteFile(name: string, modifyTime: int)

  const RemoteDir := "/"
  const LocalDir := "/tmp/backups"
  const Ext := ".zpaq"
  const NoBackupsMessage := "Geen .zpaq-bestanden gevonden"

  /** A step the handler performs against the file system or the SFTP server. */
  datatype Call = MakeDir(path: string) | Connect | List(dir: string) | FastGet(remote: string, local: string) | End

  /** Whether a call completed or threw, with the error's message. */
  datatype Outcome = Done | Threw(message: string)

  /** What `sftp.list` resolved to. */
  datatype Listing = Listed(entries: seq<RemoteFile>) | ListFailed(message: string)

  /** What the file system and the SFTP server do during one request. */
  datatype SftpEnv = SftpEnv(mkdir: Outcome, connect: Outcome, listing: Listing, fastGet: Outcome, end: Outcome)

  /** The JSON body `res.json` sends. */
  datatype Body = OkBody(status: string, file: string, message: string) | ErrorBody(status: string, error: string)

  datatype Response = Response(httpStatus: int, body: Body)

  /** The `catch` branch: HTTP 500 with the error's message. */
  function ErrorResponse(message: string): Response
  {
    Response(500, ErrorBody("Error", message))
  }

  /** The success answer for the downloaded file `name`. */
  function OkResponse(name: string): Response
  {
    Response(200, OkBody("OK", name, "Bestand " + name + " succesvol opgehaald."))
  }

  /** `.filter(f => f.name.endsWith(".zpaq"))`. */
  function Candidates(listing: seq<RemoteFile>): (r: seq<RemoteFile>)
    ensures |r| <= |listing|
    ensures forall f :: f in r <==> f in listing && EndsWith(f.name, Ext)
  {
    if listing == [] then []
    else
      var rest := Candidates(listing[..|listing| - 1]);
      var last := listing[|listing| - 1];
      assert listing == listing[..|listing| - 1] + [last];
      if EndsWith(last.name, Ext) then rest + [last] else rest
  }

  /** The filter keeps listing order: it distributes over concatenation. */
  lemma {:induction false} CandidatesAppend(a: seq<RemoteFile>, b: seq<RemoteFile>)
    ensures Candidates(a + b) == Candidates(a) + Candidates(b)
    decreases |b|
  {
    if b == [] {
      assert a + b == a;
    } else {
      var b0, last := b[..|b| - 1], b[|b| - 1];
      var ab := a + b;
      assert ab[..|ab| - 1] == a + b0 && ab[|ab| - 1] == last;
      var tail := if EndsWith(last.name, Ext) then [last] else [];
      assert Candidates(ab) == Candidates(a + b0) + tail;
      assert Candidates(b) == Candidates(b0) + tail;
      CandidatesAppend(a, b0);
      assert Candidates(a) + Candidates(b) == Candidates(a) + Candidates(b0) + tail;
    }
  }

  /** The sort key of the comparator `(a, b) => b.modifyTime - a.modifyTime`. */
  function ModifyTimeOf(f: RemoteFile): int
  {
    f.modifyTime
  }

  /** `${remoteDir}/${name}` with `remoteDir = "/"`: the directory, a separator, then the name. */
  function RemotePath(name: string): (r: string)
    ensures |r| == |RemoteDir| + 1 + |name| && r[..|RemoteDir| + 1] == RemoteDir + "/"
    ensures r[|RemoteDir| + 1..] == name
  {
    RemoteDir + "/" + name
  }

  /**
   * `path.join(localDir, name)` for an SFTP directory entry name: a single path segment
   * other than `.` and `..`, which `path.join` appends after one separator.
   */
  function LocalPath(name: string): (r: string)
    ensures |r| == |LocalDir| + 1 + |name| && r[..|LocalDir| + 1] == LocalDir + "/"
    ensures r[|LocalDir| + 1..] == name
  {
    LocalDir + "/" + name
  }

  /** Distinct entry names give distinct remote and local paths: the download fetches exactly the selected entry. */
  lemma PathsDetermineName(a: string, b: string)
    ensures RemotePath(a) == RemotePath(b) ==> a == b
    ensures LocalPath(a) == LocalPath(b) ==> a == b
  {
  }

  /** The file the handler picks: the first candidate, in listing order, with the latest time. */
  function Latest(listing: seq<RemoteFile>): (f: RemoteFile)
    requires Candidates(listing) != []
    ensures f in listing && EndsWith(f.name, Ext)
    ensures forall g :: g in listing && EndsWith(g.name, Ext) ==> g.modifyTime <= f.modifyTime
  {
    var c := Candidates(listing);
    c[StableSort.FirstMax(c, ModifyTimeOf)]
  }

  /**
   * Ties go to the earliest candidate: a candidate at index `i` with the latest time has
   * the picked file at or before it, and every candidate before the picked one is older.
   */
  lemma LatestIsFirstOfTies(listing: seq<RemoteFile>, i: nat)
    requires i < |Candidates(listing)| && Candidates(listing)[i].modifyTime == Latest(listing).modifyTime
    ensures Latest(listing) in Candidates(listing)[..i + 1]
  {
    var c := Candidates(listing);
    var k := StableSort.FirstMax(c, ModifyTimeOf);
    assert k <= i;
    assert c[..i + 1][k] == c[k];
  }

  /**
   * `files.sort((a, b) => b.modifyTime - a.modifyTime)` on the candidates, then `files[0]`:
   * the latest modified candidate, the earliest listed among those with that time.
   */
  method SelectLatest(candidates: seq<RemoteFile>) returns (latest: RemoteFile)
    requires candidates != []
    ensures latest == candidates[StableSort.FirstMax(candidates, ModifyTimeOf)]
  {
    var files := new RemoteFile[|candidates|](i requires 0 <= i < |candidates| => candidates[i]);
    assert files[..] == candidates;
    StableSort.SortInPlace(files, ModifyTimeOf);
    latest := files[0];
    StableSort.SortHead(candidates, ModifyTimeOf);
  }

  /** The `/run` handler. */
  method Run(env: SftpEnv) returns (resp: Response, calls: seq<Call>)
    ensures resp.httpStatus == 200 <==>
      env.mkdir.Done? && env.connect.Done? && env.listing.Listed? &&
      Candidates(env.listing.entries) != [] && env.fastGet.Done? && env.end.Done?
    ensures resp.httpStatus == 200 ==> resp == OkResponse(Latest(env.listing.entries).name)
    ensures resp.httpStatus != 200 ==> resp.httpStatus == 500 && resp.body.ErrorBody? && resp.body.status == "Error"
    ensures env.mkdir.Threw? ==> resp == ErrorResponse(env.mkdir.message) && calls == [MakeDir(LocalDir)]
    ensures env.mkdir.Done? && env.connect.Threw? ==>
      resp == ErrorResponse(env.connect.message) && calls == [MakeDir(LocalDir), Connect]
    ensures env.mkdir.Done? && env.connect.Done? && env.listing.ListFailed? ==>
      resp == ErrorResponse(env.listing.message) && calls == [MakeDir(LocalDir), Connect, List(RemoteDir)]
    ensures env.mkdir.Done? && env.connect.Done? && env.listing.Listed? && Candidates(env.listing.entries) == [] ==>
      resp == ErrorResponse(NoBackupsMessage) && calls == [MakeDir(LocalDir), Connect, List(RemoteDir)]
    ensures env.mkdir.Done? && env.connect.Done? && env.listing.Listed? && Candidates(env.listing.entries) != [] ==>
      var name := Latest(env.listing.entries).name;
      |calls| >= 4 && calls[..4] == [MakeDir(LocalDir), Connect, List(RemoteDir), FastGet(RemotePath(name), LocalPath(name))] &&
      (env.fastGet.Threw? ==> resp == ErrorResponse(env.fastGet.message) && |calls| == 4) &&
      (env.fastGet.Done? ==> calls == calls[..4] + [End]) &&
      (env.fastGet.Done? && env.end.Threw? ==> resp == ErrorResponse(env.end.message))
    ensures End in calls <==>
      env.mkdir.Done? && env.connect.Done? && env.listing.Listed? &&
      Candidates(env.listing.entries) != [] && env.fastGet.Done?
  {
    calls := [MakeDir(LocalDir)];
    if env.mkdir.Threw? {
      return ErrorResponse(env.mkdir.message), calls;
    }
    calls := calls + [Connect];
    if env.connect.Threw? {
      return ErrorResponse(env.connect.message), calls;
    }
    calls := calls + [List(RemoteDir)];
    if env.listing.ListFailed? {
      return ErrorResponse(env.listing.message), calls;
    }
    var candidates := Candidates(env.listing.entries);
    if |candidates| == 0 {
      return ErrorResponse(NoBackupsMessage), calls;
    }
    var latest := SelectLatest(candidates);
    var localPath := LocalPath(latest.name);
    calls := calls + [FastGet(RemotePath(latest.name), localPath)];
    if env.fastGet.Threw? {
      return ErrorResponse(env.fastGet.message), calls;
    }
    calls := calls + [End];
    if env.end.Threw? {
      return ErrorResponse(env.end.message), calls;
    }
    resp := OkResponse(latest.name);
  }
}

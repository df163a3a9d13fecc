/**
  `createProject` and `generateDocumentation` of the project controller.

  Everything outside the process is an oracle passed in: whether `mkdir`,
  the ZIP extraction or the `git clone` succeed, whether the database accepts
  each request, whether the two Python phases exit with status 0, what
  `readdir` lists in `<repo>/.ai/docs`, and which of those entries and
  whether `<repo>/README.md` `readFile` can read (with their contents). The
  generation run, which the source starts without
  awaiting it, is modelled as a sequential call made right after the insert.
 */
module ProjectController {
  import opened Options
  import opened JsStrings
  import opened Database

  /**
    The uploaded archive as multer describes it: the client's file name and
    `path`, the temporary file that `AdmZip` opens. Whether that extraction
    succeeds is the `fetchOk` oracle of `Acquisition`.
   */
  datatype Upload = Upload(originalName: string, tempPath: string)

  /** What `createProject` reads from the request: body fields, the uploaded file and the user id. */
  datatype CreateRequest = CreateRequest(
    userId: string,
    repoLink: Option<string>,
    repoType: Option<string>,
    zipFile: Option<Upload>)

  datatype Source = FromZip(upload: Upload) | FromLink(link: string)

  /** 200 with the new project's id, 400 or 500. */
  datatype Response = Created(projectId: nat) | BadRequest | ServerError

  /** Outcomes of `mkdir` and of the extraction (ZIP) or clone (link) that follows it. */
  datatype Acquisition = Acquisition(mkdirOk: bool, fetchOk: bool)

  /** What `createProject` does before the database insert: the row to insert, or the response it ends with. */
  datatype Admission = Admitted(row: Project) | Refused(response: Response)

  /**
    The oracles of one generation run. `docs` maps each entry of the docs
    directory that `readFile` can read to its contents, and `readme` is the
    contents of `README.md` when it can be read; `rejected` holds the
    positions, among the run's database requests, of those the database
    reports an error for.
   */
  datatype RunEnv = RunEnv(
    analyzeOk: bool,
    generateOk: bool,
    docsListing: Option<seq<string>>,
    docs: map<string, string>,
    readme: Option<string>,
    rejected: set<nat>)

  /** JavaScript truthiness of an optional string field. */
  predicate Truthy(v: Option<string>)
  {
    v.Some? && v.value != ""
  }

  /** `if (zipFile) … else if (repoLink) … else` */
  function SelectSource(req: CreateRequest): (src: Option<Source>)
    ensures src.None? <==> req.zipFile.None? && !Truthy(req.repoLink)
    ensures req.zipFile.Some? ==> src == Some(FromZip(req.zipFile.value))
    ensures req.zipFile.None? && src.Some? ==> src.value == FromLink(req.repoLink.value)
  {
    if req.zipFile.Some? then Some(FromZip(req.zipFile.value))
    else if Truthy(req.repoLink) then Some(FromLink(req.repoLink.value))
    else None
  }

  /** `repoLink.split('/').pop().replace('.git', '')` */
  function RepoNameFromLink(link: string): (name: string)
    ensures '/' !in name
    ensures name == LastSegment(link) || |name| + 4 == |LastSegment(link)|
  {
    RemoveFirst(LastSegment(link), ".git")
  }

  /** `zipFile.originalname.replace('.zip', '')` */
  function RepoNameFromZip(originalName: string): (name: string)
    ensures name == originalName || |name| + 4 == |originalName|
  {
    RemoveFirst(originalName, ".zip")
  }

  /** `file.replace('.md', '')` */
  function DocFileName(file: string): (name: string)
    ensures name == file || |name| + 3 == |file|
  {
    RemoveFirst(file, ".md")
  }

  function RepoName(src: Source): string
  {
    match src
    case FromZip(u) => RepoNameFromZip(u.originalName)
    case FromLink(l) => RepoNameFromLink(l)
  }

  function RepoSource(src: Source): string
  {
    match src
    case FromZip(u) => u.originalName
    case FromLink(l) => l
  }

  /** `repoType || 'github'` */
  function RepoTypeOf(req: CreateRequest): (t: string)
    ensures t != ""
    ensures t == (if Truthy(req.repoType) then req.repoType.value else "github")
  {
    if Truthy(req.repoType) then req.repoType.value else "github"
  }

  /** `path.join(REPOS_STORAGE_PATH, `${userId}_${uuid}`)` */
  function ProjectDir(root: string, userId: string, uuid: string): (dir: string)
    ensures |dir| == |root| + |userId| + |uuid| + 2
    ensures dir[..|root| + 1] == root + "/" && dir[|root| + 1..] == userId + "_" + uuid
  {
    Join(root, userId + "_" + uuid)
  }

  /**
    Source selection, naming and acquisition. An undefined storage root makes
    `path.join` throw, which the handler turns into a 500.
   */
  function Admit(req: CreateRequest, storageRoot: Option<string>, uuid: string, acq: Acquisition): (r: Admission)
    ensures r == Refused(BadRequest) <==> req.zipFile.None? && !Truthy(req.repoLink)
    ensures r == Refused(ServerError)
        <==> (req.zipFile.Some? || Truthy(req.repoLink)) && (storageRoot.None? || !acq.mkdirOk || !acq.fetchOk)
    ensures r.Admitted?
        <==> (req.zipFile.Some? || Truthy(req.repoLink)) && storageRoot.Some? && acq.mkdirOk && acq.fetchOk
    ensures r.Admitted? ==>
      && r.row.status == Pending && r.row.completedAt == None
      && r.row.userId == req.userId
      && r.row.repoType == (if Truthy(req.repoType) then req.repoType.value else "github")
      && storageRoot.Some? && r.row.localPath == ProjectDir(storageRoot.value, req.userId, uuid)
    ensures r.Admitted? && req.zipFile.Some? ==>
      r.row.name == RepoNameFromZip(req.zipFile.value.originalName) && r.row.repoSource == req.zipFile.value.originalName
    ensures r.Admitted? && req.zipFile.None? ==>
      r.row.name == RepoNameFromLink(req.repoLink.value) && r.row.repoSource == req.repoLink.value
  {
    match SelectSource(req)
    case None => Refused(BadRequest)
    case Some(src) =>
      if storageRoot.None? || !acq.mkdirOk || !acq.fetchOk then Refused(ServerError)
      else Admitted(Project(req.userId, RepoName(src), RepoSource(src), RepoTypeOf(req),
                            ProjectDir(storageRoot.value, req.userId, uuid), Pending, None))
  }

  /** `path.join(repoPath, '.ai', 'docs')` */
  function DocsDir(repoPath: string): string
  {
    Join(Join(repoPath, ".ai"), "docs")
  }

  /** `path.join(repoPath, 'README.md')` */
  function ReadmePath(repoPath: string): string
  {
    Join(repoPath, "README.md")
  }

  function AnalysisRow(id: nat, docsDir: string, file: string, content: string): DocRow
  {
    DocRow(id, DocFileName(file), Join(docsDir, file), Analysis, content)
  }

  function ReadmeRow(id: nat, repoPath: string, content: string): DocRow
  {
    DocRow(id, "README", ReadmePath(repoPath), Readme, content)
  }

  /**
    The rows the documentation loop inserts: one per listed file, in listing
    order, up to the first file `readFile` cannot read.
   */
  function AnalysisRows(id: nat, docsDir: string, files: seq<string>, docs: map<string, string>): (rows: seq<DocRow>)
    ensures |rows| <= |files|
    ensures forall k :: 0 <= k < |rows| ==>
      files[k] in docs && rows[k] == AnalysisRow(id, docsDir, files[k], docs[files[k]])
    ensures |rows| < |files| ==> files[|rows|] !in docs
  {
    if files == [] then []
    else if files[0] !in docs then []
    else [AnalysisRow(id, docsDir, files[0], docs[files[0]])] + AnalysisRows(id, docsDir, files[1..], docs)
  }

  function Inserts(rows: seq<DocRow>): seq<Request>
  {
    seq(|rows|, k requires 0 <= k < |rows| => InsertDoc(rows[k]))
  }

  function Fail(id: nat): Request
  {
    UpdateStatus(id, Failed, None)
  }

  /**
    The requests of the part of a run after both phases succeeded and
    `readdir` listed `files`: one insert per readable file, stopping at the
    first unreadable one, then the README row and `completed`, or `failed`
    when a `readFile` throws.
   */
  function StoreRequests(id: nat, repoPath: string, files: seq<string>, docs: map<string, string>,
                         readme: Option<string>, now: int): (r: seq<Request>)
    ensures r != []
    ensures r[|r| - 1]
         == if AllReadable(files, docs) && readme.Some? then UpdateStatus(id, Completed, Some(now)) else Fail(id)
  {
    var rows := AnalysisRows(id, DocsDir(repoPath), files, docs);
    Inserts(rows) +
    if |rows| < |files| || readme.None? then [Fail(id)]
    else [InsertDoc(ReadmeRow(id, repoPath, readme.value)), UpdateStatus(id, Completed, Some(now))]
  }

  /**
    The database requests of one generation run, in order. A thrown error
    (a failed phase, a failed `readdir` or `readFile`) jumps to the catch
    block, which writes `failed`; database errors are not inspected, so the
    run's requests do not depend on `env.rejected`.
   */
  function RunRequests(id: nat, repoPath: string, env: RunEnv, now: int): (r: seq<Request>)
    ensures |r| >= 2 && r[0] == UpdateStatus(id, Analyzing, None)
    ensures r[1] == UpdateStatus(id, if env.analyzeOk then Generating else Failed, None)
    ensures !env.analyzeOk ==> |r| == 2
  {
    [UpdateStatus(id, Analyzing, None)] +
    if !env.analyzeOk then [Fail(id)] else GenerateRequests(id, repoPath, env, now)
  }

  /** The requests of a run after its analysis phase succeeded: `generating`, then the generate phase and `readdir`. */
  function GenerateRequests(id: nat, repoPath: string, env: RunEnv, now: int): (r: seq<Request>)
    ensures |r| >= 2 && r[0] == UpdateStatus(id, Generating, None)
    ensures !env.generateOk || env.docsListing.None? ==> |r| == 2 && r[1] == Fail(id)
  {
    [UpdateStatus(id, Generating, None)] +
    if !env.generateOk || env.docsListing.None? then [Fail(id)]
    else StoreRequests(id, repoPath, env.docsListing.value, env.docs, env.readme, now)
  }

  /** Every file `readdir` listed can be read. */
  predicate AllReadable(files: seq<string>, docs: map<string, string>)
  {
    forall k :: 0 <= k < |files| ==> files[k] in docs
  }

  /** Independent statement of when a run reaches `completed`: every step it takes succeeds. */
  predicate RunSucceeds(env: RunEnv)
  {
    && env.analyzeOk && env.generateOk && env.docsListing.Some?
    && AllReadable(env.docsListing.value, env.docs)
    && env.readme.Some?
  }

  /** The row for every listed file, in listing order. */
  function ListedRows(id: nat, docsDir: string, files: seq<string>, docs: map<string, string>): seq<DocRow>
    requires AllReadable(files, docs)
  {
    seq(|files|, k requires 0 <= k < |files| => AnalysisRow(id, docsDir, files[k], docs[files[k]]))
  }

  /** The transitions of the project status machine. */
  predicate Step(from: Status, to: Status)
  {
    || (from == Pending && to == Analyzing)
    || (from == Analyzing && (to == Generating || to == Failed))
    || (from == Generating && (to == Completed || to == Failed))
  }

  /**
    The store has received `j0` and then the run's requests `sent`, the next
    request is number `pos` of the run, and the tables are `t0` after the
    accepted ones among `sent`.
   */
  ghost predicate Tracks(db: Store, t0: Tables, j0: seq<Request>, sent: seq<Request>, rejected: set<nat>, pos: nat)
    reads db
  {
    db.journal == j0 + sent && pos == |sent| && db.Snapshot() == Replay(t0, sent, rejected)
  }

  /**
    Sends request number `pos` of a run; `sent` are the run's earlier
    requests. The database accepts it unless `rejected` names `pos`.
   */
  method Issue(db: Store, r: Request, rejected: set<nat>, pos: nat,
               ghost t0: Tables, ghost j0: seq<Request>, ghost sent: seq<Request>)
    returns (next: nat, ghost sent': seq<Request>)
    requires Tracks(db, t0, j0, sent, rejected, pos)
    modifies db
    ensures sent' == sent + [r]
    ensures Tracks(db, t0, j0, sent', rejected, next)
  {
    db.Send(r, pos !in rejected);
    ReplaySnoc(t0, sent, r, rejected);
    next, sent' := pos + 1, sent + [r];
  }

  /**
    `generateDocumentation(projectId, repoPath)`: status `analyzing`, the
    analysis phase, status `generating`, the generate phase, then the
    documentation rows and `completed` (see StoreDocumentation); any thrown
    error writes `failed` instead.
   */
  method GenerateDocumentation(db: Store, id: nat, repoPath: string, env: RunEnv, now: int)
    modifies db
    ensures db.journal == old(db.journal) + RunRequests(id, repoPath, env, now)
    ensures db.Snapshot() == Replay(old(db.Snapshot()), RunRequests(id, repoPath, env, now), env.rejected)
  {
    ghost var t0, j0, sent := db.Snapshot(), db.journal, [];
    var pos := 0;
    pos, sent := Issue(db, UpdateStatus(id, Analyzing, None), env.rejected, pos, t0, j0, sent);
    if !env.analyzeOk {
      pos, sent := Issue(db, Fail(id), env.rejected, pos, t0, j0, sent);
    } else {
      pos, sent := GeneratePhase(db, id, repoPath, env, now, pos, t0, j0, sent);
    }
  }

  /**
    The part of the `try` block after the analysis phase: status
    `generating`, the generate phase, `readdir` of the docs directory, then
    StoreDocumentation; a failed phase or `readdir` writes `failed`.
   */
  method GeneratePhase(db: Store, id: nat, repoPath: string, env: RunEnv, now: int, pos: nat,
                       ghost t0: Tables, ghost j0: seq<Request>, ghost sent: seq<Request>)
    returns (pos': nat, ghost sent': seq<Request>)
    requires Tracks(db, t0, j0, sent, env.rejected, pos)
    modifies db
    ensures sent' == sent + GenerateRequests(id, repoPath, env, now)
    ensures Tracks(db, t0, j0, sent', env.rejected, pos')
  {
    var generating := UpdateStatus(id, Generating, None);
    pos', sent' := Issue(db, generating, env.rejected, pos, t0, j0, sent);
    ghost var tail;
    if !env.generateOk || env.docsListing.None? {
      tail := [Fail(id)];
      pos', sent' := Issue(db, Fail(id), env.rejected, pos', t0, j0, sent');
    } else {
      tail := StoreRequests(id, repoPath, env.docsListing.value, env.docs, env.readme, now);
      pos', sent' := StoreDocumentation(db, id, repoPath, env.docsListing.value, env.docs, env.readme, env.rejected, now,
                                        pos', t0, j0, sent');
    }
    AppendAssoc(sent, [generating], tail);
  }

  /**
    The tail of the `try` block of `generateDocumentation`: the analysis
    rows (InsertAnalysisRows), then the `README` row, then `completed` with
    `now`; a `readFile` that throws ends it with `failed`.
   */
  method StoreDocumentation(db: Store, id: nat, repoPath: string, files: seq<string>, docs: map<string, string>,
                            readme: Option<string>, rejected: set<nat>, now: int, pos: nat,
                            ghost t0: Tables, ghost j0: seq<Request>, ghost sent: seq<Request>)
    returns (pos': nat, ghost sent': seq<Request>)
    requires Tracks(db, t0, j0, sent, rejected, pos)
    modifies db
    ensures sent' == sent + StoreRequests(id, repoPath, files, docs, readme, now)
    ensures Tracks(db, t0, j0, sent', rejected, pos')
  {
    var readOk;
    ghost var rows;
    readOk, rows, pos', sent' := InsertAnalysisRows(db, id, DocsDir(repoPath), files, docs, rejected, pos, t0, j0, sent);
    if !readOk || readme.None? {
      pos', sent' := Issue(db, Fail(id), rejected, pos', t0, j0, sent');
      AppendAssoc(sent, Inserts(rows), [Fail(id)]);
      return;
    }
    var readmeInsert, completed := InsertDoc(ReadmeRow(id, repoPath, readme.value)), UpdateStatus(id, Completed, Some(now));
    pos', sent' := Issue(db, readmeInsert, rejected, pos', t0, j0, sent');
    pos', sent' := Issue(db, completed, rejected, pos', t0, j0, sent');
    AppendAssoc(sent + Inserts(rows), [readmeInsert], [completed]);
    AppendAssoc(sent, Inserts(rows), [readmeInsert, completed]);
  }

  /**
    The `for (const file of files)` loop: read each listed file of `docsDir`
    and insert its `analysis` row, ignoring the insert's result; `readOk` is
    false when a `readFile` throws, which ends the loop.
   */
  method InsertAnalysisRows(db: Store, id: nat, docsDir: string, files: seq<string>, docs: map<string, string>,
                            rejected: set<nat>, pos: nat,
                            ghost t0: Tables, ghost j0: seq<Request>, ghost sent: seq<Request>)
    returns (readOk: bool, ghost rows: seq<DocRow>, pos': nat, ghost sent': seq<Request>)
    requires Tracks(db, t0, j0, sent, rejected, pos)
    modifies db
    ensures rows == AnalysisRows(id, docsDir, files, docs)
    ensures readOk <==> AllReadable(files, docs)
    ensures sent' == sent + Inserts(rows)
    ensures Tracks(db, t0, j0, sent', rejected, pos')
  {
    rows, pos', sent' := [], pos, sent;
    var i := 0;
    while i < |files|
      invariant 0 <= i <= |files| && |rows| == i
      invariant AllReadable(files[..i], docs) && rows == ListedRows(id, docsDir, files[..i], docs)
      invariant sent' == sent + Inserts(rows)
      invariant Tracks(db, t0, j0, sent', rejected, pos')
    {
      if files[i] !in docs {
        AnalysisRowsReadablePrefix(id, docsDir, files, docs, i);
        return false, rows, pos', sent';
      }
      var row := AnalysisRow(id, docsDir, files[i], docs[files[i]]);
      pos', sent' := Issue(db, InsertDoc(row), rejected, pos', t0, j0, sent');
      InsertsSnoc(rows, row);
      ListedRowsSnoc(id, docsDir, files, docs, i);
      rows := rows + [row];
      i := i + 1;
    }
    assert files[..i] == files;
    AnalysisRowsReadablePrefix(id, docsDir, files, docs, i);
    readOk := true;
  }

  /**
    `createProject`: select the source, derive the name and the local path,
    create and fill the directory, insert the `pending` row, start the
    generation run and answer 200; a missing source answers 400 and any
    thrown error 500, and neither inserts a row nor starts a run.
   */
  method CreateProject(db: Store, req: CreateRequest, storageRoot: Option<string>, uuid: string,
                       acq: Acquisition, insertAccepted: bool, run: RunEnv, now: int)
    returns (resp: Response)
    modifies db
    ensures Admit(req, storageRoot, uuid, acq).Refused? ==>
      resp == Admit(req, storageRoot, uuid, acq).response
      && db.journal == old(db.journal) && db.Snapshot() == old(db.Snapshot())
    ensures Admit(req, storageRoot, uuid, acq).Admitted? && !insertAccepted ==>
      resp == ServerError
      && db.journal == old(db.journal) + [Request.InsertProject(Admit(req, storageRoot, uuid, acq).row)]
      && db.Snapshot() == old(db.Snapshot())
    ensures Admit(req, storageRoot, uuid, acq).Admitted? && insertAccepted ==>
      var row := Admit(req, storageRoot, uuid, acq).row;
      var reqs := RunRequests(|old(db.projects)|, row.localPath, run, now);
      && resp == Created(|old(db.projects)|)
      && db.journal == old(db.journal) + [Request.InsertProject(row)] + reqs
      && db.Snapshot() == Replay(Apply(old(db.Snapshot()), Request.InsertProject(row)), reqs, run.rejected)
  {
    var name, source;
    if req.zipFile.Some? {
      name := RepoNameFromZip(req.zipFile.value.originalName);
      source := req.zipFile.value.originalName;
    } else if Truthy(req.repoLink) {
      name := RepoNameFromLink(req.repoLink.value);
      source := req.repoLink.value;
    } else {
      return BadRequest;
    }
    if storageRoot.None? {
      return ServerError;
    }
    var localPath := ProjectDir(storageRoot.value, req.userId, uuid);
    if !acq.mkdirOk || !acq.fetchOk {
      return ServerError;
    }
    var row := Project(req.userId, name, source, RepoTypeOf(req), localPath, Pending, None);
    var id := db.InsertProject(row, insertAccepted);
    if id.None? {
      return ServerError;
    }
    GenerateDocumentation(db, id.value, localPath, run, now);
    resp := Created(id.value);
  }

  // Naming and paths

  /**
    Two creations get different directories when their uuids differ, for the
    same user, or for any users when the uuids have the same length (as
    version-4 uuids always do).
   */
  lemma ProjectDirsDistinct(root: string, user1: string, uuid1: string, user2: string, uuid2: string)
    requires uuid1 != uuid2
    requires user1 == user2 || |uuid1| == |uuid2|
    ensures ProjectDir(root, user1, uuid1) != ProjectDir(root, user2, uuid2)
  {
    var p1, p2 := ProjectDir(root, user1, uuid1), ProjectDir(root, user2, uuid2);
    assert p1[|p1| - |uuid1|..] == uuid1;
    assert p2[|p2| - |uuid2|..] == uuid2;
    if |uuid1| != |uuid2| {
      assert |p1| != |p2|;
    }
  }

  /** The project directory is an entry of the storage root named `<userId>_<uuid>`. */
  lemma ProjectDirIsEntryOfRoot(root: string, userId: string, uuid: string)
    requires '/' !in userId && '/' !in uuid
    ensures LastSegment(ProjectDir(root, userId, uuid)) == userId + "_" + uuid
    ensures ProjectDir(root, userId, uuid)[..|root| + 1] == root + "/"
  {
    assert '/' !in userId + "_" + uuid;
    LastSegmentAfterSlash(root, userId + "_" + uuid);
  }

  /**
    A link's name is its last segment with the first `.git` removed, wherever
    it stands; any later `.git` is kept.
   */
  lemma RepoNameFromLinkDropsFirstGit(prefix: string, u: string, t: string)
    requires '/' !in u + ".git" + t
    requires forall j :: 0 <= j < |u| ==> !OccursAt(u + ".git" + t, ".git", j)
    ensures RepoNameFromLink(prefix + "/" + u + ".git" + t) == u + t
  {
    assert prefix + "/" + u + ".git" + t == prefix + "/" + (u + ".git" + t);
    LastSegmentAfterSlash(prefix, u + ".git" + t);
    RemoveFirstRemovesOnlyFirst(u, ".git", t);
  }

  /** A link whose last segment has no `.git` is named by that segment. */
  lemma RepoNameFromLinkWithoutGit(prefix: string, seg: string)
    requires '/' !in seg
    requires forall j :: !OccursAt(seg, ".git", j)
    ensures RepoNameFromLink(prefix + "/" + seg) == seg
  {
    LastSegmentAfterSlash(prefix, seg);
  }

  /**
    For a GitHub Pages repository `<user>.github.io`, the first `.git` is the
    one inside `.github`: the name keeps the `.git` suffix and loses `.git`
    from `github` (`alice.github.io.git` is named `alicehub.io.git`).
   */
  lemma GithubPagesLinkName(prefix: string, user: string)
    requires '/' !in user && '.' !in user
    ensures RepoNameFromLink(prefix + "/" + user + ".github.io.git") == user + "hub.io.git"
  {
    var t := "hub.io.git";
    var s := user + ".git" + t;
    forall j | 0 <= j < |user| ensures !OccursAt(s, ".git", j) {
      assert s[j] == user[j];
      assert j + 4 <= |s| ==> s[j..j + 4][0] == s[j];
    }
    assert ".git" + t == ".github.io.git";
    assert prefix + "/" + user + ".github.io.git" == prefix + "/" + user + ".git" + t;
    RepoNameFromLinkDropsFirstGit(prefix, user, t);
  }

  /** An archive's name is its original name with the first `.zip` removed. */
  lemma RepoNameFromZipDropsFirstZip(u: string, t: string)
    requires forall j :: 0 <= j < |u| ==> !OccursAt(u + ".zip" + t, ".zip", j)
    ensures RepoNameFromZip(u + ".zip" + t) == u + t
  {
    RemoveFirstRemovesOnlyFirst(u, ".zip", t);
  }

  /** A documentation row's name is the file name with the first `.md` removed. */
  lemma DocFileNameDropsFirstMd(u: string, t: string)
    requires forall j :: 0 <= j < |u| ==> !OccursAt(u + ".md" + t, ".md", j)
    ensures DocFileName(u + ".md" + t) == u + t
  {
    RemoveFirstRemovesOnlyFirst(u, ".md", t);
  }

  /** With an archive uploaded, the link plays no part in the outcome. */
  lemma ZipWinsOverLink(req: CreateRequest, link: Option<string>, storageRoot: Option<string>, uuid: string, acq: Acquisition)
    requires req.zipFile.Some?
    ensures Admit(req.(repoLink := link), storageRoot, uuid, acq) == Admit(req, storageRoot, uuid, acq)
  {
  }

  // The generation run

  lemma {:induction false} InsertsWriteNoStatus(rows: seq<DocRow>)
    ensures Statuses(Inserts(rows)) == []
  {
    if rows != [] {
      assert Inserts(rows)[1..] == Inserts(rows[1..]);
      InsertsWriteNoStatus(rows[1..]);
    }
  }

  /** The loop reads every listed file exactly when all of them are readable. */
  lemma AnalysisRowsComplete(id: nat, docsDir: string, files: seq<string>, docs: map<string, string>)
    ensures |AnalysisRows(id, docsDir, files, docs)| == |files| <==> AllReadable(files, docs)
  {
  }

  /**
    When the first `i` listed files are readable and file `i` is not (or there
    is none), the loop inserts exactly the rows of those `i` files.
   */
  lemma AnalysisRowsReadablePrefix(id: nat, docsDir: string, files: seq<string>, docs: map<string, string>, i: nat)
    requires i <= |files| && AllReadable(files[..i], docs)
    requires i == |files| || files[i] !in docs
    ensures AnalysisRows(id, docsDir, files, docs) == ListedRows(id, docsDir, files[..i], docs)
  {
    var rows := AnalysisRows(id, docsDir, files, docs);
    assert forall k :: 0 <= k < i ==> files[k] == files[..i][k];
    assert |rows| == i;
  }

  lemma ListedRowsSnoc(id: nat, docsDir: string, files: seq<string>, docs: map<string, string>, i: nat)
    requires i < |files| && AllReadable(files[..i], docs) && files[i] in docs
    ensures AllReadable(files[..i + 1], docs)
    ensures ListedRows(id, docsDir, files[..i + 1], docs)
         == ListedRows(id, docsDir, files[..i], docs) + [AnalysisRow(id, docsDir, files[i], docs[files[i]])]
  {
    assert files[..i + 1] == files[..i] + [files[i]];
  }

  lemma AppendAssoc<T>(a: seq<T>, b: seq<T>, c: seq<T>)
    ensures a + b + c == a + (b + c)
  {
  }

  lemma InsertsSnoc(rows: seq<DocRow>, row: DocRow)
    ensures Inserts(rows + [row]) == Inserts(rows) + [InsertDoc(row)]
  {
  }

  /**
    The statuses a run writes: `analyzing`, then `failed` when the analysis
    phase fails; otherwise `generating`, then `completed` exactly when every
    step succeeded and `failed` otherwise.
   */
  lemma RunStatusTrace(id: nat, repoPath: string, env: RunEnv, now: int)
    ensures Statuses(RunRequests(id, repoPath, env, now))
         == if !env.analyzeOk then [Analyzing, Failed]
            else if RunSucceeds(env) then [Analyzing, Generating, Completed]
            else [Analyzing, Generating, Failed]
  {
    var analyzing, generating, failed := UpdateStatus(id, Analyzing, None), UpdateStatus(id, Generating, None), Fail(id);
    StatusesOfOne(analyzing);
    StatusesOfOne(generating);
    StatusesOfOne(failed);
    if !env.analyzeOk {
      StatusesAppend([analyzing], [failed]);
    } else {
      var tail := if !env.generateOk || env.docsListing.None? then [failed]
                  else StoreRequests(id, repoPath, env.docsListing.value, env.docs, env.readme, now);
      assert RunRequests(id, repoPath, env, now) == [analyzing] + ([generating] + tail);
      if env.generateOk && env.docsListing.Some? {
        StoreStatuses(id, repoPath, env.docsListing.value, env.docs, env.readme, now);
      }
      StatusesAppend([generating], tail);
      StatusesAppend([analyzing], [generating] + tail);
    }
  }

  /** The part of a run after `generating` writes one status: `completed` exactly when every file and the `README` were read. */
  lemma StoreStatuses(id: nat, repoPath: string, files: seq<string>, docs: map<string, string>,
                      readme: Option<string>, now: int)
    ensures Statuses(StoreRequests(id, repoPath, files, docs, readme, now))
         == [if AllReadable(files, docs) && readme.Some? then Completed else Failed]
  {
    var rows := AnalysisRows(id, DocsDir(repoPath), files, docs);
    AnalysisRowsComplete(id, DocsDir(repoPath), files, docs);
    InsertsWriteNoStatus(rows);
    if |rows| < |files| || readme.None? {
      StatusesOfOne(Fail(id));
      StatusesAppend(Inserts(rows), [Fail(id)]);
    } else {
      var readmeInsert, completed := InsertDoc(ReadmeRow(id, repoPath, readme.value)), UpdateStatus(id, Completed, Some(now));
      StatusesOfOne(readmeInsert);
      StatusesOfOne(completed);
      StatusesAppend([readmeInsert], [completed]);
      assert [readmeInsert, completed] == [readmeInsert] + [completed];
      StatusesAppend(Inserts(rows), [readmeInsert, completed]);
    }
  }

  /**
    Starting from `pending`, every status write of a run is a transition of
    the state machine, and the last one is terminal.
   */
  lemma RunFollowsStateMachine(id: nat, repoPath: string, env: RunEnv, now: int)
    ensures var st := [Pending] + Statuses(RunRequests(id, repoPath, env, now));
      && (forall k :: 0 <= k < |st| - 1 ==> Step(st[k], st[k + 1]))
      && st[|st| - 1].Terminal()
  {
    RunStatusTrace(id, repoPath, env, now);
  }

  /**
    A run ends with exactly one terminal status write: `completed` (with
    `now`) when every step succeeded, `failed` otherwise, and no request
    before it writes a terminal status.
   */
  lemma RunEndsWithOneTerminalWrite(id: nat, repoPath: string, env: RunEnv, now: int)
    ensures var reqs := RunRequests(id, repoPath, env, now);
      && reqs[|reqs| - 1] == (if RunSucceeds(env) then UpdateStatus(id, Completed, Some(now)) else Fail(id))
      && forall k :: 0 <= k < |reqs| - 1 ==> !(reqs[k].UpdateStatus? && reqs[k].status.Terminal())
  {
    var last := if RunSucceeds(env) then UpdateStatus(id, Completed, Some(now)) else Fail(id);
    var tail := if !env.generateOk || env.docsListing.None? then [Fail(id)]
                else StoreRequests(id, repoPath, env.docsListing.value, env.docs, env.readme, now);
    if env.generateOk && env.docsListing.Some? {
      StoreEndsWithOneTerminalWrite(id, repoPath, env.docsListing.value, env.docs, env.readme, now);
    }
    if env.analyzeOk {
      assert GenerateRequests(id, repoPath, env, now) == [UpdateStatus(id, Generating, None)] + tail;
      PrependNonTerminal(UpdateStatus(id, Generating, None), tail, last);
      PrependNonTerminal(UpdateStatus(id, Analyzing, None), GenerateRequests(id, repoPath, env, now), last);
    } else {
      PrependNonTerminal(UpdateStatus(id, Analyzing, None), [Fail(id)], last);
    }
  }

  /** `reqs` ends with `last` and writes no terminal status before it. */
  predicate EndsWithOnlyTerminalWrite(reqs: seq<Request>, last: Request)
  {
    && |reqs| > 0 && reqs[|reqs| - 1] == last
    && forall k :: 0 <= k < |reqs| - 1 ==> !(reqs[k].UpdateStatus? && reqs[k].status.Terminal())
  }

  lemma PrependNonTerminal(r: Request, reqs: seq<Request>, last: Request)
    requires !(r.UpdateStatus? && r.status.Terminal())
    requires EndsWithOnlyTerminalWrite(reqs, last)
    ensures EndsWithOnlyTerminalWrite([r] + reqs, last)
  {
    var all := [r] + reqs;
    assert forall k :: 1 <= k < |all| ==> all[k] == reqs[k - 1];
  }

  lemma StoreEndsWithOneTerminalWrite(id: nat, repoPath: string, files: seq<string>, docs: map<string, string>,
                                      readme: Option<string>, now: int)
    ensures EndsWithOnlyTerminalWrite(StoreRequests(id, repoPath, files, docs, readme, now),
              if AllReadable(files, docs) && readme.Some? then UpdateStatus(id, Completed, Some(now)) else Fail(id))
  {
    var rows := AnalysisRows(id, DocsDir(repoPath), files, docs);
    AnalysisRowsComplete(id, DocsDir(repoPath), files, docs);
    var tail := if |rows| < |files| || readme.None? then [Fail(id)]
                else [InsertDoc(ReadmeRow(id, repoPath, readme.value)), UpdateStatus(id, Completed, Some(now))];
    var all := Inserts(rows) + tail;
    assert StoreRequests(id, repoPath, files, docs, readme, now) == all;
    assert forall k :: 0 <= k < |rows| ==> all[k] == InsertDoc(rows[k]);
  }

  /** Every request of a run is a status update of its own project or a documentation insert. */
  lemma RunTouchesOnlyItsProject(id: nat, repoPath: string, env: RunEnv, now: int)
    ensures RunOf(RunRequests(id, repoPath, env, now), id)
  {
    var analyzing, generating := [UpdateStatus(id, Analyzing, None)], [UpdateStatus(id, Generating, None)];
    var rest := if !env.analyzeOk then [Fail(id)] else GenerateRequests(id, repoPath, env, now);
    if env.analyzeOk {
      var store := if !env.generateOk || env.docsListing.None? then [Fail(id)]
                   else StoreRequests(id, repoPath, env.docsListing.value, env.docs, env.readme, now);
      if env.generateOk && env.docsListing.Some? {
        var files := env.docsListing.value;
        var rows := AnalysisRows(id, DocsDir(repoPath), files, env.docs);
        var tail := if |rows| < |files| || env.readme.None? then [Fail(id)]
                    else [InsertDoc(ReadmeRow(id, repoPath, env.readme.value)), UpdateStatus(id, Completed, Some(now))];
        assert RunOf(Inserts(rows), id);
        RunOfAppend(Inserts(rows), tail, id);
      }
      RunOfAppend(generating, store, id);
    }
    RunOfAppend(analyzing, rest, id);
  }

  /**
    A run that completes inserts one `analysis` row per listed file, in
    listing order, then the `README` row, and only then writes `completed`.
   */
  lemma CompletedRunRequests(id: nat, repoPath: string, env: RunEnv, now: int)
    requires RunSucceeds(env)
    ensures RunRequests(id, repoPath, env, now)
         == [UpdateStatus(id, Analyzing, None), UpdateStatus(id, Generating, None)]
          + Inserts(ListedRows(id, DocsDir(repoPath), env.docsListing.value, env.docs))
          + [InsertDoc(ReadmeRow(id, repoPath, env.readme.value)), UpdateStatus(id, Completed, Some(now))]
  {
    var analyzing, generating := UpdateStatus(id, Analyzing, None), UpdateStatus(id, Generating, None);
    var inserts := Inserts(ListedRows(id, DocsDir(repoPath), env.docsListing.value, env.docs));
    var tail := [InsertDoc(ReadmeRow(id, repoPath, env.readme.value)), UpdateStatus(id, Completed, Some(now))];
    var store := StoreRequests(id, repoPath, env.docsListing.value, env.docs, env.readme, now);
    CompletedStoreRequests(id, repoPath, env.docsListing.value, env.docs, env.readme, now);
    assert GenerateRequests(id, repoPath, env, now) == [generating] + store;
    assert RunRequests(id, repoPath, env, now) == [analyzing] + ([generating] + (inserts + tail));
    AppendAssoc([generating], inserts, tail);
    AppendAssoc([analyzing], [generating] + inserts, tail);
    AppendAssoc([analyzing], [generating], inserts);
    assert [analyzing] + [generating] == [analyzing, generating];
  }

  /** When every listed file and the `README` can be read, the part of a run after `generating` stores them all and completes. */
  lemma CompletedStoreRequests(id: nat, repoPath: string, files: seq<string>, docs: map<string, string>,
                               readme: Option<string>, now: int)
    requires AllReadable(files, docs) && readme.Some?
    ensures StoreRequests(id, repoPath, files, docs, readme, now)
         == Inserts(ListedRows(id, DocsDir(repoPath), files, docs))
          + [InsertDoc(ReadmeRow(id, repoPath, readme.value)), UpdateStatus(id, Completed, Some(now))]
  {
    assert files[..|files|] == files;
    AnalysisRowsReadablePrefix(id, DocsDir(repoPath), files, docs, |files|);
  }

  /**
    A run that fails inserts no `README` row, and the `analysis` rows it did
    insert are those of the files before the first unreadable one.
   */
  lemma FailedRunRequests(id: nat, repoPath: string, env: RunEnv, now: int)
    requires !RunSucceeds(env)
    ensures var reqs := RunRequests(id, repoPath, env, now);
      forall k :: 0 <= k < |reqs| && reqs[k].InsertDoc? ==>
        && 2 <= k < |env.docsListing.value| + 2
        && env.docsListing.value[k - 2] in env.docs
        && reqs[k].doc
           == AnalysisRow(id, DocsDir(repoPath), env.docsListing.value[k - 2], env.docs[env.docsListing.value[k - 2]])
  {
    if env.analyzeOk && env.generateOk && env.docsListing.Some? {
      var analyzing, generating := UpdateStatus(id, Analyzing, None), UpdateStatus(id, Generating, None);
      var store := StoreRequests(id, repoPath, env.docsListing.value, env.docs, env.readme, now);
      assert RunRequests(id, repoPath, env, now) == [analyzing] + ([generating] + store);
      FailedStoreInserts(id, repoPath, env.docsListing.value, env.docs, env.readme, now);
      InsertsAfterTwoUpdates(analyzing, generating, store, id, DocsDir(repoPath), env.docsListing.value, env.docs);
    }
  }

  lemma InsertsAfterTwoUpdates(analyzing: Request, generating: Request, store: seq<Request>,
                               id: nat, docsDir: string, files: seq<string>, docs: map<string, string>)
    requires analyzing.UpdateStatus? && generating.UpdateStatus?
    requires forall k :: 0 <= k < |store| && store[k].InsertDoc? ==>
      k < |files| && files[k] in docs && store[k].doc == AnalysisRow(id, docsDir, files[k], docs[files[k]])
    ensures var reqs := [analyzing] + ([generating] + store);
      forall k :: 0 <= k < |reqs| && reqs[k].InsertDoc? ==>
        && 2 <= k < |files| + 2
        && files[k - 2] in docs
        && reqs[k].doc == AnalysisRow(id, docsDir, files[k - 2], docs[files[k - 2]])
  {
    var reqs := [analyzing] + ([generating] + store);
    assert forall k :: 2 <= k < |reqs| ==> reqs[k] == store[k - 2];
  }

  /** The part of a failing run after `generating` inserts only `analysis` rows, the `k`-th that of the `k`-th listed file. */
  lemma FailedStoreInserts(id: nat, repoPath: string, files: seq<string>, docs: map<string, string>,
                           readme: Option<string>, now: int)
    requires !(AllReadable(files, docs) && readme.Some?)
    ensures var store := StoreRequests(id, repoPath, files, docs, readme, now);
      forall k :: 0 <= k < |store| && store[k].InsertDoc? ==>
        && k < |files|
        && files[k] in docs
        && store[k].doc == AnalysisRow(id, DocsDir(repoPath), files[k], docs[files[k]])
  {
    var rows := AnalysisRows(id, DocsDir(repoPath), files, docs);
    AnalysisRowsComplete(id, DocsDir(repoPath), files, docs);
    assert StoreRequests(id, repoPath, files, docs, readme, now) == Inserts(rows) + [Fail(id)];
  }

  /** When `readdir` of the docs directory fails, the run inserts nothing and ends `failed`. */
  lemma ReaddirFailureFailsRun(id: nat, repoPath: string, env: RunEnv, now: int)
    requires env.analyzeOk && env.generateOk && env.docsListing.None?
    ensures RunRequests(id, repoPath, env, now)
         == [UpdateStatus(id, Analyzing, None), UpdateStatus(id, Generating, None), UpdateStatus(id, Failed, None)]
  {
  }

  /** Insert and update results are never inspected: what the database rejects does not alter the run. */
  lemma RejectionsDoNotAlterRun(id: nat, repoPath: string, env: RunEnv, now: int, rejected: set<nat>)
    ensures RunRequests(id, repoPath, env.(rejected := rejected), now) == RunRequests(id, repoPath, env, now)
  {
  }

  /**
    The tables after a run of an existing project: the other projects and the
    row's own fields are untouched apart from `status` and `completed_at`,
    the documentation table gains the accepted inserts, and the row ends
    `completed` or `failed` as the run did, unless the database rejected that
    last write; `completed_at` changes only when an accepted `completed`
    write ends the run.
   */
  lemma RunOutcome(t: Tables, id: nat, repoPath: string, env: RunEnv, now: int)
    requires id < |t.projects|
    ensures var reqs := RunRequests(id, repoPath, env, now);
      var after := Replay(t, reqs, env.rejected);
      && |after.projects| == |t.projects|
      && (forall k :: 0 <= k < |t.projects| && k != id ==> after.projects[k] == t.projects[k])
      && after.projects[id] == t.projects[id].(status := after.projects[id].status,
                                               completedAt := after.projects[id].completedAt)
      && after.docs == t.docs + AcceptedDocs(reqs, env.rejected)
      && (|reqs| - 1 !in env.rejected ==>
            after.projects[id].status == (if RunSucceeds(env) then Completed else Failed))
      && (|reqs| - 1 !in env.rejected && RunSucceeds(env) ==> after.projects[id].completedAt == Some(now))
      && (|reqs| - 1 in env.rejected || !RunSucceeds(env) ==> after.projects[id].completedAt == t.projects[id].completedAt)
  {
    var reqs := RunRequests(id, repoPath, env, now);
    RunTouchesOnlyItsProject(id, repoPath, env, now);
    ReplayOfRun(t, reqs, id, env.rejected);
    RunEndsWithOneTerminalWrite(id, repoPath, env, now);
    var last := reqs[|reqs| - 1];
    if |reqs| - 1 !in env.rejected {
      FinalWriteDecidesStatus(t, reqs, id, last.status, last.completedAt, env.rejected);
    }
    RunKeepsCompletedAt(t, id, repoPath, env, now);
  }

  /** The only status write of a run that carries a time is its `completed` write. */
  lemma RunStampsOnlyCompleted(id: nat, repoPath: string, env: RunEnv, now: int)
    ensures StampsOnlyCompleted(RunRequests(id, repoPath, env, now))
  {
    var analyzing, generating := [UpdateStatus(id, Analyzing, None)], [UpdateStatus(id, Generating, None)];
    var rest := if !env.analyzeOk then [Fail(id)] else GenerateRequests(id, repoPath, env, now);
    if env.analyzeOk {
      var store := if !env.generateOk || env.docsListing.None? then [Fail(id)]
                   else StoreRequests(id, repoPath, env.docsListing.value, env.docs, env.readme, now);
      if env.generateOk && env.docsListing.Some? {
        var files := env.docsListing.value;
        var rows := AnalysisRows(id, DocsDir(repoPath), files, env.docs);
        var tail := if |rows| < |files| || env.readme.None? then [Fail(id)]
                    else [InsertDoc(ReadmeRow(id, repoPath, env.readme.value)), UpdateStatus(id, Completed, Some(now))];
        assert StampsOnlyCompleted(Inserts(rows));
        StampsOnlyCompletedAppend(Inserts(rows), tail);
      }
      StampsOnlyCompletedAppend(generating, store);
    }
    StampsOnlyCompletedAppend(analyzing, rest);
  }

  /** No status write before a run's last one carries a time, and none at all in a run that fails. */
  lemma OnlyLastWriteStamps(id: nat, repoPath: string, env: RunEnv, now: int)
    ensures var reqs := RunRequests(id, repoPath, env, now);
      && NoTimestamps(reqs[..|reqs| - 1])
      && (!RunSucceeds(env) ==> NoTimestamps(reqs))
  {
    var reqs := RunRequests(id, repoPath, env, now);
    RunEndsWithOneTerminalWrite(id, repoPath, env, now);
    RunStampsOnlyCompleted(id, repoPath, env, now);
    var init := reqs[..|reqs| - 1];
    forall k | 0 <= k < |init| ensures init[k] == reqs[k] {
    }
  }

  /**
    A run that fails, or whose last write the database rejects, leaves the
    row's `completed_at` as it was: only the final `completed` write sets it.
   */
  lemma RunKeepsCompletedAt(t: Tables, id: nat, repoPath: string, env: RunEnv, now: int)
    requires id < |t.projects|
    ensures var reqs := RunRequests(id, repoPath, env, now);
      && |Replay(t, reqs, env.rejected).projects| == |t.projects|
      && ((!RunSucceeds(env) || |reqs| - 1 in env.rejected) ==>
            Replay(t, reqs, env.rejected).projects[id].completedAt == t.projects[id].completedAt)
  {
    var reqs := RunRequests(id, repoPath, env, now);
    RunTouchesOnlyItsProject(id, repoPath, env, now);
    OnlyLastWriteStamps(id, repoPath, env, now);
    if !RunSucceeds(env) || |reqs| - 1 in env.rejected {
      LastWriteAloneStamps(t, reqs, id, env.rejected);
    } else {
      ReplayOfRun(t, reqs, id, env.rejected);
    }
  }

  lemma {:induction false} InsertsAllAccepted(rows: seq<DocRow>)
    ensures AcceptedDocs(Inserts(rows), {}) == rows
    decreases |rows|
  {
    if rows != [] {
      var init := rows[..|rows| - 1];
      assert Inserts(rows)[..|rows| - 1] == Inserts(init);
      InsertsAllAccepted(init);
    }
  }

  /** With nothing rejected, a completed run's accepted rows are every listed file's row, then the `README` row. */
  lemma CompletedRunDocs(id: nat, repoPath: string, env: RunEnv, now: int)
    requires RunSucceeds(env)
    ensures AcceptedDocs(RunRequests(id, repoPath, env, now), {})
         == ListedRows(id, DocsDir(repoPath), env.docsListing.value, env.docs) + [ReadmeRow(id, repoPath, env.readme.value)]
  {
    CompletedRunRequests(id, repoPath, env, now);
    AcceptedDocsOfCompletedRun(UpdateStatus(id, Analyzing, None), UpdateStatus(id, Generating, None),
                               ListedRows(id, DocsDir(repoPath), env.docsListing.value, env.docs),
                               ReadmeRow(id, repoPath, env.readme.value), UpdateStatus(id, Completed, Some(now)));
  }

  lemma AcceptedDocsOfCompletedRun(analyzing: Request, generating: Request, rows: seq<DocRow>, readme: DocRow, completed: Request)
    requires analyzing.UpdateStatus? && generating.UpdateStatus? && completed.UpdateStatus?
    ensures AcceptedDocs([analyzing, generating] + Inserts(rows) + [InsertDoc(readme), completed], {}) == rows + [readme]
  {
    var head, tail := [analyzing, generating], [InsertDoc(readme), completed];
    assert AcceptedDocs(head, {}) == [] by {
      assert head == [analyzing] + [generating];
      AcceptedDocsOfOne(analyzing);
      AcceptedDocsOfOne(generating);
      AcceptedDocsAppend([analyzing], [generating]);
    }
    assert AcceptedDocs(tail, {}) == [readme] by {
      assert tail == [InsertDoc(readme)] + [completed];
      AcceptedDocsOfOne(InsertDoc(readme));
      AcceptedDocsOfOne(completed);
      AcceptedDocsAppend([InsertDoc(readme)], [completed]);
    }
    InsertsAllAccepted(rows);
    AcceptedDocsAppend(head, Inserts(rows));
    AcceptedDocsAppend(head + Inserts(rows), tail);
  }

  /**
    A run that completes with every request accepted leaves one `analysis`
    row per listed file and the `README` row, and its project `completed`
    with `completed_at` set to `now`.
   */
  lemma CompletedRunStoresEveryRow(t: Tables, id: nat, repoPath: string, env: RunEnv, now: int)
    requires id < |t.projects| && RunSucceeds(env) && env.rejected == {}
    ensures var after := Replay(t, RunRequests(id, repoPath, env, now), env.rejected);
      && after.docs == t.docs + ListedRows(id, DocsDir(repoPath), env.docsListing.value, env.docs)
                              + [ReadmeRow(id, repoPath, env.readme.value)]
      && |after.projects| == |t.projects|
      && after.projects[id] == t.projects[id].(status := Completed, completedAt := Some(now))
  {
    RunOutcome(t, id, repoPath, env, now);
    CompletedRunDocs(id, repoPath, env, now);
  }
}

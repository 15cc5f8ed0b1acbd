/** The backend's request handlers: `list_all_files_in_folder`, the `/go`
    ingestion endpoint and the `/merge_codes` endpoint. The file system,
    `uuid`, `tempfile`, `git clone`, zip extraction and the GitHub API are
    not modelled; their results arrive as fields of a `World`. Paths are
    POSIX paths, with `/` as `os.sep`. */
module Server {
  import opened Wrappers
  import opened Text
  import opened Lists
  import opened GithubLink

  // ---------------------------------------------------------------------
  // Paths
  // ---------------------------------------------------------------------

  /** `os.path.join(a, b)` on POSIX: an absolute `b` replaces `a`; otherwise
      `b` is appended, with a `/` between unless `a` is empty or already
      ends with one. */
  function PathJoin(a: string, b: string): (r: string)
    ensures StartsWith(b, "/") ==> r == b
    ensures !StartsWith(b, "/") ==> EndsWith(r, b) && StartsWith(r, a)
    ensures !StartsWith(b, "/") && (a == "" || EndsWith(a, "/")) ==> r == a + b
    ensures !StartsWith(b, "/") && a != "" && !EndsWith(a, "/") ==> r == a + "/" + b
  {
    if StartsWith(b, "/") then b
    else if a == "" || EndsWith(a, "/") then
      EndsWithAppend(a, b);
      a + b
    else
      EndsWithAppend(a + "/", b);
      a + "/" + b
  }

  /** `full_path[base_len:]` with `base_len = len(folder.rstrip('/')) + 1`:
      the text after the folder and one separator, or nothing when the path
      is not longer than that. */
  function RelativePath(folder: string, full: string): (rel: string)
    ensures |rel| <= |full|
    ensures |rel| == if |RStrip(folder, '/')| + 1 <= |full| then |full| - |RStrip(folder, '/')| - 1 else 0
    ensures |rel| > 0 ==> EndsWith(full, rel) && |full| - |rel| == |RStrip(folder, '/')| + 1
  {
    var base := |RStrip(folder, '/')| + 1;
    if base <= |full| then
      EndsWithAppend(full[..base], full[base..]);
      assert full == full[..base] + full[base..];
      full[base..]
    else ""
  }

  /** The relative path of `folder/rel` is `rel`, however many `/` end the
      folder name. */
  lemma RelativePathOfJoined(folder: string, rel: string)
    ensures RelativePath(folder, RStrip(folder, '/') + "/" + rel) == rel
  {
    var f := RStrip(folder, '/');
    assert (f + "/" + rel)[|f| + 1..] == rel;
  }

  /** A folder name as `tempfile.mkdtemp` returns it: not empty and without a
      trailing separator. */
  predicate IsFolderName(folder: string) {
    |folder| > 0 && folder[|folder| - 1] != '/'
  }

  /** A relative name `os.walk` reports: a non-empty name that is not
      absolute and has no trailing separator. */
  predicate IsRelativeName(name: string) {
    |name| > 0 && name[0] != '/' && name[|name| - 1] != '/'
  }

  /** A file listed directly in the folder is reported by its own name, and a
      file in a sub-folder `sub` by `sub/name`. */
  lemma WalkedFileIsRelative(folder: string, sub: string, name: string)
    requires IsFolderName(folder) && IsRelativeName(name)
    requires sub == "" || IsRelativeName(sub)
    ensures sub == "" ==> RelativePath(folder, PathJoin(folder, name)) == name
    ensures sub != "" ==> RelativePath(folder, PathJoin(PathJoin(folder, sub), name)) == sub + "/" + name
  {
    RStripKept(folder, '/');
    assert !StartsWith(name, "/") by {
      assert name[..1][0] == name[0];
    }
    assert PathJoin(folder, name) == folder + "/" + name;
    RelativePathOfJoined(folder, name);
    if sub != "" {
      assert !StartsWith(sub, "/") by {
        assert sub[..1][0] == sub[0];
      }
      var root := folder + "/" + sub;
      assert PathJoin(folder, sub) == root;
      assert PathJoin(root, name) == folder + "/" + (sub + "/" + name);
      RelativePathOfJoined(folder, sub + "/" + name);
    }
  }

  /** One `(root, dirs, files)` triple of `os.walk`, without the sub-folder
      names, which the listing does not use. */
  datatype WalkEntry = WalkEntry(root: string, files: seq<string>)

  /** The relative paths of one walk entry's files, in order. */
  function EntryPaths(folder: string, e: WalkEntry): (paths: seq<string>)
    ensures |paths| == |e.files|
  {
    seq(|e.files|, i requires 0 <= i < |e.files| => RelativePath(folder, PathJoin(e.root, e.files[i])))
  }

  /** The listing `list_all_files_in_folder` returns for the walk `walk` of
      `folder`: the entries in walk order, each entry's files in order. */
  function Listing(folder: string, walk: seq<WalkEntry>): seq<string>
    decreases |walk|
  {
    if |walk| == 0 then []
    else Listing(folder, walk[..|walk| - 1]) + EntryPaths(folder, walk[|walk| - 1])
  }

  /** `list_all_files_in_folder`, with `os.walk` replaced by its result. */
  method ListAllFiles(folder: string, walk: seq<WalkEntry>) returns (paths: seq<string>)
    ensures paths == Listing(folder, walk)
  {
    paths := [];
    var k := 0;
    while k < |walk|
      invariant 0 <= k <= |walk|
      invariant paths == Listing(folder, walk[..k])
    {
      var e := walk[k];
      var done := paths;
      var j := 0;
      while j < |e.files|
        invariant 0 <= j <= |e.files|
        invariant paths == done + EntryPaths(folder, e)[..j]
      {
        var full := PathJoin(e.root, e.files[j]);
        EntryPathsStep(folder, e, j, done);
        paths := paths + [RelativePath(folder, full)];
        j := j + 1;
      }
      ListingStep(folder, walk, k, done);
      k := k + 1;
    }
    assert walk[..k] == walk;
  }

  lemma EntryPathsStep(folder: string, e: WalkEntry, j: nat, done: seq<string>)
    requires j < |e.files|
    ensures done + EntryPaths(folder, e)[..j] + [RelativePath(folder, PathJoin(e.root, e.files[j]))]
         == done + EntryPaths(folder, e)[..j + 1]
  {
    var ps := EntryPaths(folder, e);
    assert ps[..j + 1] == ps[..j] + [ps[j]];
  }

  lemma ListingStep(folder: string, walk: seq<WalkEntry>, k: nat, done: seq<string>)
    requires k < |walk| && done == Listing(folder, walk[..k])
    ensures done + EntryPaths(folder, walk[k])[..|walk[k].files|] == Listing(folder, walk[..k + 1])
  {
    var ps := EntryPaths(folder, walk[k]);
    assert ps[..|walk[k].files|] == ps;
    assert walk[..k + 1][..k] == walk[..k];
  }

  /** All the files of a walk, names only, in walk order. */
  function AllNames(walk: seq<WalkEntry>): seq<string>
    decreases |walk|
  {
    if |walk| == 0 then [] else AllNames(walk[..|walk| - 1]) + walk[|walk| - 1].files
  }

  /** Walking a folder whose files all sit at its top level lists exactly
      their names, in walk order. */
  lemma {:induction false} TopLevelListing(folder: string, walk: seq<WalkEntry>)
    requires IsFolderName(folder)
    requires forall k :: 0 <= k < |walk| ==> walk[k].root == folder
    requires forall k, j :: 0 <= k < |walk| && 0 <= j < |walk[k].files| ==> IsRelativeName(walk[k].files[j])
    ensures Listing(folder, walk) == AllNames(walk)
    decreases |walk|
  {
    if |walk| > 0 {
      var e := walk[|walk| - 1];
      TopLevelListing(folder, walk[..|walk| - 1]);
      forall j | 0 <= j < |e.files|
        ensures EntryPaths(folder, e)[j] == e.files[j]
      {
        WalkedFileIsRelative(folder, "", e.files[j]);
      }
    }
  }

  // ---------------------------------------------------------------------
  // POST /go
  // ---------------------------------------------------------------------

  /** The form fields of a `/go` request: `githubLink` and the name of the
      uploaded `file`, each absent when the field is missing. An upload with
      an empty file name counts as no upload, as it does for werkzeug's
      `FileStorage`. */
  datatype GoRequest = GoRequest(githubLink: Option<string>, fileName: Option<string>)

  /** How a step the server delegates ended: normally, with the error the
      handler catches and reports as `400`, or with any other exception,
      which ends in `500` with its text. */
  datatype Outcome = Done | Refused(detail: string) | Crashed(detail: string)

  /** Everything `/go` learns from outside: the new session id and temporary
      folder, the GitHub API's answer, how `git clone`, saving the upload and
      extracting it end, and what `os.walk` then finds in the folder. */
  datatype World = World(
    sessionId: string,
    folder: string,
    apiFound: (string, string) -> bool,
    clone: Outcome,
    saveError: Option<string>,
    unzip: Outcome,
    walk: seq<WalkEntry>)

  datatype GoBody = Ingested(sessionId: string, filePaths: seq<string>) | Failure(error: string)

  datatype GoResponse = GoResponse(status: int, body: GoBody)

  const InvalidRepoMessage: string := "Invalid GitHub repository URL"
  const CloneFailedPrefix: string := "Git clone failed: "
  const NotZipMessage: string := "파일 확장자가 .zip 이 아닙니다."
  const BadZipMessage: string := "유효하지 않은 ZIP 파일입니다."
  const EmptyZipMessage: string := "압축 파일 내에 파일이 없습니다."
  const NoInputMessage: string := "githubLink 또는 file 둘 중 하나는 필수"

  /** `if github_link:` */
  predicate HasLink(req: GoRequest) {
    req.githubLink.Some? && req.githubLink.value != ""
  }

  /** `elif uploaded_file:` */
  predicate HasUpload(req: GoRequest) {
    req.fileName.Some? && req.fileName.value != ""
  }

  /** The link branch ends in success. */
  predicate LinkSucceeds(link: string, w: World) {
    IsValidGithubRepo(link, w.apiFound) && w.clone.Done?
  }

  /** The upload branch ends in success. */
  predicate UploadSucceeds(name: string, w: World) {
    && EndsWith(name, ".zip")
    && w.saveError.None?
    && w.unzip.Done?
    && Listing(w.folder, w.walk) != []
  }

  function Fail(status: int, message: string, sessions: map<string, string>): (GoResponse, map<string, string>) {
    (GoResponse(status, Failure(message)), sessions)
  }

  /** `go()`: the response and the session map afterwards. A link is tried
      first and decides the request alone; an upload is tried only without a
      link; the session is recorded only when the request succeeds. */
  function Go(req: GoRequest, sessions: map<string, string>, w: World): (r: (GoResponse, map<string, string>))
    ensures r.0.status == 200 || r.0.status == 400 || r.0.status == 500
    ensures r.0.status == 200 <==>
      if HasLink(req) then LinkSucceeds(req.githubLink.value, w)
      else HasUpload(req) && UploadSucceeds(req.fileName.value, w)
    ensures r.0.status == 200 ==>
      && r.0.body == Ingested(w.sessionId, Listing(w.folder, w.walk))
      && r.1 == sessions[w.sessionId := w.folder]
    ensures r.0.status != 200 ==> r.0.body.Failure? && r.1 == sessions
    ensures !HasLink(req) && !HasUpload(req) ==> r.0 == GoResponse(400, Failure(NoInputMessage))
    ensures HasLink(req) && !IsValidGithubRepo(req.githubLink.value, w.apiFound) ==>
      r.0 == GoResponse(400, Failure(InvalidRepoMessage))
    ensures HasLink(req) && IsValidGithubRepo(req.githubLink.value, w.apiFound) && w.clone.Refused? ==>
      r.0 == GoResponse(400, Failure(CloneFailedPrefix + w.clone.detail))
    ensures !HasLink(req) && HasUpload(req) && !EndsWith(req.fileName.value, ".zip") ==>
      r.0 == GoResponse(400, Failure(NotZipMessage))
    ensures !HasLink(req) && HasUpload(req) && EndsWith(req.fileName.value, ".zip") && w.saveError.None? ==>
      && (w.unzip.Refused? ==> r.0 == GoResponse(400, Failure(BadZipMessage)))
      && (w.unzip.Done? && Listing(w.folder, w.walk) == [] ==> r.0 == GoResponse(400, Failure(EmptyZipMessage)))
    ensures r.0.status == 500 <==>
      if HasLink(req) then IsValidGithubRepo(req.githubLink.value, w.apiFound) && w.clone.Crashed?
      else HasUpload(req) && EndsWith(req.fileName.value, ".zip") && (w.saveError.Some? || w.unzip.Crashed?)
    ensures HasLink(req) && IsValidGithubRepo(req.githubLink.value, w.apiFound) && w.clone.Crashed? ==>
      r.0 == GoResponse(500, Failure(w.clone.detail))
    ensures !HasLink(req) && HasUpload(req) && EndsWith(req.fileName.value, ".zip") ==>
      && (w.saveError.Some? ==> r.0 == GoResponse(500, Failure(w.saveError.value)))
      && (w.saveError.None? && w.unzip.Crashed? ==> r.0 == GoResponse(500, Failure(w.unzip.detail)))
  {
    if HasLink(req) then
      if !IsValidGithubRepo(req.githubLink.value, w.apiFound) then Fail(400, InvalidRepoMessage, sessions)
      else
        match w.clone
        case Refused(detail) => Fail(400, CloneFailedPrefix + detail, sessions)
        case Crashed(detail) => Fail(500, detail, sessions)
        case Done => (GoResponse(200, Ingested(w.sessionId, Listing(w.folder, w.walk))), sessions[w.sessionId := w.folder])
    else if HasUpload(req) then
      var name := req.fileName.value;
      if !EndsWith(name, ".zip") then Fail(400, NotZipMessage, sessions)
      else if w.saveError.Some? then Fail(500, w.saveError.value, sessions)
      else
        match w.unzip
        case Refused(_) => Fail(400, BadZipMessage, sessions)
        case Crashed(detail) => Fail(500, detail, sessions)
        case Done =>
          if Listing(w.folder, w.walk) == [] then Fail(400, EmptyZipMessage, sessions)
          else (GoResponse(200, Ingested(w.sessionId, Listing(w.folder, w.walk))), sessions[w.sessionId := w.folder])
    else
      Fail(400, NoInputMessage, sessions)
  }

  /** With a link present, the uploaded file plays no part. */
  lemma LinkTakesPrecedence(link: string, upload1: Option<string>, upload2: Option<string>, sessions: map<string, string>, w: World)
    requires link != ""
    ensures Go(GoRequest(Some(link), upload1), sessions, w) == Go(GoRequest(Some(link), upload2), sessions, w)
  {
  }

  /** An empty link counts as no link: the request is decided by the upload. */
  lemma EmptyLinkIsNoLink(upload: Option<string>, sessions: map<string, string>, w: World)
    ensures Go(GoRequest(Some(""), upload), sessions, w) == Go(GoRequest(None, upload), sessions, w)
  {
  }

  /** A successful request adds exactly its own session and keeps every
      other one. */
  lemma GoRecordsOneSession(req: GoRequest, sessions: map<string, string>, w: World)
    ensures var r := Go(req, sessions, w);
      && (r.0.status == 200 ==> w.sessionId in r.1 && r.1[w.sessionId] == w.folder)
      && (forall sid :: sid in sessions && sid != w.sessionId ==> sid in r.1 && r.1[sid] == sessions[sid])
      && (forall sid :: sid in r.1 ==> sid in sessions || (sid == w.sessionId && r.0.status == 200))
  {
  }

  // ---------------------------------------------------------------------
  // The saved archive in its own extraction folder
  // ---------------------------------------------------------------------

  /** Once the archive named `name` is saved into the folder and extracted
      there, a walk that finds no extracted file still finds the archive
      itself: `go` accepts the upload and lists the archive as its content. */
  lemma EmptyArchiveAccepted(name: string, sessions: map<string, string>, w: World)
    requires IsFolderName(w.folder) && IsRelativeName(name) && EndsWith(name, ".zip")
    requires w.saveError.None? && w.unzip.Done?
    requires w.walk == [WalkEntry(w.folder, [name])]
    ensures Go(GoRequest(None, Some(name)), sessions, w).0 == GoResponse(200, Ingested(w.sessionId, [name]))
  {
    TopLevelListing(w.folder, w.walk);
    assert AllNames(w.walk) == AllNames(w.walk[..0]) + [name];
  }

  /** The walk of the folder as the upload branch evidently means it: the
      extracted files only, without the saved archive at the top level. */
  function WalkWithoutArchive(walk: seq<WalkEntry>, folder: string, name: string): (r: seq<WalkEntry>)
    ensures |r| == |walk|
    ensures forall k :: 0 <= k < |r| ==> r[k].root == walk[k].root
    ensures forall k :: 0 <= k < |r| && walk[k].root == folder ==> r[k].files == Without(walk[k].files, name)
    ensures forall k :: 0 <= k < |r| && walk[k].root != folder ==> r[k] == walk[k]
  {
    seq(|walk|, k requires 0 <= k < |walk| =>
      if walk[k].root == folder then WalkEntry(folder, Without(walk[k].files, name)) else walk[k])
  }

  /** `go()` with the archive kept out of the listing, so that the emptiness
      check and the returned file list are about the archive's contents. A
      request without an upload is answered exactly as before. */
  function GoFixed(req: GoRequest, sessions: map<string, string>, w: World): (r: (GoResponse, map<string, string>))
    ensures HasLink(req) || !HasUpload(req) ==> r == Go(req, sessions, w)
    ensures !HasLink(req) && HasUpload(req) ==>
      r == Go(req, sessions, w.(walk := WalkWithoutArchive(w.walk, w.folder, req.fileName.value)))
  {
    if !HasLink(req) && HasUpload(req) then
      Go(req, sessions, w.(walk := WalkWithoutArchive(w.walk, w.folder, req.fileName.value)))
    else
      Go(req, sessions, w)
  }

  /** What the correction changes, relative to `go()` as written: for an
      upload, the listing is the written one without the archive's name, and
      the request succeeds exactly when that leaves a file. Every request the
      written handler refuses is refused alike. */
  lemma GoFixedDropsArchive(name: string, sessions: map<string, string>, w: World)
    requires IsFolderName(w.folder) && '/' !in name
    requires forall k :: 0 <= k < |w.walk| ==> UnderFolder(w.folder, w.walk[k].root)
    requires forall k, j :: 0 <= k < |w.walk| && 0 <= j < |w.walk[k].files| ==> IsRelativeName(w.walk[k].files[j])
    ensures var req := GoRequest(None, Some(name));
      var written := Go(req, sessions, w);
      var fixed := GoFixed(req, sessions, w);
      var kept := Without(Listing(w.folder, w.walk), name);
      && (fixed.0.status == 200 <==> written.0.status == 200 && kept != [])
      && (fixed.0.status == 200 ==> fixed == (GoResponse(200, Ingested(w.sessionId, kept)), sessions[w.sessionId := w.folder]))
      && (written.0.status == 200 && kept == [] ==> fixed == (GoResponse(400, Failure(EmptyZipMessage)), sessions))
      && (written.0.status != 200 ==> fixed == written)
  {
    var req := GoRequest(None, Some(name));
    if HasUpload(req) && EndsWith(name, ".zip") && w.saveError.None? && w.unzip.Done? {
      ListingWithoutArchive(w.folder, w.walk, name);
      UploadListed(req, sessions, w);
      UploadListed(req, sessions, w.(walk := WalkWithoutArchive(w.walk, w.folder, name)));
      if Listing(w.folder, w.walk) == [] {
        assert Without(Listing(w.folder, w.walk), name) == [];
      }
    } else {
      UploadRefusedEarly(req, sessions, w, WalkWithoutArchive(w.walk, w.folder, name));
    }
  }

  /** An upload that saves and extracts is decided by the listing alone. */
  lemma UploadListed(req: GoRequest, sessions: map<string, string>, w: World)
    requires !HasLink(req) && HasUpload(req) && EndsWith(req.fileName.value, ".zip")
    requires w.saveError.None? && w.unzip.Done?
    ensures Listing(w.folder, w.walk) == [] ==> Go(req, sessions, w) == (GoResponse(400, Failure(EmptyZipMessage)), sessions)
    ensures Listing(w.folder, w.walk) != [] ==>
      Go(req, sessions, w) == (GoResponse(200, Ingested(w.sessionId, Listing(w.folder, w.walk))), sessions[w.sessionId := w.folder])
  {
  }

  /** A request that is no upload, or an upload refused before the walk,
      does not depend on the walk. */
  lemma UploadRefusedEarly(req: GoRequest, sessions: map<string, string>, w: World, walk: seq<WalkEntry>)
    requires !HasLink(req)
    requires !(HasUpload(req) && EndsWith(req.fileName.value, ".zip") && w.saveError.None? && w.unzip.Done?)
    ensures Go(req, sessions, w.(walk := walk)) == Go(req, sessions, w)
    ensures Go(req, sessions, w).0.status != 200
  {
  }

  /** Walking without the archive lists what the written walk lists, minus
      the archive's name. */
  lemma {:induction false} ListingWithoutArchive(folder: string, walk: seq<WalkEntry>, name: string)
    requires IsFolderName(folder) && '/' !in name
    requires forall k :: 0 <= k < |walk| ==> UnderFolder(folder, walk[k].root)
    requires forall k, j :: 0 <= k < |walk| && 0 <= j < |walk[k].files| ==> IsRelativeName(walk[k].files[j])
    ensures Listing(folder, WalkWithoutArchive(walk, folder, name)) == Without(Listing(folder, walk), name)
    decreases |walk|
  {
    if |walk| > 0 {
      var n := |walk| - 1;
      var fixed := WalkWithoutArchive(walk, folder, name);
      WithoutArchivePrefix(walk, folder, name, n);
      ListingWithoutArchive(folder, walk[..n], name);
      assert forall j :: 0 <= j < |walk[n].files| ==> IsRelativeName(walk[n].files[j]);
      EntryWithoutArchive(folder, walk[n], fixed[n], name);
      WithoutConcat(Listing(folder, walk[..n]), EntryPaths(folder, walk[n]), name);
    }
  }

  lemma WithoutArchivePrefix(walk: seq<WalkEntry>, folder: string, name: string, n: nat)
    requires n < |walk|
    ensures WalkWithoutArchive(walk, folder, name)[..n] == WalkWithoutArchive(walk[..n], folder, name)
    ensures WalkWithoutArchive(walk, folder, name)[n]
         == if walk[n].root == folder then WalkEntry(folder, Without(walk[n].files, name)) else walk[n]
  {
  }

  /** One entry: the top-level entry loses the archive's name; an entry below
      it never held that name. */
  lemma EntryWithoutArchive(folder: string, e: WalkEntry, f: WalkEntry, name: string)
    requires IsFolderName(folder) && '/' !in name && UnderFolder(folder, e.root)
    requires forall j :: 0 <= j < |e.files| ==> IsRelativeName(e.files[j])
    requires f == if e.root == folder then WalkEntry(folder, Without(e.files, name)) else e
    ensures EntryPaths(folder, f) == Without(EntryPaths(folder, e), name)
  {
    if e.root == folder {
      TopEntryPaths(folder, e);
      forall j | 0 <= j < |f.files|
        ensures IsRelativeName(f.files[j])
      {
        assert f.files[j] in Without(e.files, name);
      }
      TopEntryPaths(folder, f);
    } else {
      forall j | 0 <= j < |e.files|
        ensures EntryPaths(folder, e)[j] != name
      {
        NestedPathHasSeparator(folder, e.root, e.files[j]);
      }
    }
  }

  /** A top-level entry lists its files by their own names. */
  lemma TopEntryPaths(folder: string, e: WalkEntry)
    requires IsFolderName(folder) && e.root == folder
    requires forall j :: 0 <= j < |e.files| ==> IsRelativeName(e.files[j])
    ensures EntryPaths(folder, e) == e.files
  {
    forall j | 0 <= j < |e.files|
      ensures EntryPaths(folder, e)[j] == e.files[j]
    {
      WalkedFileIsRelative(folder, "", e.files[j]);
    }
  }

  /** With the archive kept out, an archive without entries is refused as
      empty. */
  lemma EmptyArchiveRefused(name: string, sessions: map<string, string>, w: World)
    requires IsFolderName(w.folder) && IsRelativeName(name) && EndsWith(name, ".zip")
    requires w.saveError.None? && w.unzip.Done?
    requires w.walk == [WalkEntry(w.folder, [name])]
    ensures GoFixed(GoRequest(None, Some(name)), sessions, w).0 == GoResponse(400, Failure(EmptyZipMessage))
  {
    var walk := WalkWithoutArchive(w.walk, w.folder, name);
    assert walk[0].files == [];
    assert Listing(w.folder, walk) == [] by {
      assert walk[..0] == [];
    }
  }

  /** With the archive kept out, the listing never names the archive,
      however deep the extracted tree: a file at the top level is listed by
      its own name, which is not the archive's, and a file below it by a
      path holding a `/`, which the archive's name lacks. */
  lemma ArchiveNeverListed(name: string, sessions: map<string, string>, w: World)
    requires IsFolderName(w.folder) && IsRelativeName(name) && '/' !in name
    requires forall k :: 0 <= k < |w.walk| ==> UnderFolder(w.folder, w.walk[k].root)
    requires forall k, j :: 0 <= k < |w.walk| && 0 <= j < |w.walk[k].files| ==> IsRelativeName(w.walk[k].files[j])
    ensures var r := GoFixed(GoRequest(None, Some(name)), sessions, w);
      r.0.status == 200 ==> name !in r.0.body.filePaths
  {
    var walk := WalkWithoutArchive(w.walk, w.folder, name);
    forall k, j | 0 <= k < |walk| && 0 <= j < |walk[k].files|
      ensures IsRelativeName(walk[k].files[j])
      ensures walk[k].root == w.folder ==> walk[k].files[j] != name
    {
      if walk[k].root == w.folder {
        assert walk[k].files[j] in Without(w.walk[k].files, name);
      }
    }
    ListingAvoids(w.folder, walk, name);
  }

  /** A directory `os.walk` visits below `folder`: the folder itself or
      `folder/sub` for a relative `sub`. */
  predicate UnderFolder(folder: string, root: string) {
    || root == folder
    || (|root| > |folder| + 1 && root[..|folder| + 1] == folder + "/" && IsRelativeName(root[|folder| + 1..]))
  }

  /** A file below the top level is listed by a path holding a `/`. */
  lemma NestedPathHasSeparator(folder: string, root: string, f: string)
    requires IsFolderName(folder) && IsRelativeName(f)
    requires UnderFolder(folder, root) && root != folder
    ensures '/' in RelativePath(folder, PathJoin(root, f))
  {
    var sub := root[|folder| + 1..];
    assert root == folder + "/" + sub;
    assert !StartsWith(sub, "/") by {
      assert sub[..1][0] == sub[0];
    }
    assert PathJoin(folder, sub) == root;
    WalkedFileIsRelative(folder, sub, f);
    assert (sub + "/" + f)[|sub|] == '/';
  }

  /** The listing of a walk misses a `/`-free name that no top-level entry
      holds. */
  lemma {:induction false} ListingAvoids(folder: string, walk: seq<WalkEntry>, name: string)
    requires IsFolderName(folder) && '/' !in name
    requires forall k :: 0 <= k < |walk| ==> UnderFolder(folder, walk[k].root)
    requires forall k, j :: 0 <= k < |walk| && 0 <= j < |walk[k].files| ==> IsRelativeName(walk[k].files[j])
    requires forall k, j :: 0 <= k < |walk| && 0 <= j < |walk[k].files| && walk[k].root == folder ==> walk[k].files[j] != name
    ensures name !in Listing(folder, walk)
    decreases |walk|
  {
    if |walk| > 0 {
      var n := |walk| - 1;
      var e := walk[n];
      ListingAvoids(folder, walk[..n], name);
      forall j | 0 <= j < |e.files|
        ensures EntryPaths(folder, e)[j] != name
      {
        assert IsRelativeName(walk[n].files[j]);
        if e.root == folder {
          assert walk[n].files[j] != name;
          WalkedFileIsRelative(folder, "", e.files[j]);
        } else {
          NestedPathHasSeparator(folder, e.root, e.files[j]);
        }
      }
    }
  }

  // ---------------------------------------------------------------------
  // GET /merge_codes
  // ---------------------------------------------------------------------

  /** The query of a `/merge_codes` request: `session_id`, absent when
      missing, and every `file_path` value in order. */
  datatype MergeQuery = MergeQuery(sessionId: Option<string>, filePaths: seq<string>)

  /** What the server finds at a path: a regular file it can read as UTF-8,
      no regular file, or a file whose reading raises the given error. */
  datatype FileOutcome = Readable(content: string) | Missing | Unreadable(message: string)

  datatype MergeReply = MergeReply(status: int, text: string)

  const SessionRequiredMessage: string := "session_id is required"
  const PathRequiredMessage: string := "At least one file_path is required"
  const InvalidSessionMessage: string := "Invalid or expired session_id"
  const MissingFileMessage: string := "파일이 존재하지 않습니다."
  const ReadErrorPrefix: string := "에러: "

  /** The block one requested path contributes. A readable file is headed by
      its base name, the other two cases by the path as requested. */
  function Block(folder: string, rel: string, fs: string -> FileOutcome): (b: string)
    ensures |b| > 0 && b[0] == '[' && EndsWith(b, "\n\n")
  {
    var full := PathJoin(folder, rel);
    var b := (match fs(full)
      case Missing => "[" + rel + "]\n" + MissingFileMessage + "\n\n"
      case Readable(content) => "[" + Basename(full) + "]\n" + content + "\n\n"
      case Unreadable(message) => "[" + rel + "]\n" + ReadErrorPrefix + message + "\n\n");
    assert b == b[..|b| - 2] + "\n\n";
    EndsWithAppend(b[..|b| - 2], "\n\n");
    b
  }

  function BlockOf(folder: string, fs: string -> FileOutcome): string -> string {
    rel => Block(folder, rel, fs)
  }

  /** The blocks of the requested paths, one per path, in order. */
  function Blocks(folder: string, paths: seq<string>, fs: string -> FileOutcome): string {
    ConcatMap(paths, BlockOf(folder, fs))
  }

  /** The session's folder, when the session is known and its folder is
      still there. */
  predicate KnownSession(sessions: map<string, string>, sid: string, folderExists: string -> bool) {
    sid in sessions && sessions[sid] != "" && folderExists(sessions[sid])
  }

  /** `merge_codes()`: the checks come in a fixed order, and only when all
      pass is the text assembled, one block per requested path. */
  method MergeCodes(q: MergeQuery, sessions: map<string, string>, folderExists: string -> bool, fs: string -> FileOutcome)
    returns (r: MergeReply)
    ensures q.sessionId.None? || q.sessionId.value == "" ==> r == MergeReply(400, SessionRequiredMessage)
    ensures q.sessionId.Some? && q.sessionId.value != "" && q.filePaths == [] ==>
      r == MergeReply(400, PathRequiredMessage)
    ensures (q.sessionId.Some? && q.sessionId.value != "" && q.filePaths != [] &&
             !KnownSession(sessions, q.sessionId.value, folderExists)) ==> r == MergeReply(400, InvalidSessionMessage)
    ensures r.status == 200 || r.status == 400
    ensures r.status == 200 <==>
      q.sessionId.Some? && q.sessionId.value != "" && q.filePaths != [] && KnownSession(sessions, q.sessionId.value, folderExists)
    ensures r.status == 200 ==> r.text == Blocks(sessions[q.sessionId.value], q.filePaths, fs)
  {
    if q.sessionId.None? || q.sessionId.value == "" {
      return MergeReply(400, SessionRequiredMessage);
    }
    if q.filePaths == [] {
      return MergeReply(400, PathRequiredMessage);
    }
    var sid := q.sessionId.value;
    if !KnownSession(sessions, sid, folderExists) {
      return MergeReply(400, InvalidSessionMessage);
    }
    var folder := sessions[sid];
    var combined := "";
    var i := 0;
    while i < |q.filePaths|
      invariant 0 <= i <= |q.filePaths|
      invariant combined == Blocks(folder, q.filePaths[..i], fs)
    {
      var rel := q.filePaths[i];
      var full := PathJoin(folder, rel);
      var block;
      match fs(full) {
        case Missing =>
          block := "[" + rel + "]\n" + MissingFileMessage + "\n\n";
        case Readable(content) =>
          block := "[" + Basename(full) + "]\n" + content + "\n\n";
        case Unreadable(message) =>
          block := "[" + rel + "]\n" + ReadErrorPrefix + message + "\n\n";
      }
      BlocksStep(folder, q.filePaths, i, fs, block);
      combined := combined + block;
      i := i + 1;
    }
    assert q.filePaths[..i] == q.filePaths;
    return MergeReply(200, combined);
  }

  lemma BlocksStep(folder: string, paths: seq<string>, i: nat, fs: string -> FileOutcome, block: string)
    requires i < |paths| && block == Block(folder, paths[i], fs)
    ensures Blocks(folder, paths[..i], fs) + block == Blocks(folder, paths[..i + 1], fs)
  {
    assert paths[..i + 1][..i] == paths[..i];
  }

  /** The text for a list of paths is the text for its first part followed
      by the text for the rest; so every requested path, repeated ones
      included, contributes its own block in request order. */
  lemma BlocksAppend(folder: string, a: seq<string>, b: seq<string>, fs: string -> FileOutcome)
    ensures Blocks(folder, a + b, fs) == Blocks(folder, a, fs) + Blocks(folder, b, fs)
  {
    ConcatMapAppend(a, b, BlockOf(folder, fs));
  }

  /** The blocks read front to back: the first path's block comes first. */
  lemma BlocksFront(folder: string, paths: seq<string>, fs: string -> FileOutcome)
    requires |paths| > 0
    ensures Blocks(folder, paths, fs) == Block(folder, paths[0], fs) + Blocks(folder, paths[1..], fs)
  {
    assert paths == [paths[0]] + paths[1..];
    BlocksAppend(folder, [paths[0]], paths[1..], fs);
    ConcatMapOne(paths[0], BlockOf(folder, fs));
  }

  /** A readable file is headed by the base name of the requested path,
      whatever folder it sits in, and whatever the path: an empty one, a
      relative one, or an absolute one, which the join reads as is. */
  lemma ReadableHeader(folder: string, rel: string, fs: string -> FileOutcome)
    requires fs(PathJoin(folder, rel)).Readable?
    ensures Block(folder, rel, fs) == "[" + Basename(rel) + "]\n" + fs(PathJoin(folder, rel)).content + "\n\n"
  {
    if StartsWith(rel, "/") || folder == "" {
      assert PathJoin(folder, rel) == rel;
    } else if EndsWith(folder, "/") {
      var f := folder[..|folder| - 1];
      assert folder == f + "/";
      assert PathJoin(folder, rel) == f + ['/'] + rel;
      LastPieceAfterSeparator(f, '/', rel);
    } else {
      assert PathJoin(folder, rel) == folder + ['/'] + rel;
      LastPieceAfterSeparator(folder, '/', rel);
    }
  }

  /** An absolute path escapes the session: its block is the same whatever
      folder the session names. */
  lemma AbsolutePathIgnoresFolder(folder1: string, folder2: string, rel: string, fs: string -> FileOutcome)
    requires StartsWith(rel, "/")
    ensures Block(folder1, rel, fs) == Block(folder2, rel, fs)
    ensures PathJoin(folder1, rel) == rel
  {
  }
}

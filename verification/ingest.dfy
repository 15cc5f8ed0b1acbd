/** The round trip of one ingestion: the component's submit handler builds
    a form, the backend's `/go` answers it, and the component takes the
    answer in. Also the dropped-archive path through both sides. */
module Ingest {
  import opened Wrappers
  import opened Text
  import opened FileFetcher
  import opened GithubLink
  import opened Server

  /** The form as the backend reads it: the `githubLink` field as sent, and
      the uploaded file by its name. */
  function ToGoRequest(form: IngestForm): (req: GoRequest)
    ensures req.githubLink == form.githubLink
    ensures req.fileName.Some? <==> form.file.Some?
    ensures form.file.Some? ==> req.fileName.value == form.file.value.name
  {
    GoRequest(form.githubLink, if form.file.Some? then Some(form.file.value.name) else None)
  }

  /** `response.ok` and the JSON body, as the submit handler reads them. */
  function ReplyOf(resp: GoResponse): (reply: Reply)
    ensures reply.Accepted? <==> 200 <= resp.status < 300 && resp.body.Ingested?
    ensures reply.Accepted? ==>
      reply.sessionId == resp.body.sessionId && reply.filePaths == resp.body.filePaths
  {
    if 200 <= resp.status < 300 && resp.body.Ingested? then
      Accepted(resp.body.sessionId, resp.body.filePaths)
    else
      Rejected
  }

  /** Submitting the form: the component's state and the server's session
      map afterwards. The request is the one the component is evidently
      meant to send, and the server keeps the saved archive out of the
      listing. */
  function Ingest(s: Fetcher, sessions: map<string, string>, w: World): (r: (Fetcher, map<string, string>))
    ensures IngestRequest(s).None? ==> r == (s, sessions)
    ensures IngestRequest(s).Some? ==>
      var g := GoFixed(ToGoRequest(IntendedIngestRequest(s).value), sessions, w);
      && r.1 == g.1
      && (g.0.status != 200 ==> r == (s, sessions))
      && (g.0.status == 200 ==>
            && r.0.sessionId == w.sessionId
            && w.sessionId in r.1 && r.1[w.sessionId] == w.folder
            && r.0.files == g.0.body.filePaths
            && r.0.showFiles && r.0.selectedExtensions == []
            && r.0.file == s.file && r.0.fileName == s.fileName && r.0.githubLink == s.githubLink)
    ensures Consistent(s) ==> Consistent(r.0)
  {
    match IntendedIngestRequest(s)
    case None => (s, sessions)
    case Some(form) =>
      var g := GoFixed(ToGoRequest(form), sessions, w);
      (Receive(s, ReplyOf(g.0)), g.1)
  }

  /** After a successful submission the component and the server agree:
      the component's session names the folder whose listing it shows. */
  lemma IngestedSessionIsKnown(s: Fetcher, sessions: map<string, string>, w: World)
    requires IngestRequest(s).Some?
    requires GoFixed(ToGoRequest(IntendedIngestRequest(s).value), sessions, w).0.status == 200
    ensures var r := Ingest(s, sessions, w);
      && r.0.sessionId in r.1
      && r.1[r.0.sessionId] == w.folder
      && r.0.showFiles
  {
  }

  /** As written, dropping an archive puts its display label into the link
      field, the submit handler sends that label as `githubLink`, and the
      backend, which gives a link precedence, refuses it as an invalid
      repository URL; the component stays as it was. */
  lemma DroppedArchiveRefused(s: Fetcher, u: Upload, sessions: map<string, string>, w: World)
    requires IsZipType(u.mediaType) && '/' !in u.name
    ensures var d := Drop(s, [u]);
      && IngestRequest(d) == Some(IngestForm(Some(ZipLabel(u.name)), Some(u)))
      && Go(ToGoRequest(IngestRequest(d).value), sessions, w) == (GoResponse(400, Failure(InvalidRepoMessage)), sessions)
      && Receive(d, ReplyOf(GoResponse(400, Failure(InvalidRepoMessage)))) == d
  {
    var shown := ZipLabel(u.name);
    assert '/' !in shown by {
      assert '/' !in " (Uploaded ZIP file)";
    }
    SlashFreeNeverParses(shown);
  }

  /** With the label kept out of the request, a dropped archive reaches the
      upload branch: the request succeeds exactly when the archive is a
      `.zip` file that saves, extracts and holds at least one file. */
  lemma DroppedArchiveUploaded(s: Fetcher, u: Upload, sessions: map<string, string>, w: World)
    requires IsZipType(u.mediaType) && u.name != ""
    ensures var d := Drop(s, [u]);
      var w' := w.(walk := WalkWithoutArchive(w.walk, w.folder, u.name));
      && IntendedIngestRequest(d) == Some(IngestForm(None, Some(u)))
      && (GoFixed(ToGoRequest(IntendedIngestRequest(d).value), sessions, w).0.status == 200 <==> UploadSucceeds(u.name, w'))
      && (UploadSucceeds(u.name, w') ==> Ingest(d, sessions, w).0.showFiles && Ingest(d, sessions, w).0.sessionId == w.sessionId)
  {
  }
}

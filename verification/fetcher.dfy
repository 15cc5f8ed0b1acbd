/** The `FileFetcher` component of the frontend: its state as one immutable
    record, its derived views (the extension index and the filtered file
    list) as pure functions, and each event handler as a function from the
    state before the event to the state after it. */
module FileFetcher {
  import opened Wrappers
  import opened Text
  import opened Lists
  import StringOrder

  /** A browser `File` as far as the component looks at it. */
  datatype Upload = Upload(name: string, mediaType: string)

  /** The component's `useState` hooks, `githubLink` (a prop owned by the
      page) included; `isDragging` is visual only and left out. */
  datatype Fetcher = Fetcher(
    files: seq<string>,
    extensions: seq<string>,
    selectedExtensions: seq<string>,
    filteredFiles: seq<string>,
    file: Option<Upload>,
    fileName: Option<string>,
    githubLink: string,
    sessionId: string,
    showFiles: bool)

  /** The state on first render; the page starts `githubLink` at `''`. */
  function Initial(): Fetcher {
    Fetcher([], [], [], [], None, None, "", "", false)
  }

  // ---------------------------------------------------------------------
  // Extension of one path
  // ---------------------------------------------------------------------

  /** `split('.')` and, when there is more than one part, `.` + the last
      part: the suffix of `path` that starts at its last `.`. */
  function Extension(path: string): (r: Option<string>)
    ensures r.Some? <==> '.' in path
    ensures r.Some? ==>
      && 1 <= |r.value| <= |path|
      && r.value == path[|path| - |r.value|..]
      && r.value[0] == '.'
      && '.' !in r.value[1..]
  {
    var parts := Split(path, '.');
    LastPieceIsTail(path, '.');
    if |parts| > 1 then Some("." + Last(parts)) else None
  }

  /** Conversely, a suffix that starts with `.` and holds no other `.` is the
      extension: the text after the LAST dot, whatever precedes it. */
  lemma ExtensionIsLastDotSuffix(path: string, e: string)
    requires 1 <= |e| <= |path| && path[|path| - |e|..] == e
    requires e[0] == '.' && '.' !in e[1..]
    ensures Extension(path) == Some(e)
  {
    assert path[|path| - |e|] == '.';
  }

  lemma ExtensionExamples()
    ensures Extension("c.tar.gz") == Some(".gz")
    ensures Extension("a.ts") == Some(".ts")
    ensures Extension("b") == None
    ensures Extension("dir.v1/file") == Some(".v1/file")
  {
    ExtExampleGz();
    ExtExampleTs();
    ExtExampleNone();
    ExtExampleDir();
  }

  lemma ExtExampleGz() ensures Extension("c.tar.gz") == Some(".gz") {
    var path, e := "c.tar.gz", ".gz";
    assert path[|path| - |e|..] == e;
    assert '.' !in e[1..];
    ExtensionIsLastDotSuffix(path, e);
  }
  lemma ExtExampleTs() ensures Extension("a.ts") == Some(".ts") {
    var path, e := "a.ts", ".ts";
    assert path[|path| - |e|..] == e;
    assert '.' !in e[1..];
    ExtensionIsLastDotSuffix(path, e);
  }
  lemma ExtExampleNone() ensures Extension("b") == None {
  }
  lemma ExtExampleDir() ensures Extension("dir.v1/file") == Some(".v1/file") {
    var path, e := "dir.v1/file", ".v1/file";
    assert path[|path| - |e|..] == e;
    assert '.' !in e[1..];
    ExtensionIsLastDotSuffix(path, e);
  }

  // ---------------------------------------------------------------------
  // Extension index
  // ---------------------------------------------------------------------

  /** `e` is the extension of some path in `files`. */
  predicate HasExtensionIn(files: seq<string>, e: string) {
    exists p :: p in files && Extension(p) == Some(e)
  }

  /** The `map` + `filter` of the extension effect: each path's extension in
      file order, extension-less paths skipped. */
  function ExtensionList(files: seq<string>): (exts: seq<string>)
    ensures forall e :: e in exts <==> HasExtensionIn(files, e)
  {
    if |files| == 0 then []
    else
      var rest := ExtensionList(files[1..]);
      assert forall e :: HasExtensionIn(files, e) <==>
        Extension(files[0]) == Some(e) || HasExtensionIn(files[1..], e) by {
        forall e ensures HasExtensionIn(files, e) ==>
          Extension(files[0]) == Some(e) || HasExtensionIn(files[1..], e) {
          if HasExtensionIn(files, e) {
            var p :| p in files && Extension(p) == Some(e);
            if p != files[0] {
              assert p in files[1..];
            }
          }
        }
      }
      match Extension(files[0])
      case Some(e) => [e] + rest
      case None => rest
  }

  /** `Array.from(new Set(exts)).sort()`. */
  function DeriveExtensions(files: seq<string>): (r: seq<string>)
    ensures StringOrder.StrictlySorted(r)
    ensures forall i, j :: 0 <= i < j < |r| ==> r[i] != r[j]
    ensures forall e :: e in r <==> HasExtensionIn(files, e)
  {
    var r := StringOrder.SortedUnique(ExtensionList(files));
    StringOrder.StrictlySortedHasNoDuplicates(r);
    r
  }

  /** The index is THE sorted list of extensions: any strictly sorted list
      holding exactly the extensions of `files` is equal to it. */
  lemma DerivedExtensionsAreCanonical(files: seq<string>, xs: seq<string>)
    requires StringOrder.StrictlySorted(xs)
    requires forall e :: e in xs <==> HasExtensionIn(files, e)
    ensures DeriveExtensions(files) == xs
  {
    StringOrder.StrictlySortedIsUnique(DeriveExtensions(files), xs);
  }

  lemma DeriveExtensionsExample()
    ensures DeriveExtensions(["a.ts", "b", "c.tar.gz"]) == [".gz", ".ts"]
  {
    ExtensionListExample();
    SortExample();
  }

  lemma ExtensionListExample()
    ensures ExtensionList(["a.ts", "b", "c.tar.gz"]) == [".ts", ".gz"]
  {
    ExtExampleGz();
    ExtExampleTs();
    ExtExampleNone();
    ExtensionListTail();
    var files := ["a.ts", "b", "c.tar.gz"];
    assert files[1..] == ["b", "c.tar.gz"];
  }

  lemma ExtensionListTail()
    ensures ExtensionList(["b", "c.tar.gz"]) == [".gz"]
  {
    ExtExampleGz();
    ExtExampleNone();
    var files := ["b", "c.tar.gz"];
    assert files[1..] == ["c.tar.gz"];
    assert ExtensionList(["c.tar.gz"]) == [".gz"];
  }

  lemma SortExample()
    ensures StringOrder.SortedUnique([".ts", ".gz"]) == [".gz", ".ts"]
  {
    assert StringOrder.SortedUnique([".ts"]) == [".ts"];
    assert StringOrder.Below(".gz", ".ts");
  }

  // ---------------------------------------------------------------------
  // Extension filter
  // ---------------------------------------------------------------------

  /** The filter callback: the path has an extension and it is selected. */
  predicate Matches(path: string, selected: seq<string>) {
    Extension(path).Some? && Extension(path).value in selected
  }

  /** `files.filter(...)`: the matching paths, in order, each occurrence kept. */
  function Keep(files: seq<string>, selected: seq<string>): (r: seq<string>)
    ensures IsSubsequence(r, files)
    ensures forall p :: multiset(r)[p] == if Matches(p, selected) then multiset(files)[p] else 0
  {
    if |files| == 0 then []
    else
      var rest := Keep(files[1..], selected);
      assert files == [files[0]] + files[1..];
      if Matches(files[0], selected) then [files[0]] + rest else rest
  }

  /** The filter effect: no selection shows every file; otherwise only the
      files whose extension is selected. */
  function Filter(files: seq<string>, selected: seq<string>): (r: seq<string>)
    ensures |selected| == 0 ==> r == files
    ensures IsSubsequence(r, files)
    ensures forall p :: p in r ==> p in files
    ensures |selected| > 0 ==>
      (forall p :: multiset(r)[p] == if Matches(p, selected) then multiset(files)[p] else 0)
  {
    if |selected| == 0 then
      SubsequenceReflexive(files);
      files
    else
      var r := Keep(files, selected);
      forall p | p in r ensures p in files {
        assert multiset(r)[p] > 0;
      }
      r
  }

  lemma {:induction false} KeepIdempotent(files: seq<string>, selected: seq<string>)
    ensures Keep(Keep(files, selected), selected) == Keep(files, selected)
    decreases |files|
  {
    if |files| > 0 {
      KeepIdempotent(files[1..], selected);
      var rest := Keep(files[1..], selected);
      if Matches(files[0], selected) {
        assert ([files[0]] + rest)[1..] == rest;
      }
    }
  }

  /** Filtering the filtered list again with the same selection changes nothing. */
  lemma FilterIdempotent(files: seq<string>, selected: seq<string>)
    ensures Filter(Filter(files, selected), selected) == Filter(files, selected)
  {
    if |selected| > 0 {
      KeepIdempotent(files, selected);
    }
  }

  /** With a selection, an extension-less path is never shown. */
  lemma FilterDropsExtensionless(files: seq<string>, selected: seq<string>, p: string)
    requires |selected| > 0 && '.' !in p
    ensures p !in Filter(files, selected)
  {
    assert multiset(Filter(files, selected))[p] == 0;
  }

  // ---------------------------------------------------------------------
  // Extension selection
  // ---------------------------------------------------------------------

  /** `toggleExtension`: removes `ext` when selected, appends it otherwise. */
  function Toggle(selected: seq<string>, ext: string): (r: seq<string>)
    ensures ext in r <==> ext !in selected
    ensures forall e :: e != ext ==> (e in r <==> e in selected)
    ensures Without(r, ext) == Without(selected, ext)
    ensures NoDuplicates(selected) ==> NoDuplicates(r)
  {
    if ext in selected then
      WithoutTwice(selected, ext);
      Without(selected, ext)
    else
      WithoutAppended(selected, ext);
      selected + [ext]
  }

  /** Toggling an unselected extension on and off again restores the
      selection exactly. */
  lemma ToggleTwiceRestores(selected: seq<string>, ext: string)
    requires ext !in selected
    ensures Toggle(Toggle(selected, ext), ext) == selected
  {
    WithoutAppended(selected, ext);
  }

  /** Toggling a selected extension off and on again moves it to the end. */
  lemma ToggleTwiceReorders()
    ensures Toggle(Toggle([".a", ".b"], ".a"), ".a") == [".b", ".a"]
  {
    assert Without([".b"], ".a") == [".b"];
    assert Without([".a", ".b"], ".a") == [".b"];
  }

  // ---------------------------------------------------------------------
  // State and transitions
  // ---------------------------------------------------------------------

  /** What the two `useEffect` hooks maintain once they have run: the
      filtered list follows `files` and the selection, and the extension
      index follows `files` whenever `files` is non-empty. */
  predicate Consistent(s: Fetcher) {
    && s.filteredFiles == Filter(s.files, s.selectedExtensions)
    && (|s.files| > 0 ==> s.extensions == DeriveExtensions(s.files))
  }

  /** Runs the two effects after a render: the extension effect rewrites
      `extensions` only when `files` is non-empty; the filter effect always
      rewrites `filteredFiles`. */
  function Settle(s: Fetcher): (r: Fetcher)
    ensures Consistent(r)
    ensures r.(filteredFiles := s.filteredFiles, extensions := s.extensions) == s
    ensures |s.files| == 0 ==> r.extensions == s.extensions
    ensures |s.selectedExtensions| == 0 ==> r.filteredFiles == s.files
  {
    var exts := if |s.files| > 0 then DeriveExtensions(s.files) else s.extensions;
    s.(extensions := exts, filteredFiles := Filter(s.files, s.selectedExtensions))
  }

  lemma InitialIsConsistent()
    ensures Consistent(Initial())
  {
  }

  /** The text field's `onChange`. */
  function EditLink(s: Fetcher, text: string): (r: Fetcher)
    ensures r.githubLink == text
    ensures r.(githubLink := s.githubLink) == s
    ensures Consistent(s) ==> Consistent(r)
  {
    s.(githubLink := text)
  }

  /** The media types `handleDrop` accepts as a ZIP archive. */
  predicate IsZipType(mediaType: string) {
    mediaType == "application/zip" || mediaType == "application/x-zip-compressed"
  }

  /** The display text `handleZipFile` puts into the link field. */
  function ZipLabel(name: string): string {
    name + " (Uploaded ZIP file)"
  }

  /** `handleDrop` and `handleZipFile`: only the first dropped file is looked
      at; a ZIP archive becomes the pending upload, anything else changes
      nothing. */
  function Drop(s: Fetcher, dropped: seq<Upload>): (r: Fetcher)
    ensures r != s ==> |dropped| > 0 && IsZipType(dropped[0].mediaType)
    ensures |dropped| > 0 && IsZipType(dropped[0].mediaType) ==>
      && r.file == Some(dropped[0])
      && r.fileName == Some(dropped[0].name)
      && r.githubLink == ZipLabel(dropped[0].name)
    ensures r.(file := s.file, fileName := s.fileName, githubLink := s.githubLink) == s
    ensures Consistent(s) ==> Consistent(r)
  {
    if |dropped| > 0 && IsZipType(dropped[0].mediaType) then
      var f := dropped[0];
      s.(file := Some(f), fileName := Some(f.name), githubLink := ZipLabel(f.name))
    else
      s
  }

  /** `handleRemoveFile`: back to the first-render state, except that the
      session identifier is kept. */
  function RemoveFile(s: Fetcher): (r: Fetcher)
    ensures r.file.None? && r.fileName.None? && r.githubLink == ""
    ensures r.files == [] && r.filteredFiles == [] && r.extensions == [] && r.selectedExtensions == []
    ensures !r.showFiles
    ensures r.sessionId == s.sessionId
    ensures Consistent(r)
  {
    Settle(s.(file := None, fileName := None, githubLink := "", files := [],
              filteredFiles := [], showFiles := false, extensions := [], selectedExtensions := []))
  }

  lemma RemoveFileIdempotent(s: Fetcher)
    ensures RemoveFile(RemoveFile(s)) == RemoveFile(s)
  {
  }

  /** The "Clear filters" button: one step to an empty selection, after which
      every file is shown again. */
  function ClearFilters(s: Fetcher): (r: Fetcher)
    ensures r.selectedExtensions == []
    ensures r.filteredFiles == s.files && r.files == s.files
    ensures Consistent(s) ==> r.extensions == s.extensions
    ensures Consistent(r)
    ensures r.(selectedExtensions := s.selectedExtensions, filteredFiles := s.filteredFiles, extensions := s.extensions) == s
  {
    Settle(s.(selectedExtensions := []))
  }

  /** A chip's `onClick`: toggle the extension, then re-filter. */
  function ToggleExtension(s: Fetcher, ext: string): (r: Fetcher)
    ensures r.selectedExtensions == Toggle(s.selectedExtensions, ext)
    ensures r.files == s.files && r.sessionId == s.sessionId
    ensures Consistent(s) ==> r.extensions == s.extensions
    ensures Consistent(r)
    ensures r.filteredFiles == Filter(r.files, r.selectedExtensions)
    ensures r.(selectedExtensions := s.selectedExtensions, filteredFiles := s.filteredFiles, extensions := s.extensions) == s
  {
    Settle(s.(selectedExtensions := Toggle(s.selectedExtensions, ext)))
  }

  // ---------------------------------------------------------------------
  // Submitting to the backend
  // ---------------------------------------------------------------------

  /** The multipart form `handleFormSubmit` posts to `/go`. */
  datatype IngestForm = IngestForm(githubLink: Option<string>, file: Option<Upload>)

  /** The backend's answer as the component sees it: a `2xx` with a session
      and the file list, or anything else (an error status, a body that is
      not JSON, a transport failure). */
  datatype Reply = Accepted(sessionId: string, filePaths: seq<string>) | Rejected

  /** The request the submit handler sends, if any: no request without a
      link or a file; otherwise the non-empty link and the file, each when
      present. */
  function IngestRequest(s: Fetcher): (r: Option<IngestForm>)
    ensures r.None? <==> s.githubLink == "" && s.file.None?
    ensures r.Some? ==> r.value.file == s.file
    ensures r.Some? ==> (r.value.githubLink.Some? <==> s.githubLink != "")
    ensures r.Some? && r.value.githubLink.Some? ==> r.value.githubLink.value == s.githubLink
  {
    if s.githubLink == "" && s.file.None? then None
    else
      var link := if s.githubLink != "" then Some(s.githubLink) else None;
      Some(IngestForm(link, s.file))
  }

  /** The request the submit handler is evidently meant to send: the same,
      except that the display label of the attached archive is not a link
      and is not sent as one. */
  function IntendedIngestRequest(s: Fetcher): (r: Option<IngestForm>)
    ensures r.None? <==> IngestRequest(s).None?
    ensures r.Some? ==> r.value.file == s.file
    ensures r.Some? && r.value.githubLink.Some? ==> r.value.githubLink.value == s.githubLink
    ensures r.Some? && r.value.githubLink.Some? && s.file.Some? ==>
      s.githubLink != ZipLabel(s.file.value.name)
    ensures s.githubLink != "" && (s.file.None? || s.githubLink != ZipLabel(s.file.value.name)) ==>
      r == Some(IngestForm(Some(s.githubLink), s.file))
    ensures s.file.None? ==> r == IngestRequest(s)
  {
    if s.githubLink == "" && s.file.None? then None
    else
      var isLabel := s.file.Some? && s.githubLink == ZipLabel(s.file.value.name);
      var link := if s.githubLink != "" && !isLabel then Some(s.githubLink) else None;
      Some(IngestForm(link, s.file))
  }

  /** `handleFormSubmit` once the awaited reply is in. The handler does not
      look at the state again after the `fetch`, so the reply lands on
      whatever the state is by then: a failure leaves it alone; a success
      replaces the session and the file list wholesale, shows the list and
      clears the extension selection. */
  function Receive(s: Fetcher, reply: Reply): (r: Fetcher)
    ensures reply.Rejected? ==> r == s
    ensures reply.Accepted? ==>
      && r.sessionId == reply.sessionId
      && r.files == reply.filePaths
      && r.filteredFiles == reply.filePaths
      && r.showFiles
      && r.selectedExtensions == []
      && (|reply.filePaths| > 0 ==> r.extensions == DeriveExtensions(reply.filePaths))
      && (|reply.filePaths| == 0 ==> r.extensions == s.extensions)
      && r.file == s.file && r.fileName == s.fileName && r.githubLink == s.githubLink
    ensures Consistent(s) ==> Consistent(r)
  {
    match reply
    case Rejected => s
    case Accepted(sid, paths) =>
      Settle(s.(sessionId := sid, files := paths, showFiles := true, selectedExtensions := []))
  }

  /** A reply that arrives after the user removed the file still fills the
      list: the removed upload stays removed, but the files of the request in
      flight are shown again. */
  lemma LateReplyAfterRemove(s: Fetcher, sid: string, paths: seq<string>)
    requires |paths| > 0
    ensures var r := Receive(RemoveFile(s), Accepted(sid, paths));
      && RemoveFile(s).files == [] && !RemoveFile(s).showFiles
      && r.file.None? && r.githubLink == ""
      && r.files == paths && r.showFiles && r.sessionId == sid
  {
  }

  /** Whatever sequence of events the user produces, the derived views agree
      with `files` and the selection once the effects have run. */
  lemma {:induction false} EventsPreserveConsistency(s: Fetcher, events: seq<Event>)
    requires Consistent(s)
    ensures Consistent(Run(s, events))
    decreases |events|
  {
    if |events| > 0 {
      EventsPreserveConsistency(Step(s, events[0]), events[1..]);
    }
  }

  /** The user-visible events of the component. */
  datatype Event =
    | Type(text: string)
    | DropFiles(dropped: seq<Upload>)
    | RemoveFileClicked
    | ClearFiltersClicked
    | ExtensionClicked(ext: string)
    | SubmitClicked
    | ReplyArrived(reply: Reply)

  /** One event. Submitting only sends `IngestRequest(s)`, if any; the state
      changes when its reply arrives, possibly after other events and other
      submissions. */
  function Step(s: Fetcher, e: Event): (r: Fetcher)
    ensures e.SubmitClicked? ==> r == s
    ensures Consistent(s) ==> Consistent(r)
  {
    match e
    case Type(text) => EditLink(s, text)
    case DropFiles(dropped) => Drop(s, dropped)
    case RemoveFileClicked => RemoveFile(s)
    case ClearFiltersClicked => ClearFilters(s)
    case ExtensionClicked(ext) => ToggleExtension(s, ext)
    case SubmitClicked => s
    case ReplyArrived(reply) => Receive(s, reply)
  }

  function Run(s: Fetcher, events: seq<Event>): Fetcher
    decreases |events|
  {
    if |events| == 0 then s else Run(Step(s, events[0]), events[1..])
  }
}

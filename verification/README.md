# copy_bot ingestion core in Dafny

The app has two parts:

- A Next.js frontend. Its `FileFetcher` component takes a GitHub repository link or a dropped ZIP archive. It posts the input to the backend and shows the returned file list. The user can filter that list by file extension.
- A Flask backend. Its `/go` endpoint clones the repository or extracts the archive into a fresh temporary folder. It records the folder under a new session id and returns the relative paths of the files. Its `/merge_codes` endpoint concatenates requested files of a session into one text, each headed by its name.

This project models the deterministic logic of both parts as pure functions over immutable values. Everything else arrives as a parameter: network, `git`, zip extraction, `os.walk`, file reading, `uuid` and `tempfile`.

| file | module | what it holds |
|---|---|---|
| `wrappers.dfy` | `Wrappers` | `Option` |
| `text.dfy` | `Text` | the Python and JavaScript string operations the code relies on: `split` on one character, `str.replace` (all occurrences), `strip`, `rstrip`, `startswith`, `endswith`, `in`, `os.path.basename`, and their laws |
| `lists.dfy` | `Lists` | subsequences, duplicate-freedom, removal of every occurrence of a value |
| `order.dfy` | `StringOrder` | the default `Array.prototype.sort` order on strings, strictly sorted insertion, uniqueness of a strictly sorted list |
| `fetcher.dfy` | `FileFetcher` | the component state and its handlers |
| `github.dfy` | `GithubLink` | `parse_github_link`, `is_valid_github_repo` |
| `server.dfy` | `Server` | `list_all_files_in_folder`, `/go`, `/merge_codes` |
| `ingest.dfy` | `Ingest` | one submission end to end: component → `/go` → component |

How the component is modelled:

- React state is one `Fetcher` record, and each handler is a function from the state before the event to the state after it.
- `Settle` stands for the two `useEffect` hooks running after a render.
- `Consistent` is what those hooks maintain: `filteredFiles` agrees with the files and the selection, and the extension list agrees with the files whenever there are any.
- `EventsPreserveConsistency` proves that every sequence of user events keeps `Consistent`.
- Submitting is two events, because the handler awaits the `fetch`. `SubmitClicked` sends `IngestRequest(s)` and changes no state. `ReplyArrived` applies the reply to whatever the state is by then. Other events, and other submissions, may come in between.

How `/go` is modelled:

- It receives a `World`. The World holds:
  - the session id and folder;
  - the GitHub API answer as a function of owner and repository;
  - the outcomes of `git clone`, of saving the upload and of extraction;
  - the `os.walk` result.
- The clone and the extraction each end in an `Outcome`: `Done`, `Refused` or `Crashed`.
  - `Done` means the step succeeded.
  - `Refused` is the exception the handler catches itself and answers with 400.
  - `Crashed` is any other exception, which the outer `except` answers with 500.
- Saving the upload ends in `saveError: Option<string>`. `None` means the file was saved. `Some(message)` is an exception, which the outer `except` answers with 500.

How `/merge_codes` is modelled:

- It receives a folder-existence predicate and a function from path to `Readable(content)`, `Missing` or `Unreadable(message)`.

## Model

| member | source | states |
|---|---|---|
| FileFetcher.Extension | frontend/src/components/fileFetcher.tsx:27-28 | a path has an extension exactly when it holds a `.`; the extension is then a suffix of the path that starts with `.` and holds no other `.` |
| FileFetcher.ExtensionIsLastDotSuffix | frontend/src/components/fileFetcher.tsx:42-44 | conversely, a `.`-led suffix without a further `.` is the extension: the text after the last dot, even when that text holds a `/` |
| FileFetcher.ExtensionExamples | frontend/src/components/fileFetcher.tsx:27-28 | `c.tar.gz` gives `.gz`, `a.ts` gives `.ts`, `b` gives none, `dir.v1/file` gives `.v1/file` |
| FileFetcher.ExtensionList | frontend/src/components/fileFetcher.tsx:25-30 | the mapped and filtered list holds exactly the extensions of paths in the list |
| FileFetcher.DeriveExtensions | frontend/src/components/fileFetcher.tsx:31 | the extension index is strictly sorted, has no duplicates and holds exactly the extensions of the files |
| FileFetcher.DerivedExtensionsAreCanonical | frontend/src/components/fileFetcher.tsx:31 | any strictly sorted list with exactly those extensions equals the index, so the index is determined by the set of extensions alone |
| FileFetcher.DeriveExtensionsExample | frontend/src/components/fileFetcher.tsx:23-34 | `["a.ts", "b", "c.tar.gz"]` gives `[".gz", ".ts"]` |
| FileFetcher.Keep | frontend/src/components/fileFetcher.tsx:41-48 | the kept list is a subsequence of the files and holds each matching path as often as the files do and no other path |
| FileFetcher.Filter | frontend/src/components/fileFetcher.tsx:37-51 | an empty selection shows every file; otherwise an order-preserving subsequence holding every file whose extension is selected, with its multiplicity, and nothing else |
| FileFetcher.FilterIdempotent | frontend/src/components/fileFetcher.tsx:41-49 | filtering the filtered list again with the same selection changes nothing |
| FileFetcher.FilterDropsExtensionless | frontend/src/components/fileFetcher.tsx:43-47 | with a selection, a path without a `.` is never shown |
| FileFetcher.Toggle | frontend/src/components/fileFetcher.tsx:89-95 | `ext` becomes selected exactly when it was not; every other extension keeps its membership; removing `ext` from before and after gives the same list; no duplicates are introduced |
| FileFetcher.ToggleTwiceRestores | frontend/src/components/fileFetcher.tsx:89-95 | toggling an unselected extension twice restores the selection exactly |
| FileFetcher.ToggleTwiceReorders | frontend/src/components/fileFetcher.tsx:91-93 | toggling a selected extension twice moves it to the end, so only the other order restores |
| FileFetcher.Settle | frontend/src/components/fileFetcher.tsx:23-51 | after the effects the state is consistent; only the two derived fields change; with no files the previous index is kept; with no selection the filtered list is the file list |
| FileFetcher.InitialIsConsistent | frontend/src/components/fileFetcher.tsx:12-19 | the first-render state is consistent |
| FileFetcher.EditLink | frontend/src/components/fileFetcher.tsx:155 | typing sets the link and nothing else |
| FileFetcher.Drop | frontend/src/components/fileFetcher.tsx:107-126 | a drop changes the state only when its first file has a ZIP media type; then the file, its name and the display label are set and nothing else changes |
| FileFetcher.RemoveFile | frontend/src/components/fileFetcher.tsx:128-137 | the upload, the name, the link, the files, the filtered files, the index and the selection are emptied, the list is hidden, and the session id is kept |
| FileFetcher.RemoveFileIdempotent | frontend/src/components/fileFetcher.tsx:128-137 | removing twice is removing once |
| FileFetcher.ClearFilters | frontend/src/components/fileFetcher.tsx:252 | one click empties the selection and every file is shown again, with the index untouched; no other field changes |
| FileFetcher.ToggleExtension | frontend/src/components/fileFetcher.tsx:221 | a chip click toggles the selection, re-filters, and leaves the files, the session and the index alone; no other field changes |
| FileFetcher.IngestRequest | frontend/src/components/fileFetcher.tsx:56-66 | no request when there is neither a link nor a file; otherwise the link is sent exactly when non-empty, and the file when present |
| FileFetcher.IntendedIngestRequest | frontend/src/components/fileFetcher.tsx:60-66 | the corrected request: a request exactly when there was one before, the same file, and never the archive's display label as a link; any other non-empty link is sent as is |
| FileFetcher.Receive | frontend/src/components/fileFetcher.tsx:67-86 | the reply applies to the state current when it arrives: on any failure that state is unchanged; on success the session, the files and the filtered files are replaced wholesale, the list is shown, the selection is cleared, the index follows the new files when there are any, and the upload and link are kept |
| FileFetcher.LateReplyAfterRemove | frontend/src/components/fileFetcher.tsx:67-86 | a successful reply that arrives after "Remove" shows its files again, while the removed upload and link stay cleared |
| FileFetcher.EventsPreserveConsistency | frontend/src/components/fileFetcher.tsx:23-137 | every sequence of user events keeps the derived views in agreement with the files and the selection |
| FileFetcher.Step | frontend/src/components/fileFetcher.tsx:54-137 | each single event preserves consistency; a submit click by itself changes no state |
| GithubLink.Normalize | backend/app.py:21 | normalisation never lengthens the link |
| GithubLink.NormalizeMayLeaveGit | backend/app.py:21 | one removal pass can join the text around a removed `.git` into a new one: `..gitgit` normalises to `.git`, and that to the empty string, so normalising is not idempotent |
| GithubLink.NormalizeKeepsCharacters | backend/app.py:21 | normalisation introduces no character that was not in the link |
| GithubLink.ParseSsh | backend/app.py:24-30 | an SSH result has a non-empty, `/`-free owner and a non-empty repository, and the prefix-free rest is `owner/repo` |
| GithubLink.SshSplitComplete | backend/app.py:25-29 | conversely, whenever the rest splits at a `/` into a non-empty, `/`-free owner and a non-empty repository, that pair is the result |
| GithubLink.ParseHttps | backend/app.py:33-41 | an HTTPS result comes from a link that mentions `github.com` and has at least five `/`-pieces, with a non-empty, `/`-free owner and repository |
| GithubLink.ParseHttpsComplete | backend/app.py:33-39 | conversely, a link mentioning `github.com` with at least five `/`-pieces whose last two are non-empty parses to those two pieces |
| GithubLink.HttpsPiecesAreTail | backend/app.py:34-39 | the HTTPS result is the link's final `/owner/repo` |
| GithubLink.ParseGithubLink | backend/app.py:17-41 | every result has a non-empty owner and repository, the owner without `/` |
| GithubLink.IsValidGithubRepo | backend/app.py:43-57 | a link is valid exactly when it parses and the API finds the parsed owner and repository |
| GithubLink.HttpsRoundTrip | backend/app.py:17-41 | `https://github.com/owner/repo.git` parses to `(owner, repo)` for non-empty names without `/` or `.git` |
| GithubLink.SshRoundTrip | backend/app.py:17-30 | `git@github.com:owner/repo.git` parses to `(owner, repo)` for non-empty names without `.git` or `:` and an owner without `/` |
| GithubLink.TrailingSlashIgnored | backend/app.py:21 | a trailing `/` does not change the result |
| GithubLink.GitSuffixIgnored | backend/app.py:21 | a trailing `.git` does not change the result |
| GithubLink.SameNormalSameParse | backend/app.py:21-41 | links with the same normal form parse alike |
| GithubLink.GitInfixRemoved | backend/app.py:21 | every `.git` is removed, not only a suffix: `https://github.com/user/user.github.io` parses to `("user", "userhub.io")` |
| GithubLink.SshFailureIsFinal | backend/app.py:24-30 | an SSH-prefixed link that the SSH branch refuses gives no result, even where the HTTPS branch would find a pair |
| GithubLink.SlashFreeNeverParses | backend/app.py:24-41 | a link without `/` never parses |
| Server.PathJoin | backend/app.py:79 | an absolute second part replaces the first; otherwise the parts are joined by exactly one `/`, which is added only when the first part is non-empty and does not already end in one |
| Server.RelativePath | backend/app.py:76-80 | the slice is the suffix of the path that starts after the stripped folder and one separator; it is empty exactly when the path is no longer than that |
| Server.RelativePathOfJoined | backend/app.py:76-80 | for `folder'/rel`, with `folder'` the folder without trailing `/`, the relative path is exactly `rel` |
| Server.WalkedFileIsRelative | backend/app.py:77-80 | a file walked at the top of the folder is listed by its name, and one in sub-folder `sub` as `sub/name` |
| Server.ListAllFiles | backend/app.py:71-82 | the loops produce the listing: every walked file's relative path, in walk order |
| Server.TopLevelListing | backend/app.py:71-82 | a folder whose files sit at its top level is listed as exactly those names |
| Server.Go | backend/app.py:84-143 | status is 200, 400 or 500; 200 exactly when the link branch succeeds or, without a link, the upload branch succeeds; on 200 the body carries the session and the listing and the session map gains exactly that entry; otherwise an error body and an unchanged map; each refusal has its own message; 500 exactly when a valid link's clone crashes or, without a link, a `.zip` upload fails to save or its extraction crashes, with that exception's text as the error |
| Server.LinkTakesPrecedence | backend/app.py:96-109 | with a non-empty link the uploaded file plays no part |
| Server.EmptyLinkIsNoLink | backend/app.py:96-109 | an empty link is no link |
| Server.GoRecordsOneSession | backend/app.py:133 | on success exactly the new session is added; every other session is kept; on failure nothing is added |
| Server.EmptyArchiveAccepted | backend/app.py:115-127 | as written, an archive with no entries is accepted and listed as containing itself |
| Server.WalkWithoutArchive | backend/app.py:115-119 | the corrected walk drops the saved archive from the folder's top level and keeps everything else |
| Server.GoFixedDropsArchive | backend/app.py:109-139 | for an upload, the corrected handler lists what the written one lists minus the archive's name, and succeeds exactly when the written one does and that leaves a file; an upload the written handler refuses is refused with the same response; one it accepts with nothing else listed is refused as empty |
| Server.ListingWithoutArchive | backend/app.py:71-82 | walking without the archive lists the written listing minus the archive's name, however deep the tree |
| Server.EmptyArchiveRefused | backend/app.py:124-127 | with the correction, an archive with no entries is refused as empty |
| Server.ArchiveNeverListed | backend/app.py:115-139 | with the correction, the archive never appears in its own listing, however deep the extracted tree |
| Server.NestedPathHasSeparator | backend/app.py:77-80 | a file in a sub-folder is listed by a path holding a `/` |
| Server.ListingAvoids | backend/app.py:71-82 | a name without `/` that no top-level entry holds is not in the listing |
| Server.Block | backend/app.py:164-176 | each requested path contributes a block that starts with `[` and ends with a blank line |
| Server.MergeCodes | backend/app.py:145-178 | a missing session id, then an empty path list, then an unknown or vanished session each give their 400; status is 200 exactly when all checks pass, and then the text is one block per requested path in order |
| Server.BlocksAppend | backend/app.py:163-176 | the text for a concatenation of requests is the concatenation of their texts, so repeated paths repeat their blocks |
| Server.BlocksFront | backend/app.py:164-176 | the first requested path's block comes first |
| Server.ReadableHeader | backend/app.py:165-174 | a readable file is headed by the base name of the requested path, for any path: empty, relative or absolute |
| Server.AbsolutePathIgnoresFolder | backend/app.py:165-166 | an absolute `file_path` is read as is, so its block does not depend on the session's folder |
| Ingest.ToGoRequest | frontend/src/components/fileFetcher.tsx:60-66 | the backend sees the link as sent and the file by its name |
| Ingest.ReplyOf | frontend/src/components/fileFetcher.tsx:73-83 | a reply is accepted exactly for a 2xx status with a session body |
| Ingest.Ingest | frontend/src/components/fileFetcher.tsx:54-87 | a submission with input lands in the state exactly as the corrected `/go` answers: unchanged on failure; on success the session, its folder in the server map, the files, the shown list and the cleared selection, with the upload, its name and the link kept; consistency preserved |
| Ingest.IngestedSessionIsKnown | backend/app.py:133-138 | after a successful submission the component's session is in the server map, pointing at the listed folder |
| Ingest.DroppedArchiveRefused | frontend/src/components/fileFetcher.tsx:121-126 | as written, a dropped archive is sent with its label as link and `/go` refuses it with 400 "Invalid GitHub repository URL", leaving the component unchanged |
| Ingest.DroppedArchiveUploaded | frontend/src/components/fileFetcher.tsx:60-66 | with the correction, a dropped archive reaches the upload branch and succeeds exactly when it is a `.zip` that saves, extracts and holds a file |
| Text.Split | backend/app.py:34 | a split has at least one piece, exactly one when the separator is absent, and no piece holds the separator |
| Text.RemoveAll | backend/app.py:21-25 | removing every occurrence never lengthens the text |
| Text.RemoveAllAbsent | backend/app.py:21-25 | a text without the pattern is unchanged |
| Text.Strip | backend/app.py:21 | the result is a slice of the text with only white space before and after it, and it neither starts nor ends with white space; so it is empty for an all-space text and the text itself when that neither starts nor ends with white space |
| Text.RStrip | backend/app.py:21 | the result is the longest prefix not ending in the character: only that character is dropped, and only at the end |
| Text.Basename | backend/app.py:173 | the base name is the `/`-free suffix after the last `/`, or the whole path without one |
| Text.RemoveAllKeepsCharacters | backend/app.py:21 | `str.replace(old, '')` keeps only characters of its input |
| Text.JoinSplit | backend/app.py:34 | joining the pieces of a split with the separator gives back the text |
| Text.LastPieceIsTail | frontend/src/components/fileFetcher.tsx:27-28 | the last piece of a split is the text after the last separator |
| StringOrder.BelowIrreflexive | frontend/src/components/fileFetcher.tsx:31 | no string sorts before itself |
| StringOrder.BelowTransitive | frontend/src/components/fileFetcher.tsx:31 | the order is transitive |
| StringOrder.BelowTotal | frontend/src/components/fileFetcher.tsx:31 | of two different strings one sorts first |
| StringOrder.PrefixBelow | frontend/src/components/fileFetcher.tsx:31 | a proper prefix sorts first |
| StringOrder.DifferenceBelow | frontend/src/components/fileFetcher.tsx:31 | otherwise the first differing character decides |
| StringOrder.Insert | frontend/src/components/fileFetcher.tsx:31 | insertion keeps the list strictly sorted and adds exactly the new element |
| StringOrder.StrictlySortedIsUnique | frontend/src/components/fileFetcher.tsx:31 | two strictly sorted lists with the same elements are equal |
| StringOrder.SortedUnique | frontend/src/components/fileFetcher.tsx:31 | de-duplication and sorting give a strictly sorted list with the same elements |

## Left out

- Rendering: JSX, the `isDragging` state, `alert` and `console` output are not modelled. They change no state the logic reads.
- Transport: `fetch` is not modelled. A network failure, an error status and a non-JSON body all reach the component as `Rejected`.
- Uncaught exceptions: the outer `except` of `/go` is modelled through `Crashed` outcomes. An exception from `os.walk` itself is not modelled separately.
- Oracles: the GitHub API request, `git clone`, saving and extracting the archive, `os.walk`, `os.path.isfile`/`os.path.exists`, file reading and UTF-8 decoding, `uuid4`, `mkdtemp` and `rmtree` are all parameters. `rmtree` on failure has no visible effect, so it is left out.
- Upload truthiness: werkzeug's `FileStorage` is treated as falsy exactly when its file name is empty. That code is not part of this model.
- Sort order: the extension list is sorted by character order. JavaScript compares UTF-16 code units, which agrees on every string inside the Basic Multilingual Plane only.
- Paths: paths are POSIX, with `os.sep` equal to `/`.
- Other files: `frontend/src/app/page.tsx`, `frontend/src/components/GitHubUploader.tsx` and `frontend/src/app/layout.tsx` are presentational or dead code and are not part of this model.
- Server.MergeCodes: the response headers are not modelled. `folder_path` being falsy is modelled as the empty string.
- GithubLink.HttpsRoundTrip: names holding `.git` are excluded, because normalisation removes every occurrence (see `GitInfixRemoved`).
- GithubLink.TrailingSlashIgnored: the link must not end in white space. `strip` runs before `rstrip('/')`, so `"x /"` normalises to `"x "` while `"x "` normalises to `"x"`.
- GithubLink.GitSuffixIgnored: the link must not end in white space or `/`, for the same reason.
- GithubLink.SshRoundTrip: names holding `:` are excluded. The SSH branch removes every occurrence of `git@github.com:` (app.py line 25), not only the leading one. A name that itself holds that prefix would be altered, and excluding `:` rules this out.
- Server.ArchiveNeverListed: the archive's name must not hold `/`. The correction compares the names the walk reports with the raw upload name, and the two agree only for names without `/`. `sub/a.zip` cannot be saved, because the fresh folder has no `sub`, so `go` answers 500. `./a.zip` is saved at the top level but walked as `a.zip`, so even the corrected listing shows it. An absolute or `../` name is saved outside the folder. Browsers never put `/` in a file's name.
- Server.GoFixedDropsArchive: requires an archive name without `/`, for the reason given for Server.ArchiveNeverListed.
- Ingest.Ingest: the reply is applied at once to the state the request was built from. The component itself may see other events before the reply arrives; `FileFetcher.Receive` models that.

## Findings

| source | as written | input that shows it | evidently intended | confidence | as-written member | corrected member |
|---|---|---|---|---|---|---|
| frontend/src/components/fileFetcher.tsx:125 | `handleZipFile` writes the display label `<name> (Uploaded ZIP file)` into `githubLink`, and submit sends it as the `githubLink` field. `/go` tries a non-empty link first, and a label without `/` never parses, so every dropped archive is refused with 400 "Invalid GitHub repository URL". | drop `repo.zip` with type `application/zip`, then submit | the label is for display only (the comment at line 124 says so); the archive is sent as the file, without the label as link | high; not executed | Ingest.DroppedArchiveRefused | Ingest.DroppedArchiveUploaded (with FileFetcher.IntendedIngestRequest) |
| backend/app.py:115-127 | the upload is saved inside the folder it is then extracted into, and the folder is walked to decide emptiness and to build the listing. The saved archive itself is always found, so the empty-archive check never fires, and the archive is listed among its own files. | upload an empty `a.zip` that saves and extracts without error | the emptiness check and the listing are about the extracted files only | high; not executed | Server.EmptyArchiveAccepted | Server.GoFixed (with Server.GoFixedDropsArchive, Server.EmptyArchiveRefused, Server.ArchiveNeverListed) |

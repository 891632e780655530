# Action protocol engine of the VS Code assistant extension

The extension (`extension.js`) sends the user's request to an OpenAI assistant. It waits for the run to finish, then turns the assistant's text reply into changes to the open workspace. This project models that action protocol engine and proves properties of it in Dafny. The engine has three parts.

* **Reply extractor** (`extractJson`). A reply that starts with `{` and ends with `}` is taken as it is. Otherwise the engine takes the trimmed contents of the first `` ```json … ``` `` block. If there is no such block, or the block is empty, it throws.
* **Batch executor** (`handleResponse`, `executeAction`, `createFolder`, `createFile`, `editFile`).
  * The extracted text is parsed, and every element of `actions` runs in array order.
  * One `context.lastFolderPath` is shared across the whole batch. `createFolder` sets it, and a `createFile` without a `path` writes into it.
  * Each action kind builds its target with `path.join` from the workspace root, the optional `path` and a name.
  * An exception thrown synchronously by an action reaches the `catch` of `handleResponse` and ends the batch. Failures inside async bodies and filesystem callbacks do not.
* **Run poller** (`waitForRunCompletion`). It polls the run's status. It resolves on the first `completed` or `failed` status, rejects on the first failed status check, and keeps polling otherwise.

The files are:

* `wrappers.dfy`: `Option` and `Result`.
* `reply_extractor.dfy`: the regex match, `String.prototype.trim`, and `extractJson`.
* `posix_path.dfy`: Node's POSIX `path.join` and `path.isAbsolute`.
  * `Join(parts)` renders `Denote(parts)`.
  * `Denote(parts)` is the joined path normalised: empty and `.` segments dropped, `..` popping a segment or dropped at the root.
* `file_store.dfy`: the workspace as a set of directories plus a map from file to content.
  * The spec functions are `MakeDirectories`, `WriteFile` and `Exists`.
  * The class `FileSystem` changes that state in place.
* `action_engine.dfy`: what each action and a whole batch do, as spec functions (`Step`, `RunFrom`, `Respond`).
  * The methods `CreateFolder`, `CreateFile`, `EditFile`, `ExecuteAction` and `HandleResponse` work on a `FileSystem` and a `BatchContext` object. Each is proved to agree with its spec function.
* `run_poller.dfy`: `Settle` over the sequence of answers the polls receive. The method `WaitForRunCompletion` is its polling loop.

`createFolder` is `async`. As written, `context.lastFolderPath` therefore receives a Promise, not a path (see Findings). The engine here stores the value that Promise settles to: the folder path, or null. `AsWrittenStep` models the code as written.

## Model

| member | source | states |
|---|---|---|
| ReplyExtractor.IndexOfFrom | extension.js:212-213 | The position returned is an occurrence of the marker at or after the start position, with none before it. None means there is no occurrence at or after the start. |
| ReplyExtractor.FirstFence | extension.js:212-213 | The regex `` /```json([\s\S]*?)```/ `` matches at the leftmost opener that has a closer after it, and its lazy group ends at the nearest such closer. It fails to match exactly when no opener is followed by a closer. |
| ReplyExtractor.LeftmostShortestUnique | extension.js:212-213 | The match that is leftmost and then shortest is unique, so the group the regex captures is well defined. |
| ReplyExtractor.TrimStart | extension.js:215 | The result is a suffix of the input. Everything removed is JavaScript whitespace, and the result does not start with whitespace. |
| ReplyExtractor.TrimEnd | extension.js:215 | The result is a prefix of the input. Everything removed is JavaScript whitespace, and the result does not end with whitespace. |
| ReplyExtractor.Trim | extension.js:215 | `trim()` returns the slice left after removing whitespace at both ends, with no whitespace at either end. It is empty exactly when the input is all whitespace. |
| ReplyExtractor.GroupResult | extension.js:214-217 | Given a regex match, `extractJson` returns the trimmed group when the group is non-empty (truthy), and otherwise throws. |
| ReplyExtractor.ExtractJson | extension.js:207-218 | A reply for which `IsBareObject` holds (`startsWith('{') && endsWith('}')`, extension.js:208) is returned untrimmed. Otherwise: with no regex match it throws, and with a match the result is `GroupResult` of the leftmost, shortest match. |
| ReplyExtractor.ExtractOfMatch | extension.js:212-217 | Outside the fast path, `extractJson` is `GroupResult` of any leftmost, shortest match. |
| ReplyExtractor.ExtractReturnsReplyOnlyWhenBare | extension.js:208-216 | The reply is returned unchanged if and only if `IsBareObject` holds, i.e. it starts with `{` and ends with `}`. Outside that fast path, a successful result is always shorter than the reply. |
| ReplyExtractor.LeadingWhitespaceIsNotBare | extension.js:208-209 | A reply with leading whitespace never takes the fast path. |
| ReplyExtractor.MatchIgnoresLaterText | extension.js:212-213 | Appending text after the first complete fenced block, including further fenced blocks, leaves the regex match unchanged. |
| ReplyExtractor.ExtractIgnoresLaterText | extension.js:212-216 | Later fenced blocks are ignored: `extractJson` gives the same result once text is appended, whenever the fast path applies to neither reply. |
| ReplyExtractor.BlankGroupGivesEmptyDocument | extension.js:214-215 | A whitespace-only group is truthy, so the result is `""`, not the thrown error. |
| PosixPath.IsAbsolute | extension.js:282 | `path.isAbsolute`: the path starts with `/`. |
| PosixPath.SplitOnSlash | extension.js:266 | Splitting a path on `/` gives at least one piece, and no piece contains `/`. |
| PosixPath.SplitThenJoin | extension.js:266 | Rejoining the pieces of a split with `/` gives back the original string. |
| PosixPath.JoinThenSplit | extension.js:266 | Splitting a `/`-join of slash-free pieces gives back the pieces. |
| PosixPath.SplitAroundSlash | extension.js:266 | Splitting `a/b` gives the pieces of `a` followed by those of `b`. |
| PosixPath.SplitPlain | extension.js:266 | A string without `/` splits into itself. |
| PosixPath.JoinWithSlashSnoc | extension.js:266 | Joining one more piece appends `/` and that piece. |
| PosixPath.ResolveAppend | extension.js:266 | Normalising `a + b` equals normalising `a`, then `b` onto the result. |
| PosixPath.ResolveKeepsProper | extension.js:266 | Normalisation yields segments that are not empty, `.` or contain `/`. An absolute path has no `..`, and a relative one has `..` only at its front. |
| PosixPath.ResolveProperIsIdentity | extension.js:266 | Normalising an already normal segment list changes nothing. |
| PosixPath.Canon | extension.js:282 | The parsed path is absolute exactly when the string starts with `/`, and its segments are normal. |
| PosixPath.CanonOfRender | extension.js:266 | Rendering a normal path and parsing it again gives back the same path. |
| PosixPath.NonEmptySnoc | extension.js:266 | `path.join` drops empty arguments, one at a time from the end. |
| PosixPath.Join | extension.js:266 | `path.join`: drop empty arguments, join the rest with `/`, normalise the segments (`.` and empty segments dropped, `..` pops one segment), and render the result (`.` for an empty relative path). Its properties are `JoinDenotes`, `JoinIsAbsolute`, `JoinFromAbsolute`, `DenoteSnoc` and `JoinOntoJoin`. |
| PosixPath.JoinDenotes | extension.js:266 | The string `path.join` returns parses back to the normalised join of its arguments. |
| PosixPath.JoinIsAbsolute | extension.js:282 | `path.isAbsolute(path.join(...))` holds exactly when the normalised join is absolute. |
| PosixPath.JoinFromAbsolute | extension.js:282 | A join whose first argument is absolute is absolute. |
| PosixPath.DenoteSnoc | extension.js:266 | When the first argument is not empty, joining one more argument resolves its segments onto the join so far. |
| PosixPath.JoinOntoJoin | extension.js:116 | `path.join(path.join(a…), q)` denotes the same path as `path.join(a…, q)`. |
| PosixPath.ExtendByName | extension.js:266 | Joining a plain name (not empty, `.` or `..`, no `/`) appends exactly that one segment. |
| FileStore.MakeDirectories | extension.js:268 | `mkdir(p, {recursive: true})` fails exactly when `p` or a directory above it is a file. Otherwise `p` becomes a directory, the only new directories are `p` and those above it, files are unchanged, and the tree stays well formed. |
| FileStore.WriteFile | extension.js:284 | `writeFile` with flag `'w'` succeeds exactly when the target is not the root, not a directory, and its directory exists. It then sets the content, adds only that file and leaves every other file unchanged. |
| FileStore.MakeDirectoriesIdempotent | extension.js:268 | A second recursive `mkdir` of the same path changes nothing. |
| FileStore.MakeChildDirectory | extension.js:268 | In a well-formed tree, making a child of an existing directory adds exactly that directory, unless a file is in the way. |
| FileStore.AncestryOfDirectory | extension.js:268 | Every directory above an existing directory exists. |
| FileStore.FileSystem.MakeDirectory | extension.js:268 | The in-place `mkdir` leaves the state `MakeDirectories` gives, reports whether it succeeded, and keeps the tree well formed. |
| FileStore.FileSystem.WriteTo | extension.js:284 | The in-place `writeFile` leaves the state `WriteFile` gives, reports whether it succeeded, and keeps the tree well formed. |
| FileStore.FileSystem.Access | extension.js:304 | `fs.access(p, F_OK)` succeeds exactly when `p` is a file or a directory. |
| ActionEngine.FolderEffect | extension.js:262-276 | Without a workspace root or folder name, `createFolder` gives null and changes nothing. Otherwise it gives `join(root, path ?? '/', folderName)`. That folder is now a directory, the only new directories are it and those above it, and files are unchanged. It gives null, changing nothing, exactly when a file blocks the `mkdir`. |
| ActionEngine.FileEffect | extension.js:278-290 | Without a root, name or content, `createFile` changes nothing. Otherwise its target is `join(folderPath, fileName)` for an absolute folder, else `join(root, folderPath, fileName)`. When `writeFile` can write the target, the target holds the content afterwards. When it cannot, nothing changes. No directory is created, no file other than the target is added, and no other file changes. |
| ActionEngine.FileTarget | extension.js:282 | The path `createFile` writes to denotes `join(folderPath, fileName)` when `folderPath` is absolute, else `join(root, folderPath, fileName)`. With an absolute root it is absolute in both branches. |
| ActionEngine.EditTarget | extension.js:295 | `editFile` computes `join(path, fileName)` for an absolute path and `join(root, path, fileName)` for a relative one. It throws exactly when the path is missing, the name is missing, or a relative path has no root. |
| ActionEngine.EditEffect | extension.js:304-320 | The `fs.access` callback of `editFile`: the target is written only when `fs.access` finds it and content is given, and a failed write changes nothing. Its properties are in `EditFileOnlyOverwrites`. |
| ActionEngine.Step | extension.js:108-135 | `executeAction` dispatches on `type`. An action that throws changes neither the filesystem nor `lastFolderPath`, and only `createFile` and `editFile` can throw. Only `summary` posts a message. The per-kind lemmas below state the rest. |
| ActionEngine.Apply | extension.js:417-419 | One element of the `forEach`: after an earlier throw it changes nothing. Otherwise it makes exactly one call and appends at most one summary, keeping the earlier ones. A call that throws leaves the filesystem and `lastFolderPath` as they were. |
| ActionEngine.RunFrom | extension.js:417-419 | The `forEach` over `actions`, stopping after a throw. Each element makes at most one call. Summaries are only appended, at most one per call, in the order posted. A batch that has thrown stays thrown. |
| ActionEngine.RunAppend | extension.js:417-419 | Actions take effect one after another in array order: running `a + b` is running `a`, then `b` from the state `a` leaves. |
| ActionEngine.ThrownBatchStops | extension.js:417-424 | Once an action has thrown, no later action runs. |
| ActionEngine.BatchRunsPrefix | extension.js:415-424 | `executeAction` runs once per element on a prefix of `actions`. The prefix is the whole array unless an action threw, and the batch state is that of running just that prefix. |
| ActionEngine.OnlyCreateFolderMovesContext | extension.js:108-135 | No action kind other than `createFolder` changes `lastFolderPath`. |
| ActionEngine.CreateFolderSetsContext | extension.js:112-114 | After `createFolder`, `lastFolderPath` is `join(root, path ?? '/', folderName)` and that folder exists, or it is null and nothing changed. It is always null without a workspace root. |
| ActionEngine.CreateFolderIdempotent | extension.js:112-114 | Repeating a `createFolder` action leaves the same filesystem and the same `lastFolderPath`, whatever the context before each. |
| ActionEngine.CreateFileWithPath | extension.js:115-121 | A `createFile` with a `path` writes its content to `join(root, path, fileName)`, or fails without effect. It keeps `lastFolderPath` and continues the batch. |
| ActionEngine.CreateFileIntoLastFolder | extension.js:115-121 | A `createFile` without a `path`, run after a `createFolder` that gave an absolute folder, writes its content to `join(lastFolderPath, fileName)` or fails without effect. It keeps the context and continues the batch. |
| ActionEngine.CreateFileWithoutFolderSkips | extension.js:116-120 | A `createFile` without a `path`, run while `lastFolderPath` is null, writes nothing, and the batch continues. |
| ActionEngine.CreateFileWithPathNeedsRoot | extension.js:116 | A `createFile` with a `path` but no workspace root throws in `path.join(null, …)` and ends the batch. |
| ActionEngine.EditFileOnlyOverwrites | extension.js:123-125 | `editFile` creates no file or directory and changes at most its target, which it sets to the new content when that target is an existing file. It throws, changing nothing, exactly when its path cannot be computed, in particular when `path` is missing. |
| ActionEngine.OtherActionsChangeNoFiles | extension.js:126-134 | `summary` and unknown action types change neither the filesystem nor `lastFolderPath`. Only `summary` posts its content. |
| ActionEngine.StepKeepsStoreValid | extension.js:108-135 | Every action leaves the filesystem a well-formed tree. |
| ActionEngine.BatchKeepsStoreValid | extension.js:417-419 | A whole batch leaves the filesystem a well-formed tree. |
| ActionEngine.FolderUnderRoot | extension.js:266 | `join(root, '/', name)` is the directory `name` directly under the root. |
| ActionEngine.CreateFolderUnderRoot | extension.js:112-114 | In a well-formed tree, `createFolder X` without a `path` adds exactly the directory `<root>/X` (unless a file is in the way) and sets `lastFolderPath` to `join(root, '/', X)`. |
| ActionEngine.CreateFileInFolder | extension.js:115-121 | A `createFile f` without a `path` whose `lastFolderPath` is `join(root, '/', X)` writes its content to `<root>/X/f`, creating no directory. |
| ActionEngine.FileAfterFolder | extension.js:112-121 | Running `createFolder X` and then `createFile f` without a `path` writes `f` into `<root>/X`, and the batch completes. |
| ActionEngine.Respond | extension.js:412-426 | `handleResponse`: extraction, then `JSON.parse`, then the batch of `data.actions` when present, with the error its `catch` takes. Its properties are in `RespondRunsOnlyActions`. |
| ActionEngine.RespondRunsOnlyActions | extension.js:412-426 | When extraction fails, when parsing fails, or when the document has no `actions`, nothing runs and nothing changes, and the report names the failure. Otherwise every action runs unless one throws. |
| ActionEngine.AsWrittenStep | extension.js:113 | `executeAction` as written: `createFolder` stores its Promise in the context. A `createFile` without a `path` then writes nothing, whether the context holds null (line 117) or that Promise (the throw at line 282 inside the async body). Other kinds behave as in `Step`. |
| ActionEngine.PromiseInContextDropsFile | extension.js:113 | As written, `lastFolderPath` holds a Promise after `createFolder`. A following `createFile` without a `path` then writes nothing. |
| ActionEngine.CreateFolder | extension.js:262-276 | The in-place `createFolder` leaves the filesystem `FolderEffect` gives, and returns its folder, which is absolute. |
| ActionEngine.CreateFile | extension.js:278-290 | The in-place `createFile` leaves the filesystem `FileEffect` gives. |
| ActionEngine.EditFile | extension.js:293-321 | The in-place `editFile` throws exactly when `EditTarget` does, changing nothing. Otherwise it leaves the filesystem `EditEffect` gives for that target. |
| ActionEngine.ExecuteAction | extension.js:108-135 | The in-place `executeAction` leaves the filesystem, `context.lastFolderPath` and outcome that `Step` gives. |
| ActionEngine.RunActions | extension.js:415-420 | The in-place `forEach` loop with its fresh context leaves the filesystem, calls made, summaries posted and throw flag that `RunFrom` gives from a null `lastFolderPath`. |
| ActionEngine.HandleResponse | extension.js:412-426 | The `forEach` loop of `handleResponse` leaves the filesystem, and reports the calls made, summaries posted and error caught, exactly as `Respond` gives them. |
| RunPoller.Settle | extension.js:190-205 | The poller is still waiting exactly when every answer so far is a non-terminal status. Otherwise the first terminal status or failed check settles it: a status resolves it with that status, a failed check rejects it with "Failed to check run status". |
| RunPoller.WaitForRunCompletion | extension.js:190-205 | The polling loop settles as `Settle` says. |
| RunPoller.FailedRunResolves | extension.js:194-197 | A `failed` run after non-terminal statuses resolves with `failed`, not a rejection. |
| RunPoller.SettledIgnoresLater | extension.js:195-200 | Once settled, later answers change nothing: polling has stopped. |
| RunPoller.QuietPrefixDelays | extension.js:192-202 | Any non-terminal status leads to another poll: after such answers the poller settles as on the remaining ones, that many polls later. |

## Left out

- The OpenAI client: creating assistants, threads and runs, sending messages, and fetching replies (extension.js:18-77, 148-189, 324-335, 395-410). `checkRunStatus` becomes the sequence of its answers, and its one error message is kept.
- Timing: the `setInterval` period, and poll callbacks that overlap when a check takes longer than the period. Polling is a sequential walk over the answers. A finite sequence that never settles stands for a poller still waiting. No timeout or attempt cap exists in the code, and none is added.
- The webview, the command registration, `globalState` caching, MD5 project hashing, directory listing and file reads. These are glue or foreign calls.
- Notifications and logging. Only summaries posted by `summary` actions are kept, in the report of `HandleResponse`.
- `JSON.parse` is a parameter `parse` of `Respond` and `HandleResponse`, and `None` means it threw. JSON values that are not strings (numbers, `null`, objects in a string field) and actions that are not objects are not modelled. An absent field is `None`.
- Strings are sequences of Unicode code points, not UTF-16 code units. `trim`, `startsWith` and the regex agree on the two for the characters involved.
- PosixPath.Join: a trailing `/` is dropped, while Node's `path.join` keeps it. So for a `fileName` ending in `/`, such as `a.js/`, the source's `writeFile` fails (EISDIR) and its `fs.access` on an existing file fails (ENOTDIR), and the source writes nothing. The model writes or overwrites `a.js`.
- Effects are applied in array order at the moment each action runs. In the code, the async bodies of `createFolder`/`createFile` and the `fs.access` callback of `editFile` complete later and may interleave with later actions.
- The workspace root (`workspaceFolders[0].uri.fsPath`) is taken to be absolute.
- Permissions and other I/O errors of `mkdir` and `writeFile` are not modelled. Only the errors the tree shape decides are: a file in the way, a missing parent directory, a directory at the target.
- `editFile` overwrites a file that exists. A directory at the target passes `fs.access`, then the write fails, and nothing changes.
- FolderEffect: a `createFolder` with no name makes `path.join` throw at extension.js:266, before the `try`. Its Promise then rejects, and nothing reports the rejection. The model reads this as settling to null and changing nothing. A failed `mkdir` is different: the `catch` at extension.js:271-274 reports it and returns null, and the model gives the same null.
- FileEffect: a `createFile` with no name makes `path.join` throw at extension.js:282, before the `try`. Nothing reports the rejected Promise, and nothing is written. The model writes nothing either; only the missing report is lost.
- `require('path')` is `path.win32` on Windows. The POSIX `join` and `isAbsolute` modelled here describe the extension only on POSIX hosts, where the workspace root starts with `/`.
- The code does not check that a target stays inside the workspace, so a path with `..` may leave it. Neither the code nor this model adds such a check, a per-session busy guard, an XML reply format, or per-action error reporting.

## Findings

| source | as written | input that shows it | evidently intended | confidence | as-written member | corrected member |
|---|---|---|---|---|---|---|
| extension.js:113 | `context.lastFolderPath = createFolder(...)` stores the Promise that the `async` `createFolder` returns. `createFile` then passes that Promise to `path.isAbsolute` (line 282), which throws inside the async body, so nothing is written. | `{"actions":[{"type":"createFolder","folderName":"src"},{"type":"createFile","fileName":"a.js","content":"x"}]}` | `a.js` is written to `<root>/src/a.js`. The folder path the Promise resolves to is what should be stored. | high; not executed | ActionEngine.PromiseInContextDropsFile | ActionEngine.FileAfterFolder |

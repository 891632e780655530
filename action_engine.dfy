/**
 * The action protocol engine of extension.js: `handleResponse` turns the
 * assistant's reply into a batch of actions and runs `executeAction` on each
 * in array order, threading one `context.lastFolderPath` through the batch;
 * `createFolder`, `createFile` and `editFile` compute a target path and
 * change the filesystem.
 *
 * The spec functions (`FolderEffect`, `FileEffect`, `EditTarget`,
 * `EditEffect`, `Step`, `RunFrom`, `Respond`) say what happens; the methods of
 * the same names as the JavaScript functions do it in place on a `FileSystem`
 * and a `BatchContext`, and are proved to agree with them.
 *
 * Only an exception thrown synchronously inside `executeAction` reaches the
 * `catch` of `handleResponse` and stops the rest of the batch. Failures inside
 * the async `createFolder`/`createFile` bodies and inside `fs` callbacks do not
 * stop the batch: a failed `mkdir` or `writeFile` is reported by their own
 * `catch`, while a `path.join` that throws before the `try` only rejects the
 * Promise, and nothing reports that.
 *
 * `createFolder` is async, so as written `context.lastFolderPath` receives a
 * Promise. This model stores the value that Promise settles to (the folder
 * path, or null); `AsWrittenStep` models the code as written, and
 * `PromiseInContextDropsFile` shows what that costs.
 */
module ActionEngine {
  import opened Wrappers
  import opened PosixPath
  import opened FileStore
  import opened ReplyExtractor

  /** One element of `data.actions`; a field the reply leaves out is None. */
  datatype Action = Action(
    kind: Option<string>,
    folderName: Option<string>,
    fileName: Option<string>,
    content: Option<string>,
    path: Option<string>)

  /** The parsed reply: `data.actions`, None when it is absent. */
  datatype Document = Document(actions: Option<seq<Action>>)

  /** What one `executeAction` call does to its batch. */
  datatype Outcome = Continue | Posted(summary: Option<string>) | Thrown

  /** JavaScript truthiness of an optional string field. */
  predicate Truthy(field: Option<string>) {
    field.Some? && field.value != ""
  }

  /** A VS Code workspace folder's `fsPath` is absolute; null stands for "no workspace open". */
  predicate RootIsAbsolute(root: Option<string>) {
    root.Some? ==> IsAbsolute(root.value)
  }

  // ---------------------------------------------------------------------------
  // createFolder

  datatype FolderResult = FolderResult(store: Store, folder: Option<string>)

  /**
   * `createFolder(folderName, folderPath = '/')`, as the value it settles to:
   * null without a workspace, null when `path.join` throws on a missing name
   * or `mkdir` rejects, else the folder's path.
   */
  function FolderEffect(st: Store, root: Option<string>, folderName: Option<string>, folderPath: Option<string>): (r: FolderResult)
    ensures r.folder.Some? ==>
      root.Some? && folderName.Some? && r.folder.value == Join([root.value, folderPath.GetOr("/"), folderName.value])
    ensures r.folder.Some? ==> KeyOf(r.folder.value) in r.store.dirs && r.store.files == st.files && st.dirs <= r.store.dirs
    ensures r.folder.Some? ==> forall q :: q in r.store.dirs && q !in st.dirs ==>
      |q| <= |KeyOf(r.folder.value)| && q == KeyOf(r.folder.value)[..|q|]
    ensures r.folder.None? ==> r.store == st
    ensures r.folder.None? && root.Some? && folderName.Some? ==>
      BlockedByFile(st, KeyOf(Join([root.value, folderPath.GetOr("/"), folderName.value])))
    ensures StoreValid(st) ==> StoreValid(r.store)
  {
    if root.None? || folderName.None? then FolderResult(st, None)
    else
      var fullPath := Join([root.value, folderPath.GetOr("/"), folderName.value]);
      match MakeDirectories(st, KeyOf(fullPath))
      case None => FolderResult(st, None)
      case Some(st') => FolderResult(st', Some(fullPath))
  }

  // ---------------------------------------------------------------------------
  // createFile

  /** The file `createFile(fileName, content, folderPath)` writes to. */
  function FileTarget(root: string, fileName: string, folderPath: string): (r: string)
    ensures IsAbsolute(folderPath) ==> Canon(r) == Denote([folderPath, fileName])
    ensures !IsAbsolute(folderPath) ==> Canon(r) == Denote([root, folderPath, fileName])
    ensures IsAbsolute(root) ==> IsAbsolute(r)
  {
    var parts := if IsAbsolute(folderPath) then [folderPath, fileName] else [root, folderPath, fileName];
    JoinDenotes(parts);
    JoinIsAbsolute(parts);
    if IsAbsolute(parts[0]) then JoinFromAbsolute(parts); Join(parts) else Join(parts)
  }

  /**
   * `createFile`: nothing without a workspace; a missing name makes
   * `path.join` throw and missing content makes `writeFile` reject, both
   * inside the async body; otherwise create or overwrite the file.
   */
  function FileEffect(st: Store, root: Option<string>, fileName: Option<string>, content: Option<string>, folderPath: string): (r: Store)
    ensures r.dirs == st.dirs && st.files.Keys <= r.files.Keys
    ensures forall k :: k in st.files && r.files[k] != st.files[k] ==>
      root.Some? && fileName.Some? && content.Some? && k == KeyOf(FileTarget(root.value, fileName.value, folderPath))
    ensures !(root.Some? && fileName.Some? && content.Some?) ==> r == st
    ensures root.Some? && fileName.Some? && content.Some? ==>
      var target := KeyOf(FileTarget(root.value, fileName.value, folderPath));
      && r.files.Keys <= st.files.Keys + {target}
      && (WriteFile(st, target, content.value).Some? ==> target in r.files && r.files[target] == content.value)
      && (WriteFile(st, target, content.value).None? ==> r == st)
    ensures StoreValid(st) ==> StoreValid(r)
  {
    if root.None? || fileName.None? || content.None? then st
    else WriteFile(st, KeyOf(FileTarget(root.value, fileName.value, folderPath)), content.value).GetOr(st)
  }

  // ---------------------------------------------------------------------------
  // editFile

  /**
   * The path `editFile(fileName, content, filePath)` computes, or None when
   * computing it throws: `path.isAbsolute(undefined)`, or `path.join` with a
   * missing name or a null root.
   */
  function EditTarget(root: Option<string>, fileName: Option<string>, filePath: Option<string>): (r: Option<string>)
    ensures r.Some? <==> filePath.Some? && fileName.Some? && (IsAbsolute(filePath.value) || root.Some?)
    ensures r.Some? && IsAbsolute(filePath.value) ==> r.value == Join([filePath.value, fileName.value])
    ensures r.Some? && !IsAbsolute(filePath.value) ==> r.value == Join([root.value, filePath.value, fileName.value])
  {
    if filePath.None? || fileName.None? then None
    else if IsAbsolute(filePath.value) then Some(Join([filePath.value, fileName.value]))
    else if root.None? then None
    else Some(Join([root.value, filePath.value, fileName.value]))
  }

  /** The effect of the `fs.access` callback: overwrite only a path that exists (a directory then fails to be written). */
  function EditEffect(st: Store, fullPath: string, content: Option<string>): (r: Store)
  {
    if Exists(st, KeyOf(fullPath)) && content.Some? then WriteFile(st, KeyOf(fullPath), content.value).GetOr(st)
    else st
  }

  // ---------------------------------------------------------------------------
  // executeAction

  datatype StepResult = StepResult(store: Store, lastFolder: Option<string>, outcome: Outcome)

  /** `executeAction(action, panel, context)`: the switch on `action.type`. */
  function Step(st: Store, root: Option<string>, lastFolder: Option<string>, a: Action): (r: StepResult)
    ensures r.outcome == Thrown ==> r.store == st && r.lastFolder == lastFolder
    ensures r.outcome == Thrown ==> a.kind == Some("createFile") || a.kind == Some("editFile")
    ensures r.outcome.Posted? ==> a.kind == Some("summary")
  {
    if a.kind == Some("createFolder") then
      var f := FolderEffect(st, root, a.folderName, a.path);
      StepResult(f.store, f.folder, Continue)
    else if a.kind == Some("createFile") then
      if Truthy(a.path) then
        if root.None? then StepResult(st, lastFolder, Thrown)
        else StepResult(FileEffect(st, root, a.fileName, a.content, Join([root.value, a.path.value])), lastFolder, Continue)
      else if !Truthy(lastFolder) then StepResult(st, lastFolder, Continue)
      else StepResult(FileEffect(st, root, a.fileName, a.content, lastFolder.value), lastFolder, Continue)
    else if a.kind == Some("editFile") then
      match EditTarget(root, a.fileName, a.path)
      case None => StepResult(st, lastFolder, Thrown)
      case Some(fullPath) => StepResult(EditEffect(st, fullPath, a.content), lastFolder, Continue)
    else if a.kind == Some("summary") then
      StepResult(st, lastFolder, Posted(a.content))
    else
      StepResult(st, lastFolder, Continue)
  }

  // ---------------------------------------------------------------------------
  // The batch of handleResponse

  /** The state of a batch: filesystem, `lastFolderPath`, calls made, summaries posted, whether a call threw. */
  datatype BatchState = BatchState(
    store: Store,
    lastFolder: Option<string>,
    executed: nat,
    summaries: seq<Option<string>>,
    threw: bool)

  /** A batch starts with `{ lastFolderPath: null }`. */
  function Start(st: Store): BatchState {
    BatchState(st, None, 0, [], false)
  }

  /** The next element of `forEach`, unless an earlier call threw. */
  function Apply(b: BatchState, root: Option<string>, a: Action): (r: BatchState)
    ensures b.threw ==> r == b
    ensures !b.threw ==> r.executed == b.executed + 1
    ensures !b.threw ==> |b.summaries| <= |r.summaries| <= |b.summaries| + 1 && r.summaries[..|b.summaries|] == b.summaries
    ensures r.threw && !b.threw ==> r.store == b.store && r.lastFolder == b.lastFolder
  {
    if b.threw then b
    else
      var r := Step(b.store, root, b.lastFolder, a);
      BatchState(r.store, r.lastFolder, b.executed + 1,
                 b.summaries + (if r.outcome.Posted? then [r.outcome.summary] else []),
                 r.outcome.Thrown?)
  }

  /** `actions.forEach(action => executeAction(action, panel, context))` from state `b`. */
  function RunFrom(b: BatchState, root: Option<string>, actions: seq<Action>): (r: BatchState)
    ensures b.executed <= r.executed <= b.executed + |actions|
    ensures |b.summaries| <= |r.summaries| <= |b.summaries| + (r.executed - b.executed)
    ensures r.summaries[..|b.summaries|] == b.summaries
    ensures !r.threw ==> !b.threw
    decreases |actions|
  {
    if actions == [] then b
    else Apply(RunFrom(b, root, actions[..|actions| - 1]), root, actions[|actions| - 1])
  }

  /** The last element of a batch applies to the state the rest of it leaves. */
  lemma RunLast(s: BatchState, root: Option<string>, actions: seq<Action>)
    requires actions != []
    ensures RunFrom(s, root, actions) == Apply(RunFrom(s, root, actions[..|actions| - 1]), root, actions[|actions| - 1])
  {
  }

  /** Running `a` then `b` is running `a + b`: actions take effect one after another, in order. */
  lemma {:induction false} RunAppend(s: BatchState, root: Option<string>, a: seq<Action>, b: seq<Action>)
    ensures RunFrom(s, root, a + b) == RunFrom(RunFrom(s, root, a), root, b)
    decreases |b|
  {
    if b == [] {
      assert a + b == a;
    } else {
      var n := |b| - 1;
      RunAppend(s, root, a, b[..n]);
      var c := a + b;
      assert c[..|c| - 1] == a + b[..n] && c[|c| - 1] == b[n];
      RunLast(s, root, c);
      RunLast(RunFrom(s, root, a), root, b);
    }
  }

  /** Running one more element of `actions` applies it to the state the prefix leaves. */
  lemma RunOneMore(b: BatchState, root: Option<string>, actions: seq<Action>, i: nat)
    requires i < |actions|
    ensures RunFrom(b, root, actions[..i + 1]) == Apply(RunFrom(b, root, actions[..i]), root, actions[i])
  {
    assert actions[..i + 1][..i] == actions[..i];
  }

  /** One more element, before any throw, records what `Step` did with it. */
  lemma ApplyOfStep(b: BatchState, root: Option<string>, a: Action, st: Store, lastFolder: Option<string>, outcome: Outcome)
    requires !b.threw && Step(b.store, root, b.lastFolder, a) == StepResult(st, lastFolder, outcome)
    ensures Apply(b, root, a)
      == BatchState(st, lastFolder, b.executed + 1, b.summaries + (if outcome.Posted? then [outcome.summary] else []), outcome.Thrown?)
  {
  }

  /** A batch ends where its prefix ends when that prefix threw or is the whole batch. */
  lemma BatchEndsAtPrefix(b: BatchState, root: Option<string>, actions: seq<Action>, i: nat)
    requires i <= |actions|
    requires RunFrom(b, root, actions[..i]).threw || i == |actions|
    ensures RunFrom(b, root, actions) == RunFrom(b, root, actions[..i])
  {
    if i < |actions| {
      ThrownBatchStops(RunFrom(b, root, actions[..i]), root, actions[i..]);
      RunAppend(b, root, actions[..i], actions[i..]);
      assert actions[..i] + actions[i..] == actions;
    } else {
      assert actions[..i] == actions;
    }
  }

  /** Once a call has thrown, no later action runs. */
  lemma {:induction false} ThrownBatchStops(s: BatchState, root: Option<string>, actions: seq<Action>)
    requires s.threw
    ensures RunFrom(s, root, actions) == s
    decreases |actions|
  {
    if actions != [] {
      ThrownBatchStops(s, root, actions[..|actions| - 1]);
    }
  }

  /**
   * `executeAction` runs on a prefix of the batch, once per element: on all of
   * it, or up to and including the first call that throws.
   */
  lemma {:induction false} BatchRunsPrefix(s: BatchState, root: Option<string>, actions: seq<Action>)
    requires !s.threw
    ensures var r := RunFrom(s, root, actions);
      && s.executed <= r.executed <= s.executed + |actions|
      && (r.executed < s.executed + |actions| ==> r.threw)
      && RunFrom(s, root, actions[..r.executed - s.executed]) == r
    decreases |actions|
  {
    if actions == [] {
      assert actions[..0] == actions;
    } else {
      var n := |actions| - 1;
      BatchRunsPrefix(s, root, actions[..n]);
      var p := RunFrom(s, root, actions[..n]);
      if p.threw {
        PrefixThrew(s, root, actions, n);
      } else {
        PrefixRan(s, root, actions, n);
      }
    }
  }

  /** The step of `BatchRunsPrefix` when the batch threw before its last element. */
  lemma PrefixThrew(s: BatchState, root: Option<string>, actions: seq<Action>, n: nat)
    requires n < |actions|
    requires var p := RunFrom(s, root, actions[..n]);
      && s.executed <= p.executed && p.threw
      && RunFrom(s, root, actions[..n][..p.executed - s.executed]) == p
    ensures var p := RunFrom(s, root, actions[..n]);
      && RunFrom(s, root, actions) == p
      && RunFrom(s, root, actions[..p.executed - s.executed]) == p
  {
    var p := RunFrom(s, root, actions[..n]);
    var k := p.executed - s.executed;
    assert k <= n;
    assert actions[..n][..k] == actions[..k];
    BatchEndsAtPrefix(s, root, actions, k);
  }

  /** The step of `BatchRunsPrefix` when the batch ran all but its last element without a throw. */
  lemma PrefixRan(s: BatchState, root: Option<string>, actions: seq<Action>, n: nat)
    requires n + 1 == |actions|
    requires !RunFrom(s, root, actions[..n]).threw && RunFrom(s, root, actions[..n]).executed == s.executed + n
    ensures RunFrom(s, root, actions).executed == s.executed + |actions|
    ensures RunFrom(s, root, actions[..|actions|]) == RunFrom(s, root, actions)
  {
    RunLast(s, root, actions);
    assert actions[..|actions|] == actions;
  }

  /** Only `createFolder` changes `lastFolderPath`. */
  lemma OnlyCreateFolderMovesContext(st: Store, root: Option<string>, lastFolder: Option<string>, a: Action)
    requires a.kind != Some("createFolder")
    ensures Step(st, root, lastFolder, a).lastFolder == lastFolder
  {
  }

  /**
   * After `createFolder`, `lastFolderPath` is `join(root, path ?? '/', folderName)`
   * and that folder exists, or it is null and nothing changed.
   */
  lemma CreateFolderSetsContext(st: Store, root: Option<string>, lastFolder: Option<string>, a: Action)
    requires a.kind == Some("createFolder")
    ensures var r := Step(st, root, lastFolder, a);
      && r.outcome == Continue
      && (r.lastFolder.Some? ==>
            && root.Some? && a.folderName.Some?
            && r.lastFolder.value == Join([root.value, a.path.GetOr("/"), a.folderName.value])
            && KeyOf(r.lastFolder.value) in r.store.dirs)
      && (r.lastFolder.None? ==> r.store == st)
      && (root.None? ==> r.lastFolder.None?)
  {
  }

  /** The same `createFolder` twice has the effect of once. */
  lemma CreateFolderIdempotent(st: Store, root: Option<string>, last1: Option<string>, last2: Option<string>, a: Action)
    requires a.kind == Some("createFolder")
    ensures var once := Step(st, root, last1, a);
      Step(once.store, root, last2, a) == once
  {
    if root.Some? && a.folderName.Some? {
      var fullPath := Join([root.value, a.path.GetOr("/"), a.folderName.value]);
      if MakeDirectories(st, KeyOf(fullPath)).Some? {
        MakeDirectoriesIdempotent(st, KeyOf(fullPath));
      }
    }
  }

  /** `createFile` with a `path` writes to `join(root, path, fileName)`. */
  lemma CreateFileWithPath(st: Store, root: string, lastFolder: Option<string>, a: Action)
    requires IsAbsolute(root)
    requires a.kind == Some("createFile") && Truthy(a.path) && a.fileName.Some? && a.content.Some?
    ensures Step(st, Some(root), lastFolder, a)
      == StepResult(WriteFile(st, Denote([root, a.path.value, a.fileName.value]).segments, a.content.value).GetOr(st),
                    lastFolder, Continue)
  {
    var folder := Join([root, a.path.value]);
    JoinFromAbsolute([root, a.path.value]);
    JoinIsAbsolute([root, a.path.value]);
    JoinDenotes([folder, a.fileName.value]);
    JoinOntoJoin([root, a.path.value], a.fileName.value);
    DenoteSnoc([root, a.path.value], a.fileName.value);
    assert [root, a.path.value] + [a.fileName.value] == [root, a.path.value, a.fileName.value];
    assert KeyOf(FileTarget(root, a.fileName.value, folder)) == Denote([root, a.path.value, a.fileName.value]).segments;
  }

  /**
   * `createFile` without a `path` writes to `join(lastFolderPath, fileName)`,
   * or fails without effect; the folder is absolute, as every value
   * `createFolder` gives is.
   */
  lemma CreateFileIntoLastFolder(st: Store, root: string, folder: string, a: Action)
    requires IsAbsolute(root) && IsAbsolute(folder)
    requires a.kind == Some("createFile") && !Truthy(a.path) && a.fileName.Some? && a.content.Some?
    ensures Step(st, Some(root), Some(folder), a)
      == StepResult(WriteFile(st, Denote([folder, a.fileName.value]).segments, a.content.value).GetOr(st),
                    Some(folder), Continue)
  {
    JoinDenotes([folder, a.fileName.value]);
    assert KeyOf(FileTarget(root, a.fileName.value, folder)) == Denote([folder, a.fileName.value]).segments;
  }

  /** `createFile` without a `path` and without a folder from this batch writes nothing, and the batch goes on. */
  lemma CreateFileWithoutFolderSkips(st: Store, root: Option<string>, a: Action)
    requires a.kind == Some("createFile") && !Truthy(a.path)
    ensures Step(st, root, None, a) == StepResult(st, None, Continue)
  {
  }

  /** `createFile` with a `path` but no workspace makes `path.join(null, ...)` throw. */
  lemma CreateFileWithPathNeedsRoot(st: Store, lastFolder: Option<string>, a: Action)
    requires a.kind == Some("createFile") && Truthy(a.path)
    ensures Step(st, None, lastFolder, a) == StepResult(st, lastFolder, Thrown)
  {
  }

  /**
   * `editFile` creates nothing and changes at most its target, which it
   * overwrites only when it is an existing file; without a `path` it throws.
   */
  lemma EditFileOnlyOverwrites(st: Store, root: Option<string>, lastFolder: Option<string>, a: Action)
    requires StoreValid(st)
    requires a.kind == Some("editFile")
    ensures var r := Step(st, root, lastFolder, a);
      && r.lastFolder == lastFolder
      && r.store.dirs == st.dirs && r.store.files.Keys == st.files.Keys
      && (a.path.None? ==> r == StepResult(st, lastFolder, Thrown))
      && (r.outcome == Thrown <==> EditTarget(root, a.fileName, a.path).None?)
      && (forall k :: k in st.files && r.store.files[k] != st.files[k] ==>
            k == KeyOf(EditTarget(root, a.fileName, a.path).value) && a.content.Some?)
      && (EditTarget(root, a.fileName, a.path).Some? && a.content.Some?
          && KeyOf(EditTarget(root, a.fileName, a.path).value) in st.files ==>
            r.store.files[KeyOf(EditTarget(root, a.fileName, a.path).value)] == a.content.value)
  {
    var target := EditTarget(root, a.fileName, a.path);
    if target.Some? {
      var k := KeyOf(target.value);
      assert Step(st, root, lastFolder, a).store == EditEffect(st, target.value, a.content);
      if Exists(st, k) && a.content.Some? && k in st.files {
        assert WriteFile(st, k, a.content.value).Some?;
      }
    }
  }

  /** `summary` and unknown types touch neither the filesystem nor `lastFolderPath`. */
  lemma OtherActionsChangeNoFiles(st: Store, root: Option<string>, lastFolder: Option<string>, a: Action)
    requires a.kind != Some("createFolder") && a.kind != Some("createFile") && a.kind != Some("editFile")
    ensures var r := Step(st, root, lastFolder, a);
      && r.store == st && r.lastFolder == lastFolder
      && (r.outcome == Posted(a.content) <==> a.kind == Some("summary"))
      && (a.kind != Some("summary") ==> r.outcome == Continue)
  {
  }

  /** Every action keeps the filesystem a well-formed tree. */
  lemma StepKeepsStoreValid(st: Store, root: Option<string>, lastFolder: Option<string>, a: Action)
    requires StoreValid(st)
    ensures StoreValid(Step(st, root, lastFolder, a).store)
  {
    if a.kind == Some("editFile") {
      EditFileOnlyOverwrites(st, root, lastFolder, a);
    }
  }

  lemma {:induction false} BatchKeepsStoreValid(s: BatchState, root: Option<string>, actions: seq<Action>)
    requires StoreValid(s.store)
    ensures StoreValid(RunFrom(s, root, actions).store)
    decreases |actions|
  {
    if actions != [] {
      var n := |actions| - 1;
      BatchKeepsStoreValid(s, root, actions[..n]);
      var p := RunFrom(s, root, actions[..n]);
      if !p.threw {
        StepKeepsStoreValid(p.store, root, p.lastFolder, actions[n]);
      }
    }
  }

  /** `join(root, '/', name)` is the directory `name` right under the workspace root. */
  lemma FolderUnderRoot(root: string, name: string)
    requires IsAbsolute(root) && IsPlainName(name)
    ensures Denote([root, "/", name]) == NormalPath(true, KeyOf(root) + [name])
    ensures IsAbsolute(Join([root, "/", name]))
  {
    assert NonEmpty([root]) == [root];
    DenoteSnoc([root], "/");
    assert [root] + ["/"] == [root, "/"];
    DenoteSnoc([root, "/"], name);
    assert [root, "/"] + [name] == [root, "/", name];
    assert SplitOnSlash("/") == ["", ""];
    assert Resolve(true, KeyOf(root), ["", ""]) == KeyOf(root);
    ExtendByName(Denote([root, "/"]), name);
    JoinIsAbsolute([root, "/", name]);
  }

  /** `createFolder name` without `path`, run in a directory root, adds exactly `<root>/name`. */
  lemma CreateFolderUnderRoot(st: Store, root: string, last: Option<string>, folder: string)
    requires StoreValid(st) && IsAbsolute(root) && KeyOf(root) in st.dirs
    requires IsPlainName(folder) && KeyOf(root) + [folder] !in st.files
    ensures Step(st, Some(root), last, Action(Some("createFolder"), Some(folder), None, None, None))
      == StepResult(Store(st.dirs + {KeyOf(root) + [folder]}, st.files), Some(Join([root, "/", folder])), Continue)
  {
    FolderUnderRoot(root, folder);
    JoinDenotes([root, "/", folder]);
    MakeChildDirectory(st, KeyOf(root), folder);
    assert KeyOf(Join([root, "/", folder])) == KeyOf(root) + [folder];
  }

  /** `createFile name` without `path` after `createFolder folder` writes `<root>/folder/name`. */
  lemma CreateFileInFolder(st: Store, root: string, folder: string, file: string, content: string)
    requires IsAbsolute(root) && IsPlainName(folder) && IsPlainName(file)
    requires KeyOf(root) + [folder] in st.dirs && KeyOf(root) + [folder, file] !in st.dirs
    ensures var r := Step(st, Some(root), Some(Join([root, "/", folder])),
                          Action(Some("createFile"), None, Some(file), Some(content), None));
      && r.outcome == Continue
      && r.store.dirs == st.dirs
      && KeyOf(root) + [folder, file] in r.store.files
      && r.store.files[KeyOf(root) + [folder, file]] == content
  {
    var dir := KeyOf(root) + [folder];
    var fullPath := Join([root, "/", folder]);
    FolderUnderRoot(root, folder);
    JoinOntoJoin([root, "/", folder], file);
    JoinDenotes([fullPath, file]);
    ExtendByName(Denote([root, "/", folder]), file);
    assert KeyOf(FileTarget(root, file, fullPath)) == dir + [file];
    assert dir + [file] == KeyOf(root) + [folder, file];
    assert Parent(dir + [file]) == dir;
  }

  /**
   * A folder made without a `path` receives the next file made without a
   * `path`: `createFolder X` then `createFile f` writes `<root>/X/f`.
   */
  lemma FileAfterFolder(st: Store, root: string, folder: string, file: string, content: string)
    requires StoreValid(st) && IsAbsolute(root) && KeyOf(root) in st.dirs
    requires IsPlainName(folder) && IsPlainName(file)
    requires KeyOf(root) + [folder] !in st.files && KeyOf(root) + [folder, file] !in st.dirs
    ensures var b := RunFrom(Start(st), Some(root), [
        Action(Some("createFolder"), Some(folder), None, None, None),
        Action(Some("createFile"), None, Some(file), Some(content), None)]);
      && !b.threw && b.executed == 2 && b.summaries == []
      && b.lastFolder == Some(Join([root, "/", folder]))
      && KeyOf(root) + [folder] in b.store.dirs
      && KeyOf(root) + [folder, file] in b.store.files
      && b.store.files[KeyOf(root) + [folder, file]] == content
  {
    var cf := Action(Some("createFolder"), Some(folder), None, None, None);
    var fl := Action(Some("createFile"), None, Some(file), Some(content), None);
    RunTwo(Start(st), Some(root), cf, fl);
    CreateFolderUnderRoot(st, root, None, folder);
    var st1 := Store(st.dirs + {KeyOf(root) + [folder]}, st.files);
    assert KeyOf(root) + [folder, file] != KeyOf(root) + [folder] by {
      assert |KeyOf(root) + [folder, file]| != |KeyOf(root) + [folder]|;
    }
    CreateFileInFolder(st1, root, folder, file, content);
    assert Apply(Start(st), Some(root), cf) == BatchState(st1, Some(Join([root, "/", folder])), 1, [], false);
  }

  /** A batch of two actions applies the first, then the second. */
  lemma RunTwo(b: BatchState, root: Option<string>, x: Action, y: Action)
    ensures RunFrom(b, root, [x, y]) == Apply(Apply(b, root, x), root, y)
  {
    assert [x, y][..|[x, y]| - 1] == [x] && [x, y][|[x, y]| - 1] == y;
    assert [x][..|[x]| - 1] == [] && [x][|[x]| - 1] == x;
    assert RunFrom(b, root, [x]) == Apply(RunFrom(b, root, []), root, x);
  }

  // ---------------------------------------------------------------------------
  // handleResponse

  datatype Failure = ExtractionFailed | ParseFailed | ActionThrew

  /** What one call of `handleResponse` did: calls made, summaries posted, the error its `catch` caught. */
  datatype Report = Report(executed: nat, summaries: seq<Option<string>>, failure: Option<Failure>)

  /**
   * `handleResponse(rawResponse, panel)`: `JSON.parse(extractJson(rawResponse))`
   * (`parse` stands for `JSON.parse`; None when it throws), then the batch of
   * `data.actions` if present.
   */
  function Respond(st: Store, rawResponse: string, parse: string -> Option<Document>, root: Option<string>): (Store, Report) {
    match ExtractJson(rawResponse)
    case Err(_) => (st, Report(0, [], Some(ExtractionFailed)))
    case Ok(json) =>
      match parse(json)
      case None => (st, Report(0, [], Some(ParseFailed)))
      case Some(data) =>
        if data.actions.None? then (st, Report(0, [], None))
        else
          var b := RunFrom(Start(st), root, data.actions.value);
          (b.store, Report(b.executed, b.summaries, if b.threw then Some(ActionThrew) else None))
  }

  /**
   * A reply yields work only through `data.actions`: when extraction or
   * parsing fails, or the document has no actions, nothing is executed and
   * the filesystem is unchanged; otherwise every action runs unless one throws.
   */
  lemma RespondRunsOnlyActions(st: Store, rawResponse: string, parse: string -> Option<Document>, root: Option<string>)
    ensures var (st', report) := Respond(st, rawResponse, parse, root);
      && (report.executed == 0 && report.failure != Some(ActionThrew) ==> st' == st)
      && (ExtractJson(rawResponse).Err? ==> report.failure == Some(ExtractionFailed) && report.executed == 0)
      && (ExtractJson(rawResponse).Ok? && parse(ExtractJson(rawResponse).value).None? ==>
            report == Report(0, [], Some(ParseFailed)) && st' == st)
      && (ExtractJson(rawResponse).Ok? && parse(ExtractJson(rawResponse).value) == Some(Document(None)) ==>
            report == Report(0, [], None) && st' == st)
      && (ExtractJson(rawResponse).Ok? && parse(ExtractJson(rawResponse).value).Some?
          && parse(ExtractJson(rawResponse).value).value.actions.Some? ==>
            var actions := parse(ExtractJson(rawResponse).value).value.actions.value;
            report.executed <= |actions| && (report.executed < |actions| ==> report.failure == Some(ActionThrew)))
  {
    match ExtractJson(rawResponse)
    case Err(_) =>
    case Ok(json) =>
      match parse(json)
      case None =>
      case Some(data) =>
        if data.actions.Some? {
          BatchRunsPrefix(Start(st), root, data.actions.value);
          if RunFrom(Start(st), root, data.actions.value).executed == 0 {
            assert data.actions.value[..0] == [];
          }
        }
  }

  // ---------------------------------------------------------------------------
  // The as-written reading of lastFolderPath

  /** What `context.lastFolderPath` holds as written: null, or the Promise an async `createFolder` returns. */
  datatype StoredFolder = NullFolder | PromiseOfFolder

  /**
   * `executeAction` as written: `createFolder` stores its Promise; a
   * `createFile` without `path` then passes that Promise to `createFile`,
   * where (with a workspace) `path.isAbsolute(promise)` throws inside the
   * async body, so nothing is written. Other branches do not read the context.
   */
  function AsWrittenStep(st: Store, root: Option<string>, stored: StoredFolder, a: Action): (Store, StoredFolder, Outcome) {
    if a.kind == Some("createFolder") then
      (FolderEffect(st, root, a.folderName, a.path).store, PromiseOfFolder, Continue)
    else if a.kind == Some("createFile") && !Truthy(a.path) then
      (st, stored, Continue)
    else
      var r := Step(st, root, None, a);
      (r.store, stored, r.outcome)
  }

  /**
   * As written, `createFolder X` then `createFile f` (no `path`) never writes
   * `f`, where `FileAfterFolder` shows the intended `<root>/X/f`.
   */
  lemma PromiseInContextDropsFile(st: Store, root: string, folder: string, file: string, content: string)
    ensures var (st1, stored, _) := AsWrittenStep(st, Some(root), NullFolder,
                                       Action(Some("createFolder"), Some(folder), None, None, None));
      var (st2, _, _) := AsWrittenStep(st1, Some(root), stored,
                                       Action(Some("createFile"), None, Some(file), Some(content), None));
      stored == PromiseOfFolder && st2.files == st.files
  {
  }

  // ---------------------------------------------------------------------------
  // The imperative engine

  /** The `context` object of `handleResponse`. */
  class BatchContext {
    var lastFolderPath: Option<string>

    constructor ()
      ensures lastFolderPath == None
    {
      lastFolderPath := None;
    }
  }

  /** `createFolder(folderName, folderPath)`; returns the folder path or null. */
  method CreateFolder(folderName: Option<string>, folderPath: Option<string>, root: Option<string>, fs: FileSystem)
    returns (folder: Option<string>)
    requires fs.Valid() && RootIsAbsolute(root)
    modifies fs
    ensures fs.Valid()
    ensures FolderEffect(old(fs.Contents()), root, folderName, folderPath) == FolderResult(fs.Contents(), folder)
    ensures folder.Some? ==> IsAbsolute(folder.value)
  {
    if root.None? || folderName.None? {
      return None;
    }
    var fullPath := Join([root.value, folderPath.GetOr("/"), folderName.value]);
    JoinFromAbsolute([root.value, folderPath.GetOr("/"), folderName.value]);
    JoinIsAbsolute([root.value, folderPath.GetOr("/"), folderName.value]);
    var ok := fs.MakeDirectory(fullPath);
    folder := if ok then Some(fullPath) else None;
  }

  /** `createFile(fileName, content, folderPath)`. */
  method CreateFile(fileName: Option<string>, content: Option<string>, folderPath: string, root: Option<string>, fs: FileSystem)
    requires fs.Valid() && RootIsAbsolute(root)
    modifies fs
    ensures fs.Valid()
    ensures fs.Contents() == FileEffect(old(fs.Contents()), root, fileName, content, folderPath)
  {
    if root.None? || fileName.None? || content.None? {
      return;
    }
    var fullPath := FileTarget(root.value, fileName.value, folderPath);
    if IsAbsolute(folderPath) {
      JoinFromAbsolute([folderPath, fileName.value]);
      JoinIsAbsolute([folderPath, fileName.value]);
    } else {
      JoinFromAbsolute([root.value, folderPath, fileName.value]);
      JoinIsAbsolute([root.value, folderPath, fileName.value]);
    }
    var _ := fs.WriteTo(fullPath, content.value);
  }

  /** `editFile(fileName, content, filePath)`; `threw` when computing the path throws. */
  method EditFile(fileName: Option<string>, content: Option<string>, filePath: Option<string>, root: Option<string>, fs: FileSystem)
    returns (threw: bool)
    requires fs.Valid() && RootIsAbsolute(root)
    modifies fs
    ensures fs.Valid()
    ensures threw <==> EditTarget(root, fileName, filePath).None?
    ensures !threw ==> fs.Contents() == EditEffect(old(fs.Contents()), EditTarget(root, fileName, filePath).value, content)
    ensures threw ==> fs.Contents() == old(fs.Contents())
  {
    var target := EditTarget(root, fileName, filePath);
    if target.None? {
      return true;
    }
    var fullPath := target.value;
    if IsAbsolute(filePath.value) {
      JoinFromAbsolute([filePath.value, fileName.value]);
      JoinIsAbsolute([filePath.value, fileName.value]);
    } else {
      JoinFromAbsolute([root.value, filePath.value, fileName.value]);
      JoinIsAbsolute([root.value, filePath.value, fileName.value]);
    }
    var found := fs.Access(fullPath);
    if found && content.Some? {
      var _ := fs.WriteTo(fullPath, content.value);
    }
    return false;
  }

  /** `executeAction(action, panel, context)`. */
  method ExecuteAction(action: Action, root: Option<string>, context: BatchContext, fs: FileSystem)
    returns (outcome: Outcome)
    requires fs.Valid() && RootIsAbsolute(root)
    requires context.lastFolderPath.Some? ==> IsAbsolute(context.lastFolderPath.value)
    modifies context, fs
    ensures fs.Valid()
    ensures context.lastFolderPath.Some? ==> IsAbsolute(context.lastFolderPath.value)
    ensures Step(old(fs.Contents()), root, old(context.lastFolderPath), action)
      == StepResult(fs.Contents(), context.lastFolderPath, outcome)
  {
    if action.kind == Some("createFolder") {
      context.lastFolderPath := CreateFolder(action.folderName, action.path, root, fs);
      outcome := Continue;
    } else if action.kind == Some("createFile") {
      var fullPath: string;
      if Truthy(action.path) {
        if root.None? {
          return Thrown;
        }
        fullPath := Join([root.value, action.path.value]);
      } else if !Truthy(context.lastFolderPath) {
        return Continue;
      } else {
        fullPath := context.lastFolderPath.value;
      }
      CreateFile(action.fileName, action.content, fullPath, root, fs);
      outcome := Continue;
    } else if action.kind == Some("editFile") {
      var threw := EditFile(action.fileName, action.content, action.path, root, fs);
      outcome := if threw then Thrown else Continue;
    } else if action.kind == Some("summary") {
      outcome := Posted(action.content);
    } else {
      outcome := Continue;
    }
  }

  /**
   * The `data.actions.forEach(...)` of `handleResponse`, with the `context`
   * it creates; `threw` when an action threw and the `catch` took over.
   */
  method RunActions(actions: seq<Action>, root: Option<string>, fs: FileSystem)
    returns (executed: nat, summaries: seq<Option<string>>, threw: bool)
    requires fs.Valid() && RootIsAbsolute(root)
    modifies fs
    ensures fs.Valid()
    ensures var b := RunFrom(Start(old(fs.Contents())), root, actions);
      b.store == fs.Contents() && b.executed == executed && b.summaries == summaries && b.threw == threw
  {
    ghost var st0 := fs.Contents();
    var context := new BatchContext();
    executed := 0;
    summaries := [];
    threw := false;
    while executed < |actions| && !threw
      invariant 0 <= executed <= |actions|
      invariant fs.Valid()
      invariant context.lastFolderPath.Some? ==> IsAbsolute(context.lastFolderPath.value)
      invariant RunFrom(Start(st0), root, actions[..executed])
        == BatchState(fs.Contents(), context.lastFolderPath, executed, summaries, threw)
      decreases |actions| - executed
    {
      ghost var before := RunFrom(Start(st0), root, actions[..executed]);
      var outcome := ExecuteAction(actions[executed], root, context, fs);
      ApplyOfStep(before, root, actions[executed], fs.Contents(), context.lastFolderPath, outcome);
      RunOneMore(Start(st0), root, actions, executed);
      if outcome.Posted? {
        summaries := summaries + [outcome.summary];
      }
      threw := outcome.Thrown?;
      executed := executed + 1;
    }
    BatchEndsAtPrefix(Start(st0), root, actions, executed);
  }

  /** `handleResponse(rawResponse, panel)`. */
  method HandleResponse(rawResponse: string, parse: string -> Option<Document>, root: Option<string>, fs: FileSystem)
    returns (report: Report)
    requires fs.Valid() && RootIsAbsolute(root)
    modifies fs
    ensures fs.Valid()
    ensures Respond(old(fs.Contents()), rawResponse, parse, root) == (fs.Contents(), report)
  {
    var extracted := ExtractJson(rawResponse);
    if extracted.Err? {
      return Report(0, [], Some(ExtractionFailed));
    }
    var data := parse(extracted.value);
    if data.None? {
      return Report(0, [], Some(ParseFailed));
    }
    if data.value.actions.None? {
      return Report(0, [], None);
    }
    var executed, summaries, threw := RunActions(data.value.actions.value, root, fs);
    report := Report(executed, summaries, if threw then Some(ActionThrew) else None);
  }
}

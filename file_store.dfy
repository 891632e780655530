/**
 * The part of the workspace filesystem the action engine touches: a set of
 * directories and a map from file path to content. A path is identified by
 * the segments below `/` of the absolute path it denotes.
 *
 * `Store` and the functions on it say what `fs.promises.mkdir(p, {recursive: true})`,
 * `fs.writeFile` (flag 'w') and `fs.access(p, F_OK)` do; the class
 * `FileSystem` holds that state and changes it in place.
 */
module FileStore {
  import opened Wrappers
  import opened PosixPath

  type Key = seq<string>

  datatype Store = Store(dirs: set<Key>, files: map<Key, string>)

  /** The key of an absolute path string. */
  function KeyOf(path: string): Key {
    Canon(path).segments
  }

  function Parent(p: Key): Key
    requires p != []
  {
    p[..|p| - 1]
  }

  /** A well-formed tree: the root is a directory, nothing is both, every entry sits in a directory. */
  predicate StoreValid(st: Store) {
    && [] in st.dirs
    && st.dirs !! st.files.Keys
    && (forall p :: p in st.dirs && p != [] ==> Parent(p) in st.dirs)
    && (forall p :: p in st.files ==> p != [] && Parent(p) in st.dirs)
  }

  /** `p` and every directory above it. */
  function Ancestry(p: Key): set<Key> {
    set k | 0 <= k <= |p| :: p[..k]
  }

  predicate BlockedByFile(st: Store, p: Key) {
    exists k :: 0 <= k <= |p| && p[..k] in st.files
  }

  /**
   * `mkdir -p`: creates `p` and the missing directories above it; an
   * existing directory is no error; a file at `p` or above it is.
   */
  function MakeDirectories(st: Store, p: Key): (r: Option<Store>)
    ensures r.None? <==> BlockedByFile(st, p)
    ensures r.Some? ==> p in r.value.dirs && st.dirs <= r.value.dirs && r.value.files == st.files
    ensures r.Some? ==> forall q :: q in r.value.dirs && q !in st.dirs ==> |q| <= |p| && q == p[..|q|]
    ensures r.Some? && StoreValid(st) ==> StoreValid(r.value)
  {
    if BlockedByFile(st, p) then None
    else
      var r := Store(st.dirs + Ancestry(p), st.files);
      assert p[..|p|] == p;
      assert forall q :: q in Ancestry(p) && q != [] ==> Parent(q) in Ancestry(p) by {
        forall q | q in Ancestry(p) && q != [] ensures Parent(q) in Ancestry(p) {
          var k :| 0 <= k <= |p| && q == p[..k];
          assert Parent(q) == p[..k - 1];
        }
      }
      Some(r)
  }

  /** `fs.writeFile(p, content)` with flag 'w': creates or truncates a file whose directory exists. */
  function WriteFile(st: Store, p: Key, content: string): (r: Option<Store>)
    ensures r.Some? <==> p != [] && p !in st.dirs && Parent(p) in st.dirs
    ensures r.Some? ==> r.value.dirs == st.dirs && p in r.value.files && r.value.files[p] == content
    ensures r.Some? ==> r.value.files.Keys == st.files.Keys + {p}
    ensures r.Some? ==> forall q :: q in st.files && q != p ==> r.value.files[q] == st.files[q]
    ensures r.Some? && StoreValid(st) ==> StoreValid(r.value)
  {
    if p == [] || p in st.dirs || Parent(p) !in st.dirs then None
    else Some(Store(st.dirs, st.files[p := content]))
  }

  /** `fs.access(p, F_OK)` succeeds for a file or a directory. */
  predicate Exists(st: Store, p: Key) {
    p in st.dirs || p in st.files
  }

  /** Creating the same directories again changes nothing. */
  lemma MakeDirectoriesIdempotent(st: Store, p: Key)
    requires MakeDirectories(st, p).Some?
    ensures MakeDirectories(MakeDirectories(st, p).value, p) == MakeDirectories(st, p)
  {
    var r := MakeDirectories(st, p).value;
    assert Ancestry(p) <= r.dirs;
    assert r.dirs + Ancestry(p) == r.dirs;
  }

  /** In a valid store, creating a directory inside an existing directory adds exactly that directory. */
  lemma MakeChildDirectory(st: Store, p: Key, name: string)
    requires StoreValid(st) && p in st.dirs && p + [name] !in st.files
    ensures MakeDirectories(st, p + [name]) == Some(Store(st.dirs + {p + [name]}, st.files))
  {
    var q := p + [name];
    assert forall k :: 0 <= k <= |p| ==> q[..k] == p[..k];
    AncestryOfDirectory(st, p);
    assert !BlockedByFile(st, q) by {
      forall k | 0 <= k <= |q| ensures q[..k] !in st.files {
        if k <= |p| { assert q[..k] in st.dirs; } else { assert q[..k] == q; }
      }
    }
    assert Ancestry(q) == Ancestry(p) + {q} by {
      forall x | x in Ancestry(q) ensures x in Ancestry(p) + {q} {
        var k :| 0 <= k <= |q| && x == q[..k];
        if k <= |p| { assert x == p[..k]; } else { assert x == q; }
      }
      forall x | x in Ancestry(p) ensures x in Ancestry(q) {
        var k :| 0 <= k <= |p| && x == p[..k];
        assert x == q[..k];
      }
      assert q == q[..|q|];
    }
    assert Ancestry(p) <= st.dirs;
    assert st.dirs + Ancestry(q) == st.dirs + {q};
  }

  /** Every directory above a directory is a directory. */
  lemma {:induction false} AncestryOfDirectory(st: Store, p: Key)
    requires StoreValid(st) && p in st.dirs
    ensures forall k :: 0 <= k <= |p| ==> p[..k] in st.dirs
    decreases |p|
  {
    if p != [] {
      AncestryOfDirectory(st, Parent(p));
      forall k | 0 <= k <= |p| ensures p[..k] in st.dirs {
        if k < |p| { assert p[..k] == Parent(p)[..k]; } else { assert p[..k] == p; }
      }
    }
  }

  /** The filesystem the extension writes to, changed in place. */
  class FileSystem {
    var dirs: set<Key>
    var files: map<Key, string>

    function Contents(): Store
      reads this
    {
      Store(dirs, files)
    }

    predicate Valid()
      reads this
    {
      StoreValid(Contents())
    }

    constructor (initial: Store)
      requires StoreValid(initial)
      ensures Contents() == initial && Valid()
    {
      dirs := initial.dirs;
      files := initial.files;
    }

    /** `fs.promises.mkdir(path, { recursive: true })`; `ok` is false when it rejects. */
    method MakeDirectory(path: string) returns (ok: bool)
      requires Valid() && IsAbsolute(path)
      modifies this
      ensures Valid()
      ensures ok <==> MakeDirectories(old(Contents()), KeyOf(path)).Some?
      ensures Contents() == MakeDirectories(old(Contents()), KeyOf(path)).GetOr(old(Contents()))
    {
      var r := MakeDirectories(Contents(), KeyOf(path));
      ok := r.Some?;
      if ok {
        dirs, files := r.value.dirs, r.value.files;
      }
    }

    /** `fs.writeFile(path, content, { flag: 'w' })`; `ok` is false when it fails. */
    method WriteTo(path: string, content: string) returns (ok: bool)
      requires Valid() && IsAbsolute(path)
      modifies this
      ensures Valid()
      ensures ok <==> WriteFile(old(Contents()), KeyOf(path), content).Some?
      ensures Contents() == WriteFile(old(Contents()), KeyOf(path), content).GetOr(old(Contents()))
    {
      var r := WriteFile(Contents(), KeyOf(path), content);
      ok := r.Some?;
      if ok {
        dirs, files := r.value.dirs, r.value.files;
      }
    }

    /** `fs.access(path, fs.constants.F_OK)`: true when the callback gets no error. */
    method Access(path: string) returns (found: bool)
      requires IsAbsolute(path)
      ensures found <==> Exists(Contents(), KeyOf(path))
    {
      found := KeyOf(path) in dirs || KeyOf(path) in files;
    }
  }
}

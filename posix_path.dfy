/**
 * POSIX path handling as the extension uses it: `path.isAbsolute` and
 * `path.join` from Node's `path` module.
 *
 * `path.join` joins its non-empty arguments with `/` and normalises the
 * result: the string is split on `/`, empty and `.` segments are dropped and
 * `..` pops the previous segment (at the root of an absolute path it is
 * dropped, at the start of a relative path it is kept). The normalised value a
 * string denotes is a `NormalPath`; `Render` writes one back as a string.
 */
module PosixPath {

  /** What a path string denotes once normalised. */
  datatype NormalPath = NormalPath(absolute: bool, segments: seq<string>)

  /** `path.isAbsolute`. */
  predicate IsAbsolute(p: string) {
    |p| > 0 && p[0] == '/'
  }

  /** A segment that names one entry: neither empty, `.` nor `..`, and free of `/`. */
  predicate IsPlainName(s: string) {
    s != "" && s != "." && s != ".." && '/' !in s
  }

  /** `p.split('/')`: the pieces between slashes, empty pieces included. */
  function SplitOnSlash(p: string): (r: seq<string>)
    ensures |r| >= 1
    ensures forall k :: 0 <= k < |r| ==> '/' !in r[k]
  {
    if p == "" then [""]
    else
      var rest := SplitOnSlash(p[1..]);
      if p[0] == '/' then [""] + rest
      else [[p[0]] + rest[0]] + rest[1..]
  }

  /** `xs.join('/')`. */
  function JoinWithSlash(xs: seq<string>): string {
    if |xs| == 0 then ""
    else if |xs| == 1 then xs[0]
    else xs[0] + "/" + JoinWithSlash(xs[1..])
  }

  /** Splitting and re-joining on `/` gives back the string. */
  lemma {:induction false} SplitThenJoin(p: string)
    ensures JoinWithSlash(SplitOnSlash(p)) == p
  {
    if p != "" {
      SplitThenJoin(p[1..]);
      var rest := SplitOnSlash(p[1..]);
      if p[0] != '/' {
        assert p == [p[0]] + p[1..];
      }
    }
  }

  lemma {:induction false} SplitAroundSlash(a: string, b: string)
    ensures SplitOnSlash(a + "/" + b) == SplitOnSlash(a) + SplitOnSlash(b)
  {
    if a == "" {
      assert a + "/" + b == "/" + b;
      assert ("/" + b)[1..] == b;
    } else {
      assert (a + "/" + b)[1..] == a[1..] + "/" + b;
      SplitAroundSlash(a[1..], b);
    }
  }

  lemma {:induction false} SplitPlain(s: string)
    requires '/' !in s
    ensures SplitOnSlash(s) == [s]
  {
    if s != "" {
      assert '/' !in s[1..] by {
        forall c | c in s[1..] ensures c in s { }
      }
      SplitPlain(s[1..]);
      assert s == [s[0]] + s[1..];
    }
  }

  /** Joining slash-free pieces and splitting again gives back the pieces. */
  lemma {:induction false} JoinThenSplit(xs: seq<string>)
    requires |xs| >= 1
    requires forall k :: 0 <= k < |xs| ==> '/' !in xs[k]
    ensures SplitOnSlash(JoinWithSlash(xs)) == xs
  {
    if |xs| == 1 {
      SplitPlain(xs[0]);
    } else {
      JoinThenSplit(xs[1..]);
      SplitAroundSlash(xs[0], JoinWithSlash(xs[1..]));
      SplitPlain(xs[0]);
    }
  }

  lemma {:induction false} JoinWithSlashSnoc(xs: seq<string>, q: string)
    requires |xs| >= 1
    ensures JoinWithSlash(xs + [q]) == JoinWithSlash(xs) + "/" + q
  {
    if |xs| > 1 {
      JoinWithSlashSnoc(xs[1..], q);
      assert (xs + [q])[1..] == xs[1..] + [q];
    }
  }

  /** How one segment changes the stack of resolved segments. */
  function StepSegment(absolute: bool, stack: seq<string>, seg: string): seq<string> {
    if seg == "" || seg == "." then stack
    else if seg == ".." then
      if |stack| > 0 && stack[|stack| - 1] != ".." then stack[..|stack| - 1]
      else if absolute then stack
      else stack + [".."]
    else stack + [seg]
  }

  /** Segments resolved left to right onto `stack`. */
  function Resolve(absolute: bool, stack: seq<string>, segs: seq<string>): seq<string>
    decreases |segs|
  {
    if segs == [] then stack
    else Resolve(absolute, StepSegment(absolute, stack, segs[0]), segs[1..])
  }

  /** Resolution is a left fold: resolving `a + b` resolves `a`, then `b` from there. */
  lemma {:induction false} ResolveAppend(absolute: bool, stack: seq<string>, a: seq<string>, b: seq<string>)
    ensures Resolve(absolute, stack, a + b) == Resolve(absolute, Resolve(absolute, stack, a), b)
    decreases |a|
  {
    if a == [] {
      assert a + b == b;
    } else {
      assert (a + b)[0] == a[0];
      assert (a + b)[1..] == a[1..] + b;
      ResolveAppend(absolute, StepSegment(absolute, stack, a[0]), a[1..], b);
    }
  }

  /**
   * The segments a normalised path can hold: no empty, `.` or slash-bearing
   * segment; no `..` in an absolute path; `..` only in a leading run.
   */
  predicate ProperSegments(absolute: bool, segs: seq<string>) {
    && (forall k :: 0 <= k < |segs| ==> segs[k] != "" && segs[k] != "." && '/' !in segs[k])
    && (absolute ==> forall k :: 0 <= k < |segs| ==> segs[k] != "..")
    && (forall k :: 0 < k < |segs| && segs[k] == ".." ==> segs[k - 1] == "..")
  }

  lemma {:induction false} ResolveKeepsProper(absolute: bool, stack: seq<string>, segs: seq<string>)
    requires ProperSegments(absolute, stack)
    requires forall k :: 0 <= k < |segs| ==> '/' !in segs[k]
    ensures ProperSegments(absolute, Resolve(absolute, stack, segs))
    decreases |segs|
  {
    if segs != [] {
      ResolveKeepsProper(absolute, StepSegment(absolute, stack, segs[0]), segs[1..]);
    }
  }

  /** Re-resolving proper segments from an empty stack changes nothing. */
  lemma {:induction false} ResolveProperIsIdentity(absolute: bool, segs: seq<string>)
    requires ProperSegments(absolute, segs)
    ensures Resolve(absolute, [], segs) == segs
    decreases |segs|
  {
    if segs != [] {
      var n := |segs| - 1;
      ResolveProperIsIdentity(absolute, segs[..n]);
      ResolveAppend(absolute, [], segs[..n], [segs[n]]);
      assert segs[..n] + [segs[n]] == segs;
    }
  }

  /** The value a path string denotes. */
  function Canon(p: string): (r: NormalPath)
    ensures r.absolute == IsAbsolute(p)
    ensures ProperSegments(r.absolute, r.segments)
  {
    ResolveKeepsProper(IsAbsolute(p), [], SplitOnSlash(p));
    NormalPath(IsAbsolute(p), Resolve(IsAbsolute(p), [], SplitOnSlash(p)))
  }

  /** The string Node's normaliser writes for a normalised path (a trailing slash is not kept). */
  function Render(np: NormalPath): string {
    if np.absolute then "/" + JoinWithSlash(np.segments)
    else if np.segments == [] then "."
    else JoinWithSlash(np.segments)
  }

  /** A rendered path denotes the path it was rendered from. */
  lemma CanonOfRender(np: NormalPath)
    requires ProperSegments(np.absolute, np.segments)
    ensures Canon(Render(np)) == np
  {
    var s := np.segments;
    if s != [] {
      JoinThenSplit(s);
      ResolveProperIsIdentity(np.absolute, s);
      assert JoinWithSlash(s)[0] == s[0][0];
    }
    if np.absolute {
      SplitAroundSlash("", JoinWithSlash(s));
      assert "" + "/" + JoinWithSlash(s) == Render(np);
      if s == [] {
        assert SplitOnSlash(Render(np)) == ["", ""];
        assert Resolve(true, [], ["", ""]) == Resolve(true, [], [""]) == [];
      }
    } else if s == [] {
      SplitPlain(".");
      assert Resolve(false, [], ["."]) == [];
    }
  }

  /** `args.filter(a => a.length > 0)`. */
  function NonEmpty(parts: seq<string>): seq<string> {
    if parts == [] then []
    else (if parts[0] == "" then [] else [parts[0]]) + NonEmpty(parts[1..])
  }

  lemma {:induction false} NonEmptySnoc(parts: seq<string>, q: string)
    ensures NonEmpty(parts + [q]) == NonEmpty(parts) + (if q == "" then [] else [q])
  {
    if parts != [] {
      assert (parts + [q])[1..] == parts[1..] + [q];
      NonEmptySnoc(parts[1..], q);
    }
  }

  /** What `path.join(...parts)` denotes: the non-empty parts joined with `/`, normalised. */
  function Denote(parts: seq<string>): NormalPath {
    Canon(JoinWithSlash(NonEmpty(parts)))
  }

  /** `path.join(...parts)` (all arguments strings). */
  function Join(parts: seq<string>): string {
    Render(Denote(parts))
  }

  /** The string `path.join` returns denotes the normalised join. */
  lemma JoinDenotes(parts: seq<string>)
    ensures Canon(Join(parts)) == Denote(parts)
  {
    CanonOfRender(Denote(parts));
  }

  /** `path.isAbsolute(path.join(...))` holds exactly when the join is absolute. */
  lemma JoinIsAbsolute(parts: seq<string>)
    ensures IsAbsolute(Join(parts)) <==> Denote(parts).absolute
  {
    var np := Denote(parts);
    if !np.absolute && np.segments != [] {
      assert JoinWithSlash(np.segments)[0] == np.segments[0][0];
    }
  }

  /** A join whose first argument is an absolute path is absolute. */
  lemma JoinFromAbsolute(parts: seq<string>)
    requires |parts| > 0 && IsAbsolute(parts[0])
    ensures Denote(parts).absolute
  {
    assert NonEmpty(parts) == [parts[0]] + NonEmpty(parts[1..]);
  }

  /** Resolving the segments of `q` onto a normalised path. */
  function Extend(np: NormalPath, q: string): NormalPath {
    NormalPath(np.absolute, Resolve(np.absolute, np.segments, SplitOnSlash(q)))
  }

  /** Joining one more argument resolves its segments onto the join so far. */
  lemma DenoteSnoc(parts: seq<string>, q: string)
    requires |parts| > 0 && parts[0] != ""
    ensures Denote(parts + [q]) == Extend(Denote(parts), q)
  {
    NonEmptySnoc(parts, q);
    var xs := NonEmpty(parts);
    assert xs == [parts[0]] + NonEmpty(parts[1..]);
    var raw := JoinWithSlash(xs);
    assert raw[..|parts[0]|] == parts[0];
    if q == "" {
      assert NonEmpty(parts + [q]) == xs;
      assert SplitOnSlash(q) == [""];
      assert Resolve(Denote(parts).absolute, Denote(parts).segments, [""]) == Denote(parts).segments;
    } else {
      JoinWithSlashSnoc(xs, q);
      SplitAroundSlash(raw, q);
      assert (raw + "/" + q)[0] == raw[0];
      ResolveAppend(IsAbsolute(raw), [], SplitOnSlash(raw), SplitOnSlash(q));
    }
  }

  /** Joining onto the string a previous join returned is joining onto the parts of that join. */
  lemma JoinOntoJoin(parts: seq<string>, q: string)
    ensures Denote([Join(parts), q]) == Extend(Denote(parts), q)
  {
    JoinDenotes(parts);
    assert Join(parts) != "";
    assert NonEmpty([Join(parts)]) == [Join(parts)];
    DenoteSnoc([Join(parts)], q);
  }

  /** A plain name adds exactly one segment. */
  lemma ExtendByName(np: NormalPath, name: string)
    requires IsPlainName(name)
    ensures Extend(np, name) == NormalPath(np.absolute, np.segments + [name])
  {
    SplitPlain(name);
    assert Resolve(np.absolute, np.segments + [name], []) == np.segments + [name];
  }
}

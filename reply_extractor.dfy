/**
 * The reply extractor (`extractJson` in extension.js): pulls one JSON document
 * out of the assistant's free-form reply text.
 *
 * The fenced-block search is the regular expression /```json([\s\S]*?)```/:
 * the match starts at the leftmost opener that has a closer after it, and the
 * lazy group stops at the nearest closer. `LeftmostShortest` states that
 * meaning over all candidate matches; `FirstFence` computes it by two
 * left-to-right searches.
 */
module ReplyExtractor {
  import opened Wrappers

  const Opener: string := "```json"
  const Closer: string := "```"

  /** The error thrown when the reply holds no usable JSON. */
  datatype ExtractError = NoJsonFound

  /** `response.startsWith('{') && response.endsWith('}')`. */
  predicate IsBareObject(s: string) {
    |s| > 0 && s[0] == '{' && s[|s| - 1] == '}'
  }

  predicate OccursAt(s: string, p: string, k: nat) {
    k + |p| <= |s| && s[k..k + |p|] == p
  }

  /** A candidate regex match: an opener at `i`, a closer at `j`, the group is `s[i + |Opener|..j]`. */
  predicate FenceAt(s: string, i: nat, j: nat) {
    OccursAt(s, Opener, i) && i + |Opener| <= j && OccursAt(s, Closer, j)
  }

  /** The match the regex engine reports: leftmost start, then the shortest lazy group. */
  ghost predicate LeftmostShortest(s: string, i: nat, j: nat) {
    && FenceAt(s, i, j)
    && (forall i': nat, j': nat :: FenceAt(s, i', j') ==> i <= i')
    && (forall j': nat :: FenceAt(s, i, j') ==> j <= j')
  }

  /** First index at or after `from` where `p` occurs (`String.prototype.indexOf`). */
  function IndexOfFrom(s: string, p: string, from: nat): (r: Option<nat>)
    requires |p| > 0
    ensures r.Some? ==> from <= r.value && OccursAt(s, p, r.value)
    ensures r.Some? ==> forall k :: from <= k < r.value ==> !OccursAt(s, p, k)
    ensures r.None? ==> forall k :: from <= k ==> !OccursAt(s, p, k)
    decreases |s| - from
  {
    if from + |p| > |s| then None
    else if s[from..from + |p|] == p then Some(from)
    else IndexOfFrom(s, p, from + 1)
  }

  /** The regex match, as the pair (opener index, closer index), or None when it does not match. */
  function FirstFence(s: string): (r: Option<(nat, nat)>)
    ensures r.Some? ==> LeftmostShortest(s, r.value.0, r.value.1)
    ensures r.None? ==> forall i: nat, j: nat :: !FenceAt(s, i, j)
  {
    match IndexOfFrom(s, Opener, 0)
    case None => None
    case Some(i) =>
      match IndexOfFrom(s, Closer, i + |Opener|)
      case None =>
        // Any match starts at or after the first opener, so its closer lies
        // where the search for a closer found none.
        assert forall i': nat, j': nat :: !FenceAt(s, i', j') by {
          forall i': nat, j': nat | OccursAt(s, Opener, i') && i' + |Opener| <= j'
            ensures !OccursAt(s, Closer, j')
          {
            assert i <= i';
          }
        }
        None
      case Some(j) => Some((i, j))
  }

  /** The characters JavaScript's `String.prototype.trim` removes (WhiteSpace and LineTerminator). */
  predicate IsJsWhitespace(c: char) {
    || c == '\t' || c == '\n' || c == '\U{B}' || c == '\U{C}' || c == '\r' || c == ' '
    || c == '\U{A0}' || c == '\U{1680}' || ('\U{2000}' <= c <= '\U{200A}')
    || c == '\U{2028}' || c == '\U{2029}' || c == '\U{202F}' || c == '\U{205F}'
    || c == '\U{3000}' || c == '\U{FEFF}'
  }

  predicate AllWhitespace(s: string) {
    forall k :: 0 <= k < |s| ==> IsJsWhitespace(s[k])
  }

  function TrimStart(s: string): (r: string)
    ensures |r| <= |s| && r == s[|s| - |r|..]
    ensures AllWhitespace(s[..|s| - |r|])
    ensures r != [] ==> !IsJsWhitespace(r[0])
  {
    if |s| > 0 && IsJsWhitespace(s[0]) then TrimStart(s[1..]) else s
  }

  function TrimEnd(s: string): (r: string)
    ensures |r| <= |s| && r == s[..|r|]
    ensures AllWhitespace(s[|r|..])
    ensures r != [] ==> !IsJsWhitespace(r[|r| - 1])
  {
    if |s| > 0 && IsJsWhitespace(s[|s| - 1]) then TrimEnd(s[..|s| - 1]) else s
  }

  /** What `trim` must return: the slice of `s` left after removing whitespace at both ends. */
  ghost predicate IsTrimOf(s: string, r: string) {
    exists a: nat, b: nat ::
      && a <= b <= |s| && r == s[a..b]
      && AllWhitespace(s[..a]) && AllWhitespace(s[b..])
      && (r != [] ==> !IsJsWhitespace(r[0]) && !IsJsWhitespace(r[|r| - 1]))
  }

  function Trim(s: string): (r: string)
    ensures IsTrimOf(s, r) && |r| <= |s|
    ensures r == [] <==> AllWhitespace(s)
  {
    var t := TrimStart(s);
    var r := TrimEnd(t);
    var a := |s| - |t|;
    assert r == s[a..a + |r|];
    assert s[a + |r|..] == t[|r|..];
    r
  }

  /** At most one candidate match is leftmost and shortest. */
  lemma LeftmostShortestUnique(s: string, i: nat, j: nat)
    requires LeftmostShortest(s, i, j)
    ensures forall i': nat, j': nat :: LeftmostShortest(s, i', j') ==> i' == i && j' == j
  {
  }

  /** What `extractJson` makes of a regex match: the trimmed group when it is non-empty (truthy), else the error. */
  function GroupResult(s: string, i: nat, j: nat): Result<string, ExtractError>
    requires FenceAt(s, i, j)
  {
    var group := s[i + |Opener|..j];
    if group != "" then Ok(Trim(group)) else Err(NoJsonFound)
  }

  /**
   * `extractJson`: a reply that starts with `{` and ends with `}` is returned
   * unchanged (not trimmed); otherwise the trimmed group of the regex match,
   * provided the group is non-empty; otherwise it throws.
   */
  function ExtractJson(response: string): (r: Result<string, ExtractError>)
    ensures IsBareObject(response) ==> r == Ok(response)
    ensures !IsBareObject(response) && (forall i: nat, j: nat :: !FenceAt(response, i, j)) ==> r.Err?
    ensures !IsBareObject(response) ==>
      forall i: nat, j: nat :: LeftmostShortest(response, i, j) ==> r == GroupResult(response, i, j)
  {
    if IsBareObject(response) then Ok(response)
    else
      match FirstFence(response)
      case None => Err(NoJsonFound)
      case Some((i, j)) =>
        LeftmostShortestUnique(response, i, j);
        GroupResult(response, i, j)
  }

  /** Only the fast path returns the reply itself: a fenced group is strictly shorter than the reply. */
  lemma ExtractReturnsReplyOnlyWhenBare(response: string)
    ensures ExtractJson(response) == Ok(response) <==> IsBareObject(response)
    ensures !IsBareObject(response) && ExtractJson(response).Ok? ==> |ExtractJson(response).value| < |response|
  {
    if !IsBareObject(response) {
      match FirstFence(response)
      case None =>
      case Some((i, j)) =>
        LeftmostShortestUnique(response, i, j);
        assert |response[i + |Opener|..j]| < |response|;
    }
  }

  /** Leading whitespace defeats the fast path, even before a well-formed object. */
  lemma LeadingWhitespaceIsNotBare(response: string)
    requires |response| > 0 && IsJsWhitespace(response[0])
    ensures ExtractJson(response) != Ok(response)
  {
    ExtractReturnsReplyOnlyWhenBare(response);
  }

  /** Text after a complete fenced block, including further fenced blocks, never changes the regex match. */
  lemma MatchIgnoresLaterText(s: string, t: string, i: nat, j: nat)
    requires LeftmostShortest(s, i, j)
    ensures LeftmostShortest(s + t, i, j)
  {
    forall k: nat, p: string | k + |p| <= |s|
      ensures OccursAt(s + t, p, k) <==> OccursAt(s, p, k)
    {
      assert (s + t)[k..k + |p|] == s[k..k + |p|];
    }
    forall i': nat, j': nat | FenceAt(s + t, i', j') ensures i <= i' {
      if i' < i {
        assert FenceAt(s, i', j);
      }
    }
    forall j': nat | FenceAt(s + t, i, j') ensures j <= j' {
      if j' < j {
        assert FenceAt(s, i, j');
      }
    }
  }

  /** Hence `extractJson` gives the same answer once later text is appended to a reply that holds a fenced block. */
  lemma ExtractIgnoresLaterText(s: string, t: string)
    requires FirstFence(s).Some?
    requires !IsBareObject(s) && !IsBareObject(s + t)
    ensures ExtractJson(s + t) == ExtractJson(s)
  {
    var (i, j) := FirstFence(s).value;
    MatchIgnoresLaterText(s, t, i, j);
    ExtractOfMatch(s, i, j);
    ExtractOfMatch(s + t, i, j);
    GroupOfPrefix(s, t, i, j);
  }

  /** `extractJson` of a reply outside the fast path is what it makes of the regex match. */
  lemma ExtractOfMatch(s: string, i: nat, j: nat)
    requires !IsBareObject(s) && LeftmostShortest(s, i, j)
    ensures ExtractJson(s) == GroupResult(s, i, j)
  {
  }

  lemma GroupOfPrefix(s: string, t: string, i: nat, j: nat)
    requires FenceAt(s, i, j)
    ensures FenceAt(s + t, i, j) && GroupResult(s + t, i, j) == GroupResult(s, i, j)
  {
    assert (s + t)[i + |Opener|..j] == s[i + |Opener|..j];
    assert (s + t)[i..i + |Opener|] == s[i..i + |Opener|];
    assert (s + t)[j..j + |Closer|] == s[j..j + |Closer|];
  }

  /** A group of whitespace only is truthy, so it is trimmed to the empty document rather than rejected. */
  lemma BlankGroupGivesEmptyDocument(response: string, i: nat, j: nat)
    requires !IsBareObject(response) && LeftmostShortest(response, i, j)
    requires i + |Opener| < j && AllWhitespace(response[i + |Opener|..j])
    ensures ExtractJson(response) == Ok("")
  {
  }
}

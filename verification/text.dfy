/** The JavaScript string operations the extension relies on, over `string`
    (a `seq<char>`): the `\s` whitespace class and `trim`, an ASCII
    `toLowerCase`, `indexOf`, `includes`, `replaceAll`, `split` and `join`. */
module Text {
  import opened Wrappers

  /** A character of JavaScript's `\s` class; `String.prototype.trim` strips
      exactly these. */
  predicate IsSpace(c: char) {
    || c == ' ' || c == '\t' || c == '\n' || c == '\r' || c == '\U{B}' || c == '\U{C}'
    || c == '\U{A0}' || c == '\U{1680}' || ('\U{2000}' <= c <= '\U{200A}')
    || c == '\U{2028}' || c == '\U{2029}' || c == '\U{202F}' || c == '\U{205F}'
    || c == '\U{3000}' || c == '\U{FEFF}'
  }

  predicate AllSpace(s: string) {
    forall j :: 0 <= j < |s| ==> IsSpace(s[j])
  }

  predicate IsAsciiUpper(c: char) {
    'A' <= c <= 'Z'
  }

  /** `toLowerCase` on one character, restricted to ASCII. */
  function LowerChar(c: char): char {
    if IsAsciiUpper(c) then (c as int + 32) as char else c
  }

  function Lower(s: string): (r: string)
    ensures |r| == |s|
    ensures forall i :: 0 <= i < |s| ==> r[i] == LowerChar(s[i])
  {
    seq(|s|, i requires 0 <= i < |s| => LowerChar(s[i]))
  }

  /** No ASCII upper-case letter occurs in `s`. */
  predicate IsLower(s: string) {
    forall i :: 0 <= i < |s| ==> !IsAsciiUpper(s[i])
  }

  /** Lowering leaves no upper-case letter, changes nothing in a string that
      has none, and leaves whitespace exactly where it was. */
  lemma LowerFacts(s: string)
    ensures IsLower(Lower(s))
    ensures IsLower(s) ==> Lower(s) == s
    ensures Lower(Lower(s)) == Lower(s)
    ensures forall i :: 0 <= i < |s| ==> (IsSpace(Lower(s)[i]) <==> IsSpace(s[i]))
  {
  }

  lemma LowerSlice(s: string, a: nat, b: nat)
    requires a <= b <= |s|
    ensures Lower(s[a..b]) == Lower(s)[a..b]
  {
  }

  lemma LowerAppend(a: string, b: string)
    ensures Lower(a + b) == Lower(a) + Lower(b)
  {
  }

  // ---------------------------------------------------------------------------
  // Runs of characters at either end of a string

  /** Length of the longest prefix of `s` whose characters all satisfy `p`. */
  function LeadingRun(s: string, p: char -> bool): (n: nat)
    ensures n <= |s|
    ensures forall j :: 0 <= j < n ==> p(s[j])
    ensures n < |s| ==> !p(s[n])
  {
    if |s| == 0 || !p(s[0]) then 0 else 1 + LeadingRun(s[1..], p)
  }

  /** Length of the longest suffix of `s` whose characters all satisfy `p`. */
  function TrailingRun(s: string, p: char -> bool): (n: nat)
    ensures n <= |s|
    ensures forall j :: |s| - n <= j < |s| ==> p(s[j])
    ensures n < |s| ==> !p(s[|s| - n - 1])
  {
    if |s| == 0 || !p(s[|s| - 1]) then 0 else 1 + TrailingRun(s[..|s| - 1], p)
  }

  /** A run of `k` characters meeting `p`, ended by one that does not (or by
      the end of `s`), is the leading run. */
  lemma {:induction false} LeadingRunIs(s: string, p: char -> bool, k: nat)
    requires k <= |s|
    requires forall j :: 0 <= j < k ==> p(s[j])
    requires k < |s| ==> !p(s[k])
    decreases k
    ensures LeadingRun(s, p) == k
  {
    if k > 0 {
      assert forall j :: 0 <= j < k - 1 ==> s[1..][j] == s[j + 1];
      LeadingRunIs(s[1..], p, k - 1);
    }
  }

  /** The mirror image of `LeadingRunIs`. */
  lemma {:induction false} TrailingRunIs(s: string, p: char -> bool, k: nat)
    requires k <= |s|
    requires forall j :: |s| - k <= j < |s| ==> p(s[j])
    requires k < |s| ==> !p(s[|s| - k - 1])
    decreases k
    ensures TrailingRun(s, p) == k
  {
    if k > 0 {
      var t := s[..|s| - 1];
      assert forall j :: |t| - (k - 1) <= j < |t| ==> t[j] == s[j];
      TrailingRunIs(t, p, k - 1);
    }
  }

  // ---------------------------------------------------------------------------
  // trim

  /** Neither end of `s` is whitespace. */
  predicate IsTrimmed(s: string) {
    |s| == 0 || (!IsSpace(s[0]) && !IsSpace(s[|s| - 1]))
  }

  /** `String.prototype.trim`: the part of `s` left after removing leading
      and trailing whitespace. */
  function Trim(s: string): (r: string)
    ensures IsTrimmed(r)
    ensures LeadingRun(s, IsSpace) + |r| <= |s|
    ensures r == s[LeadingRun(s, IsSpace)..LeadingRun(s, IsSpace) + |r|]
    ensures AllSpace(s[..LeadingRun(s, IsSpace)])
    ensures AllSpace(s[LeadingRun(s, IsSpace) + |r|..])
    ensures |r| == 0 <==> AllSpace(s)
  {
    var t := s[LeadingRun(s, IsSpace)..];
    t[..|t| - TrailingRun(t, IsSpace)]
  }

  /** Trimming a string that is already trimmed changes nothing; hence
      `trim` is idempotent. */
  lemma TrimTrimmed(s: string)
    requires IsTrimmed(s)
    ensures Trim(s) == s
  {
    var k := LeadingRun(s, IsSpace);
    if |s| > 0 {
      assert k == 0;
      assert TrailingRun(s, IsSpace) == 0;
    }
  }

  /** Blanks around a trimmed, non-empty word are exactly what `trim`
      removes. */
  lemma TrimSurrounded(pre: string, w: string, post: string)
    requires AllSpace(pre) && AllSpace(post) && IsTrimmed(w) && |w| > 0
    ensures Trim(pre + w + post) == w
  {
    var s := pre + w + post;
    assert forall j :: 0 <= j < |pre| ==> s[j] == pre[j];
    assert s[|pre|] == w[0];
    LeadingRunIs(s, IsSpace, |pre|);
    var t := s[|pre|..];
    assert t == w + post;
    assert forall j :: |t| - |post| <= j < |t| ==> t[j] == post[j - (|t| - |post|)];
    assert t[|t| - |post| - 1] == w[|w| - 1];
    TrailingRunIs(t, IsSpace, |post|);
    assert t[..|t| - |post|] == w;
  }

  lemma TrimIdempotent(s: string)
    ensures Trim(Trim(s)) == Trim(s)
  {
    TrimTrimmed(Trim(s));
  }

  lemma LowerKeepsTrimmed(s: string)
    requires IsTrimmed(s)
    ensures IsTrimmed(Lower(s))
  {
    LowerFacts(s);
  }

  /** Lowering and trimming commute, since lowering moves no whitespace. */
  lemma TrimLower(s: string)
    ensures Trim(Lower(s)) == Lower(Trim(s))
  {
    var r := Trim(s);
    var a := LeadingRun(s, IsSpace);
    var pre, post := s[..a], s[a + |r|..];
    LowerSpaces(s);
    if |r| > 0 {
      assert s == pre + r + post;
      LowerAppend(pre + r, post);
      LowerAppend(pre, r);
      LowerSpaces(pre);
      LowerSpaces(post);
      LowerKeepsTrimmed(r);
      TrimSurrounded(Lower(pre), Lower(r), Lower(post));
    }
  }

  /** Lowering keeps blank strings blank. */
  lemma LowerSpaces(s: string)
    ensures AllSpace(s) ==> AllSpace(Lower(s))
  {
    LowerFacts(s);
  }

  // ---------------------------------------------------------------------------
  // indexOf, includes, startsWith, endsWith

  /** `pat` occurs in `s` starting at index `i`. */
  predicate OccursAt(s: string, pat: string, i: nat) {
    i + |pat| <= |s| && s[i..i + |pat|] == pat
  }

  /** `s.includes(pat)`. */
  predicate Contains(s: string, pat: string) {
    exists i: nat :: i <= |s| && OccursAt(s, pat, i)
  }

  predicate StartsWith(s: string, pat: string) {
    |pat| <= |s| && s[..|pat|] == pat
  }

  predicate EndsWith(s: string, pat: string) {
    |pat| <= |s| && s[|s| - |pat|..] == pat
  }

  /** An occurrence one place further into `s` is an occurrence in `s[1..]`. */
  lemma OccursAtTail(s: string, pat: string, j: nat)
    requires |s| > 0
    ensures OccursAt(s, pat, j + 1) <==> OccursAt(s[1..], pat, j)
  {
    if j + 1 + |pat| <= |s| {
      assert s[1..][j..j + |pat|] == s[j + 1..j + 1 + |pat|];
    }
  }

  /** `s.indexOf(pat)`, with `None` for JavaScript's -1: the first index at
      which `pat` occurs. */
  function IndexOf(s: string, pat: string): (r: Option<nat>)
    decreases |s|
    ensures r.Some? ==> OccursAt(s, pat, r.value)
    ensures r.Some? ==> forall j: nat :: j < r.value ==> !OccursAt(s, pat, j)
    ensures r.None? ==> forall j: nat :: !OccursAt(s, pat, j)
  {
    if |s| < |pat| then None
    else if StartsWith(s, pat) then Some(0)
    else
      var rest := IndexOf(s[1..], pat);
      OccursAtTailAll(s, pat);
      assert s[0..|pat|] == s[..|pat|];
      if rest.None? then None else Some(rest.value + 1)
  }

  lemma OccursAtTailAll(s: string, pat: string)
    requires |s| > 0
    ensures forall j: nat :: 0 < j ==> (OccursAt(s, pat, j) <==> OccursAt(s[1..], pat, j - 1))
  {
    forall j: nat | 0 < j
      ensures OccursAt(s, pat, j) <==> OccursAt(s[1..], pat, j - 1)
    {
      OccursAtTail(s, pat, j - 1);
    }
  }

  lemma IndexOfContains(s: string, pat: string)
    ensures IndexOf(s, pat).None? <==> !Contains(s, pat)
  {
  }

  /** An occurrence with none before it is the one `IndexOf` finds. */
  lemma IndexOfIsFirst(s: string, pat: string, i: nat)
    requires OccursAt(s, pat, i)
    requires forall j: nat :: j < i ==> !OccursAt(s, pat, j)
    ensures IndexOf(s, pat) == Some(i)
  {
  }

  /** No occurrence of `pat` before its first one: `s[..i]` holds none. */
  lemma NoOccurrenceBeforeFirst(s: string, pat: string, i: nat)
    requires |pat| > 0 && i <= |s|
    requires forall j: nat :: j < i ==> !OccursAt(s, pat, j)
    ensures !Contains(s[..i], pat)
  {
    if Contains(s[..i], pat) {
      var j: nat :| j <= i && OccursAt(s[..i], pat, j);
      assert j + |pat| <= i;
      assert s[j..j + |pat|] == s[..i][j..j + |pat|];
      assert OccursAt(s, pat, j);
    }
  }

  // ---------------------------------------------------------------------------
  // replaceAll, split, join

  /** Every occurrence of a non-empty `pat` replaced by `rep` taken
      literally: scanning left to right, each occurrence is replaced and the
      scan resumes after it, so occurrences do not overlap and the
      replacement text is not rescanned. This is `s.replaceAll(pat, rep)`
      only when `rep` holds no `$` (see `JsReplaceAll`). */
  function ReplaceAll(s: string, pat: string, rep: string): string
    requires |pat| > 0
    decreases |s|
  {
    if |s| < |pat| then s
    else if StartsWith(s, pat) then rep + ReplaceAll(s[|pat|..], pat, rep)
    else [s[0]] + ReplaceAll(s[1..], pat, rep)
  }

  /** GetSubstitution (section 22.1.3.19.1 of ECMAScript 2024) for a string
      search, which has no capture groups: `$$` gives `$`, `$&` the matched
      text, `` $` `` the whole string before the match and `$'` the whole
      string after it. Any other `$` is copied as it stands (`$1` and `$<`
      refer to captures that do not exist and stay literal). */
  function Substitution(rep: string, matched: string, before: string, after: string): (r: string)
    decreases |rep|
    ensures '$' !in rep ==> r == rep
  {
    if |rep| == 0 then ""
    else if rep[0] == '$' && |rep| >= 2 && rep[1] == '$' then "$" + Substitution(rep[2..], matched, before, after)
    else if rep[0] == '$' && |rep| >= 2 && rep[1] == '&' then matched + Substitution(rep[2..], matched, before, after)
    else if rep[0] == '$' && |rep| >= 2 && rep[1] == '`' then before + Substitution(rep[2..], matched, before, after)
    else if rep[0] == '$' && |rep| >= 2 && rep[1] == '\'' then after + Substitution(rep[2..], matched, before, after)
    else
      assert '$' !in rep ==> '$' !in rep[1..] by {
        if '$' in rep[1..] {
          var j :| 0 <= j < |rep[1..]| && rep[1..][j] == '$';
          assert rep[j + 1] == '$';
        }
      }
      assert rep == [rep[0]] + rep[1..];
      [rep[0]] + Substitution(rep[1..], matched, before, after)
  }

  /** The scan of `s.replaceAll(pat, rep)` from index `k` on. Match
      positions are absolute in `s`, because `` $` `` and `$'` refer to the
      original string, not to the partly replaced one. */
  function ReplaceAllFrom(s: string, k: nat, pat: string, rep: string): string
    requires |pat| > 0 && k <= |s|
    decreases |s| - k
  {
    if |s| - k < |pat| then s[k..]
    else if OccursAt(s, pat, k) then
      Substitution(rep, pat, s[..k], s[k + |pat|..]) + ReplaceAllFrom(s, k + |pat|, pat, rep)
    else [s[k]] + ReplaceAllFrom(s, k + 1, pat, rep)
  }

  /** `s.replaceAll(pat, rep)` with a string pattern and a string
      replacement (section 22.1.3.20 of ECMAScript 2024): the occurrences
      `ReplaceAll` finds, each replaced by the GetSubstitution of `rep`. */
  function JsReplaceAll(s: string, pat: string, rep: string): (r: string)
    requires |pat| > 0
    ensures '$' !in rep ==> r == ReplaceAll(s, pat, rep)
    ensures !Contains(s, pat) ==> r == s
  {
    var r := ReplaceAllFrom(s, 0, pat, rep);
    assert '$' !in rep ==> r == ReplaceAll(s, pat, rep) by {
      if '$' !in rep {
        ReplaceAllFromLiteral(s, 0, pat, rep);
        assert s[0..] == s;
      }
    }
    assert !Contains(s, pat) ==> r == s by {
      if !Contains(s, pat) {
        assert forall j: nat :: 0 <= j ==> !OccursAt(s, pat, j);
        ReplaceAllFromAbsent(s, 0, pat, rep);
      }
    }
    r
  }

  /** Without `$` in the replacement, the scan is the literal replacement. */
  lemma {:induction false} ReplaceAllFromLiteral(s: string, k: nat, pat: string, rep: string)
    requires |pat| > 0 && k <= |s| && '$' !in rep
    decreases |s| - k
    ensures ReplaceAllFrom(s, k, pat, rep) == ReplaceAll(s[k..], pat, rep)
  {
    var t := s[k..];
    if |s| - k >= |pat| {
      assert t[..|pat|] == s[k..k + |pat|];
      if OccursAt(s, pat, k) {
        var rest := ReplaceAllFrom(s, k + |pat|, pat, rep);
        assert ReplaceAllFrom(s, k, pat, rep) == Substitution(rep, pat, s[..k], s[k + |pat|..]) + rest;
        ReplaceAllFromLiteral(s, k + |pat|, pat, rep);
        assert t[|pat|..] == s[k + |pat|..];
        assert StartsWith(t, pat);
        assert ReplaceAll(t, pat, rep) == rep + ReplaceAll(t[|pat|..], pat, rep);
      } else {
        var rest := ReplaceAllFrom(s, k + 1, pat, rep);
        assert ReplaceAllFrom(s, k, pat, rep) == [s[k]] + rest;
        ReplaceAllFromLiteral(s, k + 1, pat, rep);
        assert t[1..] == s[k + 1..];
        assert !StartsWith(t, pat);
        assert ReplaceAll(t, pat, rep) == [t[0]] + ReplaceAll(t[1..], pat, rep);
      }
    }
  }

  /** With no occurrence from `k` on, the scan copies the rest. */
  lemma {:induction false} ReplaceAllFromAbsent(s: string, k: nat, pat: string, rep: string)
    requires |pat| > 0 && k <= |s|
    requires forall j: nat :: k <= j ==> !OccursAt(s, pat, j)
    decreases |s| - k
    ensures ReplaceAllFrom(s, k, pat, rep) == s[k..]
  {
    if |s| - k >= |pat| {
      assert !OccursAt(s, pat, k);
      ReplaceAllFromAbsent(s, k + 1, pat, rep);
      assert [s[k]] + s[k + 1..] == s[k..];
    }
  }

  /** A string that is exactly the pattern becomes the substitution of the
      replacement, with nothing before or after the match. */
  lemma JsReplaceAllWhole(pat: string, rep: string)
    requires |pat| > 0
    ensures JsReplaceAll(pat, pat, rep) == Substitution(rep, pat, "", "")
  {
    assert OccursAt(pat, pat, 0) by { assert pat[0..|pat|] == pat; }
    assert pat[..0] == "" && pat[|pat|..] == "";
    assert ReplaceAllFrom(pat, |pat|, pat, rep) == "";
  }

  /** A pattern holding a character the string lacks does not occur in it. */
  lemma MissingCharNotContained(s: string, pat: string, c: char)
    requires c in pat && c !in s
    ensures !Contains(s, pat)
  {
  }

  /** `s.split(sep)` for a non-empty string separator. */
  function Split(s: string, sep: string): (parts: seq<string>)
    requires |sep| > 0
    decreases |s|
    ensures |parts| >= 1
  {
    if |s| < |sep| then [s]
    else if StartsWith(s, sep) then [""] + Split(s[|sep|..], sep)
    else
      var rest := Split(s[1..], sep);
      [[s[0]] + rest[0]] + rest[1..]
  }

  /** `parts.join(sep)`. */
  function Join(parts: seq<string>, sep: string): string {
    if |parts| == 0 then ""
    else if |parts| == 1 then parts[0]
    else parts[0] + sep + Join(parts[1..], sep)
  }

  lemma JoinCons(a: string, rest: seq<string>, sep: string)
    requires |rest| > 0
    ensures Join([a] + rest, sep) == a + sep + Join(rest, sep)
  {
    assert ([a] + rest)[1..] == rest;
  }

  /** Gluing a character onto the first piece glues it onto the join. */
  lemma {:induction false} JoinGlueHead(c: char, rest: seq<string>, sep: string)
    requires |rest| > 0
    ensures Join([[c] + rest[0]] + rest[1..], sep) == [c] + Join(rest, sep)
  {
    if |rest| > 1 {
      JoinCons([c] + rest[0], rest[1..], sep);
    }
  }

  /** Replacing every occurrence of `pat` is splitting on it and joining the
      pieces with the replacement. */
  lemma {:induction false} ReplaceAllIsSplitJoin(s: string, pat: string, rep: string)
    requires |pat| > 0
    decreases |s|
    ensures ReplaceAll(s, pat, rep) == Join(Split(s, pat), rep)
  {
    if |s| < |pat| {
    } else if StartsWith(s, pat) {
      var rest := Split(s[|pat|..], pat);
      assert Split(s, pat) == [""] + rest;
      assert ReplaceAll(s, pat, rep) == rep + ReplaceAll(s[|pat|..], pat, rep);
      ReplaceAllIsSplitJoin(s[|pat|..], pat, rep);
      JoinCons("", rest, rep);
      assert "" + rep == rep;
    } else {
      var rest := Split(s[1..], pat);
      assert Split(s, pat) == [[s[0]] + rest[0]] + rest[1..];
      assert ReplaceAll(s, pat, rep) == [s[0]] + ReplaceAll(s[1..], pat, rep);
      ReplaceAllIsSplitJoin(s[1..], pat, rep);
      JoinGlueHead(s[0], rest, rep);
    }
  }

  /** The first occurrence of `pat` decides how `ReplaceAll` begins:
      everything before it is copied, the replacement follows, and the rest
      is processed from after the match. */
  lemma {:induction false} ReplaceAllAtFirst(s: string, pat: string, rep: string, i: nat)
    requires |pat| > 0
    requires IndexOf(s, pat) == Some(i)
    decreases |s|, 1
    ensures i + |pat| <= |s|
    ensures ReplaceAll(s, pat, rep) == s[..i] + rep + ReplaceAll(s[i + |pat|..], pat, rep)
  {
    if !StartsWith(s, pat) {
      ReplaceAllStep(s, pat, rep, i);
    }
  }

  lemma {:induction false} ReplaceAllStep(s: string, pat: string, rep: string, i: nat)
    requires |pat| > 0
    requires IndexOf(s, pat) == Some(i) && !StartsWith(s, pat)
    decreases |s|, 0
    ensures i + |pat| <= |s|
    ensures ReplaceAll(s, pat, rep) == s[..i] + rep + ReplaceAll(s[i + |pat|..], pat, rep)
  {
    var t := s[1..];
    IndexOfPastHead(s, pat, i);
    ReplaceAllAtFirst(t, pat, rep, i - 1);
    ReplaceAllSkipsOne(s, pat, rep);
    assert t[i - 1 + |pat|..] == s[i + |pat|..];
    ConsBeforeSplice(s, i, rep, ReplaceAll(s, pat, rep), ReplaceAll(t, pat, rep), ReplaceAll(s[i + |pat|..], pat, rep));
  }

  /** A first occurrence past the head is one place earlier in the tail. */
  lemma IndexOfPastHead(s: string, pat: string, i: nat)
    requires |pat| > 0
    requires IndexOf(s, pat) == Some(i) && !StartsWith(s, pat)
    ensures 0 < i && IndexOf(s[1..], pat) == Some(i - 1)
  {
  }

  /** Without a match at the head, `ReplaceAll` copies the head character. */
  lemma ReplaceAllSkipsOne(s: string, pat: string, rep: string)
    requires 0 < |pat| <= |s| && !StartsWith(s, pat)
    ensures ReplaceAll(s, pat, rep) == [s[0]] + ReplaceAll(s[1..], pat, rep)
  {
  }

  /** Sequence bookkeeping for `ReplaceAllStep`: a result that copies the
      head character and then splices into the tail splices into `s`. */
  lemma ConsBeforeSplice(s: string, i: nat, rep: string, whole: string, rest: string, tail: string)
    requires 0 < i <= |s|
    requires whole == [s[0]] + rest
    requires rest == s[1..][..i - 1] + rep + tail
    ensures whole == s[..i] + rep + tail
  {
    assert [s[0]] + s[1..][..i - 1] == s[..i];
  }

  /** A string without `pat` is left as it is. */
  lemma {:induction false} ReplaceAllAbsent(s: string, pat: string, rep: string)
    requires |pat| > 0
    requires !Contains(s, pat)
    decreases |s|
    ensures ReplaceAll(s, pat, rep) == s
  {
    IndexOfContains(s, pat);
    if |s| >= |pat| {
      assert !OccursAt(s, pat, 0);
      assert s[0..|pat|] == s[..|pat|];
      IndexOfContains(s[1..], pat);
      ReplaceAllAbsent(s[1..], pat, rep);
      assert [s[0]] + s[1..] == s;
    }
  }

  /** The first piece of a split is everything before the first occurrence
      of the separator, or the whole string when there is none. */
  lemma {:induction false} SplitFirstPiece(s: string, sep: string)
    requires |sep| > 0
    decreases |s|
    ensures IndexOf(s, sep).None? ==> Split(s, sep) == [s]
    ensures IndexOf(s, sep).Some? ==> Split(s, sep)[0] == s[..IndexOf(s, sep).value]
  {
    if |s| < |sep| || StartsWith(s, sep) {
    } else {
      var r := IndexOf(s[1..], sep);
      SplitFirstPiece(s[1..], sep);
      if r.Some? {
        assert [s[0]] + s[1..][..r.value] == s[..r.value + 1];
      } else {
        assert [s[0]] + s[1..] == s;
      }
    }
  }

  /** Replacing `pat` by itself is the identity. */
  lemma {:induction false} ReplaceAllSelf(s: string, pat: string)
    requires |pat| > 0
    decreases |s|
    ensures ReplaceAll(s, pat, pat) == s
  {
    if |s| < |pat| {
    } else if StartsWith(s, pat) {
      ReplaceAllSelf(s[|pat|..], pat);
      assert pat + s[|pat|..] == s;
    } else {
      ReplaceAllSelf(s[1..], pat);
      assert [s[0]] + s[1..] == s;
    }
  }

  /** Splitting and joining with the same separator gives the string back. */
  lemma SplitJoinRoundTrip(s: string, sep: string)
    requires |sep| > 0
    ensures Join(Split(s, sep), sep) == s
  {
    ReplaceAllIsSplitJoin(s, sep, sep);
    ReplaceAllSelf(s, sep);
  }

  /** Splitting on a single character: no piece holds that character. */
  lemma {:induction false} SplitPiecesLackSeparator(s: string, c: char)
    decreases |s|
    ensures forall p :: p in Split(s, [c]) ==> c !in p
  {
    if |s| < 1 {
    } else if StartsWith(s, [c]) {
      SplitPiecesLackSeparator(s[1..], c);
    } else {
      SplitPiecesLackSeparator(s[1..], c);
      var rest := Split(s[1..], [c]);
      assert rest[0] in rest;
      assert s[0] != c;
      forall p | p in Split(s, [c]) ensures c !in p {
        if p != [s[0]] + rest[0] {
          assert p in rest[1..];
        }
      }
    }
  }
}

/** Finding the `#shortcode` that ends at the caret (`getTokenAtCursor`).

    The source matches `/#[\w-]+$/` against the text before the (possibly
    whitespace-adjusted) caret. Because `#` is not itself a token character,
    the only possible match is `#` followed by the maximal run of token
    characters that ends at the caret, which is how it is computed here. */
module TokenLocator {
  import opened Wrappers
  import opened Text

  /** A character of `[\w-]`, with `\w` read as ASCII `[A-Za-z0-9_]`. */
  predicate IsTokenChar(c: char) {
    ('A' <= c <= 'Z') || ('a' <= c <= 'z') || ('0' <= c <= '9') || c == '_' || c == '-'
  }

  /** The match found before the caret. Offsets index the text searched;
      `trailingWhitespaceLength` counts the whitespace skipped between the
      token and the caret. */
  datatype TokenMatch = TokenMatch(token: string, start: nat, end: nat, trailingWhitespaceLength: nat)

  /** `s` ends with `#` followed by exactly `k` token characters, `k >= 1`. */
  predicate EndsWithTokenOfLength(s: string, k: nat) {
    1 <= k < |s| && s[|s| - k - 1] == '#' && forall j :: |s| - k <= j < |s| ==> IsTokenChar(s[j])
  }

  /** Some suffix of `s` matches `#[\w-]+`. */
  predicate EndsWithToken(s: string) {
    exists k: nat :: k <= |s| && EndsWithTokenOfLength(s, k)
  }

  /** A well-formed token: `#` and then one or more token characters. */
  predicate IsToken(t: string) {
    |t| >= 2 && t[0] == '#' && forall j :: 1 <= j < |t| ==> IsTokenChar(t[j])
  }

  /** Independent description of a match: `text[s..e]` is `#` plus token
      characters, and it ends at the caret or, when trailing whitespace is
      allowed, is followed by nothing but whitespace up to the caret. */
  predicate TokenBeforeCaret(text: string, cursor: nat, allow: bool, s: nat, e: nat) {
    s < e <= cursor <= |text| && IsToken(text[s..e])
    && (if allow then AllSpace(text[e..cursor]) else e == cursor)
  }

  /** Length of the whitespace run that ends at `cursor`. */
  function WhitespaceBefore(text: string, cursor: nat): (w: nat)
    requires cursor <= |text|
    ensures w <= cursor
    ensures AllSpace(text[cursor - w..cursor])
    ensures forall j :: cursor - w <= j < cursor ==> IsSpace(text[j])
    ensures w < cursor ==> !IsSpace(text[cursor - w - 1])
  {
    var before := text[..cursor];
    var w := TrailingRun(before, IsSpace);
    assert forall j :: cursor - w <= j < cursor ==> text[j] == before[j];
    w
  }

  /** `getTokenAtCursor(text, cursor, allowTrailingWhitespace)`; `None` is
      the source's `null`. */
  function GetTokenAtCursor(text: string, cursor: nat, allowTrailingWhitespace: bool): (r: Option<TokenMatch>)
    requires cursor <= |text|
    ensures r.Some? ==> var m := r.value;
      && IsToken(m.token)
      && m.start + |m.token| == m.end
      && m.end + m.trailingWhitespaceLength == cursor
      && text[m.start..m.end] == m.token
    ensures r.Some? && !allowTrailingWhitespace ==> r.value.trailingWhitespaceLength == 0
    ensures r.Some? ==> TokenBeforeCaret(text, cursor, allowTrailingWhitespace, r.value.start, r.value.end)
  {
    var ws := if allowTrailingWhitespace then WhitespaceBefore(text, cursor) else 0;
    var adjusted := cursor - ws;
    var r := TokenAt(text[..adjusted], ws);
    if r.Some? then
      assert text[r.value.start..r.value.end] == text[..adjusted][r.value.start..];
      assert text[adjusted..cursor] == text[cursor - ws..cursor];
      r
    else
      r
  }

  /** `textBefore.match(/#[\w-]+$/)` on the text before the adjusted caret,
      with the skipped whitespace length `ws` recorded in the match. */
  function TokenAt(before: string, ws: nat): (r: Option<TokenMatch>)
    ensures r.Some? ==> var m := r.value;
      && IsToken(m.token)
      && m.start + |m.token| == m.end == |before|
      && before[m.start..] == m.token
      && m.trailingWhitespaceLength == ws
  {
    var n := TrailingRun(before, IsTokenChar);
    if 0 < n < |before| && before[|before| - n - 1] == '#' then
      Some(TokenMatch(before[|before| - n - 1..], |before| - n - 1, |before|, ws))
    else
      None
  }

  /** A `#` followed by a run of token characters can only be the `#` just
      before the maximal trailing run, so the run's length is that maximal
      run's length. */
  lemma TokenLengthIsRun(s: string, k: nat)
    requires EndsWithTokenOfLength(s, k)
    ensures TrailingRun(s, IsTokenChar) == k
  {
  }

  /** With the flag off, a token is found exactly when the text before the
      caret ends with `#` and one or more token characters. */
  lemma TokenFoundIff(text: string, cursor: nat)
    requires cursor <= |text|
    ensures GetTokenAtCursor(text, cursor, false).Some? <==> EndsWithToken(text[..cursor])
  {
    var before := text[..cursor];
    var n := TrailingRun(before, IsTokenChar);
    if GetTokenAtCursor(text, cursor, false).Some? {
      assert EndsWithTokenOfLength(before, n);
    }
    if EndsWithToken(before) {
      var k: nat :| k <= |before| && EndsWithTokenOfLength(before, k);
      TokenLengthIsRun(before, k);
    }
  }

  /** The match is the only one: any suffix of the text before the token's
      end that reads `#` plus token characters is the token itself. */
  lemma TokenIsLongestSuffix(text: string, cursor: nat, allow: bool, k: nat)
    requires cursor <= |text|
    requires GetTokenAtCursor(text, cursor, allow).Some?
    requires var m := GetTokenAtCursor(text, cursor, allow).value;
      EndsWithTokenOfLength(text[..m.end], k)
    ensures |GetTokenAtCursor(text, cursor, allow).value.token| == k + 1
  {
    var m := GetTokenAtCursor(text, cursor, allow).value;
    var before := text[..m.end];
    TokenLengthIsRun(before, k);
    assert EndsWithTokenOfLength(before, |m.token| - 1);
    TokenLengthIsRun(before, |m.token| - 1);
  }

  /** With the flag on, the whitespace run before the caret is skipped and
      the search is the flag-off search at the adjusted caret; the skipped
      length is recorded. */
  lemma TrailingWhitespaceSkipped(text: string, cursor: nat)
    requires cursor <= |text|
    ensures var w := WhitespaceBefore(text, cursor);
      GetTokenAtCursor(text, cursor, true)
        == match GetTokenAtCursor(text, cursor - w, false)
           case None => None
           case Some(m) => Some(m.(trailingWhitespaceLength := w))
  {
  }

  /** When the caret does not follow whitespace, the flag makes no
      difference. */
  lemma NoWhitespaceFlagIrrelevant(text: string, cursor: nat)
    requires cursor <= |text|
    requires cursor == 0 || !IsSpace(text[cursor - 1])
    ensures GetTokenAtCursor(text, cursor, true) == GetTokenAtCursor(text, cursor, false)
  {
    var w := WhitespaceBefore(text, cursor);
    assert w == 0;
    TrailingWhitespaceSkipped(text, cursor);
    var off := GetTokenAtCursor(text, cursor - w, false);
    if off.Some? {
      assert off.value.(trailingWhitespaceLength := 0) == off.value;
    }
  }

  /** A token followed by nothing is found in full. */
  lemma WholeTokenFound(t: string)
    requires IsToken(t)
    ensures GetTokenAtCursor(t, |t|, false) == Some(TokenMatch(t, 0, |t|, 0))
  {
    assert t[..|t|] == t;
    assert EndsWithTokenOfLength(t, |t| - 1);
    TokenLengthIsRun(t, |t| - 1);
  }

  /** The caret right after `#sum` in `hello #sum`. */
  lemma ExampleAtToken()
    ensures GetTokenAtCursor("hello #sum", 10, false) == Some(TokenMatch("#sum", 6, 10, 0))
  {
    var s := "hello #sum";
    assert s[..10] == s;
    assert EndsWithTokenOfLength(s, 3);
    TokenLengthIsRun(s, 3);
  }

  /** The caret after a space that follows `#sum`, with the flag on. */
  lemma ExampleAfterSpace()
    ensures GetTokenAtCursor("hello #sum ", 11, true) == Some(TokenMatch("#sum", 6, 10, 1))
  {
    var s := "hello #sum ";
    assert s[..11] == s;
    assert IsSpace(s[10]) && !IsSpace(s[9]);
    var w := WhitespaceBefore(s, 11);
    assert w == 1;
    var b := s[..10];
    assert b == "hello #sum";
    assert EndsWithTokenOfLength(b, 3);
    TokenLengthIsRun(b, 3);
  }

  /** Token characters are not whitespace. */
  lemma TokenCharNotSpace(c: char)
    requires IsTokenChar(c)
    ensures !IsSpace(c)
  {
  }

  /** Conversely, any match in the sense of `TokenBeforeCaret` is the one
      found: together with the postcondition of `GetTokenAtCursor` this says
      a token is found exactly when such a span exists, and which one. */
  lemma TokenBeforeCaretFound(text: string, cursor: nat, allow: bool, s: nat, e: nat)
    requires TokenBeforeCaret(text, cursor, allow, s, e)
    ensures GetTokenAtCursor(text, cursor, allow) == Some(TokenMatch(text[s..e], s, e, cursor - e))
  {
    var before := text[..e];
    assert EndsWithTokenOfLength(before, e - s - 1) by {
      assert forall j :: s <= j < e ==> before[j] == text[s..e][j - s];
    }
    TokenLengthIsRun(before, e - s - 1);
    assert before[s..] == text[s..e];
    if allow {
      WhitespaceEndsAtToken(text, cursor, e);
      TrailingWhitespaceSkipped(text, cursor);
    }
  }

  /** The whitespace run before the caret stops at a token character. */
  lemma WhitespaceEndsAtToken(text: string, cursor: nat, e: nat)
    requires 0 < e <= cursor <= |text|
    requires IsTokenChar(text[e - 1]) && AllSpace(text[e..cursor])
    ensures WhitespaceBefore(text, cursor) == cursor - e
  {
    TokenCharNotSpace(text[e - 1]);
    var w := WhitespaceBefore(text, cursor);
    assert forall j :: e <= j < cursor ==> IsSpace(text[j]) by {
      forall j | e <= j < cursor ensures IsSpace(text[j]) {
        assert text[e..cursor][j - e] == text[j];
      }
    }
  }

  /** Only the text before the caret matters. */
  lemma OnlyTextBeforeCaretMatters(text: string, cursor: nat, allow: bool)
    requires cursor <= |text|
    ensures GetTokenAtCursor(text, cursor, allow) == GetTokenAtCursor(text[..cursor], cursor, allow)
  {
    var pre := text[..cursor];
    var w := WhitespaceBefore(text, cursor);
    assert WhitespaceBefore(pre, cursor) == w by {
      assert pre[..cursor] == text[..cursor];
    }
    var ws := if allow then w else 0;
    assert pre[..cursor - ws] == text[..cursor - ws];
  }
}

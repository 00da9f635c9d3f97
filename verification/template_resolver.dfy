/** Placeholder substitution in a template (`resolveTemplateVariables`) and
    extraction of the caret marker (`applyCursorPlaceholder`).

    Substitution is four `replaceAll` passes in a fixed order; each pass scans
    the output of the one before, so text brought in by an earlier
    placeholder is searched for the later placeholders. */
module TemplateResolver {
  import opened Wrappers
  import opened Text

  const ClipboardMarker: string := "{clipboard}"
  const SelectionMarker: string := "{selection}"
  const UrlMarker: string := "{url}"
  const TitleMarker: string := "{title}"
  const CursorMarker: string := "{cursor}"

  /** What the page supplies. `clipboard` is `None` when the clipboard
      cannot be read (no API, permission refused, read failed); `selection`
      is `None` when the page has no selection object. */
  datatype PageContext = PageContext(clipboard: Option<string>, selection: Option<string>,
                                     url: string, title: string)

  /** The text substituted for `{clipboard}`: an unreadable clipboard
      counts as empty. */
  function ClipboardText(ctx: PageContext): string {
    ctx.clipboard.GetOr("")
  }

  predicate HasPlaceholder(s: string) {
    Contains(s, ClipboardMarker) || Contains(s, SelectionMarker)
    || Contains(s, UrlMarker) || Contains(s, TitleMarker)
  }

  /** `resolveTemplateVariables(template)`: four `replaceAll` passes, each
      value going through GetSubstitution, so a `$$`, `$&`, `` $` `` or `$'`
      in the clipboard, the selection, the address or the title is expanded
      rather than copied. A template with none of the placeholders comes back
      unchanged, and values without `$` are inserted literally. */
  function ResolveTemplateVariables(template: string, ctx: PageContext): (r: string)
    ensures !HasPlaceholder(template) ==> r == template
    ensures '$' !in ClipboardText(ctx) && '$' !in ctx.selection.GetOr("")
            && '$' !in ctx.url && '$' !in ctx.title
        ==> r == ReplaceAll(ReplaceAll(ReplaceAll(ReplaceAll(template,
                  ClipboardMarker, ClipboardText(ctx)), SelectionMarker, ctx.selection.GetOr("")),
                  UrlMarker, ctx.url), TitleMarker, ctx.title)
  {
    var withClipboard := JsReplaceAll(template, ClipboardMarker, ClipboardText(ctx));
    var withSelection := JsReplaceAll(withClipboard, SelectionMarker, ctx.selection.GetOr(""));
    var withUrl := JsReplaceAll(withSelection, UrlMarker, ctx.url);
    JsReplaceAll(withUrl, TitleMarker, ctx.title)
  }

  /** An unreadable clipboard resolves exactly like an empty one. */
  lemma UnreadableClipboardIsEmpty(template: string, ctx: PageContext)
    requires ctx.clipboard.None?
    ensures ResolveTemplateVariables(template, ctx)
         == ResolveTemplateVariables(template, ctx.(clipboard := Some("")))
  {
  }

  /** The passes run in order and each rescans the previous output: the
      selected text, after its own substitution, is itself searched for
      `{url}` and then `{title}`. */
  lemma SelectionIsRescanned(ctx: PageContext)
    ensures ResolveTemplateVariables(SelectionMarker, ctx)
         == JsReplaceAll(JsReplaceAll(Substitution(ctx.selection.GetOr(""), SelectionMarker, "", ""),
                                      UrlMarker, ctx.url), TitleMarker, ctx.title)
  {
    assert !Contains(SelectionMarker, ClipboardMarker) by {
      assert SelectionMarker[0..|ClipboardMarker|][1] != ClipboardMarker[1];
    }
    JsReplaceAllWhole(SelectionMarker, ctx.selection.GetOr(""));
  }

  /** Concretely: a selection reading `{title}` is replaced by the title. */
  lemma ExampleSelectionHoldsTitleMarker()
    ensures ResolveTemplateVariables(SelectionMarker,
              PageContext(None, Some(TitleMarker), "u", "T")) == "T"
  {
    var ctx := PageContext(None, Some(TitleMarker), "u", "T");
    SelectionIsRescanned(ctx);
    var inserted := Substitution(TitleMarker, SelectionMarker, "", "");
    TitleMarkerLetters();
    assert inserted == TitleMarker;
    assert UrlMarker[1] == 'u';
    MissingCharNotContained(TitleMarker, UrlMarker, 'u');
    assert JsReplaceAll(inserted, UrlMarker, "u") == TitleMarker;
    JsReplaceAllWhole(TitleMarker, "T");
    assert Substitution("T", TitleMarker, "", "") == "T";
  }

  /** The characters of `{title}` the example above relies on. */
  lemma TitleMarkerLetters()
    ensures '$' !in TitleMarker && 'u' !in TitleMarker
  {
    forall i | 0 <= i < |TitleMarker| ensures TitleMarker[i] != '$' && TitleMarker[i] != 'u' {
      assert TitleMarker == ['{', 't', 'i', 't', 'l', 'e', '}'];
    }
  }

  /** A clipboard reading `$$x$$` is pasted as `$x$`: each `$$` is an
      escaped dollar sign. */
  lemma ExampleDollarsInClipboard()
    ensures ResolveTemplateVariables(ClipboardMarker,
              PageContext(Some("$$x$$"), None, "u", "T")) == "$x$"
  {
    JsReplaceAllWhole(ClipboardMarker, "$$x$$");
    assert Substitution("$$x$$", ClipboardMarker, "", "") == "$x$" by {
      assert Substitution("$", ClipboardMarker, "", "") == "$";
      assert Substitution("x$$", ClipboardMarker, "", "") == "x$";
    }
    assert ClipboardMarker[0] == '{';
    MissingCharNotContained("$x$", SelectionMarker, '{');
    MissingCharNotContained("$x$", UrlMarker, '{');
    MissingCharNotContained("$x$", TitleMarker, '{');
  }

  /** The letters `{clipboard}` lacks, one from each later placeholder. */
  lemma ClipboardMarkerLetters()
    ensures 's' !in ClipboardMarker && 'u' !in ClipboardMarker && 't' !in ClipboardMarker
  {
    forall i | 0 <= i < |ClipboardMarker|
      ensures ClipboardMarker[i] != 's' && ClipboardMarker[i] != 'u' && ClipboardMarker[i] != 't'
    {
      assert ClipboardMarker == ['{', 'c', 'l', 'i', 'p', 'b', 'o', 'a', 'r', 'd', '}'];
    }
  }

  /** A clipboard reading `$&` is pasted as the matched text, so the
      template's own `{clipboard}` comes back, and the later passes leave it
      alone. */
  lemma ExampleMatchedTextInClipboard()
    ensures ResolveTemplateVariables(ClipboardMarker,
              PageContext(Some("$&"), None, "u", "T")) == ClipboardMarker
  {
    JsReplaceAllWhole(ClipboardMarker, "$&");
    assert Substitution("$&", ClipboardMarker, "", "") == ClipboardMarker;
    ClipboardMarkerLetters();
    assert SelectionMarker[1] == 's' && UrlMarker[1] == 'u' && TitleMarker[1] == 't';
    MissingCharNotContained(ClipboardMarker, SelectionMarker, 's');
    MissingCharNotContained(ClipboardMarker, UrlMarker, 'u');
    MissingCharNotContained(ClipboardMarker, TitleMarker, 't');
  }

  /** The template with its caret marker taken out, and where the caret goes. */
  datatype Resolved = Resolved(text: string, cursorOffset: nat)

  /** `applyCursorPlaceholder(resolved)`: every `{cursor}` found by a single
      left-to-right pass is deleted; the caret goes where the first one was,
      or to the end when there is none. */
  function ApplyCursorPlaceholder(s: string): (r: Resolved)
    ensures r.cursorOffset <= |r.text| && r.cursorOffset <= |s|
    ensures r.text[..r.cursorOffset] == s[..r.cursorOffset]
    ensures IndexOf(s, CursorMarker).Some? ==> r.cursorOffset == IndexOf(s, CursorMarker).value
    ensures !Contains(s, CursorMarker) ==> r.text == s && r.cursorOffset == |s|
  {
    var text := ReplaceAll(s, CursorMarker, "");
    match IndexOf(s, CursorMarker)
    case None =>
      IndexOfContains(s, CursorMarker);
      ReplaceAllAbsent(s, CursorMarker, "");
      Resolved(text, |text|)
    case Some(i) =>
      ReplaceAllAtFirst(s, CursorMarker, "", i);
      Resolved(text, i)
  }

  /** The replacement is empty, so the literal replacement is exactly what
      `replaceAll("{cursor}", "")` computes. */
  lemma CursorPassIsLiteral(s: string)
    ensures ApplyCursorPlaceholder(s).text == JsReplaceAll(s, CursorMarker, "")
  {
    assert '$' !in "";
  }

  /** The text is the input cut at every marker and glued back together. */
  lemma CursorTextIsSplitJoin(s: string)
    ensures ApplyCursorPlaceholder(s).text == Join(Split(s, CursorMarker), "")
  {
    ReplaceAllIsSplitJoin(s, CursorMarker, "");
  }

  /** Nothing before the caret contains a marker: the caret sits just before
      the first one. */
  lemma NoMarkerBeforeCaret(s: string)
    ensures !Contains(ApplyCursorPlaceholder(s).text[..ApplyCursorPlaceholder(s).cursorOffset], CursorMarker)
  {
    var r := ApplyCursorPlaceholder(s);
    match IndexOf(s, CursorMarker)
    case None =>
      assert r.text[..r.cursorOffset] == s;
      IndexOfContains(s, CursorMarker);
    case Some(i) =>
      NoOccurrenceBeforeFirst(s, CursorMarker, i);
  }

  /** With the first marker at `i`, the caret goes to `i` and the marker is
      deleted there; the rest of the text is scanned on from after it. */
  lemma CaretAtFirstMarker(s: string, i: nat)
    requires OccursAt(s, CursorMarker, i)
    requires forall j: nat :: j < i ==> !OccursAt(s, CursorMarker, j)
    ensures ApplyCursorPlaceholder(s)
         == Resolved(s[..i] + ReplaceAll(s[i + |CursorMarker|..], CursorMarker, ""), i)
  {
    IndexOfIsFirst(s, CursorMarker, i);
    ReplaceAllAtFirst(s, CursorMarker, "", i);
  }

  /** One pass is not a fixpoint: deleting the inner marker of
      `{cur{cursor}sor}` joins the outer pieces into a new marker, which stays
      in the text. */
  lemma ExampleNestedMarkerSurvives()
    ensures ApplyCursorPlaceholder("{cur{cursor}sor}") == Resolved(CursorMarker, 4)
  {
    var s := "{cur{cursor}sor}";
    NestedMarkerAt(s);
    CaretAtFirstMarker(s, 4);
    assert ReplaceAll(s[12..], CursorMarker, "") == s[12..];
  }

  /** The character facts behind the example above. */
  lemma NestedMarkerAt(s: string)
    requires s == "{cur{cursor}sor}"
    ensures OccursAt(s, CursorMarker, 4)
    ensures forall j: nat :: j < 4 ==> !OccursAt(s, CursorMarker, j)
    ensures |s| == 16 && s[..4] + s[12..] == CursorMarker
  {
    assert s[4..12] == CursorMarker;
    assert s[0..|CursorMarker|][4] != CursorMarker[4];
    assert s[1..1 + |CursorMarker|][0] != CursorMarker[0];
    assert s[2..2 + |CursorMarker|][0] != CursorMarker[0];
    assert s[3..3 + |CursorMarker|][0] != CursorMarker[0];
  }
}

/** Replacing the `#shortcode` before the caret with a resolved template
    (`insertTemplateIntoElement`) and inserting a template at the selection
    (`insertTemplateAtCursor`), for plain fields and for contenteditable
    elements.

    A plain field is its value and selection indices. A contenteditable
    element is its text nodes and the selection, with range boundaries given
    as linear offsets into the element's text. The DOM range operations are
    modelled by their effect on the nodes (`TextNodes.SpliceNodes`). */
module Inserter {
  import opened Wrappers
  import opened Text
  import opened TokenLocator
  import opened TextNodes
  import opened TemplateResolver

  const NoSelectionError: string := "No selection in editable element."
  const NoShortcodeError: string := "No shortcode found near cursor."
  const UnresolvedCaretError: string := "Unable to resolve caret position."
  const NoCursorSelectionError: string := "Editable element does not support cursor selection."

  /** The `{ ok: true }` / `{ ok: false, error }` result. */
  datatype Outcome = Ok | Failed(error: string)

  /** The page selection as a contenteditable element sees it. */
  datatype RichSelection =
    | NoSelectionObject            // `window.getSelection()` is null
    | Elsewhere                    // no range, or anchored outside the element
    | Range(start: nat, end: nat)  // a range inside the element

  /** An editable target. `selectionStart`/`selectionEnd` are `None` when the
      element does not expose numeric selection indices. */
  datatype Field =
    | PlainField(value: string, selectionStart: Option<nat>, selectionEnd: Option<nat>)
    | RichField(nodes: seq<string>, selection: RichSelection)

  /** What the browser guarantees of a live element: selection indices lie
      inside the text and in order. */
  predicate WellFormed(f: Field) {
    match f
    case PlainField(value, s, e) =>
      && (s.Some? ==> s.value <= |value|)
      && (s.Some? && e.Some? ==> s.value <= e.value <= |value|)
    case RichField(nodes, sel) =>
      sel.Range? ==> sel.start <= sel.end <= |Flatten(nodes)|
  }

  /** The text the user sees in the field. */
  function Content(f: Field): string {
    match f
    case PlainField(value, _, _) => value
    case RichField(nodes, _) => Flatten(nodes)
  }

  /** The caret (start of the selection) as a linear offset, when there is one. */
  function Caret(f: Field): Option<nat> {
    match f
    case PlainField(_, s, _) => s
    case RichField(_, sel) => if sel.Range? then Some(sel.start) else None
  }

  /** The field after the call and what the call reported. */
  datatype Insertion = Insertion(field: Field, outcome: Outcome)

  /** The template as inserted: placeholders substituted, caret marker taken out. */
  function Expand(template: string, ctx: PageContext): Resolved {
    ApplyCursorPlaceholder(ResolveTemplateVariables(template, ctx))
  }

  function Min(a: nat, b: nat): (m: nat)
    ensures m <= a && m <= b && (m == a || m == b)
  {
    if a <= b then a else b
  }

  /** `replaceRange` from `p` to `q`, `deleteContents`, `insertNode` of a new
      text node, and a collapsed selection inside it at
      `Math.min(cursorOffset, text.length)`. */
  function PlaceText(nodes: seq<string>, p: Position, q: Position, text: string, cursorOffset: nat): (f: Field)
    requires p.index <= q.index < |nodes|
    requires p.offset <= |nodes[p.index]| && q.offset <= |nodes[q.index]|
    requires p.index == q.index ==> p.offset <= q.offset
    ensures LinearOffset(nodes, p) <= LinearOffset(nodes, q) <= |Flatten(nodes)|
    ensures f.RichField?
    ensures Content(f) == Flatten(nodes)[..LinearOffset(nodes, p)] + text + Flatten(nodes)[LinearOffset(nodes, q)..]
    ensures var c := LinearOffset(nodes, p) + Min(cursorOffset, |text|); f.selection == Range(c, c)
  {
    var spliced := SpliceNodes(nodes, p, q, text);
    SpliceFlatten(nodes, p, q, text);
    SpliceStartsNewNode(nodes, p, q, text);
    var caret := NodeStart(spliced, p.index + 1) + Min(cursorOffset, |text|);
    RichField(spliced, Range(caret, caret))
  }

  /** The rich-text replacement of the linear range `[a, b)`: the positions
      of the two ends in the nodes, then `PlaceText`. An element with no text
      nodes receives the new node as its only one. */
  function ReplaceRange(nodes: seq<string>, a: nat, b: nat, text: string, cursorOffset: nat): (f: Field)
    requires a <= b <= |Flatten(nodes)|
    ensures f.RichField?
    ensures Content(f) == Flatten(nodes)[..a] + text + Flatten(nodes)[b..]
    ensures var c := a + Min(cursorOffset, |text|); f.selection == Range(c, c)
  {
    if |nodes| == 0 then
      assert Flatten([text]) == text + Flatten([]);
      var c := Min(cursorOffset, |text|);
      RichField([text], Range(c, c))
    else
      var p := NodeForOffset(nodes, a).value;
      var q := NodeForOffset(nodes, b).value;
      NodeForOffsetMonotone(nodes, a, b);
      PlaceText(nodes, p, q, text, cursorOffset)
  }

  /** The caret offset lies inside the text, as `ApplyCursorPlaceholder` ensures. */
  predicate ValidResolved(resolved: Resolved) {
    resolved.cursorOffset <= |resolved.text|
  }

  /** The plain-field branch of `insertTemplateIntoElement`, once the field
      is known to have numeric selection indices. */
  function ExpandInPlainField(value: string, start: nat, end: Option<nat>, resolved: Resolved, allow: bool): (r: Insertion)
    requires WellFormed(PlainField(value, Some(start), end))
    requires ValidResolved(resolved)
    ensures WellFormed(r.field)
    ensures r.outcome.Failed? ==> r.outcome == Failed(NoShortcodeError) && r.field == PlainField(value, Some(start), end)
    ensures r.outcome.Ok? <==> GetTokenAtCursor(value, start, allow).Some?
    ensures r.outcome.Ok? ==> Caret(r.field).Some? && Caret(r.field).value <= |Content(r.field)|
  {
    match GetTokenAtCursor(value, start, allow)
    case None => Insertion(PlainField(value, Some(start), end), Failed(NoShortcodeError))
    case Some(m) =>
      var caret := m.start + resolved.cursorOffset;
      Insertion(PlainField(value[..m.start] + resolved.text + value[m.end..], Some(caret), Some(caret)), Ok)
  }

  /** The contenteditable branch of `insertTemplateIntoElement`, once a
      selection object exists. A selection elsewhere is first collapsed to the
      end of the element, and stays there even when no shortcode is found. */
  function ExpandInRichField(nodes: seq<string>, sel: RichSelection, resolved: Resolved, allow: bool): (r: Insertion)
    requires WellFormed(RichField(nodes, sel)) && !sel.NoSelectionObject?
    requires ValidResolved(resolved)
    ensures WellFormed(r.field) && r.field.RichField?
    ensures r.outcome.Failed? ==> r.field.nodes == nodes
    ensures r.outcome.Ok? ==> Caret(r.field).Some? && Caret(r.field).value <= |Content(r.field)|
  {
    var current := CurrentRange(nodes, sel);
    var before := Flatten(nodes)[..current.start];
    match GetTokenAtCursor(before, |before|, allow)
    case None => Insertion(RichField(nodes, current), Failed(NoShortcodeError))
    case Some(m) => ReplaceSpanInRichField(nodes, current, m.start, m.end, resolved)
  }

  /** The token's span mapped to node positions and replaced; the caret
      error when either end has no position. */
  function ReplaceSpanInRichField(nodes: seq<string>, current: RichSelection, s: nat, e: nat, resolved: Resolved): (r: Insertion)
    requires WellFormed(RichField(nodes, current)) && current.Range?
    requires s <= e <= |Flatten(nodes)| && ValidResolved(resolved)
    ensures WellFormed(r.field) && r.field.RichField?
    ensures r.outcome.Failed? ==> r.field == RichField(nodes, current)
    ensures 0 < e ==> r.outcome.Ok?
    ensures r.outcome.Ok? ==>
      && Content(r.field) == Flatten(nodes)[..s] + resolved.text + Flatten(nodes)[e..]
      && Caret(r.field) == Some(s + resolved.cursorOffset)
  {
    var startInfo := NodeForOffset(nodes, s);
    var endInfo := NodeForOffset(nodes, e);
    if startInfo.None? || endInfo.None? then Insertion(RichField(nodes, current), Failed(UnresolvedCaretError))
    else
      PlaceAtSpan(nodes, s, e, resolved);
      Insertion(PlaceText(nodes, startInfo.value, endInfo.value, resolved.text, resolved.cursorOffset), Ok)
  }

  /** `insertTemplateIntoElement(element, template, allowTrailingWhitespace)`. */
  function InsertTemplateIntoElement(field: Field, template: string, ctx: PageContext, allow: bool): (r: Insertion)
    requires WellFormed(field)
    ensures WellFormed(r.field)
    ensures r.outcome.Failed? ==> Content(r.field) == Content(field)
    ensures field.PlainField? && r.outcome.Failed? ==> r.field == field
    ensures field.PlainField? && field.selectionStart.None? ==> r.outcome == Failed(NoCursorSelectionError)
    ensures field.PlainField? && field.selectionStart.Some? ==>
      (r.outcome.Ok? <==> GetTokenAtCursor(field.value, field.selectionStart.value, allow).Some?)
    ensures field.RichField? && field.selection.NoSelectionObject? ==> r.outcome == Failed(NoSelectionError)
    ensures r.outcome.Ok? ==> Caret(r.field).Some? && Caret(r.field).value <= |Content(r.field)|
  {
    var resolved := Expand(template, ctx);
    match field
    case RichField(nodes, sel) =>
      if sel.NoSelectionObject? then Insertion(field, Failed(NoSelectionError))
      else ExpandInRichField(nodes, sel, resolved, allow)
    case PlainField(value, start, end) =>
      if start.None? then Insertion(field, Failed(NoCursorSelectionError))
      else ExpandInPlainField(value, start.value, end, resolved, allow)
  }

  /** `insertTemplateAtCursor(element, template)`: the selection is replaced
      by the template; no shortcode is involved. */
  function InsertTemplateAtCursor(field: Field, template: string, ctx: PageContext): (r: Insertion)
    requires WellFormed(field)
    ensures WellFormed(r.field)
    ensures r.outcome.Failed? ==> r.field == field
    ensures field.PlainField? && field.selectionStart.None? ==> r.outcome == Failed(NoCursorSelectionError)
    ensures field.RichField? && field.selection.NoSelectionObject? ==> r.outcome == Failed(NoSelectionError)
    ensures r.outcome.Failed? <==>
      (field.PlainField? && field.selectionStart.None?) || (field.RichField? && field.selection.NoSelectionObject?)
    ensures r.outcome.Ok? ==> Caret(r.field).Some? && Caret(r.field).value <= |Content(r.field)|
  {
    var resolved := Expand(template, ctx);
    match field
    case RichField(nodes, sel) =>
      if sel.NoSelectionObject? then Insertion(field, Failed(NoSelectionError))
      else
        var flat := Flatten(nodes);
        var a := if sel.Range? then sel.start else |flat|;
        var b := if sel.Range? then sel.end else |flat|;
        Insertion(ReplaceRange(nodes, a, b, resolved.text, resolved.cursorOffset), Ok)
    case PlainField(value, start, end) =>
      if start.None? then Insertion(field, Failed(NoCursorSelectionError))
      else Insertion(ReplaceInPlainField(value, start.value, end.GetOr(start.value), resolved), Ok)
  }

  /** `value.slice(0, start) + text + value.slice(end)` with the caret at
      `start + cursorOffset`. */
  function ReplaceInPlainField(value: string, start: nat, end: nat, resolved: Resolved): (f: Field)
    requires start <= end <= |value| && ValidResolved(resolved)
    ensures f.PlainField? && f.selectionStart.Some? && WellFormed(f)
    ensures ExpandedAt(value, f.value, f.selectionStart.value, start, end, resolved)
    ensures f.selectionEnd == f.selectionStart
  {
    var caret := start + resolved.cursorOffset;
    PlainField(value[..start] + resolved.text + value[end..], Some(caret), Some(caret))
  }

  /** A plain-field expansion keeps the text before the token, puts the
      template text in the token's place, keeps everything from the token's
      end (the skipped whitespace and all text after the caret), and puts the
      caret at the token's start plus the marker's offset. */
  predicate ExpandedAt(before: string, after: string, caret: nat, s: nat, e: nat, resolved: Resolved) {
    && s <= e <= |before|
    && |after| == s + |resolved.text| + (|before| - e)
    && after[..s] == before[..s]
    && after[s..s + |resolved.text|] == resolved.text
    && after[s + |resolved.text|..] == before[e..]
    && caret == s + resolved.cursorOffset
    && caret <= |after|
  }

  /** Each successful plain expansion replaced a token span in the sense of
      `TokenBeforeCaret`, as `ExpandedAt` describes. */
  lemma PlainExpansionSound(value: string, start: nat, end: Option<nat>, resolved: Resolved, allow: bool)
    requires WellFormed(PlainField(value, Some(start), end)) && ValidResolved(resolved)
    requires ExpandInPlainField(value, start, end, resolved, allow).outcome.Ok?
    ensures var r := ExpandInPlainField(value, start, end, resolved, allow);
      exists s: nat, e: nat ::
        && TokenBeforeCaret(value, start, allow, s, e)
        && ExpandedAt(value, Content(r.field), Caret(r.field).value, s, e, resolved)
  {
    var m := GetTokenAtCursor(value, start, allow).value;
    var r := ExpandInPlainField(value, start, end, resolved, allow);
    assert ExpandedAt(value, Content(r.field), Caret(r.field).value, m.start, m.end, resolved);
  }

  /** Conversely, a token span before the caret is always the one expanded. */
  lemma PlainExpansionComplete(value: string, start: nat, end: Option<nat>, resolved: Resolved,
                               allow: bool, s: nat, e: nat)
    requires WellFormed(PlainField(value, Some(start), end)) && ValidResolved(resolved)
    requires TokenBeforeCaret(value, start, allow, s, e)
    ensures var r := ExpandInPlainField(value, start, end, resolved, allow);
      && r.outcome.Ok?
      && ExpandedAt(value, Content(r.field), Caret(r.field).value, s, e, resolved)
  {
    TokenBeforeCaretFound(value, start, allow, s, e);
  }

  /** With the flag off, nothing is expanded unless the text before the caret
      ends in a token, and then the error is exactly the no-shortcode one. */
  lemma NoTokenNoChange(value: string, start: nat, end: Option<nat>, template: string, ctx: PageContext)
    requires WellFormed(PlainField(value, Some(start), end))
    requires !EndsWithToken(value[..start])
    ensures InsertTemplateIntoElement(PlainField(value, Some(start), end), template, ctx, false)
         == Insertion(PlainField(value, Some(start), end), Failed(NoShortcodeError))
  {
    TokenFoundIff(value, start);
  }

  /** A contenteditable element behaves as a plain field holding its text
      with the same selection: same outcome, same resulting text, same caret.
      In particular the caret-resolution error never occurs. */
  lemma RichAgreesWithPlain(nodes: seq<string>, sel: RichSelection, resolved: Resolved, allow: bool)
    requires WellFormed(RichField(nodes, sel)) && !sel.NoSelectionObject? && ValidResolved(resolved)
    ensures var flat := Flatten(nodes);
      var a := if sel.Range? then sel.start else |flat|;
      var b := if sel.Range? then sel.end else |flat|;
      var rich := ExpandInRichField(nodes, sel, resolved, allow);
      var plain := ExpandInPlainField(flat, a, Some(b), resolved, allow);
      && rich.outcome == plain.outcome
      && Content(rich.field) == Content(plain.field)
      && (rich.outcome.Ok? ==> Caret(rich.field) == Caret(plain.field))
  {
    var flat := Flatten(nodes);
    var a := if sel.Range? then sel.start else |flat|;
    var b := if sel.Range? then sel.end else |flat|;
    var found := GetTokenAtCursor(flat, a, allow);
    assert GetTokenAtCursor(flat[..a], |flat[..a]|, allow) == found by {
      OnlyTextBeforeCaretMatters(flat, a, allow);
    }
    if found.Some? {
      RichExpansionAt(nodes, sel, resolved, allow, found.value);
    } else {
      assert ExpandInRichField(nodes, sel, resolved, allow).outcome.Failed?;
    }
  }

  /** The selection the rich branch works from: a selection elsewhere is
      collapsed to the end of the element. */
  function CurrentRange(nodes: seq<string>, sel: RichSelection): (c: RichSelection)
    requires WellFormed(RichField(nodes, sel)) && !sel.NoSelectionObject?
    ensures c.Range? && WellFormed(RichField(nodes, c))
    ensures sel.Range? ==> c == sel
    ensures sel.Elsewhere? ==> c.start == c.end == |Flatten(nodes)|
  {
    if sel.Range? then sel else Range(|Flatten(nodes)|, |Flatten(nodes)|)
  }

  /** When the token is found, the rich branch replaces exactly the token's
      span of the element's text. */
  lemma RichExpansionAt(nodes: seq<string>, sel: RichSelection, resolved: Resolved, allow: bool, m: TokenMatch)
    requires WellFormed(RichField(nodes, sel)) && !sel.NoSelectionObject? && ValidResolved(resolved)
    requires var a := CurrentRange(nodes, sel).start;
      GetTokenAtCursor(Flatten(nodes)[..a], a, allow) == Some(m)
    ensures m.start <= m.end <= |Flatten(nodes)| && 0 < m.end
    ensures ExpandInRichField(nodes, sel, resolved, allow)
         == ReplaceSpanInRichField(nodes, CurrentRange(nodes, sel), m.start, m.end, resolved)
  {
    var flat := Flatten(nodes);
    var current := CurrentRange(nodes, sel);
    assert |flat[..current.start]| == current.start;
  }

  /** Placing text over a span given by linear offsets. */
  lemma PlaceAtSpan(nodes: seq<string>, s: nat, e: nat, resolved: Resolved)
    requires s <= e <= |Flatten(nodes)| && |nodes| > 0 && ValidResolved(resolved)
    ensures NodeForOffset(nodes, s).Some? && NodeForOffset(nodes, e).Some?
    ensures var p, q := NodeForOffset(nodes, s).value, NodeForOffset(nodes, e).value;
      && p.index <= q.index && (p.index == q.index ==> p.offset <= q.offset)
      && var f := PlaceText(nodes, p, q, resolved.text, resolved.cursorOffset);
      && Content(f) == Flatten(nodes)[..s] + resolved.text + Flatten(nodes)[e..]
      && Caret(f) == Some(s + resolved.cursorOffset)
  {
    var p, q := NodeForOffset(nodes, s).value, NodeForOffset(nodes, e).value;
    NodeForOffsetMonotone(nodes, s, e);
    assert LinearOffset(nodes, p) == s;
    assert LinearOffset(nodes, q) == e;
    assert Min(resolved.cursorOffset, |resolved.text|) == resolved.cursorOffset;
  }

  /** The caret-resolution failure cannot happen. */
  lemma CaretAlwaysResolves(field: Field, template: string, ctx: PageContext, allow: bool)
    requires WellFormed(field)
    ensures InsertTemplateIntoElement(field, template, ctx, allow).outcome != Failed(UnresolvedCaretError)
  {
    if field.RichField? && !field.selection.NoSelectionObject? {
      RichAgreesWithPlain(field.nodes, field.selection, Expand(template, ctx), allow);
    }
  }

  /** The contenteditable variant of inserting at the cursor agrees with the
      plain one on the element's text and the caret. */
  lemma RichAtCursorAgreesWithPlain(nodes: seq<string>, sel: RichSelection, template: string, ctx: PageContext)
    requires WellFormed(RichField(nodes, sel)) && !sel.NoSelectionObject?
    ensures var flat := Flatten(nodes);
      var a := if sel.Range? then sel.start else |flat|;
      var b := if sel.Range? then sel.end else |flat|;
      var rich := InsertTemplateAtCursor(RichField(nodes, sel), template, ctx);
      var plain := InsertTemplateAtCursor(PlainField(flat, Some(a), Some(b)), template, ctx);
      && rich.outcome == plain.outcome
      && Content(rich.field) == Content(plain.field)
      && Caret(rich.field) == Caret(plain.field)
  {
    var flat := Flatten(nodes);
    var a := if sel.Range? then sel.start else |flat|;
    var b := if sel.Range? then sel.end else |flat|;
    var resolved := Expand(template, ctx);
    RangeReplacementAgrees(nodes, a, b, resolved);
  }

  /** Replacing a range of the element's text node by node gives the text and
      caret that replacing the same range in a plain string gives. */
  lemma RangeReplacementAgrees(nodes: seq<string>, a: nat, b: nat, resolved: Resolved)
    requires a <= b <= |Flatten(nodes)| && ValidResolved(resolved)
    ensures var placed := ReplaceRange(nodes, a, b, resolved.text, resolved.cursorOffset);
      var typed := ReplaceInPlainField(Flatten(nodes), a, b, resolved);
      Content(placed) == Content(typed) && Caret(placed) == Caret(typed)
  {
    var flat := Flatten(nodes);
    var typed := ReplaceInPlainField(flat, a, b, resolved);
    assert Content(typed) == flat[..a] + resolved.text + flat[b..];
  }

  /** `ask #ask` with the caret at the end and the template
      `resolved{cursor}!` becomes `ask resolved!` with the caret after `resolved`. */
  lemma ExamplePlainExpansion(ctx: PageContext)
    ensures InsertTemplateIntoElement(PlainField("ask #ask", Some(8), Some(8)), "resolved{cursor}!", ctx, false)
         == Insertion(PlainField("ask resolved!", Some(12), Some(12)), Ok)
  {
    var value := "ask #ask";
    var resolved := Expand("resolved{cursor}!", ctx);
    ExampleTemplateResolved(ctx);
    ExampleTokenFound();
    calc {
      InsertTemplateIntoElement(PlainField(value, Some(8), Some(8)), "resolved{cursor}!", ctx, false);
      ExpandInPlainField(value, 8, Some(8), resolved, false);
      Insertion(PlainField(value[..4] + resolved.text + value[8..], Some(4 + 8), Some(4 + 8)), Ok);
      { ExampleSplice(value); }
      Insertion(PlainField("ask resolved!", Some(12), Some(12)), Ok);
    }
  }

  lemma ExampleSplice(value: string)
    requires value == "ask #ask"
    ensures value[..4] + "resolved!" + value[8..] == "ask resolved!"
  {
  }

  lemma ExampleTokenFound()
    ensures GetTokenAtCursor("ask #ask", 8, false) == Some(TokenMatch("#ask", 4, 8, 0))
  {
    var value := "ask #ask";
    assert value[4..8] == "#ask";
    assert IsToken("#ask");
    TokenBeforeCaretFound(value, 8, false, 4, 8);
  }

  /** The same expansion in an element whose text is split into `ask ` and
      `#ask`: the token's start resolves to the end of the first node and the
      new node goes between them. */
  lemma ExampleRichExpansion(ctx: PageContext)
    ensures InsertTemplateIntoElement(RichField(["ask ", "#ask"], Range(8, 8)), "resolved{cursor}!", ctx, false)
         == Insertion(RichField(["ask ", "resolved!", ""], Range(12, 12)), Ok)
  {
    var nodes := ["ask ", "#ask"];
    var resolved := Expand("resolved{cursor}!", ctx);
    ExampleTemplateResolved(ctx);
    ExampleNodes(nodes);
    ExampleTokenFound();
    var p, q := Position(0, 4), Position(1, 4);
    calc {
      InsertTemplateIntoElement(RichField(nodes, Range(8, 8)), "resolved{cursor}!", ctx, false);
      ExpandInRichField(nodes, Range(8, 8), resolved, false);
      Insertion(PlaceText(nodes, p, q, "resolved!", 8), Ok);
      Insertion(RichField(["ask ", "resolved!", ""], Range(12, 12)), Ok);
    }
  }

  /** The concrete facts the contenteditable example rests on. */
  lemma ExampleNodes(nodes: seq<string>)
    requires nodes == ["ask ", "#ask"]
    ensures Flatten(nodes) == "ask #ask" && Flatten(nodes)[..8] == "ask #ask"
    ensures NodeForOffset(nodes, 4) == Some(Position(0, 4))
    ensures NodeForOffset(nodes, 8) == Some(Position(1, 4))
    ensures SpliceNodes(nodes, Position(0, 4), Position(1, 4), "resolved!") == ["ask ", "resolved!", ""]
    ensures NodeStart(["ask ", "resolved!", ""], 1) == 4
  {
    assert nodes[1..] == ["#ask"];
    assert nodes[1..][1..] == [];
    assert NodeForOffset(nodes[1..], 4) == Some(Position(0, 4));
    assert nodes[..0] == [] && nodes[2..] == [];
    assert nodes[0][..4] == "ask " && nodes[1][4..] == "";
    var spliced := ["ask ", "resolved!", ""];
    assert spliced[..1] == ["ask "];
    assert spliced[..1][1..] == [];
  }

  /** The template of the two examples resolves to `resolved!` with the caret
      after `resolved`, whatever the page. */
  lemma ExampleTemplateResolved(ctx: PageContext)
    ensures Expand("resolved{cursor}!", ctx) == Resolved("resolved!", 8)
  {
    NoPlaceholderIn("resolved{cursor}!", ctx);
    ExampleCaretMarker();
  }

  lemma ExampleCaretMarker()
    ensures ApplyCursorPlaceholder("resolved{cursor}!") == Resolved("resolved!", 8)
  {
    var t := "resolved{cursor}!";
    CaretMarkerAt(t);
    CaretAtFirstMarker(t, 8);
    assert ReplaceAll(t[16..], CursorMarker, "") == t[16..];
  }

  lemma CaretMarkerAt(t: string)
    requires t == "resolved{cursor}!"
    ensures OccursAt(t, CursorMarker, 8)
    ensures forall j: nat :: j < 8 ==> !OccursAt(t, CursorMarker, j)
    ensures |t| == 17 && t[..8] + t[16..] == "resolved!"
  {
    assert t[8..16] == CursorMarker;
    forall j: nat | j < 8 ensures !OccursAt(t, CursorMarker, j) {
      assert t[j..j + |CursorMarker|][0] == t[j];
    }
  }

  /** The example template's only `{` starts `{cursor}`, so no placeholder
      occurs in it. */
  lemma NoPlaceholderIn(t: string, ctx: PageContext)
    requires t == "resolved{cursor}!"
    ensures ResolveTemplateVariables(t, ctx) == t
  {
    forall pat, i: nat | pat in [ClipboardMarker, SelectionMarker, UrlMarker, TitleMarker] && i <= |t|
      ensures !OccursAt(t, pat, i)
    {
      if i + |pat| <= |t| {
        assert t[i..i + |pat|][0] == t[i];
        assert t[i..i + |pat|][1] == t[i + 1];
      }
    }
    assert !HasPlaceholder(t);
  }
}

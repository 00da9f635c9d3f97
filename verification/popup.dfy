/** The popup's list logic (`popup.js`): name normalisation, the one-line
    preview, the search filter, tag parsing, saving an edited or new
    shortcut, deleting one, and merging an imported file. */
module Popup {
  import opened Wrappers
  import opened Text
  import opened Seqs
  import opened Shortcuts
  import opened Storage

  // ---------------------------------------------------------------------------
  // normalizeName

  /** `s.replace(/^#+/, "")`. */
  function StripLeadingHashes(s: string): (r: string)
    ensures |r| <= |s| && r == s[|s| - |r|..]
    ensures |r| > 0 ==> r[0] != '#'
  {
    s[LeadingRun(s, c => c == '#')..]
  }

  /** What `normalizeName` produces: starts with `#`, no ASCII capitals, no
      whitespace at either end. */
  predicate IsNormalName(s: string) {
    |s| > 0 && s[0] == '#' && IsLower(s) && IsTrimmed(s)
  }

  /** `normalizeName(name)`: trimmed and lower-cased; a `#` is put in front
      when missing. */
  function NormalizeName(name: string): (r: string)
    ensures IsNormalName(r)
  {
    var trimmed := Lower(Trim(name));
    LowerKeepsTrimmed(Trim(name));
    LowerFacts(Trim(name));
    if !StartsWith(trimmed, "#") then
      HashedIsNormal(trimmed);
      "#" + StripLeadingHashes(trimmed)
    else
      assert trimmed[0] == trimmed[..1][0];
      trimmed
  }

  /** Putting `#` before the hash-stripped rest of a trimmed lower-case
      string gives a normal name. */
  lemma HashedIsNormal(t: string)
    requires IsLower(t) && IsTrimmed(t)
    ensures IsNormalName("#" + StripLeadingHashes(t))
  {
    var r := StripLeadingHashes(t);
    var h := "#" + r;
    assert forall i :: 0 < i < |h| ==> h[i] == t[|t| - |r| + i - 1];
  }

  /** The `#`-stripping step never removes anything: it only runs on text
      that does not start with `#`. The result is the trimmed, lowered input
      with at most one `#` added in front. */
  lemma NormalizeNameAddsAtMostHash(name: string)
    ensures var t := Lower(Trim(name));
      NormalizeName(name) == (if |t| > 0 && t[0] == '#' then t else "#" + t)
  {
    var t := Lower(Trim(name));
    if !StartsWith(t, "#") {
      assert |t| == 0 || t[0] != '#';
      assert LeadingRun(t, c => c == '#') == 0;
    } else {
      assert t[..1] == "#";
    }
  }

  /** Normal names are left alone. */
  lemma NormalNameIsFixed(s: string)
    requires IsNormalName(s)
    ensures NormalizeName(s) == s
  {
    TrimTrimmed(s);
    LowerFacts(s);
    assert s[..1] == "#";
  }

  /** Normalising twice is normalising once. */
  lemma NormalizeNameIdempotent(name: string)
    ensures NormalizeName(NormalizeName(name)) == NormalizeName(name)
  {
    NormalNameIsFixed(NormalizeName(name));
  }

  /** Upper case and surrounding blanks do not matter: a word without a
      leading `#` comes out lower-cased behind one `#`. */
  lemma NormalizeNameIgnoresBlanksAndCase(pre: string, w: string, post: string)
    requires AllSpace(pre) && AllSpace(post) && IsTrimmed(w) && |w| > 0 && w[0] != '#'
    ensures NormalizeName(pre + w + post) == "#" + Lower(w)
  {
    TrimSurrounded(pre, w, post);
    NormalizeNameAddsAtMostHash(pre + w + post);
    assert Lower(w)[0] == LowerChar(w[0]);
  }

  /** A blank name normalises to the bare `#` that saving rejects. */
  lemma BlankNameIsBareHash(name: string)
    requires AllSpace(name)
    ensures NormalizeName(name) == "#"
  {
    NormalizeNameAddsAtMostHash(name);
  }

  // ---------------------------------------------------------------------------
  // toPreviewText

  const PreviewLength: nat := 80

  /** `template.split("\n")[0].slice(0, 80)`. */
  function ToPreviewText(template: string): (r: string)
    ensures |r| <= PreviewLength
    ensures |r| <= |template| && template[..|r|] == r
    ensures '\n' !in r
    ensures |r| == PreviewLength || |r| == |template| || template[|r|] == '\n'
  {
    var first := Split(template, "\n")[0];
    SplitFirstPiece(template, "\n");
    PreviewFirstLine(template);
    first[..if |first| < PreviewLength then |first| else PreviewLength]
  }

  /** The first piece of splitting on a newline is the text before the first
      newline. */
  lemma PreviewFirstLine(template: string)
    ensures var first := Split(template, "\n")[0];
      && |first| <= |template| && template[..|first|] == first
      && '\n' !in first
      && (|first| == |template| || template[|first|] == '\n')
  {
    SplitFirstPiece(template, "\n");
    SplitPiecesLackSeparator(template, '\n');
    assert Split(template, "\n")[0] in Split(template, "\n");
    var i := IndexOf(template, "\n");
    if i.Some? {
      assert template[i.value..i.value + 1] == "\n";
    } else {
      assert template[..|template|] == template;
    }
  }

  // ---------------------------------------------------------------------------
  // The list filter in renderList

  /** The query as compared: trimmed and lower-cased. */
  function Query(filter: string): string {
    Lower(Trim(filter))
  }

  /** The filter predicate for a prepared query: everything matches an empty
      query; otherwise the name, the template or the tags joined with spaces
      must contain it, compared in lower case. */
  predicate Matches(s: Shortcut, query: string) {
    query == ""
    || Contains(Lower(s.name), query)
    || Contains(Lower(s.template), query)
    || Contains(Lower(Join(s.tags, " ")), query)
  }

  /** The shortcuts `renderList(filter)` shows, in list order. */
  function FilterShortcuts(list: seq<Shortcut>, filter: string): (r: seq<Shortcut>)
    ensures IsSubseq(r, list)
    ensures forall s :: s in r <==> s in list && Matches(s, Query(filter))
    ensures forall s :: multiset(r)[s] == if Matches(s, Query(filter)) then multiset(list)[s] else 0
  {
    FilterIsSubseq(list, (s: Shortcut) => Matches(s, Query(filter)));
    FilterCounts(list, (s: Shortcut) => Matches(s, Query(filter)));
    Filter(list, (s: Shortcut) => Matches(s, Query(filter)))
  }

  /** A blank filter shows every shortcut. */
  lemma BlankFilterShowsAll(list: seq<Shortcut>, filter: string)
    requires AllSpace(filter)
    ensures FilterShortcuts(list, filter) == list
  {
    assert Query(filter) == "";
    FilterKeepsAll(list, (s: Shortcut) => Matches(s, Query(filter)));
  }

  /** Searching is blind to case and to surrounding blanks. */
  lemma FilterIgnoresCaseAndBlanks(list: seq<Shortcut>, filter: string)
    ensures FilterShortcuts(list, Lower(filter)) == FilterShortcuts(list, filter)
    ensures FilterShortcuts(list, Trim(filter)) == FilterShortcuts(list, filter)
  {
    TrimLower(filter);
    LowerFacts(Trim(filter));
    TrimIdempotent(filter);
    assert Query(Lower(filter)) == Query(filter);
    assert Query(Trim(filter)) == Query(filter);
  }

  // ---------------------------------------------------------------------------
  // deleteShortcut

  /** `deleteShortcut(name)`: when confirmed, every entry with that name is
      dropped and the rest keep their order. */
  function DeleteShortcut(list: seq<Shortcut>, name: string, confirmed: bool): (r: seq<Shortcut>)
    ensures !confirmed ==> r == list
    ensures confirmed ==> !HasName(r, name)
    ensures confirmed ==> forall s :: s in list && s.name != name ==> s in r
    ensures confirmed ==> forall s :: multiset(r)[s] == if s.name != name then multiset(list)[s] else 0
    ensures IsSubseq(r, list)
  {
    if !confirmed then
      IsSubseqRefl(list);
      list
    else
      FilterIsSubseq(list, (s: Shortcut) => s.name != name);
      FilterCounts(list, (s: Shortcut) => s.name != name);
      Filter(list, (s: Shortcut) => s.name != name)
  }

  /** Dropping entries keeps names distinct. */
  lemma {:induction false} FilterKeepsDistinct(list: seq<Shortcut>, p: Shortcut -> bool)
    requires DistinctNames(list)
    decreases |list|
    ensures DistinctNames(Filter(list, p))
  {
    if |list| > 0 {
      FilterKeepsDistinct(list[1..], p);
      var rest := Filter(list[1..], p);
      if p(list[0]) {
        var r := Filter(list, p);
        assert r == [list[0]] + rest;
        forall j | 0 < j < |r| ensures r[0].name != r[j].name {
          assert r[j] == rest[j - 1];
          assert rest[j - 1] in list[1..];
        }
      }
    }
  }

  /** Deleting a name that is not in the list changes nothing. */
  lemma DeleteMissingName(list: seq<Shortcut>, name: string)
    requires !HasName(list, name)
    ensures DeleteShortcut(list, name, true) == list
  {
    FilterKeepsAll(list, (s: Shortcut) => s.name != name);
  }

  // ---------------------------------------------------------------------------
  // Tags

  /** `.map((tag) => tag.trim())`. */
  function TrimAll(parts: seq<string>): (r: seq<string>)
    decreases |parts|
    ensures |r| == |parts|
    ensures forall i :: 0 <= i < |r| ==> r[i] == Trim(parts[i])
  {
    if |parts| == 0 then [] else [Trim(parts[0])] + TrimAll(parts[1..])
  }

  /** A tag as `handleSave` keeps it: not empty, trimmed, and without a comma. */
  predicate IsTag(t: string) {
    t != "" && IsTrimmed(t) && ',' !in t
  }

  /** `tagsInput.value.split(",").map((tag) => tag.trim()).filter(Boolean)`. */
  function ParseTags(input: string): (tags: seq<string>)
    ensures forall i :: 0 <= i < |tags| ==> IsTag(tags[i])
  {
    TrimmedPieces(input);
    Filter(TrimAll(Split(input, ",")), NonEmpty)
  }

  /** The tags are exactly the non-empty trimmed pieces: in their order,
      each as often as it occurs, and nothing else. */
  lemma ParseTagsKeepsPieces(input: string)
    ensures var pieces := TrimAll(Split(input, ","));
      && IsSubseq(ParseTags(input), pieces)
      && (forall t :: t in ParseTags(input) <==> t in pieces && t != "")
      && (forall t :: multiset(ParseTags(input))[t] == if t == "" then 0 else multiset(pieces)[t])
  {
    var pieces := TrimAll(Split(input, ","));
    FilterIsSubseq(pieces, NonEmpty);
    FilterCounts(pieces, NonEmpty);
  }

  /** The trimmed pieces of a split on `,` are trimmed and hold no comma. */
  lemma TrimmedPieces(input: string)
    ensures forall t :: t in TrimAll(Split(input, ",")) ==> IsTrimmed(t) && ',' !in t
  {
    var pieces := TrimAll(Split(input, ","));
    SplitPiecesLackSeparator(input, ',');
    forall i | 0 <= i < |pieces| ensures IsTrimmed(pieces[i]) && ',' !in pieces[i] {
      var p := Split(input, ",")[i];
      assert p in Split(input, ",");
      TrimIsSlice(p);
    }
  }

  /** `filter(Boolean)` on strings. */
  predicate NonEmpty(t: string) {
    t != ""
  }

  lemma TrimIsSlice(s: string)
    ensures forall c :: c in Trim(s) ==> c in s
  {
    var k := LeadingRun(s, IsSpace);
    forall c | c in Trim(s) ensures c in s {
      var j :| 0 <= j < |Trim(s)| && Trim(s)[j] == c;
      assert s[k + j] == c;
    }
  }

  /** `startEdit` fills the tags box with `tags.join(", ")`; saving parses it
      back to the same tags. */
  lemma {:induction false} TagsRoundTrip(tags: seq<string>)
    requires forall i :: 0 <= i < |tags| ==> IsTag(tags[i])
    decreases |tags|
    ensures ParseTags(Join(tags, ", ")) == tags
  {
    if |tags| == 0 {
      assert Split("", ",") == [""];
    } else {
      ParsePrefixTag(tags[0], tags[1..]);
      if |tags| > 1 {
        TagsRoundTrip(tags[1..]);
      }
      assert [tags[0]] + tags[1..] == tags;
    }
  }

  /** The first tag of a joined list comes off whole, and the rest parses as
      if the first were not there. */
  lemma ParsePrefixTag(t: string, rest: seq<string>)
    requires IsTag(t)
    ensures |rest| == 0 ==> ParseTags(Join([t] + rest, ", ")) == [t]
    ensures |rest| > 0 ==> ParseTags(Join([t] + rest, ", ")) == [t] + ParseTags(Join(rest, ", "))
  {
    if |rest| == 0 {
      ParseSingleTag(t);
      assert [t] + rest == [t];
    } else {
      ParseConsTag(t, rest);
    }
  }

  lemma ParseSingleTag(t: string)
    requires IsTag(t)
    ensures ParseTags(Join([t], ", ")) == [t]
  {
    TrimTrimmed(t);
    assert Join([t], ", ") == t;
    SplitWithoutSeparator(t, ',');
    assert TrimAll([t]) == [t];
  }

  lemma ParseConsTag(t: string, rest: seq<string>)
    requires IsTag(t) && |rest| > 0
    ensures ParseTags(Join([t] + rest, ", ")) == [t] + ParseTags(Join(rest, ", "))
  {
    var tail := Join(rest, ", ");
    var pieces := TrimAll(Split(Join([t] + rest, ", "), ","));
    assert pieces == [t] + TrimAll(Split(tail, ",")) by {
      SplitJoinedTag(t, rest);
      TrimAllCons(t, tail);
    }
    FilterCons(t, TrimAll(Split(tail, ",")));
  }

  lemma SplitJoinedTag(t: string, rest: seq<string>)
    requires IsTag(t) && |rest| > 0
    ensures Split(Join([t] + rest, ", "), ",") == [t] + Split(" " + Join(rest, ", "), ",")
  {
    var tail := Join(rest, ", ");
    JoinCons(t, rest, ", ");
    CommaSpace(t, tail);
    SplitAfterPiece(t, " " + tail, ',');
  }

  lemma TrimAllCons(t: string, tail: string)
    requires IsTrimmed(t)
    ensures TrimAll([t] + Split(" " + tail, ",")) == [t] + TrimAll(Split(tail, ","))
  {
    var p, q := Split(" " + tail, ","), Split(tail, ",");
    SplitLeadingSpace(tail, ',');
    assert TrimAll(p) == TrimAll(q);
    TrimTrimmed(t);
    assert ([t] + p)[1..] == p;
  }

  lemma CommaSpace(a: string, b: string)
    ensures a + ", " + b == a + [','] + ([' '] + b)
  {
    assert ", " == [','] + [' '];
  }

  lemma FilterCons(t: string, xs: seq<string>)
    requires t != ""
    ensures Filter([t] + xs, NonEmpty) == [t] + Filter(xs, NonEmpty)
  {
    assert ([t] + xs)[1..] == xs;
  }

  /** Splitting a string without the separator gives the string. */
  lemma {:induction false} SplitWithoutSeparator(s: string, c: char)
    requires c !in s
    decreases |s|
    ensures Split(s, [c]) == [s]
  {
    if |s| >= 1 {
      assert !StartsWith(s, [c]) by { assert s[0] != c; }
      SplitWithoutSeparator(s[1..], c);
      assert [s[0]] + s[1..] == s;
    }
  }

  /** A piece without the separator, the separator, then more text: the
      piece comes off first. */
  lemma {:induction false} SplitAfterPiece(a: string, b: string, c: char)
    requires c !in a
    decreases |a|
    ensures Split(a + [c] + b, [c]) == [a] + Split(b, [c])
  {
    var s := a + [c] + b;
    if |a| == 0 {
      assert s[..1] == [c];
      assert s[1..] == b;
    } else {
      assert s[..1] != [c] by { assert s[0] == a[0]; }
      assert s[1..] == a[1..] + [c] + b;
      SplitAfterPiece(a[1..], b, c);
      assert [a[0]] + a[1..] == a;
    }
  }

  /** A leading space stays on the first piece, where trimming removes it. */
  lemma SplitLeadingSpace(s: string, c: char)
    requires c != ' '
    ensures var p, q := Split([' '] + s, [c]), Split(s, [c]);
      |p| == |q| && p[0] == [' '] + q[0] && p[1..] == q[1..]
      && TrimAll(p) == TrimAll(q)
  {
    var p, q := Split([' '] + s, [c]), Split(s, [c]);
    assert ([' '] + s)[1..] == s;
    assert !StartsWith([' '] + s, [c]);
    TrimLeadingSpace(q[0]);
  }

  lemma TrimLeadingSpace(s: string)
    ensures Trim([' '] + s) == Trim(s)
  {
    var t := [' '] + s;
    assert LeadingRun(t, IsSpace) == 1 + LeadingRun(s, IsSpace);
    assert t[LeadingRun(t, IsSpace)..] == s[LeadingRun(s, IsSpace)..];
  }

  // ---------------------------------------------------------------------------
  // Upsert: `Map.prototype.set` keyed by name, and a replace-or-append

  /** Replace the first entry with the new entry's name in place, or append
      when there is none: what `map.set(name, value)` does to a `Map`'s
      insertion-ordered values, and what saving a shortcut should do. */
  function Upsert(list: seq<Shortcut>, entry: Shortcut): (r: seq<Shortcut>)
    ensures FindShortcutByName(r, entry.name) == Some(entry)
    ensures forall n :: n != entry.name ==> FindShortcutByName(r, n) == FindShortcutByName(list, n)
    ensures forall s :: s in r ==> s == entry || s in list
    ensures |list| <= |r| && forall i :: 0 <= i < |list| ==> r[i].name == list[i].name
    ensures DistinctNames(list) ==> DistinctNames(r)
  {
    match FindIndexByName(list, entry.name)
    case Some(i) =>
      var r := list[i := entry];
      FindIndexUpdated(list, i, entry);
      r
    case None =>
      FindIndexAppended(list, entry);
      list + [entry]
  }

  lemma FindIndexUpdated(list: seq<Shortcut>, i: nat, entry: Shortcut)
    requires FindIndexByName(list, entry.name) == Some(i)
    ensures FindShortcutByName(list[i := entry], entry.name) == Some(entry)
    ensures forall n :: n != entry.name ==> FindShortcutByName(list[i := entry], n) == FindShortcutByName(list, n)
  {
    var r := list[i := entry];
    IndexOfFirst(r, entry.name, i);
    forall n | n != entry.name
      ensures FindShortcutByName(r, n) == FindShortcutByName(list, n)
    {
      SameNamesSameFind(list, r, n);
    }
  }

  lemma FindIndexAppended(list: seq<Shortcut>, entry: Shortcut)
    requires FindIndexByName(list, entry.name).None?
    ensures FindShortcutByName(list + [entry], entry.name) == Some(entry)
    ensures forall n :: n != entry.name ==> FindShortcutByName(list + [entry], n) == FindShortcutByName(list, n)
  {
    var r := list + [entry];
    IndexOfFirst(r, entry.name, |list|);
    forall n | n != entry.name
      ensures FindShortcutByName(r, n) == FindShortcutByName(list, n)
    {
      SameNamesSameFind(list, r, n);
    }
  }

  /** An entry with the name and none before it is the one found. */
  lemma {:induction false} IndexOfFirst(list: seq<Shortcut>, name: string, i: nat)
    requires i < |list| && list[i].name == name
    requires forall j :: 0 <= j < i ==> list[j].name != name
    decreases i
    ensures FindIndexByName(list, name) == Some(i)
  {
    if i > 0 {
      IndexOfFirst(list[1..], name, i - 1);
    }
  }

  /** Lists that agree on every entry named `n`, and on where such entries
      are, up to the end of the shorter, find the same entry for `n`, given
      that the longer one has no further entry named `n`. */
  lemma {:induction false} SameNamesSameFind(a: seq<Shortcut>, b: seq<Shortcut>, n: string)
    requires |a| <= |b|
    requires forall i :: 0 <= i < |a| ==> (a[i].name == n || b[i].name == n) ==> a[i] == b[i]
    requires forall i :: |a| <= i < |b| ==> b[i].name != n
    decreases |a|
    ensures FindShortcutByName(a, n) == FindShortcutByName(b, n)
    ensures FindIndexByName(a, n) == FindIndexByName(b, n)
  {
    if |a| > 0 {
      SameNamesSameFind(a[1..], b[1..], n);
    } else if |b| > 0 {
      assert !HasName(b, n);
    }
  }

  // ---------------------------------------------------------------------------
  // handleSave

  const InvalidNameError: string := "Enter a valid #name."
  const EmptyTemplateError: string := "Template cannot be empty."

  /** The three text boxes of the form. */
  datatype Form = Form(name: string, template: string, tags: string)

  /** The form is rejected with a toast, or the list is saved. */
  datatype SaveResult = Rejected(message: string) | Saved(list: seq<Shortcut>)

  /** `editingName && editingName !== nameValue`: an edit that renames. */
  predicate Renaming(editingName: Option<string>, nameValue: string) {
    editingName.Some? && editingName.value != "" && editingName.value != nameValue
  }

  /** The shortcut `handleSave` builds from the form; the favourite flag is
      taken from the entry that already has the name, if any. */
  function Payload(list: seq<Shortcut>, form: Form): (p: Shortcut)
    ensures p.name == NormalizeName(form.name)
    ensures p.template == Trim(form.template)
    ensures p.tags == ParseTags(form.tags)
    ensures p.favorite <==> exists i :: 0 <= i < |list| && list[i].name == p.name
                                && list[i].favorite && forall j :: 0 <= j < i ==> list[j].name != p.name
  {
    var nameValue := NormalizeName(form.name);
    var existing := FindIndexByName(list, nameValue);
    var favorite := if existing.Some? then list[existing.value].favorite else false;
    Shortcut(nameValue, Trim(form.template), ParseTags(form.tags), favorite)
  }

  /** The checks `handleSave` makes before saving. */
  function Validate(form: Form): (r: Option<string>)
    ensures r.Some? <==> NormalizeName(form.name) == "#" || Trim(form.template) == ""
    ensures NormalizeName(form.name) == "#" ==> r == Some(InvalidNameError)
    ensures NormalizeName(form.name) != "#" && Trim(form.template) == "" ==> r == Some(EmptyTemplateError)
  {
    var nameValue := NormalizeName(form.name);
    if nameValue == "" || nameValue == "#" then Some(InvalidNameError)
    else if Trim(form.template) == "" then Some(EmptyTemplateError)
    else None
  }

  /** `shortcuts.splice(index, 1, item)`: replace at `index`, or append when
      the index is past the end. */
  function Splice(list: seq<Shortcut>, index: nat, item: Shortcut): (r: seq<Shortcut>)
    ensures index < |list| ==> r == list[index := item]
    ensures index >= |list| ==> r == list + [item]
  {
    if index < |list| then list[..index] + [item] + list[index + 1..] else list + [item]
  }

  /** The list with the entry being renamed dropped. */
  function DropRenamed(list: seq<Shortcut>, editingName: Option<string>, nameValue: string): seq<Shortcut> {
    if Renaming(editingName, nameValue) then Filter(list, (s: Shortcut) => s.name != editingName.value)
    else list
  }

  /** `handleSave()` as written: the index of the entry that already has the
      new name is found in the list BEFORE the entry being renamed is
      dropped, and then used on the list after. */
  function HandleSave(list: seq<Shortcut>, editingName: Option<string>, form: Form): (r: SaveResult)
    ensures r.Rejected? <==> Validate(form).Some?
    ensures r.Rejected? ==> r.message == Validate(form).value
    ensures r.Saved? ==> Payload(list, form) in r.list
  {
    match Validate(form)
    case Some(message) => Rejected(message)
    case None =>
      var payload := Payload(list, form);
      var kept := DropRenamed(list, editingName, payload.name);
      match FindIndexByName(list, payload.name)
      case Some(i) => Saved(Splice(kept, i, payload))
      case None => Saved(kept + [payload])
  }

  /** Renaming `#a` to the existing `#b` in `[#a, #b, #c]`: the stale index
      of `#b` lands on `#c`, which is overwritten, and `#b` is left twice. */
  lemma HandleSaveLosesEntry()
    ensures var a, b, c := Shortcut("#a", "A", [], false), Shortcut("#b", "B", [], false),
                           Shortcut("#c", "C", [], false);
      var r := HandleSave([a, b, c], Some("#a"), Form("#b", "X", ""));
      && r == Saved([b, Shortcut("#b", "X", [], false)])
      && !DistinctNames(r.list)
      && c !in r.list
  {
    var a, b, c := Shortcut("#a", "A", [], false), Shortcut("#b", "B", [], false), Shortcut("#c", "C", [], false);
    var payload := Shortcut("#b", "X", [], false);
    HandleSaveExampleResult([a, b, c], Form("#b", "X", ""));
    assert [b, payload][0].name == [b, payload][1].name;
    assert c.template != b.template && c.template != payload.template;
  }

  lemma HandleSaveExampleResult(list: seq<Shortcut>, form: Form)
    requires list == [Shortcut("#a", "A", [], false), Shortcut("#b", "B", [], false), Shortcut("#c", "C", [], false)]
    requires form == Form("#b", "X", "")
    ensures HandleSave(list, Some("#a"), form) == Saved([list[1], Shortcut("#b", "X", [], false)])
  {
    var b, c := list[1], list[2];
    var payload := Shortcut("#b", "X", [], false);
    PayloadExample(list, form);
    ExampleFormIsValid(form);
    DropRenamedExample(list[0], b, c);
    assert list == [list[0], b, c];
    calc {
      HandleSave(list, Some("#a"), form);
      Saved(Splice(DropRenamed(list, Some("#a"), "#b"), 1, payload));
      Saved(Splice([b, c], 1, payload));
      Saved([b, c][1 := payload]);
      { assert [b, c][1 := payload] == [b, payload]; }
      Saved([b, payload]);
    }
  }

  lemma ExampleFormIsValid(form: Form)
    requires form == Form("#b", "X", "")
    ensures Validate(form).None?
  {
    NormalNameIsFixed("#b");
    TrimTrimmed("X");
  }

  lemma HashWordIsNormal(s: string)
    requires IsHashWord(s)
    ensures IsNormalName(s)
  {
    assert forall j :: 0 <= j < |s| ==> !IsAsciiUpper(s[j]) by {
      forall j | 0 <= j < |s| ensures !IsAsciiUpper(s[j]) {
        if j > 0 {
          assert 'a' <= s[j] <= 'z';
        }
      }
    }
  }

  /** The default shortcuts' names are already normal, so saving one of
      them unchanged keeps its name. */
  lemma DefaultNamesAreNormal(i: nat)
    requires i < |DefaultShortcuts|
    ensures NormalizeName(DefaultShortcuts[i].name) == DefaultShortcuts[i].name
  {
    var name := DefaultShortcuts[i].name;
    assert IsHashWord(name);
    HashWordIsNormal(name);
    NormalNameIsFixed(name);
  }

  /** A form whose fields are already in shape saves them as they are. */
  lemma PayloadOfCleanForm(list: seq<Shortcut>, form: Form)
    requires IsNormalName(form.name) && IsTrimmed(form.template) && form.tags == ""
    requires forall i :: 0 <= i < |list| ==> !list[i].favorite
    ensures Payload(list, form) == Shortcut(form.name, form.template, [], false)
  {
    NormalNameIsFixed(form.name);
    TrimTrimmed(form.template);
    EmptyTagsInput();
  }

  lemma PayloadExample(list: seq<Shortcut>, form: Form)
    requires list == [Shortcut("#a", "A", [], false), Shortcut("#b", "B", [], false), Shortcut("#c", "C", [], false)]
    requires form == Form("#b", "X", "")
    ensures FindIndexByName(list, "#b") == Some(1)
    ensures Payload(list, form) == Shortcut("#b", "X", [], false)
  {
    assert IsNormalName("#b") && IsTrimmed("X");
    PayloadOfCleanForm(list, form);
    assert "#a"[1] != "#b"[1];
    IndexOfFirst(list, "#b", 1);
  }


  /** An empty tags box gives no tags. */
  lemma EmptyTagsInput()
    ensures ParseTags("") == []
  {
    assert Split("", ",") == [""];
    assert TrimAll([""]) == [""];
  }

  lemma DropRenamedExample(a: Shortcut, b: Shortcut, c: Shortcut)
    requires a.name == "#a" && b.name == "#b" && c.name == "#c"
    ensures DropRenamed([a, b, c], Some("#a"), "#b") == [b, c]
  {
    assert "#b"[1] != "#a"[1] && "#c"[1] != "#a"[1];
    var f := (s: Shortcut) => s.name != "#a";
    assert Renaming(Some("#a"), "#b");
    assert [a, b, c][1..] == [b, c];
    assert [b, c][1..] == [c];
    assert [c][1..] == [];
    calc {
      Filter([a, b, c], f);
      Filter([b, c], f);
      [b] + Filter([c], f);
      [b] + ([c] + Filter([], f));
      [b, c];
    }
  }

  /** `handleSave()` as evidently intended: the entry being renamed is
      dropped first, and the entry that has the new name is looked up in
      what remains. */
  function HandleSaveFixed(list: seq<Shortcut>, editingName: Option<string>, form: Form): (r: SaveResult)
    ensures r.Rejected? <==> Validate(form).Some?
    ensures r.Rejected? ==> r.message == Validate(form).value
  {
    match Validate(form)
    case Some(message) => Rejected(message)
    case None =>
      var payload := Payload(list, form);
      Saved(Upsert(DropRenamed(list, editingName, payload.name), payload))
  }

  /** What saving promises: names stay distinct, the saved shortcut is the
      one found under its name, a renamed entry is gone, and every other
      entry is untouched. */
  lemma HandleSaveFixedCorrect(list: seq<Shortcut>, editingName: Option<string>, form: Form)
    requires DistinctNames(list)
    requires Validate(form).None?
    ensures var r := HandleSaveFixed(list, editingName, form); var p := Payload(list, form);
      && r.Saved?
      && DistinctNames(r.list)
      && FindShortcutByName(r.list, p.name) == Some(p)
      && (Renaming(editingName, p.name) ==> !HasName(r.list, editingName.value))
      && (forall s :: s in list && s.name != p.name && !(Renaming(editingName, p.name) && s.name == editingName.value)
            ==> s in r.list)
      && (forall s :: s in r.list ==> s == p || s in list)
  {
    var p := Payload(list, form);
    var kept := DropRenamed(list, editingName, p.name);
    assert HandleSaveFixed(list, editingName, form) == Saved(Upsert(kept, p));
    DropRenamedFacts(list, editingName, p.name);
    UpsertKeepsOthers(kept, p);
    if Renaming(editingName, p.name) {
      UpsertAddsOnlyItsName(kept, p, editingName.value);
    }
  }

  /** Dropping the entry being renamed keeps names distinct, leaves no entry
      with the old name and keeps every other entry. */
  lemma DropRenamedFacts(list: seq<Shortcut>, editingName: Option<string>, nameValue: string)
    requires DistinctNames(list)
    ensures var kept := DropRenamed(list, editingName, nameValue);
      && DistinctNames(kept)
      && (forall s :: s in kept ==> s in list)
      && (Renaming(editingName, nameValue) ==> !HasName(kept, editingName.value))
      && (forall s :: s in list && !(Renaming(editingName, nameValue) && s.name == editingName.value) ==> s in kept)
  {
    if Renaming(editingName, nameValue) {
      var keep := (s: Shortcut) => s.name != editingName.value;
      var kept := Filter(list, keep);
      FilterKeepsDistinct(list, keep);
      forall s | s in kept ensures s in list && s.name != editingName.value {
        var i :| 0 <= i < |kept| && kept[i] == s;
      }
      forall s | s in list && s.name != editingName.value ensures s in kept {
        var i :| 0 <= i < |list| && list[i] == s;
      }
    }
  }

  /** Setting an entry keeps every entry that has another name. */
  lemma UpsertKeepsOthers(list: seq<Shortcut>, entry: Shortcut)
    requires DistinctNames(list)
    ensures forall s :: s in list && s.name != entry.name ==> s in Upsert(list, entry)
  {
    forall s | s in list && s.name != entry.name
      ensures s in Upsert(list, entry)
    {
      var i :| 0 <= i < |list| && list[i] == s;
      FindUnique(list, s.name, i);
    }
  }

  /** Setting an entry adds no name but its own. */
  lemma UpsertAddsOnlyItsName(list: seq<Shortcut>, entry: Shortcut, n: string)
    requires n != entry.name && !HasName(list, n)
    ensures !HasName(Upsert(list, entry), n)
  {
    assert FindShortcutByName(list, n).None?;
  }

  /** Outside a rename onto an existing name, the code as written does what
      was intended. */
  lemma HandleSaveAgreesUnlessRenamingOntoExisting(list: seq<Shortcut>, editingName: Option<string>, form: Form)
    requires !(Renaming(editingName, NormalizeName(form.name)) && HasName(list, NormalizeName(form.name)))
    ensures HandleSave(list, editingName, form) == HandleSaveFixed(list, editingName, form)
  {
  }

  // ---------------------------------------------------------------------------
  // handleImportFile

  /** A shortcut as read from an import file: `tags` may be missing and
      `favorite` may be any JSON value. */
  datatype Incoming = Incoming(name: string, template: string, tags: Option<seq<string>>, favorite: Value)

  /** The parsed file: `shortcuts` is `None` when it is not an array,
      `settings` when it is missing or falsy. */
  datatype ImportFile = ImportFile(shortcuts: Option<seq<Incoming>>, settings: Option<Settings>)

  /** `{ ...shortcut, tags: shortcut.tags || [], favorite: Boolean(shortcut.favorite) }`. */
  function FromIncoming(x: Incoming): (s: Shortcut)
    ensures s.name == x.name && s.template == x.template
    ensures s.tags == (if x.tags.Some? then x.tags.value else [])
    ensures s.favorite <==> Truthy(x.favorite)
  {
    Shortcut(x.name, x.template, x.tags.GetOr([]), Truthy(x.favorite))
  }

  function FromIncomingAll(xs: seq<Incoming>): (r: seq<Shortcut>)
    ensures |r| == |xs| && forall i :: 0 <= i < |xs| ==> r[i] == FromIncoming(xs[i])
  {
    seq(|xs|, i requires 0 <= i < |xs| => FromIncoming(xs[i]))
  }

  /** The last entry of `xs` with the name, if any. */
  function LastNamed(xs: seq<Shortcut>, n: string): (r: Option<Shortcut>)
    decreases |xs|
    ensures r.Some? ==> r.value in xs && r.value.name == n
    ensures r.None? <==> !HasName(xs, n)
  {
    if |xs| == 0 then None
    else if xs[|xs| - 1].name == n then Some(xs[|xs| - 1])
    else
      var r := LastNamed(xs[..|xs| - 1], n);
      assert forall s :: s in xs[..|xs| - 1] ==> s in xs;
      r
  }

  /** Setting every entry of `xs` in turn, as `incoming.forEach(merged.set)`
      and the `Map` constructor do: afterwards a name is found with its last
      setting, and names `xs` does not set are found as before. */
  function UpsertAll(list: seq<Shortcut>, xs: seq<Shortcut>): (r: seq<Shortcut>)
    decreases |xs|
    ensures forall n :: (FindShortcutByName(r, n)
         == if LastNamed(xs, n).Some? then LastNamed(xs, n) else FindShortcutByName(list, n))
  {
    if |xs| == 0 then list else Upsert(UpsertAll(list, xs[..|xs| - 1]), xs[|xs| - 1])
  }

  /** Setting one entry adds its name at the end when it is new, and
      otherwise leaves the names as they are. */
  lemma UpsertNames(list: seq<Shortcut>, entry: Shortcut)
    ensures Names(Upsert(list, entry))
         == if entry.name in Names(list) then Names(list) else Names(list) + [entry.name]
  {
    match FindIndexByName(list, entry.name)
    case Some(i) =>
      assert Names(list)[i] == entry.name;
      assert Names(Upsert(list, entry)) == Names(list);
    case None =>
      assert entry.name !in Names(list);
      assert Names(list + [entry]) == Names(list) + [entry.name];
  }

  /** The inductive step of `UpsertAllNames`, for the last entry of `xs`. */
  lemma UpsertNamesStep(prev: seq<Shortcut>, xs: seq<Shortcut>, a: seq<string>)
    requires |xs| > 0 && Names(prev) == Dedup(a + Names(xs[..|xs| - 1]))
    ensures Names(Upsert(prev, xs[|xs| - 1])) == Dedup(a + Names(xs))
  {
    var x := xs[|xs| - 1];
    UpsertNames(prev, x);
    var whole := a + Names(xs);
    NamesOfInit(xs);
    DropLastOfAppend(a, Names(xs));
    assert whole[|whole| - 1] == x.name;
    DedupStep(whole, Names(prev));
  }

  /** Over a list whose names are the first appearances in `a`, setting the
      entries of `xs` leaves the first appearances in `a` followed by the
      names of `xs`. */
  lemma {:induction false} UpsertAllNames(list: seq<Shortcut>, xs: seq<Shortcut>, a: seq<string>)
    requires Names(list) == Dedup(a)
    decreases |xs|
    ensures Names(UpsertAll(list, xs)) == Dedup(a + Names(xs))
  {
    if |xs| == 0 {
      assert a + Names(xs) == a;
    } else {
      var prev := UpsertAll(list, xs[..|xs| - 1]);
      assert UpsertAll(list, xs) == Upsert(prev, xs[|xs| - 1]);
      UpsertAllNames(list, xs[..|xs| - 1], a);
      UpsertNamesStep(prev, xs, a);
    }
  }

  /** Setting entries keeps names distinct, keeps the existing entries'
      names in their places, and adds new names only at the end. */
  lemma {:induction false} UpsertAllShape(list: seq<Shortcut>, xs: seq<Shortcut>)
    decreases |xs|
    ensures var r := UpsertAll(list, xs);
      && |list| <= |r|
      && (forall i :: 0 <= i < |list| ==> r[i].name == list[i].name)
      && (DistinctNames(list) ==> DistinctNames(r))
      && (forall s :: s in r ==> s in list || s in xs)
  {
    if |xs| > 0 {
      UpsertAllShape(list, xs[..|xs| - 1]);
      assert forall s :: s in xs[..|xs| - 1] ==> s in xs;
    }
  }

  /** `new Map(list.map((s) => [s.name, s]))` then `Array.from(map.values())`
      gives a list with distinct names back unchanged. */
  lemma {:induction false} MapOfDistinctIsIdentity(list: seq<Shortcut>)
    requires DistinctNames(list)
    decreases |list|
    ensures UpsertAll([], list) == list
  {
    if |list| > 0 {
      var init := list[..|list| - 1];
      assert DistinctNames(init);
      MapOfDistinctIsIdentity(init);
      var last := list[|list| - 1];
      assert !HasName(init, last.name);
      UpsertFresh(init, last);
      assert init + [last] == list;
    }
  }

  /** Setting an entry under a name the list lacks appends it. */
  lemma UpsertFresh(list: seq<Shortcut>, entry: Shortcut)
    requires !HasName(list, entry.name)
    ensures Upsert(list, entry) == list + [entry]
  {
  }

  /** The outcome of an import. */
  datatype Imported = Imported(shortcuts: seq<Shortcut>, settings: Settings)

  /** The incoming shortcuts whose names already exist. */
  function Conflicts(list: seq<Shortcut>, incoming: seq<Incoming>): (r: seq<Incoming>)
    ensures forall x :: x in r <==> x in incoming && HasName(list, x.name)
  {
    Filter(incoming, (x: Incoming) => HasName(list, x.name))
  }

  /** The merge in `handleImportFile`: `None` when there are conflicts and
      the overwrite is not confirmed; otherwise the existing shortcuts keyed
      by name with the incoming ones set over them, and the incoming settings
      spread over the current ones. */
  function ImportShortcuts(list: seq<Shortcut>, settings: Settings, file: ImportFile, confirmed: bool): (r: Option<Imported>)
    ensures r.None? <==> !confirmed && exists x :: x in file.shortcuts.GetOr([]) && HasName(list, x.name)
    ensures r.Some? ==> r.value.settings == Spread(settings, file.settings)
  {
    var incoming := file.shortcuts.GetOr([]);
    if |Conflicts(list, incoming)| > 0 && !confirmed then
      assert Conflicts(list, incoming)[0] in Conflicts(list, incoming);
      None
    else
      Some(Imported(UpsertAll(UpsertAll([], list), FromIncomingAll(incoming)), Spread(settings, file.settings)))
  }

  /** What an accepted import promises, whatever the stored list holds: the
      names are the stored ones and then the file's, each at its first
      appearance; a name is found with its last entry in the file, or else
      with its last stored entry; and nothing else enters the list. A name
      stored twice thus keeps its first place but its last value, as keying
      a `Map` does. */
  lemma ImportMergeCorrect(list: seq<Shortcut>, settings: Settings, file: ImportFile, confirmed: bool)
    requires ImportShortcuts(list, settings, file, confirmed).Some?
    ensures var merged := ImportShortcuts(list, settings, file, confirmed).value.shortcuts;
      var incoming := FromIncomingAll(file.shortcuts.GetOr([]));
      && Names(merged) == Dedup(Names(list) + Names(incoming))
      && DistinctNames(merged)
      && (forall n :: FindShortcutByName(merged, n)
            == if HasName(incoming, n) then LastNamed(incoming, n) else LastNamed(list, n))
      && (forall s :: s in merged ==> s in list || s in incoming)
  {
    var incoming := FromIncomingAll(file.shortcuts.GetOr([]));
    var keyed := UpsertAll([], list);
    assert Names([]) == Dedup([]);
    UpsertAllNames([], list, []);
    assert [] + Names(list) == Names(list);
    UpsertAllNames(keyed, incoming, Names(list));
    UpsertAllShape([], list);
    UpsertAllShape(keyed, incoming);
  }

  /** Each merged entry is the one its name resolves to. */
  lemma ImportedEntries(list: seq<Shortcut>, settings: Settings, file: ImportFile, confirmed: bool, i: nat)
    requires ImportShortcuts(list, settings, file, confirmed).Some?
    requires i < |ImportShortcuts(list, settings, file, confirmed).value.shortcuts|
    ensures var merged := ImportShortcuts(list, settings, file, confirmed).value.shortcuts;
      var incoming := FromIncomingAll(file.shortcuts.GetOr([]));
      Some(merged[i]) == if HasName(incoming, merged[i].name) then LastNamed(incoming, merged[i].name)
                         else LastNamed(list, merged[i].name)
  {
    var merged := ImportShortcuts(list, settings, file, confirmed).value.shortcuts;
    ImportMergeCorrect(list, settings, file, confirmed);
    FindUnique(merged, merged[i].name, i);
  }

  /** For a stored list without repeated names, the usual case, the stored
      entries also keep their places and the new names follow them. */
  lemma ImportIntoDistinctList(list: seq<Shortcut>, settings: Settings, file: ImportFile, confirmed: bool, n: string)
    requires DistinctNames(list)
    requires ImportShortcuts(list, settings, file, confirmed).Some?
    ensures var merged := ImportShortcuts(list, settings, file, confirmed).value.shortcuts;
      var incoming := FromIncomingAll(file.shortcuts.GetOr([]));
      && (HasName(incoming, n) ==> FindShortcutByName(merged, n) == LastNamed(incoming, n))
      && (!HasName(incoming, n) ==> FindShortcutByName(merged, n) == FindShortcutByName(list, n))
      && |list| <= |merged|
      && (forall i :: 0 <= i < |list| ==> merged[i].name == list[i].name)
  {
    MapOfDistinctIsIdentity(list);
    UpsertAllShape(list, FromIncomingAll(file.shortcuts.GetOr([])));
  }

  /** Without conflicts nothing is asked and the import always happens. */
  lemma ImportWithoutConflicts(list: seq<Shortcut>, settings: Settings, file: ImportFile, confirmed: bool)
    requires forall x :: x in file.shortcuts.GetOr([]) ==> !HasName(list, x.name)
    ensures ImportShortcuts(list, settings, file, confirmed).Some?
  {
  }
}

/** The shortcut record shared by the page script, the popup and storage, and
    the by-name lookups they all perform. */
module Shortcuts {
  import opened Wrappers

  /** One stored shortcut: a `#name` key, the template it expands to, free
      tags and a favourite flag. A shortcut without tags has `tags == []`. */
  datatype Shortcut = Shortcut(name: string, template: string, tags: seq<string>, favorite: bool)

  /** No two entries share a name. */
  predicate DistinctNames(list: seq<Shortcut>) {
    forall i, j :: 0 <= i < j < |list| ==> list[i].name != list[j].name
  }

  predicate HasName(list: seq<Shortcut>, name: string) {
    exists i :: 0 <= i < |list| && list[i].name == name
  }

  /** The names of the entries, in order. */
  function Names(list: seq<Shortcut>): (r: seq<string>)
    ensures |r| == |list| && forall i :: 0 <= i < |list| ==> r[i] == list[i].name
  {
    seq(|list|, i requires 0 <= i < |list| => list[i].name)
  }

  lemma NamesOfInit(list: seq<Shortcut>)
    requires |list| > 0
    ensures Names(list)[..|list| - 1] == Names(list[..|list| - 1])
  {
  }

  /** `list.findIndex((s) => s.name === name)`, with `None` for -1. */
  function FindIndexByName(list: seq<Shortcut>, name: string): (r: Option<nat>)
    decreases |list|
    ensures r.Some? ==> r.value < |list| && list[r.value].name == name
    ensures r.Some? ==> forall j :: 0 <= j < r.value ==> list[j].name != name
    ensures r.None? <==> !HasName(list, name)
  {
    if |list| == 0 then None
    else if list[0].name == name then Some(0)
    else
      var rest := FindIndexByName(list[1..], name);
      if rest.None? then None else Some(rest.value + 1)
  }

  /** `shortcuts.find((s) => s.name === name) || null`: the first entry with
      that name, or nothing when no entry has it. */
  function FindShortcutByName(list: seq<Shortcut>, name: string): (r: Option<Shortcut>)
    ensures r.Some? ==> r.value in list && r.value.name == name
    ensures r.Some? ==> exists i :: 0 <= i < |list| && list[i] == r.value
                          && forall j :: 0 <= j < i ==> list[j].name != name
    ensures r.None? <==> forall s :: s in list ==> s.name != name
  {
    match FindIndexByName(list, name)
    case None => None
    case Some(i) => Some(list[i])
  }

  /** When names are distinct, the entry found is the only one with the name. */
  lemma FindUnique(list: seq<Shortcut>, name: string, i: nat)
    requires DistinctNames(list)
    requires i < |list| && list[i].name == name
    ensures FindShortcutByName(list, name) == Some(list[i])
    ensures FindIndexByName(list, name) == Some(i)
  {
    assert HasName(list, name);
  }
}

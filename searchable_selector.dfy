// The searchable selector widget of the browser client: how options are
// ranked against the search term, which completion is suggested, how the
// selection changes and how the arrow keys move the highlighted option.
module SearchableSelector {
  import opened Strings
  import opened Wrappers

  /**
   * An option as the widget sees it: the values of its value and display
   * properties and the string values of its searched properties ("" where
   * one is missing).
   */
  datatype Item = Item(value: string, display: string, searched: seq<string>)

  /** itemMatches: some searched property is non-empty and contains the term, ignoring case. */
  predicate ItemMatches(item: Item, term: string)
  {
    exists i :: 0 <= i < |item.searched| && item.searched[i] != "" && Contains(Lower(item.searched[i]), Lower(term))
  }

  /** getItemRelevance: exact match 4, prefix 3, substring 2, anything else 1, all ignoring case. */
  function Relevance(item: Item, term: string): (r: int)
    ensures 1 <= r <= 4
    ensures r == 4 <==> Lower(item.display) == Lower(term)
    ensures r >= 3 <==> StartsWith(Lower(item.display), Lower(term))
    ensures r >= 2 <==> Contains(Lower(item.display), Lower(term))
  {
    var d := Lower(item.display);
    var t := Lower(term);
    if d == t then 4
    else if StartsWith(d, t) then 3
    else if Contains(d, t) then 2
    else 1
  }

  /** compareItemRelevance: negative when a sorts before b. */
  function CompareItems(a: Item, b: Item, term: string): (c: int)
    ensures Relevance(a, term) > Relevance(b, term) ==> c < 0
    ensures Relevance(a, term) < Relevance(b, term) ==> c > 0
    ensures Relevance(a, term) == 3 && Relevance(b, term) == 3 ==> (c < 0 <==> |a.display| < |b.display|)
    ensures Relevance(a, term) == Relevance(b, term) && Relevance(a, term) != 3 ==>
              (c < 0 <==> LexLess(a.display, b.display)) && (c == 0 <==> a.display == b.display)
  {
    var ra := Relevance(a, term);
    var rb := Relevance(b, term);
    if ra != rb then rb - ra
    else if ra == 3 then |a.display| - |b.display|
    else LocaleCompare(a.display, b.display)
  }

  /**
   * The comparator is a strict weak order, so sorting with it is well
   * defined: swapping the arguments flips the sign, and "not after" is
   * transitive.
   */
  lemma CompareIsOrder(a: Item, b: Item, c: Item, term: string)
    ensures CompareItems(a, a, term) == 0
    ensures CompareItems(a, b, term) < 0 <==> CompareItems(b, a, term) > 0
    ensures CompareItems(a, b, term) <= 0 && CompareItems(b, c, term) <= 0 ==> CompareItems(a, c, term) <= 0
  {
    LexLessTotal(a.display, b.display);
    if CompareItems(a, b, term) <= 0 && CompareItems(b, c, term) <= 0 {
      var ra, rb, rc := Relevance(a, term), Relevance(b, term), Relevance(c, term);
      if ra == rb == rc && ra != 3 && a.display != b.display && b.display != c.display {
        LexLessTransitive(a.display, b.display, c.display);
      }
    }
  }

  /**
   * The head of the list after Array.prototype.sort with the comparator.
   * The sort is stable, so this is the earliest element that nothing sorts
   * before.
   */
  function Best(xs: seq<Item>, term: string): (b: Item)
    requires |xs| > 0
    ensures b in xs
    decreases |xs|
  {
    if |xs| == 1 then xs[0]
    else
      var m := Best(xs[1..], term);
      if CompareItems(m, xs[0], term) < 0 then m else xs[0]
  }

  /** The best element sorts no later than any other, and strictly before every earlier one. */
  lemma {:induction false} BestIsFirst(xs: seq<Item>, term: string)
    requires |xs| > 0
    ensures forall x :: x in xs ==> CompareItems(Best(xs, term), x, term) <= 0
    ensures exists k :: 0 <= k < |xs| && xs[k] == Best(xs, term) &&
              forall i :: 0 <= i < k ==> CompareItems(Best(xs, term), xs[i], term) < 0
    decreases |xs|
  {
    var b := Best(xs, term);
    if |xs| == 1 {
      CompareIsOrder(xs[0], xs[0], xs[0], term);
      assert xs[0] == b;
    } else {
      var tail := xs[1..];
      var m := Best(tail, term);
      BestIsFirst(tail, term);
      if CompareItems(m, xs[0], term) < 0 {
        var k :| 0 <= k < |tail| && tail[k] == m && forall i :: 0 <= i < k ==> CompareItems(m, tail[i], term) < 0;
        assert xs[k + 1] == b;
        forall i | 0 <= i < k + 1
          ensures CompareItems(b, xs[i], term) < 0
        {
          if i > 0 {
            assert xs[i] == tail[i - 1];
          }
        }
        forall x | x in xs
          ensures CompareItems(b, x, term) <= 0
        {
          if x != xs[0] {
            assert x in tail;
          }
        }
      } else {
        assert b == xs[0];
        CompareIsOrder(xs[0], m, xs[0], term);
        forall x | x in xs
          ensures CompareItems(b, x, term) <= 0
        {
          if x != xs[0] {
            assert x in tail;
            CompareIsOrder(xs[0], m, x, term);
          }
        }
      }
    }
  }

  /** isItemSelected: an item with the same value is already selected. */
  predicate IsSelected(selected: seq<Item>, item: Item)
  {
    exists i :: 0 <= i < |selected| && selected[i].value == item.value
  }

  /** The unselected options that match the term, in option order. */
  function Matching(data: seq<Item>, selected: seq<Item>, term: string): (m: seq<Item>)
    ensures forall x :: x in m <==> x in data && !IsSelected(selected, x) && ItemMatches(x, term)
    decreases |data|
  {
    if |data| == 0 then []
    else
      var rest := Matching(data[1..], selected, term);
      assert forall x :: x in data <==> x == data[0] || x in data[1..];
      if !IsSelected(selected, data[0]) && ItemMatches(data[0], term) then [data[0]] + rest else rest
  }

  /** updateSuggestion: the completion offered for the term, or "" for none. */
  function Suggestion(data: seq<Item>, selected: seq<Item>, term: string): string
  {
    var m := Matching(data, selected, term);
    if term == "" || |m| == 0 then ""
    else
      var best := Best(m, term);
      if Lower(best.display) == Lower(term) then ""
      else if StartsWith(Lower(best.display), Lower(term)) then best.display
      else ""
  }

  /**
   * A completion is offered exactly when the best unselected match extends
   * the term without equalling it; it is then that match's display, no
   * unselected match is an exact one, and every other prefix match is at
   * least as long.
   */
  lemma SuggestionSpec(data: seq<Item>, selected: seq<Item>, term: string)
    ensures var m := Matching(data, selected, term);
      Suggestion(data, selected, term) != "" <==> term != "" && |m| > 0 && Relevance(Best(m, term), term) == 3
    ensures var m := Matching(data, selected, term);
      Suggestion(data, selected, term) != "" ==>
        Suggestion(data, selected, term) == Best(m, term).display &&
        forall x :: x in m ==> Relevance(x, term) <= 3 && (Relevance(x, term) == 3 ==> |Best(m, term).display| <= |x.display|)
  {
    var m := Matching(data, selected, term);
    if term != "" && |m| > 0 {
      var best := Best(m, term);
      BestIsFirst(m, term);
      if Relevance(best, term) == 3 {
        assert |Lower(best.display)| > |Lower(term)|;
        assert best.display != "";
        forall x | x in m
          ensures Relevance(x, term) <= 3 && (Relevance(x, term) == 3 ==> |best.display| <= |x.display|)
        {
          assert CompareItems(best, x, term) <= 0;
        }
      }
    }
  }

  /** The values of the items, in order. */
  function Values(items: seq<Item>): (vs: seq<string>)
    ensures |vs| == |items|
    ensures forall i :: 0 <= i < |items| ==> vs[i] == items[i].value
  {
    seq(|items|, i requires 0 <= i < |items| => items[i].value)
  }

  /** updateHiddenInput: the values joined by ", ", or in single-select mode the first value. */
  function HiddenValue(multiSelect: bool, selected: seq<Item>): string
  {
    if multiSelect then Join(Values(selected), ", ")
    else if |selected| > 0 then selected[0].value
    else ""
  }

  /** Selecting one more item in multi-select mode appends ", " and its value to the hidden value. */
  lemma HiddenValueAppend(selected: seq<Item>, item: Item)
    ensures HiddenValue(true, selected + [item]) ==
      if |selected| == 0 then item.value else HiddenValue(true, selected) + ", " + item.value
  {
    assert Values(selected + [item]) == Values(selected) + [item.value];
    JoinAppend(Values(selected), item.value, ", ");
  }

  /** No two selected items share a value. */
  predicate DistinctValues(selected: seq<Item>)
  {
    forall i, j :: 0 <= i < j < |selected| ==> selected[i].value != selected[j].value
  }

  /** selectItem refuses an item whose value is already selected in duplicate-free multi-select mode. */
  predicate SelectRefused(multiSelect: bool, allowDuplicates: bool, selected: seq<Item>, item: Item)
  {
    multiSelect && !allowDuplicates && IsSelected(selected, item)
  }

  /** The selection selectItem leaves. */
  function AfterSelect(multiSelect: bool, allowDuplicates: bool, selected: seq<Item>, item: Item): (r: seq<Item>)
    ensures !multiSelect ==> r == [item]
    ensures SelectRefused(multiSelect, allowDuplicates, selected, item) ==> r == selected
    ensures multiSelect && !SelectRefused(multiSelect, allowDuplicates, selected, item) ==> r == selected + [item]
    ensures IsSelected(r, item)
    ensures multiSelect && !allowDuplicates && DistinctValues(selected) ==> DistinctValues(r)
  {
    if !multiSelect then
      assert [item][0] == item;
      [item]
    else if !allowDuplicates && IsSelected(selected, item) then selected
    else
      var r := selected + [item];
      assert r[|selected|] == item;
      r
  }

  /** removeItem's filter: every item with the value goes, the rest keep their order. */
  function WithoutValue(selected: seq<Item>, v: string): (r: seq<Item>)
    ensures forall x :: x in r <==> x in selected && x.value != v
    ensures |r| <= |selected|
    decreases |selected|
  {
    if |selected| == 0 then []
    else
      var rest := WithoutValue(selected[1..], v);
      assert forall x :: x in selected <==> x == selected[0] || x in selected[1..];
      if selected[0].value != v then [selected[0]] + rest else rest
  }

  /** The filter works piece by piece, which is what keeping the order means. */
  lemma {:induction false} WithoutValueAppend(a: seq<Item>, b: seq<Item>, v: string)
    ensures WithoutValue(a + b, v) == WithoutValue(a, v) + WithoutValue(b, v)
    decreases |a|
  {
    if |a| == 0 {
      assert a + b == b;
    } else {
      assert (a + b)[0] == a[0] && (a + b)[1..] == a[1..] + b;
      WithoutValueAppend(a[1..], b, v);
    }
  }

  /** Removing a value nobody has changes nothing. */
  lemma {:induction false} WithoutAbsentValue(selected: seq<Item>, v: string)
    requires forall i :: 0 <= i < |selected| ==> selected[i].value != v
    ensures WithoutValue(selected, v) == selected
    decreases |selected|
  {
    if |selected| > 0 {
      WithoutAbsentValue(selected[1..], v);
      assert [selected[0]] + selected[1..] == selected;
    }
  }

  /** In multi-select mode, removing an item just selected restores a selection that lacked it. */
  lemma SelectThenRemove(allowDuplicates: bool, selected: seq<Item>, item: Item)
    requires !IsSelected(selected, item)
    ensures WithoutValue(AfterSelect(true, allowDuplicates, selected, item), item.value) == selected
  {
    WithoutValueAppend(selected, [item], item.value);
    WithoutAbsentValue(selected, item.value);
    assert WithoutValue([item], item.value) == [];
    assert selected + [] == selected;
  }

  /** ArrowDown: one option further down, stopping at the last one. */
  function DownIndex(h: int, n: nat): (r: int)
    requires n > 0
    ensures -1 <= h ==> 0 <= r < n
    ensures -1 <= h < n - 1 ==> r == h + 1
    ensures h == n - 1 ==> r == h
  {
    if h + 1 < n - 1 then h + 1 else n - 1
  }

  /** ArrowUp: one option further up, stopping at -1, which highlights nothing. */
  function UpIndex(h: int): (r: int)
    ensures r >= -1
    ensures h >= 0 ==> r == h - 1
    ensures h <= 0 ==> r == -1
    ensures r <= h || r == -1
  {
    if h - 1 > -1 then h - 1 else -1
  }

  /** The first option whose display equals the text, ignoring case (Array.prototype.find). */
  function FindByDisplay(data: seq<Item>, text: string): (r: Option<Item>)
    ensures r.Some? ==> r.value in data && Lower(r.value.display) == Lower(text)
    ensures r.None? ==> forall x :: x in data ==> Lower(x.display) != Lower(text)
    decreases |data|
  {
    if |data| == 0 then None
    else if Lower(data[0].display) == Lower(text) then Some(data[0])
    else
      assert forall x :: x in data <==> x == data[0] || x in data[1..];
      FindByDisplay(data[1..], text)
  }

  /** One selector widget: its options and its changing state. */
  class Selector {
    const multiSelect: bool
    const allowDuplicates: bool
    const data: seq<Item>
    var selected: seq<Item>
    var highlighted: int
    var suggestion: string
    var query: string
    var hidden: string
    var dropdownVisible: bool

    /** The highlight never drops below -1, which highlights nothing. */
    ghost predicate Valid()
      reads this
    {
      highlighted >= -1
    }

    constructor(multiSelect: bool, allowDuplicates: bool, data: seq<Item>, initial: seq<Item>)
      ensures Valid()
      ensures this.multiSelect == multiSelect && this.allowDuplicates == allowDuplicates && this.data == data
      ensures selected == initial && highlighted == -1 && suggestion == "" && query == "" && hidden == ""
      ensures !dropdownVisible
    {
      this.multiSelect := multiSelect;
      this.allowDuplicates := allowDuplicates;
      this.data := data;
      selected := initial;
      highlighted := -1;
      suggestion := "";
      query := "";
      hidden := "";
      dropdownVisible := false;
    }

    /** hideDropdown: does nothing when already hidden, else clears the highlight, the query and the suggestion. */
    method HideDropdown()
      requires Valid()
      modifies this
      ensures Valid()
      ensures !dropdownVisible
      ensures selected == old(selected) && hidden == old(hidden)
      ensures old(dropdownVisible) ==> highlighted == -1 && query == "" && suggestion == ""
      ensures !old(dropdownVisible) ==> highlighted == old(highlighted) && query == old(query) && suggestion == old(suggestion)
    {
      if dropdownVisible {
        dropdownVisible := false;
        highlighted := -1;
        query := "";
        suggestion := "";
      }
    }

    /** selectItem: updates the selection and the hidden value, then hides the dropdown; a refused item changes nothing. */
    method SelectItem(item: Item)
      requires Valid()
      modifies this
      ensures Valid()
      ensures selected == AfterSelect(multiSelect, allowDuplicates, old(selected), item)
      ensures SelectRefused(multiSelect, allowDuplicates, old(selected), item) ==>
                hidden == old(hidden) && highlighted == old(highlighted) && query == old(query) &&
                suggestion == old(suggestion) && dropdownVisible == old(dropdownVisible)
      ensures !SelectRefused(multiSelect, allowDuplicates, old(selected), item) ==>
                hidden == HiddenValue(multiSelect, selected) && !dropdownVisible &&
                (old(dropdownVisible) ==> highlighted == -1 && query == "" && suggestion == "") &&
                (!old(dropdownVisible) ==> highlighted == old(highlighted) && query == old(query) && suggestion == old(suggestion))
    {
      if !multiSelect {
        selected := [item];
      } else {
        if !allowDuplicates && IsSelected(selected, item) {
          return;
        }
        selected := selected + [item];
      }
      hidden := HiddenValue(multiSelect, selected);
      HideDropdown();
    }

    /** removeItem: drops every item with the value and rewrites the hidden value. */
    method RemoveItem(item: Item)
      requires Valid()
      modifies this`selected, this`hidden
      ensures Valid()
      ensures selected == WithoutValue(old(selected), item.value)
      ensures hidden == HiddenValue(multiSelect, selected)
    {
      selected := WithoutValue(selected, item.value);
      hidden := HiddenValue(multiSelect, selected);
    }

    /** updateSuggestion for the current options and selection. */
    method UpdateSuggestion(term: string)
      modifies this`suggestion
      ensures suggestion == Suggestion(data, selected, term)
    {
      suggestion := Suggestion(data, selected, term);
    }

    /** ArrowDown with the given number of visible options. */
    method ArrowDown(visibleCount: nat)
      requires Valid()
      modifies this`highlighted, this`dropdownVisible
      ensures Valid()
      ensures visibleCount > 0 ==> highlighted == DownIndex(old(highlighted), visibleCount) && dropdownVisible
      ensures visibleCount > 0 ==> 0 <= highlighted < visibleCount
      ensures visibleCount == 0 ==> highlighted == old(highlighted) && dropdownVisible == old(dropdownVisible)
    {
      if visibleCount > 0 {
        highlighted := DownIndex(highlighted, visibleCount);
        dropdownVisible := true;
      }
    }

    /** ArrowUp with the given number of visible options. */
    method ArrowUp(visibleCount: nat)
      requires Valid()
      modifies this`highlighted, this`dropdownVisible
      ensures Valid()
      ensures visibleCount > 0 ==> highlighted == UpIndex(old(highlighted)) && dropdownVisible
      ensures visibleCount > 0 && old(highlighted) < visibleCount ==> -1 <= highlighted < visibleCount
      ensures visibleCount == 0 ==> highlighted == old(highlighted) && dropdownVisible == old(dropdownVisible)
    {
      if visibleCount > 0 {
        highlighted := UpIndex(highlighted);
        dropdownVisible := true;
      }
    }

    /** Escape: hides the dropdown and highlights nothing. */
    method Escape()
      requires Valid()
      modifies this
      ensures Valid()
      ensures highlighted == -1 && !dropdownVisible
      ensures selected == old(selected) && hidden == old(hidden)
    {
      HideDropdown();
      highlighted := -1;
    }

    /**
     * Enter with the visible options in display order: selects the
     * highlighted option, else the option the suggestion names, else the
     * only visible option.
     */
    method Enter(visible: seq<Item>)
      requires Valid()
      modifies this
      ensures Valid()
      ensures 0 <= old(highlighted) < |visible| ==>
                selected == AfterSelect(multiSelect, allowDuplicates, old(selected), visible[old(highlighted)])
      ensures !(0 <= old(highlighted) < |visible|) && old(suggestion) != "" ==>
                var found := FindByDisplay(data, old(suggestion));
                (found.Some? ==> selected == AfterSelect(multiSelect, allowDuplicates, old(selected), found.value)) &&
                (found.None? ==> unchanged(this))
      ensures !(0 <= old(highlighted) < |visible|) && old(suggestion) == "" && |visible| == 1 ==>
                selected == AfterSelect(multiSelect, allowDuplicates, old(selected), visible[0])
      ensures !(0 <= old(highlighted) < |visible|) && old(suggestion) == "" && |visible| != 1 ==> unchanged(this)
    {
      if 0 <= highlighted < |visible| {
        SelectItem(visible[highlighted]);
      } else if suggestion != "" {
        var found := FindByDisplay(data, suggestion);
        if found.Some? {
          SelectItem(found.value);
        }
      } else if |visible| == 1 {
        SelectItem(visible[0]);
      }
    }

    /** Tab: completes the query to the suggestion and recomputes the suggestion for it. */
    method Tab()
      modifies this`query, this`suggestion
      ensures old(suggestion) != "" && TrimJs(old(query)) != old(suggestion) ==>
                query == old(suggestion) && suggestion == Suggestion(data, selected, old(suggestion))
      ensures !(old(suggestion) != "" && TrimJs(old(query)) != old(suggestion)) ==>
                query == old(query) && suggestion == old(suggestion)
    {
      if suggestion != "" && TrimJs(query) != suggestion {
        query := suggestion;
        UpdateSuggestion(suggestion);
      }
    }
  }
}

// The tag selector widget of the browser client: the two orders it sorts
// tags in, the completion it suggests, the selected tag names and the
// keyboard-highlighted option.
module TagSelector {
  import opened Strings
  import SearchableSelector
  import Seqs

  /** How well a tag name answers the term, ignoring case: 2 exact, 1 prefix, 0 otherwise. */
  function Tier(name: string, term: string): (r: nat)
    ensures r <= 2
    ensures r == 2 <==> Lower(name) == Lower(term)
    ensures r >= 1 <==> StartsWith(Lower(name), Lower(term))
  {
    if Lower(name) == Lower(term) then 2
    else if StartsWith(Lower(name), Lower(term)) then 1
    else 0
  }

  /** The order of the suggestion candidates: negative when a sorts before b. */
  function CompareSuggestions(a: string, b: string, term: string): (c: int)
    ensures Tier(a, term) > Tier(b, term) ==> c < 0
    ensures Tier(a, term) < Tier(b, term) ==> c > 0
    ensures Tier(a, term) == Tier(b, term) >= 1 ==> (c < 0 <==> |a| < |b|) && (c == 0 <==> |a| == |b|)
    ensures Tier(a, term) == Tier(b, term) == 0 ==> (c < 0 <==> LexLess(a, b)) && (c == 0 <==> a == b)
  {
    var al, bl, t := Lower(a), Lower(b), Lower(term);
    if al == t && bl != t then -1
    else if al != t && bl == t then 1
    else if StartsWith(al, t) && !StartsWith(bl, t) then -1
    else if !StartsWith(al, t) && StartsWith(bl, t) then 1
    else if StartsWith(al, t) && StartsWith(bl, t) then |a| - |b|
    else LocaleCompare(a, b)
  }

  /** The order of the visible dropdown options: like the suggestions but without the length tie-break. */
  function CompareOptions(a: string, b: string, term: string): (c: int)
    ensures Tier(a, term) > Tier(b, term) ==> c < 0
    ensures Tier(a, term) < Tier(b, term) ==> c > 0
    ensures Tier(a, term) == Tier(b, term) ==> (c < 0 <==> LexLess(a, b)) && (c == 0 <==> a == b)
  {
    var exactA, exactB := Lower(a) == Lower(term), Lower(b) == Lower(term);
    var prefixA, prefixB := StartsWith(Lower(a), Lower(term)), StartsWith(Lower(b), Lower(term));
    if exactA && !exactB then -1
    else if !exactA && exactB then 1
    else if prefixA && !prefixB then -1
    else if !prefixA && prefixB then 1
    else LocaleCompare(a, b)
  }

  /** The suggestion order is a total preorder: reflexive, antisymmetric in sign, and transitive. */
  lemma SuggestionOrder(a: string, b: string, c: string, term: string)
    ensures CompareSuggestions(a, a, term) == 0
    ensures CompareSuggestions(a, b, term) < 0 <==> CompareSuggestions(b, a, term) > 0
    ensures CompareSuggestions(a, b, term) <= 0 && CompareSuggestions(b, c, term) <= 0 ==> CompareSuggestions(a, c, term) <= 0
  {
    LexLessTotal(a, b);
    if CompareSuggestions(a, b, term) <= 0 && CompareSuggestions(b, c, term) <= 0 {
      if Tier(a, term) == Tier(b, term) == Tier(c, term) == 0 && a != b && b != c {
        LexLessTransitive(a, b, c);
      }
    }
  }

  /** The dropdown order is also a total preorder. */
  lemma OptionOrder(a: string, b: string, c: string, term: string)
    ensures CompareOptions(a, a, term) == 0
    ensures CompareOptions(a, b, term) < 0 <==> CompareOptions(b, a, term) > 0
    ensures CompareOptions(a, b, term) <= 0 && CompareOptions(b, c, term) <= 0 ==> CompareOptions(a, c, term) <= 0
  {
    LexLessTotal(a, b);
    if CompareOptions(a, b, term) <= 0 && CompareOptions(b, c, term) <= 0 {
      if Tier(a, term) == Tier(b, term) == Tier(c, term) && a != b && b != c {
        LexLessTransitive(a, b, c);
      }
    }
  }

  /**
   * The two orders disagree: for the term "a" the suggestion prefers the
   * shorter "ab", while the dropdown lists "aab" first.
   */
  lemma OrdersDisagree()
    ensures CompareSuggestions("ab", "aab", "a") < 0
    ensures CompareOptions("ab", "aab", "a") > 0
  {
    assert Lower("a") == "a" && Lower("ab") == "ab" && Lower("aab") == "aab";
    assert LexLess("aab", "ab");
  }

  /** The head of the candidates after the stable sort by the suggestion order. */
  function Best(xs: seq<string>, term: string): (b: string)
    requires |xs| > 0
    ensures b in xs
    decreases |xs|
  {
    if |xs| == 1 then xs[0]
    else
      var m := Best(xs[1..], term);
      if CompareSuggestions(m, xs[0], term) < 0 then m else xs[0]
  }

  /** The best candidate sorts no later than any other. */
  lemma {:induction false} BestIsMinimal(xs: seq<string>, term: string)
    requires |xs| > 0
    ensures forall x :: x in xs ==> CompareSuggestions(Best(xs, term), x, term) <= 0
    decreases |xs|
  {
    var b := Best(xs, term);
    if |xs| == 1 {
      SuggestionOrder(xs[0], xs[0], xs[0], term);
    } else {
      var tail := xs[1..];
      var m := Best(tail, term);
      BestIsMinimal(tail, term);
      if CompareSuggestions(m, xs[0], term) < 0 {
        forall x | x in xs
          ensures CompareSuggestions(b, x, term) <= 0
        {
          if x != xs[0] {
            assert x in tail;
          }
        }
      } else {
        SuggestionOrder(xs[0], m, xs[0], term);
        forall x | x in xs
          ensures CompareSuggestions(b, x, term) <= 0
        {
          if x != xs[0] {
            assert x in tail;
            SuggestionOrder(xs[0], m, x, term);
          }
        }
      }
    }
  }

  /**
   * The sort is stable: the best candidate stands at some position k, and
   * every candidate before it sorts strictly after it, so among equally good
   * candidates the first in tag order wins.
   */
  lemma {:induction false} BestIsFirst(xs: seq<string>, term: string)
    requires |xs| > 0
    ensures exists k :: 0 <= k < |xs| && xs[k] == Best(xs, term) &&
              forall i :: 0 <= i < k ==> CompareSuggestions(Best(xs, term), xs[i], term) < 0
    decreases |xs|
  {
    var b := Best(xs, term);
    if |xs| == 1 {
      assert xs[0] == b;
    } else {
      var tail := xs[1..];
      var m := Best(tail, term);
      if CompareSuggestions(m, xs[0], term) < 0 {
        BestIsFirst(tail, term);
        var k :| 0 <= k < |tail| && tail[k] == m && forall i :: 0 <= i < k ==> CompareSuggestions(m, tail[i], term) < 0;
        assert xs[k + 1] == b;
        forall i | 0 <= i < k + 1
          ensures CompareSuggestions(b, xs[i], term) < 0
        {
          if i > 0 {
            assert xs[i] == tail[i - 1];
          }
        }
      } else {
        assert xs[0] == b;
      }
    }
  }

  /** The suggestion candidates: unselected tags whose name contains the term, ignoring case, in tag order. */
  function Candidates(tags: seq<string>, selected: seq<string>, term: string): (c: seq<string>)
    ensures forall x :: x in c <==> x in tags && x !in selected && Contains(Lower(x), Lower(term))
    decreases |tags|
  {
    if |tags| == 0 then []
    else
      var rest := Candidates(tags[1..], selected, term);
      assert forall x :: x in tags <==> x == tags[0] || x in tags[1..];
      if tags[0] !in selected && Contains(Lower(tags[0]), Lower(term)) then [tags[0]] + rest else rest
  }

  /** updateSuggestion: the completion offered for the term, or "" for none. */
  function Suggestion(tags: seq<string>, selected: seq<string>, term: string): string
  {
    var c := Candidates(tags, selected, term);
    if term == "" || |c| == 0 then ""
    else
      var best := Best(c, term);
      if Lower(best) == Lower(term) then ""
      else if StartsWith(Lower(best), Lower(term)) then best
      else ""
  }

  /**
   * A completion is offered exactly when the best candidate extends the
   * term without equalling it; it is then that candidate, no candidate is
   * an exact match, and every other prefix candidate is at least as long.
   */
  lemma SuggestionSpec(tags: seq<string>, selected: seq<string>, term: string)
    ensures var c := Candidates(tags, selected, term);
      Suggestion(tags, selected, term) != "" <==> term != "" && |c| > 0 && Tier(Best(c, term), term) == 1
    ensures var c := Candidates(tags, selected, term);
      Suggestion(tags, selected, term) != "" ==>
        Suggestion(tags, selected, term) == Best(c, term) && Best(c, term) !in selected &&
        forall x :: x in c ==> Tier(x, term) <= 1 && (Tier(x, term) == 1 ==> |Best(c, term)| <= |x|)
    ensures var c := Candidates(tags, selected, term);
      Suggestion(tags, selected, term) != "" ==>
        exists k :: 0 <= k < |c| && c[k] == Suggestion(tags, selected, term) &&
          forall i :: 0 <= i < k ==> Tier(c[i], term) == 1 ==> |c[i]| > |c[k]|
  {
    var c := Candidates(tags, selected, term);
    if term != "" && |c| > 0 {
      var best := Best(c, term);
      BestIsMinimal(c, term);
      BestIsFirst(c, term);
      if Tier(best, term) == 1 {
        assert |Lower(best)| > |Lower(term)|;
        assert best != "";
        forall x | x in c
          ensures Tier(x, term) <= 1 && (Tier(x, term) == 1 ==> |best| <= |x|)
        {
          assert CompareSuggestions(best, x, term) <= 0;
        }
      }
    }
  }

  /** The selection selectTag leaves: a repeat is refused unless duplicates are allowed. */
  function AfterSelect(allowDuplicates: bool, selected: seq<string>, name: string): (r: seq<string>)
    ensures !allowDuplicates && name in selected ==> r == selected
    ensures allowDuplicates || name !in selected ==> r == selected + [name]
    ensures name in r
    ensures !allowDuplicates && Seqs.Distinct(selected) ==> Seqs.Distinct(r)
  {
    if !allowDuplicates && name in selected then selected
    else
      var r := selected + [name];
      assert r[|selected|] == name;
      r
  }

  /** selectTag followed by removeTag restores a selection that lacked the tag. */
  lemma SelectThenRemove(allowDuplicates: bool, selected: seq<string>, name: string)
    requires name !in selected
    ensures Seqs.Without(AfterSelect(allowDuplicates, selected, name), name) == selected
  {
    Seqs.WithoutAppend(selected, [name], name);
    Seqs.WithoutAbsent(selected, name);
    assert Seqs.Without([name], name) == [];
    assert selected + [] == selected;
  }

  /** One tag selector widget: its tags and its changing state. */
  class Selector {
    const allowDuplicates: bool
    const tags: seq<string>
    var selected: seq<string>
    var highlighted: int
    var suggestion: string
    var query: string
    var hidden: string
    var dropdownVisible: bool

    /** The highlight never drops below -1, which highlights nothing. */
    ghost predicate Valid()
      reads this
    {
      highlighted >= -1
    }

    constructor(allowDuplicates: bool, tags: seq<string>, initial: seq<string>)
      ensures Valid()
      ensures this.allowDuplicates == allowDuplicates && this.tags == tags
      ensures selected == initial && highlighted == -1 && suggestion == "" && query == "" && hidden == ""
      ensures !dropdownVisible
    {
      this.allowDuplicates := allowDuplicates;
      this.tags := tags;
      selected := initial;
      highlighted := -1;
      suggestion := "";
      query := "";
      hidden := "";
      dropdownVisible := false;
    }

    /** hideDropdown: does nothing when already hidden, else clears the highlight, the query and the suggestion. */
    method HideDropdown()
      requires Valid()
      modifies this
      ensures Valid()
      ensures !dropdownVisible
      ensures selected == old(selected) && hidden == old(hidden)
      ensures old(dropdownVisible) ==> highlighted == -1 && query == "" && suggestion == ""
      ensures !old(dropdownVisible) ==> highlighted == old(highlighted) && query == old(query) && suggestion == old(suggestion)
    {
      if dropdownVisible {
        dropdownVisible := false;
        highlighted := -1;
        query := "";
        suggestion := "";
      }
    }

    /** selectTag: appends the name, rewrites the hidden value and hides the dropdown; a refused repeat changes nothing. */
    method SelectTag(name: string)
      requires Valid()
      modifies this
      ensures Valid()
      ensures selected == AfterSelect(allowDuplicates, old(selected), name)
      ensures !allowDuplicates && name in old(selected) ==> unchanged(this)
      ensures allowDuplicates || name !in old(selected) ==>
                hidden == Join(selected, ", ") && !dropdownVisible &&
                (old(dropdownVisible) ==> highlighted == -1 && query == "" && suggestion == "") &&
                (!old(dropdownVisible) ==> highlighted == old(highlighted) && query == old(query) && suggestion == old(suggestion))
    {
      if !allowDuplicates && name in selected {
        return;
      }
      selected := selected + [name];
      hidden := Join(selected, ", ");
      HideDropdown();
    }

    /** removeTag: drops every occurrence and rewrites the hidden value. */
    method RemoveTag(name: string)
      requires Valid()
      modifies this`selected, this`hidden
      ensures Valid()
      ensures selected == Seqs.Without(old(selected), name)
      ensures hidden == Join(selected, ", ")
    {
      selected := Seqs.Without(selected, name);
      hidden := Join(selected, ", ");
    }

    /** updateSuggestion for the current tags and selection. */
    method UpdateSuggestion(term: string)
      modifies this`suggestion
      ensures suggestion == Suggestion(tags, selected, term)
    {
      suggestion := Suggestion(tags, selected, term);
    }

    /** ArrowDown with the given number of visible options; the index logic is the searchable selector's. */
    method ArrowDown(visibleCount: nat)
      requires Valid()
      modifies this`highlighted, this`dropdownVisible
      ensures Valid()
      ensures visibleCount > 0 ==> highlighted == SearchableSelector.DownIndex(old(highlighted), visibleCount) && dropdownVisible
      ensures visibleCount > 0 ==> 0 <= highlighted < visibleCount
      ensures visibleCount == 0 ==> highlighted == old(highlighted) && dropdownVisible == old(dropdownVisible)
    {
      if visibleCount > 0 {
        highlighted := SearchableSelector.DownIndex(highlighted, visibleCount);
        dropdownVisible := true;
      }
    }

    /** ArrowUp with the given number of visible options. */
    method ArrowUp(visibleCount: nat)
      requires Valid()
      modifies this`highlighted, this`dropdownVisible
      ensures Valid()
      ensures visibleCount > 0 ==> highlighted == SearchableSelector.UpIndex(old(highlighted)) && dropdownVisible
      ensures visibleCount > 0 && old(highlighted) < visibleCount ==> -1 <= highlighted < visibleCount
      ensures visibleCount == 0 ==> highlighted == old(highlighted) && dropdownVisible == old(dropdownVisible)
    {
      if visibleCount > 0 {
        highlighted := SearchableSelector.UpIndex(highlighted);
        dropdownVisible := true;
      }
    }

    /** Escape: hides the dropdown and highlights nothing. */
    method Escape()
      requires Valid()
      modifies this
      ensures Valid()
      ensures highlighted == -1 && !dropdownVisible
      ensures selected == old(selected) && hidden == old(hidden)
    {
      HideDropdown();
      highlighted := -1;
    }

    /**
     * Enter with the visible option names in display order: selects the
     * highlighted option, else the suggestion when the query is not blank,
     * else the only visible option; with several visible options and none
     * of those it highlights the first.
     */
    method Enter(visible: seq<string>)
      requires Valid()
      modifies this
      ensures Valid()
      ensures 0 <= old(highlighted) < |visible| ==>
                selected == AfterSelect(allowDuplicates, old(selected), visible[old(highlighted)])
      ensures !(0 <= old(highlighted) < |visible|) && old(suggestion) != "" && TrimJs(old(query)) != "" ==>
                selected == AfterSelect(allowDuplicates, old(selected), old(suggestion))
      ensures !(0 <= old(highlighted) < |visible|) && !(old(suggestion) != "" && TrimJs(old(query)) != "") && |visible| == 1 ==>
                selected == AfterSelect(allowDuplicates, old(selected), visible[0])
      ensures !(0 <= old(highlighted) < |visible|) && !(old(suggestion) != "" && TrimJs(old(query)) != "") && |visible| > 1 ==>
                highlighted == 0 && selected == old(selected) && hidden == old(hidden)
      ensures !(0 <= old(highlighted) < |visible|) && !(old(suggestion) != "" && TrimJs(old(query)) != "") && |visible| == 0 ==>
                unchanged(this)
    {
      if 0 <= highlighted < |visible| {
        SelectTag(visible[highlighted]);
      } else if suggestion != "" && TrimJs(query) != "" {
        SelectTag(suggestion);
      } else if |visible| == 1 {
        SelectTag(visible[0]);
      } else if |visible| > 1 {
        highlighted := 0;
      }
    }

    /** Tab: completes the query to the suggestion and recomputes the suggestion for it. */
    method Tab()
      modifies this`query, this`suggestion
      ensures old(suggestion) != "" && TrimJs(old(query)) != old(suggestion) ==>
                query == old(suggestion) && suggestion == Suggestion(tags, selected, old(suggestion))
      ensures !(old(suggestion) != "" && TrimJs(old(query)) != old(suggestion)) ==>
                query == old(query) && suggestion == old(suggestion)
    {
      if suggestion != "" && TrimJs(query) != suggestion {
        query := suggestion;
        UpdateSuggestion(suggestion);
      }
    }
  }
}

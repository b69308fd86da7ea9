// The markdown editor of the browser client: a textarea value with a
// selection range, edited by replacing the selection, inserting at the
// caret, wrapping the selection in markers and inserting links, and the
// keyboard shortcuts that drive those edits.
module MarkdownEditor {
  import opened Wrappers

  /** The value with the range [start, end) replaced by text. */
  function Replaced(v: string, start: nat, end: nat, text: string): (r: string)
    requires start <= end <= |v|
    ensures |r| == |v| - (end - start) + |text|
    ensures r[..start] == v[..start]
    ensures r[start..start + |text|] == text
    ensures r[start + |text|..] == v[end..]
  {
    v[..start] + text + v[end..]
  }

  /** Replacing the inserted text by what it replaced gives the original value back. */
  lemma ReplaceUndo(v: string, start: nat, end: nat, text: string)
    requires start <= end <= |v|
    ensures Replaced(Replaced(v, start, end, text), start, start + |text|, v[start..end]) == v
  {
    var r := Replaced(v, start, end, text);
    assert r[..start] == v[..start];
    assert r[start + |text|..] == v[end..];
    assert v[..start] + v[start..end] + v[end..] == v;
  }

  /** What a key press asks the editor to do. */
  datatype Action = Wrap(before: string, after: string) | Link | Indent

  /** A key press: the key and whether Ctrl or the meta key is held. */
  datatype KeyPress = KeyPress(key: string, ctrl: bool, meta: bool)

  /** The indentation Tab inserts. */
  const IndentText := "    "

  /**
   * The shortcut table: with Ctrl or the meta key, b wraps in "**", i in
   * "*", ` in "`" and k inserts a link; Tab, with or without a modifier,
   * indents.
   */
  function Shortcuts(e: KeyPress): (actions: seq<Action>)
    ensures |actions| <= 1
    ensures e.key == "Tab" ==> actions == [Indent]
    ensures (e.ctrl || e.meta) && e.key == "b" ==> actions == [Wrap("**", "**")]
    ensures (e.ctrl || e.meta) && e.key == "i" ==> actions == [Wrap("*", "*")]
    ensures (e.ctrl || e.meta) && e.key == "`" ==> actions == [Wrap("`", "`")]
    ensures (e.ctrl || e.meta) && e.key == "k" ==> actions == [Link]
    ensures !(e.ctrl || e.meta) && e.key != "Tab" ==> actions == []
  {
    var modified :=
      if !(e.ctrl || e.meta) then []
      else if e.key == "b" then [Wrap("**", "**")]
      else if e.key == "i" then [Wrap("*", "*")]
      else if e.key == "k" then [Link]
      else if e.key == "`" then [Wrap("`", "`")]
      else [];
    modified + (if e.key == "Tab" then [Indent] else [])
  }

  /** The link text the prompts give: the typed text, or the url when none was typed. */
  function LinkLabel(url: string, text: Option<string>): (shown: string)
    ensures text.Some? && text.value != "" ==> shown == text.value
    ensures text.None? || text.value == "" ==> shown == url
  {
    if text.Some? && text.value != "" then text.value else url
  }

  /** insertLink's markup "[text](url)", or nothing when the url prompt was cancelled or left empty. */
  function LinkMarkup(url: Option<string>, text: Option<string>): (r: Option<string>)
    ensures r.Some? <==> url.Some? && url.value != ""
    ensures r.Some? ==> |r.value| == |LinkLabel(url.value, text)| + |url.value| + 4
    ensures r.Some? ==> r.value[0] == '[' && r.value[|r.value| - 1] == ')'
    ensures r.Some? ==> r.value[1..1 + |LinkLabel(url.value, text)|] == LinkLabel(url.value, text)
    ensures r.Some? ==> r.value[|r.value| - 1 - |url.value|..|r.value| - 1] == url.value
  {
    if url.Some? && url.value != "" then
      var shown := LinkLabel(url.value, text);
      var m := "[" + shown + "](" + url.value + ")";
      assert m[1..1 + |shown|] == shown;
      assert m[|m| - 1 - |url.value|..|m| - 1] == url.value;
      Some(m)
    else None
  }

  /** One editor: the textarea's value and selection range. */
  class Editor {
    var value: string
    var selStart: nat
    var selEnd: nat

    /** The selection lies inside the value. */
    ghost predicate Valid()
      reads this
    {
      selStart <= selEnd <= |value|
    }

    /** The textarea as the editor finds it: its value and whatever selection it has. */
    constructor(initial: string, start: nat, end: nat)
      requires start <= end <= |initial|
      ensures Valid()
      ensures value == initial && selStart == start && selEnd == end
    {
      value := initial;
      selStart := start;
      selEnd := end;
    }

    /** setSelectionRange: both ends clamped to the value, an inverted range collapsed at its end. */
    method SetSelectionRange(start: nat, end: nat)
      modifies this`selStart, this`selEnd
      ensures Valid()
      ensures end <= |value| && start <= end ==> selStart == start && selEnd == end
      ensures selEnd == if end <= |value| then end else |value|
    {
      selEnd := if end <= |value| then end else |value|;
      selStart := if start <= selEnd then start else selEnd;
    }

    /**
     * replaceSelection: the value becomes the text before the selection,
     * the new text and the text after it. Assigning a textarea a different
     * value moves the caret to the end, as the HTML standard says; assigning
     * the value it already has leaves the selection alone.
     */
    method ReplaceSelection(text: string)
      requires Valid()
      modifies this
      ensures Valid()
      ensures value == Replaced(old(value), old(selStart), old(selEnd), text)
      ensures value != old(value) ==> selStart == selEnd == |value|
      ensures value == old(value) ==> selStart == old(selStart) && selEnd == old(selEnd)
    {
      var before := value[..selStart];
      var after := value[selEnd..];
      var updated := before + text + after;
      if updated != value {
        value := updated;
        selStart := |value|;
        selEnd := |value|;
      }
    }

    /** insertAtCursor: replaces the selection by the text and leaves the caret just after it. */
    method InsertAtCursor(text: string)
      requires Valid()
      modifies this
      ensures Valid()
      ensures value == Replaced(old(value), old(selStart), old(selEnd), text)
      ensures selStart == selEnd == old(selStart) + |text|
      ensures value[..selStart] == old(value[..selStart]) + text
    {
      var start := selStart;
      ReplaceSelection(text);
      SetSelectionRange(start + |text|, start + |text|);
      assert value[..selStart] == value[..start] + value[start..start + |text|];
    }

    /**
     * wrapSelection: surrounds the selection with the two markers. An empty
     * selection leaves the caret between them; otherwise the wrapped text
     * is selected.
     */
    method WrapSelection(before: string, after: string)
      requires Valid()
      modifies this
      ensures Valid()
      ensures var sel := old(value[selStart..selEnd]);
        value == Replaced(old(value), old(selStart), old(selEnd), before + sel + after)
      ensures old(selStart == selEnd) ==> selStart == selEnd == old(selStart) + |before|
      ensures old(selStart == selEnd) ==>
                value[old(selStart)..selStart] == before && value[selStart..selStart + |after|] == after
      ensures old(selStart < selEnd) ==>
                selStart == old(selStart) && selEnd == old(selStart) + |before| + old(selEnd - selStart) + |after|
      ensures old(selStart < selEnd) ==> value[selStart..selEnd] == before + old(value[selStart..selEnd]) + after
    {
      var start := selStart;
      var selected := value[selStart..selEnd];
      var replacement := before + selected + after;
      ReplaceSelection(replacement);
      assert value[start..start + |replacement|] == replacement;
      if selected == "" {
        SetSelectionRange(start + |before|, start + |before|);
        assert replacement == before + after;
        assert value[start..selStart] == replacement[..|before|];
        assert value[selStart..selStart + |after|] == replacement[|before|..];
      } else {
        SetSelectionRange(start, start + |replacement|);
      }
    }

    /** insertLink with the answers to the url and text prompts: inserts the markup only for a non-empty url. */
    method InsertLink(url: Option<string>, text: Option<string>)
      requires Valid()
      modifies this
      ensures Valid()
      ensures LinkMarkup(url, text).None? ==> value == old(value) && selStart == old(selStart) && selEnd == old(selEnd)
      ensures LinkMarkup(url, text).Some? ==>
                value == Replaced(old(value), old(selStart), old(selEnd), LinkMarkup(url, text).value) &&
                selStart == selEnd == old(selStart) + |LinkMarkup(url, text).value|
    {
      var markup := LinkMarkup(url, text);
      if markup.Some? {
        InsertAtCursor(markup.value);
      }
    }

    /** The keydown handler: performs the action the shortcut table gives, if any. */
    method HandleKey(e: KeyPress, url: Option<string>, text: Option<string>)
      requires Valid()
      modifies this
      ensures Valid()
      ensures Shortcuts(e) == [] ==> value == old(value) && selStart == old(selStart) && selEnd == old(selEnd)
      ensures Shortcuts(e) == [Indent] ==>
                value == Replaced(old(value), old(selStart), old(selEnd), IndentText) &&
                selStart == selEnd == old(selStart) + |IndentText|
      ensures forall b, a :: Shortcuts(e) == [Wrap(b, a)] ==>
                value == Replaced(old(value), old(selStart), old(selEnd), b + old(value[selStart..selEnd]) + a)
      ensures Shortcuts(e) == [Link] && LinkMarkup(url, text).None? ==>
                value == old(value) && selStart == old(selStart) && selEnd == old(selEnd)
      ensures Shortcuts(e) == [Link] && LinkMarkup(url, text).Some? ==>
                value == Replaced(old(value), old(selStart), old(selEnd), LinkMarkup(url, text).value) &&
                selStart == selEnd == old(selStart) + |LinkMarkup(url, text).value|
    {
      var actions := Shortcuts(e);
      if |actions| == 1 {
        match actions[0]
        case Wrap(b, a) => WrapSelection(b, a);
        case Link => InsertLink(url, text);
        case Indent => InsertAtCursor(IndentText);
      }
    }
  }
}

// The comma-separated tag field of the note form in the browser client:
// how its text is read as a tag list, how the global addTag and removeTag
// helpers rewrite it, and the more-than-ten-tags warning.
module AppTags {
  import opened Strings
  import Seqs

  /** The most tags the field accepts without being marked invalid. */
  const MaxTags := 10

  /** map(t => t.trim()).filter(t => t): trims every piece and drops the empty ones. */
  function Clean(pieces: seq<string>): (r: seq<string>)
    ensures |r| <= |pieces|
    ensures forall x :: x in r ==> x != "" && TrimJs(x) == x
    ensures forall x :: x in r <==> x != "" && exists p :: p in pieces && TrimJs(p) == x
    decreases |pieces|
  {
    if |pieces| == 0 then []
    else
      var rest := Clean(pieces[1..]);
      var t := TrimJs(pieces[0]);
      TrimJsIdempotent(pieces[0]);
      assert forall p :: p in pieces <==> p == pieces[0] || p in pieces[1..];
      if t != "" then [t] + rest else rest
  }

  /** Cleaning works piece by piece. */
  lemma CleanCons(p: string, rest: seq<string>)
    ensures Clean([p] + rest) == (if TrimJs(p) != "" then [TrimJs(p)] else []) + Clean(rest)
  {
    assert ([p] + rest)[1..] == rest;
  }

  /** The tags in the field's text, in order. */
  function ParseTags(value: string): seq<string>
  {
    Clean(Split(value, ','))
  }

  /** A parsed tag is non-empty, trimmed and free of commas. */
  lemma ParsedTagClean(value: string, x: string)
    requires x in ParseTags(value)
    ensures x != "" && TrimJs(x) == x && ',' !in x
  {
    var p :| p in Split(value, ',') && TrimJs(p) == x;
    SplitPiecesLackSep(value, ',', p);
    if ',' in x {
      TrimJsInside(p, ',');
    }
  }

  /** The non-empty elements, in order. */
  function NonEmpty(xs: seq<string>): (r: seq<string>)
    ensures forall x :: x in r <==> x in xs && x != ""
    decreases |xs|
  {
    if |xs| == 0 then []
    else
      var rest := NonEmpty(xs[1..]);
      assert forall x :: x in xs <==> x == xs[0] || x in xs[1..];
      if xs[0] != "" then [xs[0]] + rest else rest
  }

  lemma NonEmptyCons(x: string, rest: seq<string>)
    ensures NonEmpty([x] + rest) == (if x != "" then [x] else []) + NonEmpty(rest)
  {
    assert ([x] + rest)[1..] == rest;
  }

  /** A list without empty elements is its own non-empty part. */
  lemma {:induction false} NonEmptyKeeps(xs: seq<string>)
    requires forall i :: 0 <= i < |xs| ==> xs[i] != ""
    ensures NonEmpty(xs) == xs
    decreases |xs|
  {
    if |xs| > 0 {
      NonEmptyKeeps(xs[1..]);
      assert [xs[0]] + xs[1..] == xs;
    }
  }

  lemma NonEmptyAppend(xs: seq<string>, y: string)
    ensures NonEmpty(xs + [y]) == NonEmpty(xs) + (if y != "" then [y] else [])
    decreases |xs|
  {
    if |xs| == 0 {
      assert xs + [y] == [y];
      NonEmptyCons(y, []);
    } else {
      assert xs + [y] == [xs[0]] + (xs[1..] + [y]);
      NonEmptyCons(xs[0], xs[1..] + [y]);
      NonEmptyAppend(xs[1..], y);
      NonEmptyCons(xs[0], xs[1..]);
      assert [xs[0]] + xs[1..] == xs;
    }
  }

  /** Tags that read back as themselves: trimmed and without commas. */
  predicate Joinable(xs: seq<string>)
  {
    forall i :: 0 <= i < |xs| ==> TrimJs(xs[i]) == xs[i] && ',' !in xs[i]
  }

  /** The blank after a comma, or nothing at the very start. */
  predicate IsPad(p: string)
  {
    p == "" || p == " "
  }

  /** A tag that reads back as itself, after the blank that may precede it. */
  lemma PaddedPieceTrims(p: string, x: string)
    requires IsPad(p) && TrimJs(x) == x && ',' !in x
    ensures TrimJs(p + x) == x && ',' !in p + x
  {
    if p == " " {
      TrimJsLeadingSpace(x);
    } else {
      assert p + x == x;
    }
  }

  /** The last tag of the text: a single piece. */
  lemma ParseJoinLast(p: string, xs: seq<string>)
    requires IsPad(p) && |xs| <= 1 && Joinable(xs)
    ensures Clean(Split(p + Join(xs, ", "), ',')) == NonEmpty(xs)
  {
    if |xs| == 0 {
      assert p + Join(xs, ", ") == p;
      SplitNoSep(p, ',');
      CleanCons(p, []);
    } else {
      PaddedPieceTrims(p, xs[0]);
      assert p + Join(xs, ", ") == p + xs[0];
      SplitNoSep(p + xs[0], ',');
      CleanCons(p + xs[0], []);
      NonEmptyCons(xs[0], []);
      assert xs == [xs[0]] + [];
    }
  }

  /** Joined text with at least two tags: the first tag, a comma, then the blank and the rest. */
  lemma JoinFront(p: string, xs: seq<string>)
    requires |xs| >= 2
    ensures p + Join(xs, ", ") == (p + xs[0]) + [','] + (" " + Join(xs[1..], ", "))
  {
    SeparatorSplits(p, xs[0], Join(xs[1..], ", "));
  }

  /** The separator ", " is a comma followed by the blank that pads the next piece. */
  lemma SeparatorSplits(p: string, x: string, r: string)
    ensures p + (x + ", " + r) == (p + x) + [','] + (" " + r)
  {
    var a := p + (x + ", " + r);
    var b := (p + x) + [','] + (" " + r);
    assert |a| == |b|;
    forall k | 0 <= k < |a| ensures a[k] == b[k] {
      if k < |p| {
      } else if k < |p| + |x| {
      } else if k == |p| + |x| {
      } else if k == |p| + |x| + 1 {
      } else {
      }
    }
  }

  /** One tag more in front: its piece ends at the first comma. */
  lemma ParseJoinStep(p: string, xs: seq<string>)
    requires IsPad(p) && |xs| >= 2 && Joinable(xs)
    requires Clean(Split(" " + Join(xs[1..], ", "), ',')) == NonEmpty(xs[1..])
    ensures Clean(Split(p + Join(xs, ", "), ',')) == NonEmpty(xs)
  {
    var head := p + xs[0];
    var rest := Split(" " + Join(xs[1..], ", "), ',');
    PaddedPieceTrims(p, xs[0]);
    JoinFront(p, xs);
    SplitAtSep(head, ',', " " + Join(xs[1..], ", "));
    assert Split(p + Join(xs, ", "), ',') == [head] + rest;
    CleanCons(head, rest);
    NonEmptyCons(xs[0], xs[1..]);
    assert NonEmpty(xs) == NonEmpty([xs[0]] + xs[1..]) by {
      assert xs == [xs[0]] + xs[1..];
    }
  }

  /**
   * Reading the text join(', ') writes gives back the non-empty tags; the
   * leading pad stands for the blank after a comma.
   */
  lemma {:induction false} ParseJoinPadded(p: string, xs: seq<string>)
    requires IsPad(p) && Joinable(xs)
    ensures Clean(Split(p + Join(xs, ", "), ',')) == NonEmpty(xs)
    decreases |xs|
  {
    if |xs| <= 1 {
      ParseJoinLast(p, xs);
    } else {
      assert Joinable(xs[1..]) by {
        forall i | 0 <= i < |xs[1..]|
          ensures TrimJs(xs[1..][i]) == xs[1..][i] && ',' !in xs[1..][i]
        {
          assert xs[1..][i] == xs[i + 1];
        }
      }
      ParseJoinPadded(" ", xs[1..]);
      ParseJoinStep(p, xs);
    }
  }

  /** Reading back the text join(', ') writes gives the non-empty tags. */
  lemma ParseJoin(xs: seq<string>)
    requires Joinable(xs)
    ensures ParseTags(Join(xs, ", ")) == NonEmpty(xs)
  {
    ParseJoinPadded("", xs);
    assert "" + Join(xs, ", ") == Join(xs, ", ");
  }

  /** The parsed tags qualify for a faithful join, with nothing empty to drop. */
  lemma ParsedJoinable(value: string)
    ensures Joinable(ParseTags(value))
    ensures NonEmpty(ParseTags(value)) == ParseTags(value)
  {
    var ts := ParseTags(value);
    forall i | 0 <= i < |ts|
      ensures TrimJs(ts[i]) == ts[i] && ',' !in ts[i] && ts[i] != ""
    {
      ParsedTagClean(value, ts[i]);
    }
    NonEmptyKeeps(ts);
  }

  /** addTag's new text: unchanged when the tag is listed, else the list with the tag appended, joined by ", ". */
  function AddedValue(value: string, name: string): string
  {
    var ts := ParseTags(value);
    if name in ts then value else Join(ts + [name], ", ")
  }

  /** removeTag's new text: the list without every occurrence of the tag, joined by ", ". */
  function RemovedValue(value: string, name: string): string
  {
    Join(Seqs.Without(ParseTags(value), name), ", ")
  }

  /** The text addTag writes for an unlisted, trimmed, comma-free tag reads back as the old tags and, unless empty, the new one. */
  lemma AddedReadsBack(value: string, name: string)
    requires name !in ParseTags(value) && TrimJs(name) == name && ',' !in name
    ensures ParseTags(AddedValue(value, name)) == ParseTags(value) + (if name != "" then [name] else [])
  {
    var ts := ParseTags(value);
    ParsedJoinable(value);
    assert Joinable(ts + [name]) by {
      forall i | 0 <= i < |ts + [name]|
        ensures TrimJs((ts + [name])[i]) == (ts + [name])[i] && ',' !in (ts + [name])[i]
      {
        if i < |ts| {
          assert (ts + [name])[i] == ts[i];
        }
      }
    }
    ParseJoin(ts + [name]);
    NonEmptyAppend(ts, name);
  }

  /** Adding a new, trimmed, comma-free tag lists it once, at the end. */
  lemma AddAppendsOnce(value: string, name: string)
    requires name !in ParseTags(value) && name != "" && TrimJs(name) == name && ',' !in name
    ensures ParseTags(AddedValue(value, name)) == ParseTags(value) + [name]
  {
    AddedReadsBack(value, name);
  }

  /** Removing a tag that was just appended to a list without it gives the list back. */
  lemma WithoutAppended(ts: seq<string>, name: string)
    requires name !in ts
    ensures Seqs.Without(ts + (if name != "" then [name] else []), name) == ts
  {
    var tail: seq<string> := if name != "" then [name] else [];
    Seqs.WithoutAppend(ts, tail, name);
    Seqs.WithoutAbsent(ts, name);
    assert Seqs.Without(tail, name) == [];
    assert ts + [] == ts;
  }

  /** Adding a trimmed, comma-free tag that is not listed and then removing it leaves the original list, normalised. */
  lemma AddThenRemove(value: string, name: string)
    requires name !in ParseTags(value) && TrimJs(name) == name && ',' !in name
    ensures RemovedValue(AddedValue(value, name), name) == Join(ParseTags(value), ", ")
  {
    AddedReadsBack(value, name);
    WithoutAppended(ParseTags(value), name);
  }

  /** Removing reads the list back as written, without the tag. */
  lemma RemoveLeavesRest(value: string, name: string)
    ensures ParseTags(RemovedValue(value, name)) == Seqs.Without(ParseTags(value), name)
    ensures name != "" ==> name !in ParseTags(RemovedValue(value, name))
  {
    var ts := ParseTags(value);
    var rest := Seqs.Without(ts, name);
    ParsedJoinable(value);
    forall i | 0 <= i < |rest|
      ensures TrimJs(rest[i]) == rest[i] && ',' !in rest[i] && rest[i] != ""
    {
      assert rest[i] in rest;
      ParsedTagClean(value, rest[i]);
    }
    NonEmptyKeeps(rest);
    ParseJoin(rest);
  }

  /** The input handler's check: more than ten tags marks the field invalid. */
  function TooManyTags(value: string): (invalid: bool)
    ensures invalid <==> |ParseTags(value)| > MaxTags
    ensures invalid ==> CountChar(value, ',') >= MaxTags
  {
    SplitLength(value, ',');
    |ParseTags(value)| > MaxTags
  }

  /** The tag field: its text and whether it is marked invalid. */
  class TagField {
    var value: string
    var invalid: bool

    constructor(initial: string)
      ensures value == initial && !invalid
    {
      value := initial;
      invalid := false;
    }

    /** The input event handler: marks the field invalid exactly when it lists too many tags. */
    method OnInput()
      modifies this`invalid
      ensures invalid == TooManyTags(value)
    {
      var tags := ParseTags(value);
      invalid := |tags| > MaxTags;
    }

    /** addTag: appends an unlisted tag, rewrites the text and re-runs the input handler; a listed tag changes nothing. */
    method AddTag(name: string)
      modifies this
      ensures value == AddedValue(old(value), name)
      ensures name in ParseTags(old(value)) ==> value == old(value) && invalid == old(invalid)
      ensures name !in ParseTags(old(value)) ==> invalid == TooManyTags(value)
    {
      var current := ParseTags(value);
      if name !in current {
        current := current + [name];
        value := Join(current, ", ");
        OnInput();
      }
    }

    /** removeTag: drops every occurrence of the tag, rewrites the text and re-runs the input handler. */
    method RemoveTag(name: string)
      modifies this
      ensures value == RemovedValue(old(value), name)
      ensures invalid == TooManyTags(value)
    {
      var current := ParseTags(value);
      var filtered := Seqs.Without(current, name);
      value := Join(filtered, ", ");
      OnInput();
    }
  }
}

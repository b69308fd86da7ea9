// The counting behind the notes-and-tags report: tag pairs per note,
// keyword frequencies, the stop-word test and the content preview.
// The report's text layout is not modelled.
module ExportReport {
  import opened Wrappers
  import Strings
  import Sorting
  import Seqs

  /** Map.merge(k, 1, Integer::sum). */
  function Merge(counts: map<string, nat>, k: string): (r: map<string, nat>)
    ensures r.Keys == counts.Keys + {k}
  {
    counts[k := if k in counts then counts[k] + 1 else 1]
  }

  /** The counts after merging every key of ks, in order. */
  function Tally(ks: seq<string>): map<string, nat>
    decreases |ks|
  {
    if |ks| == 0 then map[] else Merge(Tally(ks[..|ks| - 1]), ks[|ks| - 1])
  }

  /** A tally holds exactly the keys merged, each with its number of occurrences. */
  lemma {:induction false} TallySpec(ks: seq<string>)
    ensures forall k :: k in Tally(ks) <==> k in multiset(ks)
    ensures forall k :: k in Tally(ks) ==> Tally(ks)[k] == multiset(ks)[k]
    decreases |ks|
  {
    if |ks| > 0 {
      var front := ks[..|ks| - 1];
      TallySpec(front);
      assert ks == front + [ks[|ks| - 1]];
      assert multiset(ks) == multiset(front) + multiset{ks[|ks| - 1]};
    }
  }

  function PairKey(a: string, b: string): string
  {
    a + " + " + b
  }

  /** The keys of tag i paired with every later tag. */
  function Row(names: seq<string>, i: nat): (r: seq<string>)
    requires i < |names|
    ensures |r| == |names| - i - 1
    ensures forall k :: 0 <= k < |r| ==> r[k] == PairKey(names[i], names[i + 1 + k])
  {
    seq(|names| - i - 1, k requires 0 <= k < |names| - i - 1 => PairKey(names[i], names[i + 1 + k]))
  }

  /** The keys of the rows before row i, in loop order. */
  function RowsBefore(names: seq<string>, i: nat): seq<string>
    requires i <= |names|
    decreases i
  {
    if i == 0 then [] else RowsBefore(names, i - 1) + Row(names, i - 1)
  }

  /** The keys one note contributes: one per pair of positions i < j, in loop order. */
  function Pairs(names: seq<string>): seq<string>
  {
    RowsBefore(names, |names|)
  }

  lemma {:induction false} RowsBeforeLength(names: seq<string>, i: nat)
    requires i <= |names|
    ensures 2 * |RowsBefore(names, i)| == i * (2 * |names| - i - 1)
    decreases i
  {
    if i > 0 {
      RowsBeforeLength(names, i - 1);
      var n := |names|;
      assert (i - 1) * (2 * n - (i - 1) - 1) + 2 * (n - i) == i * (2 * n - i - 1);
    }
  }

  lemma {:induction false} RowsBeforeMembers(names: seq<string>, r: nat, x: string)
    requires r <= |names|
    ensures x in RowsBefore(names, r) <==> exists i, j :: 0 <= i < r && i < j < |names| && x == PairKey(names[i], names[j])
    decreases r
  {
    if r > 0 {
      RowsBeforeMembers(names, r - 1, x);
      var row := Row(names, r - 1);
      if x in row {
        var k :| 0 <= k < |row| && row[k] == x;
        assert x == PairKey(names[r - 1], names[r - 1 + 1 + k]);
      }
      if exists i, j :: 0 <= i < r && i < j < |names| && x == PairKey(names[i], names[j]) {
        var i, j :| 0 <= i < r && i < j < |names| && x == PairKey(names[i], names[j]);
        if i == r - 1 {
          assert row[j - r] == x;
        }
      }
    }
  }

  /** A note with k tags adds k(k-1)/2 keys, one for each pair of positions. */
  lemma PairsSpec(names: seq<string>, x: string)
    ensures 2 * |Pairs(names)| == |names| * (|names| - 1)
    ensures x in Pairs(names) <==> exists i, j :: 0 <= i < j < |names| && x == PairKey(names[i], names[j])
    ensures |names| < 2 ==> Pairs(names) == []
  {
    RowsBeforeLength(names, |names|);
    RowsBeforeMembers(names, |names|, x);
  }

  /** The keys of all notes, in note order; a note with fewer than two tags is skipped. */
  function AllPairs(notes: seq<seq<string>>): seq<string>
    decreases |notes|
  {
    if |notes| == 0 then []
    else AllPairs(notes[..|notes| - 1]) + (if |notes[|notes| - 1]| > 1 then Pairs(notes[|notes| - 1]) else [])
  }

  /** Merging one more key extends the tally by that key. */
  lemma TallySnoc(done: seq<string>, k: string)
    ensures Tally(done + [k]) == Merge(Tally(done), k)
  {
    assert (done + [k])[..|done|] == done;
  }

  /** The inner loop's next key extends the prefix of the row merged so far. */
  lemma RowPrefixStep(names: seq<string>, i: nat, j: nat)
    requires i < j < |names|
    ensures Row(names, i)[..j - i] == Row(names, i)[..j - i - 1] + [PairKey(names[i], names[j])]
  {
    var row := Row(names, i);
    assert row[j - i - 1] == PairKey(names[i], names[j]);
  }

  /** The inner loop: tag i paired with each later tag, merged in order. */
  method MergeRow(counts: map<string, nat>, ghost base: seq<string>, names: seq<string>, i: nat) returns (r: map<string, nat>)
    requires counts == Tally(base) && i < |names|
    ensures r == Tally(base + Row(names, i))
  {
    r := counts;
    var j := i + 1;
    ghost var row := Row(names, i);
    assert base + row[..0] == base;
    while j < |names|
      invariant i + 1 <= j <= |names|
      invariant r == Tally(base + row[..j - i - 1])
    {
      var pair := names[i] + " + " + names[j];
      RowPrefixStep(names, i, j);
      TallySnoc(base + row[..j - i - 1], pair);
      Seqs.AppendAssoc(base, row[..j - i - 1], [pair]);
      r := Merge(r, pair);
      j := j + 1;
    }
    assert row[..j - i - 1] == row;
  }

  /** The two loops over one note's tags. */
  method MergeNotePairs(counts: map<string, nat>, ghost base: seq<string>, names: seq<string>) returns (r: map<string, nat>)
    requires counts == Tally(base)
    ensures r == Tally(base + Pairs(names))
  {
    r := counts;
    var i := 0;
    assert base + RowsBefore(names, 0) == base;
    while i < |names|
      invariant 0 <= i <= |names|
      invariant r == Tally(base + RowsBefore(names, i))
    {
      r := MergeRow(r, base + RowsBefore(names, i), names, i);
      assert RowsBefore(names, i + 1) == RowsBefore(names, i) + Row(names, i);
      Seqs.AppendAssoc(base, RowsBefore(names, i), Row(names, i));
      i := i + 1;
    }
  }

  /** The nested loops that merge every tag pair of every note into tagPairCounts. */
  method CountTagPairs(notes: seq<seq<string>>) returns (counts: map<string, nat>)
    ensures counts == Tally(AllPairs(notes))
  {
    counts := map[];
    var n := 0;
    while n < |notes|
      invariant 0 <= n <= |notes|
      invariant counts == Tally(AllPairs(notes[..n]))
    {
      var names := notes[n];
      if |names| > 1 {
        counts := MergeNotePairs(counts, AllPairs(notes[..n]), names);
      } else {
        assert AllPairs(notes[..n]) + [] == AllPairs(notes[..n]);
      }
      assert notes[..n + 1][..n] == notes[..n];
      assert AllPairs(notes[..n + 1]) == AllPairs(notes[..n]) + (if |names| > 1 then Pairs(names) else []);
      n := n + 1;
    }
    assert notes[..n] == notes;
  }

  /** The count of a key, 0 when absent. */
  function CountOf(counts: map<string, nat>): string -> int
  {
    (k: string) => if k in counts then counts[k] else 0
  }

  /** The keys, in iteration order, whose count exceeds the threshold. */
  function Above(counts: map<string, nat>, order: seq<string>, threshold: nat): (r: seq<string>)
    ensures forall k :: k in r <==> k in order && k in counts && counts[k] > threshold
    ensures Seqs.Distinct(order) ==> Seqs.Distinct(r)
  {
    if |order| == 0 then []
    else
      var k := order[0];
      var rest := Above(counts, order[1..], threshold);
      assert forall x :: x in order <==> x == k || x in order[1..];
      if k in counts && counts[k] > threshold then
        assert Seqs.Distinct(order) ==> k !in order[1..] && Seqs.Distinct(order[1..]);
        [k] + rest
      else
        assert Seqs.Distinct(order) ==> Seqs.Distinct(order[1..]);
        rest
  }

  /** The report's list: counts above the threshold, highest first, at most limit of them. */
  function Report(counts: map<string, nat>, order: seq<string>, threshold: nat, limit: nat): seq<string>
  {
    Sorting.Take(Sorting.SortDesc(Above(counts, order, threshold), CountOf(counts)), limit)
  }

  /** The sorted candidates hold each key above the threshold once. */
  lemma SortedAbove(counts: map<string, nat>, order: seq<string>, threshold: nat)
    requires Seqs.Distinct(order) && forall x :: x in order <==> x in counts
    ensures Seqs.Distinct(Sorting.SortDesc(Above(counts, order, threshold), CountOf(counts)))
    ensures forall x :: x in Sorting.SortDesc(Above(counts, order, threshold), CountOf(counts)) <==> x in counts && counts[x] > threshold
  {
    var above := Above(counts, order, threshold);
    var sorted := Sorting.SortDesc(above, CountOf(counts));
    assert forall x :: x in sorted <==> x in multiset(sorted);
    assert forall x :: x in above <==> x in multiset(above);
    Seqs.DistinctPermutation(above, sorted);
  }

  /**
   * Given the map's iteration order (each key once), the list holds at most
   * limit keys, each once, each counted above the threshold, by falling
   * count.
   */
  lemma ReportSpec(counts: map<string, nat>, order: seq<string>, threshold: nat, limit: nat)
    requires Seqs.Distinct(order) && forall x :: x in order <==> x in counts
    ensures |Report(counts, order, threshold, limit)| <= limit
    ensures Seqs.Distinct(Report(counts, order, threshold, limit))
    ensures forall x :: x in Report(counts, order, threshold, limit) ==> x in counts && counts[x] > threshold
    ensures Sorting.SortedDesc(Report(counts, order, threshold, limit), CountOf(counts))
  {
    var sorted := Sorting.SortDesc(Above(counts, order, threshold), CountOf(counts));
    SortedAbove(counts, order, threshold);
    Sorting.TakeSorted(sorted, limit, CountOf(counts));
    var r := Sorting.Take(sorted, limit);
    assert forall x :: x in r ==> x in sorted;
    assert forall i, j :: 0 <= i < j < |r| ==> r[i] == sorted[i] && r[j] == sorted[j];
  }

  /** A key above the threshold is left out only when the list is full of keys counted at least as often. */
  lemma ReportLeavesOut(counts: map<string, nat>, order: seq<string>, threshold: nat, limit: nat, k: string)
    requires Seqs.Distinct(order) && forall x :: x in order <==> x in counts
    requires k in counts && counts[k] > threshold && k !in Report(counts, order, threshold, limit)
    ensures |Report(counts, order, threshold, limit)| == limit
    ensures forall i :: 0 <= i < limit ==>
      Report(counts, order, threshold, limit)[i] in counts && counts[Report(counts, order, threshold, limit)[i]] >= counts[k]
  {
    var sorted := Sorting.SortDesc(Above(counts, order, threshold), CountOf(counts));
    SortedAbove(counts, order, threshold);
    Sorting.TakeLeavesOutSmaller(sorted, limit, CountOf(counts), k);
    var r := Sorting.Take(sorted, limit);
    assert forall x :: x in r ==> x in sorted;
    forall i | 0 <= i < limit ensures r[i] in counts && counts[r[i]] >= counts[k] {
      assert r[i] in sorted;
      assert CountOf(counts)(r[i]) >= CountOf(counts)(k);
    }
  }

  /** Co-occurring pairs are reported when seen more than once, at most 15. */
  function ReportedPairs(counts: map<string, nat>, order: seq<string>): seq<string>
  {
    Report(counts, order, 1, 15)
  }

  /** Keywords are reported when seen more than twice, at most 20. */
  function ReportedKeywords(counts: map<string, nat>, order: seq<string>): seq<string>
  {
    Report(counts, order, 2, 20)
  }

  /** The 28 words never counted as keywords. */
  const StopWords: set<string> := {
    "the", "and", "for", "are", "but", "not", "you", "all", "can", "had", "her", "was", "one", "our", "out",
    "this", "that", "with", "have", "from", "they", "know", "want", "been", "good", "much", "some", "time"}

  predicate IsStopWord(word: string)
  {
    Strings.Lower(word) in StopWords
  }

  /** Lower-casing is idempotent, so the stop-word test ignores case. */
  lemma StopWordIgnoresCase(word: string)
    ensures IsStopWord(word) <==> IsStopWord(Strings.Lower(word))
  {
    assert Strings.Lower(Strings.Lower(word)) == Strings.Lower(word);
  }

  /** The characters a keyword is made of; every other character separates keywords. */
  predicate WordChar(c: char)
  {
    ('a' <= c <= 'z') || ('A' <= c <= 'Z') || ('0' <= c <= '9') || c == '-'
  }

  /** The run of word characters at the start of s. */
  function Run(s: string): (w: string)
    ensures w <= s
    ensures forall i :: 0 <= i < |w| ==> WordChar(w[i])
    ensures |w| < |s| ==> !WordChar(s[|w|])
  {
    if |s| > 0 && WordChar(s[0]) then [s[0]] + Run(s[1..]) else ""
  }

  /**
   * split("[^a-zA-Z0-9-]+") without its empty pieces: the maximal runs of
   * word characters. The empty pieces Java keeps are shorter than any
   * keyword, so dropping them here changes no count.
   */
  function Words(s: string): (r: seq<string>)
    ensures forall i :: 0 <= i < |r| ==> |r[i]| > 0 && forall k :: 0 <= k < |r[i]| ==> WordChar(r[i][k])
    decreases |s|
  {
    if |s| == 0 then []
    else if !WordChar(s[0]) then Words(s[1..])
    else
      var w := Run(s);
      assert w[0] == s[0];
      [w] + Words(s[|w|..])
  }

  predicate IsKeyword(w: string)
  {
    3 < |w| < 20 && !IsStopWord(w)
  }

  function KeepKeywords(ws: seq<string>): (r: seq<string>)
    ensures forall w :: w in r <==> w in ws && IsKeyword(w)
  {
    if |ws| == 0 then []
    else
      assert forall w :: w in ws <==> w == ws[0] || w in ws[1..];
      (if IsKeyword(ws[0]) then [ws[0]] else []) + KeepKeywords(ws[1..])
  }

  /** The text a note's keywords come from: title, a space and the content, lower-cased. */
  function NoteText(title: string, content: Option<string>): string
  {
    Strings.Lower(title + " " + (if content.Some? then content.value else ""))
  }

  function NoteKeywords(title: string, content: Option<string>): seq<string>
  {
    KeepKeywords(Words(NoteText(title, content)))
  }

  /** A counted keyword is 4 to 19 word characters long, has no upper-case letter and is no stop word. */
  lemma NoteKeywordsShape(title: string, content: Option<string>, w: string)
    requires w in NoteKeywords(title, content)
    ensures 3 < |w| < 20 && !IsStopWord(w)
    ensures forall k :: 0 <= k < |w| ==> WordChar(w[k]) && !('A' <= w[k] <= 'Z')
  {
    var text := NoteText(title, content);
    var ws := Words(text);
    assert w in ws;
    LowerWords(text, w);
  }

  lemma {:induction false} LowerWords(s: string, w: string)
    requires forall i :: 0 <= i < |s| ==> !('A' <= s[i] <= 'Z')
    requires w in Words(s)
    ensures forall k :: 0 <= k < |w| ==> !('A' <= w[k] <= 'Z')
    decreases |s|
  {
    if |s| > 0 {
      if !WordChar(s[0]) {
        LowerWords(s[1..], w);
      } else {
        var run := Run(s);
        if w != run {
          LowerWords(s[|run|..], w);
        } else {
          assert forall k :: 0 <= k < |w| ==> w[k] == s[k];
        }
      }
    }
  }

  /** The keywords of all notes, in note order. */
  function AllKeywords(notes: seq<(string, Option<string>)>): seq<string>
    decreases |notes|
  {
    if |notes| == 0 then []
    else AllKeywords(notes[..|notes| - 1]) + NoteKeywords(notes[|notes| - 1].0, notes[|notes| - 1].1)
  }

  /** Merging a list of keys, one after the other, continues the tally. */
  method MergeAll(counts: map<string, nat>, ghost base: seq<string>, ks: seq<string>) returns (r: map<string, nat>)
    requires counts == Tally(base)
    ensures r == Tally(base + ks)
  {
    r := counts;
    var i := 0;
    assert base + ks[..0] == base;
    while i < |ks|
      invariant 0 <= i <= |ks|
      invariant r == Tally(base + ks[..i])
    {
      ghost var done := base + ks[..i];
      assert (done + [ks[i]])[..|done|] == done;
      r := Merge(r, ks[i]);
      assert r == Tally(done + [ks[i]]);
      assert done + [ks[i]] == base + ks[..i + 1];
      i := i + 1;
    }
    assert ks[..i] == ks;
  }

  /** The loop that merges every keyword of every note into wordFrequency. */
  method CountKeywords(notes: seq<(string, Option<string>)>) returns (counts: map<string, nat>)
    ensures counts == Tally(AllKeywords(notes))
  {
    counts := map[];
    var n := 0;
    while n < |notes|
      invariant 0 <= n <= |notes|
      invariant counts == Tally(AllKeywords(notes[..n]))
    {
      var (title, content) := notes[n];
      counts := MergeAll(counts, AllKeywords(notes[..n]), NoteKeywords(title, content));
      assert notes[..n + 1][..n] == notes[..n];
      assert AllKeywords(notes[..n + 1]) == AllKeywords(notes[..n]) + NoteKeywords(title, content);
      n := n + 1;
    }
    assert notes[..n] == notes;
  }

  /** The content preview: none for null or blank content, else the first 200 characters and "...", with line breaks as spaces. */
  function ContentPreview(content: Option<string>): (r: Option<string>)
    ensures r.Some? <==> content.Some? && Strings.TrimJava(content.value) != ""
    ensures r.Some? ==> '\n' !in r.value
    ensures r.Some? && |content.value| <= 200 ==> |r.value| == |content.value|
    ensures r.Some? && |content.value| > 200 ==> |r.value| == 203 && r.value[200..] == "..."
    ensures r.Some? ==> forall i :: 0 <= i < |r.value| && i < 200 && i < |content.value| ==>
      r.value[i] == (if content.value[i] == '\n' then ' ' else content.value[i])
  {
    match content
    case None => None
    case Some(c) =>
      if Strings.TrimJava(c) == "" then None
      else
        var preview := if |c| > 200 then c[..200] + "..." else c;
        Strings.ReplaceCharOneForOne(preview, '\n', ' ');
        var r := Strings.ReplaceChar(preview, '\n', " ");
        assert forall i :: 0 <= i < |r| ==> r[i] != '\n';
        assert forall i :: 0 <= i < |preview| && i < 200 && i < |c| ==> preview[i] == c[i];
        Some(r)
  }
}

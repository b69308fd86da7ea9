// Queries over the note-tag join table, whose rows are (note, tag) pairs.
module NoteTagRepository {
  import opened Ids
  import opened Tags
  import Seqs

  /** The rows a predicate keeps, in table order. */
  function Rows(rows: seq<NoteTag>, keep: NoteTag -> bool): (r: seq<NoteTag>)
    ensures forall x :: x in r <==> x in rows && keep(x)
    ensures |r| <= |rows|
  {
    if |rows| == 0 then []
    else (if keep(rows[0]) then [rows[0]] else []) + Rows(rows[1..], keep)
  }

  lemma {:induction false} RowsAppend(a: seq<NoteTag>, b: seq<NoteTag>, keep: NoteTag -> bool)
    ensures Rows(a + b, keep) == Rows(a, keep) + Rows(b, keep)
    decreases |a|
  {
    if |a| == 0 {
      assert a + b == b;
    } else {
      assert (a + b)[0] == a[0] && (a + b)[1..] == a[1..] + b;
      RowsAppend(a[1..], b, keep);
    }
  }

  predicate Distinct(rows: seq<NoteTag>)
  {
    forall i, j :: 0 <= i < j < |rows| ==> rows[i] != rows[j]
  }

  /** Deleting rows keeps the composite key unique. */
  lemma {:induction false} RowsKeepDistinct(rows: seq<NoteTag>, keep: NoteTag -> bool)
    requires Distinct(rows)
    ensures Distinct(Rows(rows, keep))
    decreases |rows|
  {
    if |rows| > 0 {
      RowsKeepDistinct(rows[1..], keep);
      var rest := Rows(rows[1..], keep);
      assert rows[0] !in rows[1..] by {
        forall k | 0 <= k < |rows[1..]| ensures rows[1..][k] != rows[0] {
          assert rows[1..][k] == rows[k + 1];
        }
      }
      var r := Rows(rows, keep);
      if keep(rows[0]) {
        assert r == [rows[0]] + rest;
        forall i, j | 0 <= i < j < |r| ensures r[i] != r[j] {
          if i == 0 {
            assert r[j] == rest[j - 1] && r[j] in rest;
          } else {
            assert r[i] == rest[i - 1] && r[j] == rest[j - 1];
          }
        }
      } else {
        assert r == rest;
      }
    }
  }

  /** A filter that keeps every row leaves the table as it was. */
  lemma {:induction false} RowsAll(rows: seq<NoteTag>, keep: NoteTag -> bool)
    requires forall x :: x in rows ==> keep(x)
    ensures Rows(rows, keep) == rows
    decreases |rows|
  {
    if |rows| > 0 {
      assert rows[0] in rows;
      assert forall x :: x in rows[1..] ==> x in rows;
      RowsAll(rows[1..], keep);
    }
  }

  /** If no row passes the filter, nothing is kept. */
  lemma {:induction false} RowsNone(rows: seq<NoteTag>, keep: NoteTag -> bool)
    requires forall x :: x in rows ==> !keep(x)
    ensures Rows(rows, keep) == []
    decreases |rows|
  {
    if |rows| > 0 {
      assert rows[0] in rows;
      assert forall x :: x in rows[1..] ==> x in rows;
      RowsNone(rows[1..], keep);
    }
  }

  // The filters the finders and deletes use, named so that each is one term.
  function NoteIs(note: NoteId): NoteTag -> bool { (x: NoteTag) => x.note == note }
  function NoteIsNot(note: NoteId): NoteTag -> bool { (x: NoteTag) => x.note != note }
  function TagIs(tag: TagId): NoteTag -> bool { (x: NoteTag) => x.tag == tag }
  function TagIsNot(tag: TagId): NoteTag -> bool { (x: NoteTag) => x.tag != tag }
  function RowIsNot(row: NoteTag): NoteTag -> bool { (x: NoteTag) => x != row }

  /** existsByNoteIdAndTagId. */
  predicate Exists(rows: seq<NoteTag>, note: NoteId, tag: TagId)
  {
    NoteTag(note, tag) in rows
  }

  /** findByNoteId. */
  function ByNote(rows: seq<NoteTag>, note: NoteId): seq<NoteTag>
  {
    Rows(rows, NoteIs(note))
  }

  /** findByTagId. */
  function ByTag(rows: seq<NoteTag>, tag: TagId): seq<NoteTag>
  {
    Rows(rows, TagIs(tag))
  }

  /** countByNoteId. */
  function CountByNote(rows: seq<NoteTag>, note: NoteId): nat
  {
    |ByNote(rows, note)|
  }

  /** countByTagId. */
  function CountByTag(rows: seq<NoteTag>, tag: TagId): nat
  {
    |ByTag(rows, tag)|
  }

  /** A count is zero exactly when no row has that note (or that tag). */
  lemma CountsZero(rows: seq<NoteTag>, note: NoteId, tag: TagId)
    ensures CountByNote(rows, note) == 0 <==> forall x :: x in rows ==> x.note != note
    ensures CountByTag(rows, tag) == 0 <==> forall x :: x in rows ==> x.tag != tag
  {
    if CountByNote(rows, note) != 0 {
      assert ByNote(rows, note)[0] in ByNote(rows, note);
    }
    if CountByTag(rows, tag) != 0 {
      assert ByTag(rows, tag)[0] in ByTag(rows, tag);
    }
  }

  /** deleteByNoteId: what remains of the table. */
  function WithoutNote(rows: seq<NoteTag>, note: NoteId): seq<NoteTag>
  {
    Rows(rows, NoteIsNot(note))
  }

  /** deleteByTagId. */
  function WithoutTag(rows: seq<NoteTag>, tag: TagId): seq<NoteTag>
  {
    Rows(rows, TagIsNot(tag))
  }

  /** deleteByNoteIdAndTagId. */
  function WithoutPair(rows: seq<NoteTag>, note: NoteId, tag: TagId): seq<NoteTag>
  {
    Rows(rows, RowIsNot(NoteTag(note, tag)))
  }

  /** The deletes remove exactly the matching rows and keep the others in order. */
  lemma DeletesExact(rows: seq<NoteTag>, note: NoteId, tag: TagId)
    ensures forall x :: x in WithoutNote(rows, note) <==> x in rows && x.note != note
    ensures forall x :: x in WithoutTag(rows, tag) <==> x in rows && x.tag != tag
    ensures forall x :: x in WithoutPair(rows, note, tag) <==> x in rows && x != NoteTag(note, tag)
    ensures CountByNote(WithoutNote(rows, note), note) == 0
    ensures CountByTag(WithoutTag(rows, tag), tag) == 0
    ensures !Exists(WithoutPair(rows, note, tag), note, tag)
  {
    CountsZero(WithoutNote(rows, note), note, tag);
    CountsZero(WithoutTag(rows, tag), note, tag);
  }

  /** deleteByNoteId keeps the table's key and leaves no row of that note. */
  lemma WithoutNoteClears(rows: seq<NoteTag>, note: NoteId)
    requires Distinct(rows)
    ensures Distinct(WithoutNote(rows, note)) && CountByNote(WithoutNote(rows, note), note) == 0
  {
    RowsKeepDistinct(rows, NoteIsNot(note));
    CountsZero(WithoutNote(rows, note), note, 0);
  }

  /** Deleting one note's rows leaves another note's rows exactly as they were. */
  lemma {:induction false} WithoutNoteKeepsOthers(rows: seq<NoteTag>, note: NoteId, other: NoteId)
    requires other != note
    ensures ByNote(WithoutNote(rows, note), other) == ByNote(rows, other)
    decreases |rows|
  {
    if |rows| > 0 {
      WithoutNoteKeepsOthers(rows[1..], note, other);
      var head := if rows[0].note != note then [rows[0]] else [];
      assert WithoutNote(rows, note) == head + WithoutNote(rows[1..], note);
      RowsAppend(head, WithoutNote(rows[1..], note), NoteIs(other));
    }
  }

  /** Deleting one tag's rows leaves another tag's rows exactly as they were. */
  lemma {:induction false} WithoutTagKeepsOthers(rows: seq<NoteTag>, tag: TagId, other: TagId)
    requires other != tag
    ensures ByTag(WithoutTag(rows, tag), other) == ByTag(rows, other)
    decreases |rows|
  {
    if |rows| > 0 {
      WithoutTagKeepsOthers(rows[1..], tag, other);
      var head := if rows[0].tag != tag then [rows[0]] else [];
      assert WithoutTag(rows, tag) == head + WithoutTag(rows[1..], tag);
      RowsAppend(head, WithoutTag(rows[1..], tag), TagIs(other));
    }
  }

  /** The distinct tags of ids that a note carries. */
  function TagsAmong(rows: seq<NoteTag>, note: NoteId, ids: seq<TagId>): set<TagId>
  {
    set t | t in ids && Exists(rows, note, t)
  }

  /**
   * findNoteIdsWithAllTags(ids, count): the notes with a row for some tag of
   * ids (GROUP BY) whose number of distinct such tags equals count (HAVING).
   */
  function NoteIdsWithAllTags(rows: seq<NoteTag>, ids: seq<TagId>, count: int): set<NoteId>
  {
    set x | x in rows && x.tag in ids && |TagsAmong(rows, x.note, ids)| == count :: x.note
  }

  lemma TagsAmongBound(rows: seq<NoteTag>, note: NoteId, ids: seq<TagId>)
    ensures |TagsAmong(rows, note, ids)| <= |Seqs.Elements(ids)| <= |ids|
    ensures |TagsAmong(rows, note, ids)| == |ids| ==> forall t :: t in ids ==> Exists(rows, note, t)
  {
    var s := Seqs.Elements(ids);
    Seqs.ElementsBound(ids);
    Seqs.SubsetCard(TagsAmong(rows, note, ids), s);
    if |TagsAmong(rows, note, ids)| == |ids| {
      if t :| t in ids && !Exists(rows, note, t) {
        Seqs.SubsetCard(TagsAmong(rows, note, ids), s - {t});
      }
    }
  }

  /** With a non-empty list of distinct tag ids and count = its length, the query means "every listed tag". */
  lemma AllTagsMeansEvery(rows: seq<NoteTag>, ids: seq<TagId>, note: NoteId)
    requires |ids| > 0 && forall i, j :: 0 <= i < j < |ids| ==> ids[i] != ids[j]
    ensures note in NoteIdsWithAllTags(rows, ids, |ids|) <==> forall t :: t in ids ==> Exists(rows, note, t)
  {
    TagsAmongBound(rows, note, ids);
    if forall t :: t in ids ==> Exists(rows, note, t) {
      Seqs.ElementsBound(ids);
      assert TagsAmong(rows, note, ids) == Seqs.Elements(ids);
      var x := NoteTag(note, ids[0]);
      assert ids[0] in ids;
      assert x in rows && x.tag in ids;
    }
  }

  /** A repeated id makes the distinct count fall short of the list length: nothing matches. */
  lemma DuplicateIdsMatchNothing(rows: seq<NoteTag>, ids: seq<TagId>, i: nat, j: nat)
    requires i < j < |ids| && ids[i] == ids[j]
    ensures NoteIdsWithAllTags(rows, ids, |ids|) == {}
  {
    var rest := ids[..j] + ids[j + 1..];
    assert Seqs.Elements(ids) == Seqs.Elements(rest) by {
      assert ids == ids[..j] + [ids[j]] + ids[j + 1..];
      assert ids[j] in ids[..j];
    }
    Seqs.ElementsBound(rest);
    forall note ensures |TagsAmong(rows, note, ids)| < |ids| {
      TagsAmongBound(rows, note, ids);
    }
  }

  /** findCoOccurringTags: the other tags that share a note with tag. */
  function CoOccurring(rows: seq<NoteTag>, tag: TagId): (r: set<TagId>)
    ensures tag !in r
  {
    set x, y | x in rows && y in rows && x.tag == tag && y.note == x.note && y.tag != tag :: y.tag
  }

  /** Co-occurrence is symmetric. */
  lemma CoOccurringSymmetric(rows: seq<NoteTag>, a: TagId, b: TagId)
    ensures b in CoOccurring(rows, a) <==> a in CoOccurring(rows, b)
  {
    if b in CoOccurring(rows, a) {
      var x, y :| x in rows && y in rows && x.tag == a && y.note == x.note && y.tag != a && y.tag == b;
      assert x.tag in CoOccurring(rows, b);
    }
    if a in CoOccurring(rows, b) {
      var x, y :| x in rows && y in rows && x.tag == b && y.note == x.note && y.tag != b && y.tag == a;
      assert x.tag in CoOccurring(rows, a);
    }
  }
}

// The note-tag service: single rows, the bulk attach with its skip rule,
// bulk removal by note or tag, and the cleanup of rows whose note or tag
// is gone.
module NoteTagService {
  import opened Wrappers
  import opened Ids
  import opened Tags
  import opened Store
  import opened NoteTagRepository
  import Seqs

  /** Appending a row not already present keeps the composite key unique. */
  lemma AppendKeepsDistinct(rows: seq<NoteTag>, x: NoteTag)
    requires Distinct(rows) && x !in rows
    ensures Distinct(rows + [x])
  {
    var r := rows + [x];
    forall i, j | 0 <= i < j < |r| ensures r[i] != r[j] {
      if j == |rows| {
        assert r[i] == rows[i] && rows[i] in rows;
      } else {
        assert r[i] == rows[i] && r[j] == rows[j];
      }
    }
  }

  /** relationshipExists. */
  predicate RelationshipExists(db: Database, note: NoteId, tag: TagId)
    reads db
  {
    Exists(db.noteTags, note, tag)
  }

  /**
   * createNoteTagRelationship: refused for a missing note, then a missing
   * tag, then an existing pair; otherwise the row is added.
   */
  method CreateNoteTagRelationship(db: Database, note: NoteId, tag: TagId) returns (r: Result<NoteTag>)
    requires db.Valid()
    modifies db`noteTags
    ensures db.Valid()
    ensures note !in db.notes ==> r.Err? && r.error.InvalidArgument?
    ensures r.Ok? <==> note in db.notes && tag in db.tags && !Exists(old(db.noteTags), note, tag)
    ensures r.Err? ==> db.noteTags == old(db.noteTags)
    ensures r.Ok? ==> r.value == NoteTag(note, tag) && db.noteTags == old(db.noteTags) + [r.value]
    ensures note in db.notes && tag in db.tags ==> RelationshipExists(db, note, tag)
  {
    if note !in db.notes {
      return Err(InvalidArgument("Note not found"));
    }
    if tag !in db.tags {
      return Err(InvalidArgument("Tag not found"));
    }
    if Exists(db.noteTags, note, tag) {
      return Err(InvalidArgument("Relationship already exists"));
    }
    AppendKeepsDistinct(db.noteTags, NoteTag(note, tag));
    db.noteTags := db.noteTags + [NoteTag(note, tag)];
    r := Ok(NoteTag(note, tag));
  }

  /** A pair stored once stays stored once: exactly one row holds it. */
  lemma PairStoredOnce(rows: seq<NoteTag>, x: NoteTag)
    requires Distinct(rows) && x in rows
    ensures |Rows(rows, (y: NoteTag) => y == x)| == 1
  {
    var same := (y: NoteTag) => y == x;
    var i :| 0 <= i < |rows| && rows[i] == x;
    var front, back := rows[..i], rows[i + 1..];
    assert rows == front + [x] + back;
    assert x !in front by {
      forall k | 0 <= k < |front| ensures front[k] != x { assert front[k] == rows[k]; }
    }
    assert x !in back by {
      forall k | 0 <= k < |back| ensures back[k] != x { assert back[k] == rows[i + 1 + k]; }
    }
    RowsAppend(front + [x], back, same);
    RowsAppend(front, [x], same);
    RowsNone(front, same);
    RowsNone(back, same);
  }

  /** deleteNoteTagRelationship: refused when the pair is absent; afterwards it is absent. */
  method DeleteNoteTagRelationship(db: Database, note: NoteId, tag: TagId) returns (r: Result<()>)
    requires db.Valid()
    modifies db`noteTags
    ensures db.Valid()
    ensures r.Err? <==> !Exists(old(db.noteTags), note, tag)
    ensures r.Err? ==> db.noteTags == old(db.noteTags)
    ensures r.Ok? ==> db.noteTags == WithoutPair(old(db.noteTags), note, tag)
    ensures !RelationshipExists(db, note, tag)
  {
    if !Exists(db.noteTags, note, tag) {
      return Err(InvalidArgument("Relationship does not exist"));
    }
    RowsKeepDistinct(db.noteTags, RowIsNot(NoteTag(note, tag)));
    DeletesExact(db.noteTags, note, tag);
    db.noteTags := WithoutPair(db.noteTags, note, tag);
    r := Ok(());
  }

  /**
   * The rows addTagsToNote creates, in input order: a tag id is skipped when
   * its pair is already stored, including by an earlier id of the same call.
   */
  function Added(rows: seq<NoteTag>, note: NoteId, ids: seq<TagId>): seq<NoteTag>
    decreases |ids|
  {
    if |ids| == 0 then []
    else
      var x := NoteTag(note, ids[0]);
      if x in rows then Added(rows, note, ids[1..])
      else [x] + Added(rows + [x], note, ids[1..])
  }

  predicate AllAttached(rows: seq<NoteTag>, note: NoteId, ids: seq<TagId>)
  {
    forall t :: t in ids ==> NoteTag(note, t) in rows
  }

  /**
   * What the bulk attach creates: only new rows for the note and listed tags,
   * each once, after which every listed tag is attached.
   */
  lemma {:induction false} AddedSpec(rows: seq<NoteTag>, note: NoteId, ids: seq<TagId>)
    ensures forall x :: x in Added(rows, note, ids) ==> x !in rows && x.note == note && x.tag in ids
    ensures Distinct(Added(rows, note, ids))
    ensures AllAttached(rows + Added(rows, note, ids), note, ids)
    decreases |ids|
  {
    if |ids| > 0 {
      var x := NoteTag(note, ids[0]);
      if x in rows {
        AddedSpec(rows, note, ids[1..]);
      } else {
        var rest := Added(rows + [x], note, ids[1..]);
        AddedSpec(rows + [x], note, ids[1..]);
        assert rows + [x] + rest == rows + ([x] + rest);
        var a := [x] + rest;
        forall i, j | 0 <= i < j < |a| ensures a[i] != a[j] {
          if i == 0 {
            assert a[j] == rest[j - 1] && a[j] in rest;
          } else {
            assert a[i] == rest[i - 1] && a[j] == rest[j - 1];
          }
        }
      }
    }
  }

  /** Once every listed tag is attached, the bulk attach creates nothing. */
  lemma {:induction false} AddedNothing(rows: seq<NoteTag>, note: NoteId, ids: seq<TagId>)
    requires AllAttached(rows, note, ids)
    ensures Added(rows, note, ids) == []
    decreases |ids|
  {
    if |ids| > 0 {
      assert ids[0] in ids;
      assert forall t :: t in ids[1..] ==> t in ids;
      AddedNothing(rows, note, ids[1..]);
    }
  }

  /** Repeating the bulk attach adds nothing. */
  lemma AddTagsIdempotent(rows: seq<NoteTag>, note: NoteId, ids: seq<TagId>)
    ensures Added(rows + Added(rows, note, ids), note, ids) == []
  {
    AddedSpec(rows, note, ids);
    AddedNothing(rows + Added(rows, note, ids), note, ids);
  }

  lemma AddedPrefix(rows: seq<NoteTag>, note: NoteId, t: TagId, ids: seq<TagId>)
    requires NoteTag(note, t) !in rows
    ensures Added(rows, note, [t] + ids) == [NoteTag(note, t)] + Added(rows + [NoteTag(note, t)], note, ids)
  {
    assert ([t] + ids)[1..] == ids;
  }

  /**
   * addTagsToNote: for a stored note, attaches each listed tag in order,
   * skipping pairs already stored, and returns the rows it created. An
   * unknown tag id fails the whole call, and the transaction drops the rows
   * already added.
   */
  method AddTagsToNote(db: Database, note: NoteId, ids: seq<TagId>) returns (r: Result<seq<NoteTag>>)
    requires db.Valid()
    modifies db`noteTags
    ensures db.Valid()
    ensures r.Ok? <==> note in db.notes && forall t :: t in ids ==> t in db.tags
    ensures r.Err? ==> db.noteTags == old(db.noteTags)
    ensures r.Ok? ==> r.value == Added(old(db.noteTags), note, ids) && db.noteTags == old(db.noteTags) + r.value
  {
    if note !in db.notes {
      return Err(InvalidArgument("Note not found"));
    }
    var before := db.noteTags;
    var created: seq<NoteTag> := [];
    var i := 0;
    while i < |ids|
      invariant 0 <= i <= |ids|
      invariant db.noteTags == before + created
      invariant Distinct(db.noteTags)
      invariant forall k :: 0 <= k < i ==> ids[k] in db.tags
      invariant Added(before, note, ids) == created + Added(db.noteTags, note, ids[i..])
    {
      var t := ids[i];
      assert ids[i..] == [t] + ids[i + 1..];
      if t !in db.tags {
        assert t in ids;
        db.noteTags := before;
        return Err(InvalidArgument("Tag not found"));
      }
      var x := NoteTag(note, t);
      if !Exists(db.noteTags, note, t) {
        AddedPrefix(db.noteTags, note, t, ids[i + 1..]);
        AppendKeepsDistinct(db.noteTags, x);
        Seqs.AppendAssoc(before, created, [x]);
        Seqs.AppendAssoc(created, [x], Added(db.noteTags + [x], note, ids[i + 1..]));
        db.noteTags := db.noteTags + [x];
        created := created + [x];
      } else {
        assert Added(db.noteTags, note, ids[i..]) == Added(db.noteTags, note, ids[i + 1..]);
      }
      i := i + 1;
    }
    assert forall t :: t in ids ==> t in db.tags;
    r := Ok(created);
  }

  /** removeAllTagsFromNote: refused for a missing note; leaves it no rows and other notes' rows as they were. */
  method RemoveAllTagsFromNote(db: Database, note: NoteId) returns (r: Result<()>)
    requires db.Valid()
    modifies db`noteTags
    ensures db.Valid()
    ensures r.Err? <==> note !in db.notes
    ensures r.Err? ==> db.noteTags == old(db.noteTags)
    ensures r.Ok? ==> db.noteTags == WithoutNote(old(db.noteTags), note)
    ensures r.Ok? ==> CountByNote(db.noteTags, note) == 0
    ensures r.Ok? ==> forall other :: other != note ==> ByNote(db.noteTags, other) == ByNote(old(db.noteTags), other)
  {
    if note !in db.notes {
      return Err(InvalidArgument("Note not found"));
    }
    RowsKeepDistinct(db.noteTags, NoteIsNot(note));
    DeletesExact(db.noteTags, note, 0);
    forall other | other != note ensures ByNote(WithoutNote(db.noteTags, note), other) == ByNote(db.noteTags, other) {
      WithoutNoteKeepsOthers(db.noteTags, note, other);
    }
    db.noteTags := WithoutNote(db.noteTags, note);
    r := Ok(());
  }

  /** removeTagFromAllNotes: the same for a tag. */
  method RemoveTagFromAllNotes(db: Database, tag: TagId) returns (r: Result<()>)
    requires db.Valid()
    modifies db`noteTags
    ensures db.Valid()
    ensures r.Err? <==> tag !in db.tags
    ensures r.Err? ==> db.noteTags == old(db.noteTags)
    ensures r.Ok? ==> db.noteTags == WithoutTag(old(db.noteTags), tag)
    ensures r.Ok? ==> CountByTag(db.noteTags, tag) == 0
    ensures r.Ok? ==> forall other :: other != tag ==> ByTag(db.noteTags, other) == ByTag(old(db.noteTags), other)
  {
    if tag !in db.tags {
      return Err(InvalidArgument("Tag not found"));
    }
    RowsKeepDistinct(db.noteTags, TagIsNot(tag));
    DeletesExact(db.noteTags, 0, tag);
    forall other | other != tag ensures ByTag(WithoutTag(db.noteTags, tag), other) == ByTag(db.noteTags, other) {
      WithoutTagKeepsOthers(db.noteTags, tag, other);
    }
    db.noteTags := WithoutTag(db.noteTags, tag);
    r := Ok(());
  }

  /** findNoteIdsWithAllTags: nothing for an empty list, else the query with the list's length as count. */
  function FindNoteIdsWithAllTags(rows: seq<NoteTag>, ids: seq<TagId>): (r: set<NoteId>)
    ensures |ids| == 0 ==> r == {}
    ensures forall n :: n in r ==> forall t :: t in ids ==> Exists(rows, n, t)
  {
    if |ids| == 0 then {}
    else
      assert forall n :: n in NoteIdsWithAllTags(rows, ids, |ids|) ==> forall t :: t in ids ==> Exists(rows, n, t) by {
        forall n | n in NoteIdsWithAllTags(rows, ids, |ids|) ensures forall t :: t in ids ==> Exists(rows, n, t) {
          var x :| x in rows && x.tag in ids && |TagsAmong(rows, x.note, ids)| == |ids| && x.note == n;
          TagsAmongBound(rows, n, ids);
        }
      }
      NoteIdsWithAllTags(rows, ids, |ids|)
  }

  /** For distinct ids the result is exactly the notes carrying every one of them; a repeated id gives nothing. */
  lemma FindNoteIdsWithAllTagsSpec(rows: seq<NoteTag>, ids: seq<TagId>)
    ensures |ids| > 0 && (forall i, j :: 0 <= i < j < |ids| ==> ids[i] != ids[j]) ==>
      forall n :: n in FindNoteIdsWithAllTags(rows, ids) <==> forall t :: t in ids ==> Exists(rows, n, t)
    ensures (exists i, j :: 0 <= i < j < |ids| && ids[i] == ids[j]) ==> FindNoteIdsWithAllTags(rows, ids) == {}
  {
    if |ids| > 0 && forall i, j :: 0 <= i < j < |ids| ==> ids[i] != ids[j] {
      forall n ensures n in FindNoteIdsWithAllTags(rows, ids) <==> forall t :: t in ids ==> Exists(rows, n, t) {
        AllTagsMeansEvery(rows, ids, n);
      }
    }
    if exists i, j :: 0 <= i < j < |ids| && ids[i] == ids[j] {
      var i, j :| 0 <= i < j < |ids| && ids[i] == ids[j];
      DuplicateIdsMatchNothing(rows, ids, i, j);
    }
  }

  /** The filter that keeps a row whose note and tag both exist. */
  function IsLive(notes: map<NoteId, Notes.Note>, tags: map<TagId, Tag>): NoteTag -> bool
  {
    (x: NoteTag) => x.note in notes && x.tag in tags
  }

  /** Deleting the row x from kept + [x] + rest, where x occurs only there, leaves kept + rest. */
  lemma RemoveHead(kept: seq<NoteTag>, x: NoteTag, rest: seq<NoteTag>)
    requires x !in kept && x !in rest
    ensures Rows(kept + [x] + rest, RowIsNot(x)) == kept + rest
  {
    var k := RowIsNot(x);
    RowsAll(kept, k);
    RowsAll(rest, k);
    RowsAppend(kept, [x], k);
    RowsAppend(kept + [x], rest, k);
    assert Rows([x], k) == [];
    assert kept + [] == kept;
  }

  /** The kept prefix grows by the snapshot's next row when the filter keeps it. */
  lemma KeptGrows(snapshot: seq<NoteTag>, i: nat, live: NoteTag -> bool)
    requires i < |snapshot|
    ensures Rows(snapshot[..i + 1], live) == Rows(snapshot[..i], live) + (if live(snapshot[i]) then [snapshot[i]] else [])
  {
    assert snapshot[..i + 1] == snapshot[..i] + [snapshot[i]];
    RowsAppend(snapshot[..i], [snapshot[i]], live);
  }

  /** In a snapshot with unique rows, row i occurs neither before nor after position i. */
  lemma OnlyAt(snapshot: seq<NoteTag>, i: nat)
    requires i < |snapshot| && Distinct(snapshot)
    ensures snapshot[i] !in snapshot[..i] && snapshot[i] !in snapshot[i + 1..]
  {
    var x := snapshot[i];
    var front, back := snapshot[..i], snapshot[i + 1..];
    forall k | 0 <= k < |front| ensures front[k] != x { assert front[k] == snapshot[k]; }
    forall k | 0 <= k < |back| ensures back[k] != x { assert back[k] == snapshot[i + 1 + k]; }
  }

  /** A step of the cleanup walk past a live row: the row moves into the kept prefix. */
  lemma CleanupKeepStep(snapshot: seq<NoteTag>, i: nat, live: NoteTag -> bool)
    requires i < |snapshot| && live(snapshot[i])
    ensures Rows(snapshot[..i], live) + snapshot[i..] == Rows(snapshot[..i + 1], live) + snapshot[i + 1..]
  {
    var x := snapshot[i];
    var kept := Rows(snapshot[..i], live);
    KeptGrows(snapshot, i, live);
    assert snapshot[i..] == [x] + snapshot[i + 1..];
    Seqs.AppendAssoc(kept, [x], snapshot[i + 1..]);
  }

  /** A step of the cleanup walk past an orphaned row: deleting it drops exactly that row. */
  lemma CleanupDropStep(snapshot: seq<NoteTag>, i: nat, live: NoteTag -> bool)
    requires i < |snapshot| && Distinct(snapshot) && !live(snapshot[i])
    ensures WithoutPair(Rows(snapshot[..i], live) + snapshot[i..], snapshot[i].note, snapshot[i].tag)
      == Rows(snapshot[..i + 1], live) + snapshot[i + 1..]
  {
    var x := snapshot[i];
    var kept := Rows(snapshot[..i], live);
    var back := snapshot[i + 1..];
    KeptGrows(snapshot, i, live);
    assert Rows(snapshot[..i + 1], live) == kept + [];
    assert snapshot[i..] == [x] + back;
    Seqs.AppendAssoc(kept, [x], back);
    OnlyAt(snapshot, i);
    assert x !in kept;
    RemoveHead(kept, x, back);
    assert NoteTag(x.note, x.tag) == x;
  }

  /**
   * cleanupOrphanedRelationships: walks a snapshot of the join table and
   * deletes each row whose note or tag no longer exists.
   */
  method CleanupOrphanedRelationships(db: Database)
    requires db.Valid()
    modifies db`noteTags
    ensures db.Valid()
    ensures db.noteTags == Rows(old(db.noteTags), IsLive(db.notes, db.tags))
    ensures forall x :: x in db.noteTags <==> x in old(db.noteTags) && x.note in db.notes && x.tag in db.tags
  {
    var snapshot := db.noteTags;
    var live := IsLive(db.notes, db.tags);
    var i := 0;
    while i < |snapshot|
      invariant 0 <= i <= |snapshot|
      invariant db.noteTags == Rows(snapshot[..i], live) + snapshot[i..]
    {
      var x := snapshot[i];
      if !(x.note in db.notes && x.tag in db.tags) {
        CleanupDropStep(snapshot, i, live);
        db.noteTags := WithoutPair(db.noteTags, x.note, x.tag);
      } else {
        CleanupKeepStep(snapshot, i, live);
      }
      i := i + 1;
    }
    assert snapshot[..i] == snapshot;
    RowsKeepDistinct(snapshot, live);
  }
}

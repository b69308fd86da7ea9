// Per-user graph layouts: a JSON object of positions keyed by group,
// stored in the user's preferences record. JSON text is modelled by what
// it decodes to; text that does not decode to an object is kept as text.
module UserPreferences {
  import opened Wrappers
  import opened Ids
  import Strings

  /** A JSON value of the stored layout: an object, or anything else by its text. */
  datatype Value = Object(entries: map<string, Value>) | Scalar(text: string)

  /** The graph-positions column: the JSON of an object, or text that does not parse as one. */
  datatype Stored = Json(positions: map<string, Value>) | Unparsable(raw: string)

  class PreferencesStore {
    /** A user's record, when one exists, with the column's value or null. */
    var records: map<UserId, Option<Stored>>

    constructor ()
      ensures records == map[]
    {
      records := map[];
    }

    /** getGraphPositions: the stored object; empty without a record, for null or for text that does not parse. */
    function Positions(user: UserId): (r: map<string, Value>)
      reads this
      ensures !(user in records && records[user].Some? && records[user].value.Json?) ==> r == map[]
    {
      if user in records && records[user].Some? && records[user].value.Json? then records[user].value.positions else map[]
    }

    /** getGraphPositionsForGroup: the group's entry when it is an object, else empty. */
    function GroupPositions(user: UserId, groupKey: string): (r: map<string, Value>)
      reads this
      ensures groupKey !in Positions(user) ==> r == map[]
    {
      var all := Positions(user);
      if groupKey in all && all[groupKey].Object? then all[groupKey].entries else map[]
    }

    /** hasGraphPositions: a record whose column is neither null nor blank. */
    predicate HasGraphPositions(user: UserId)
      reads this
    {
      user in records && records[user].Some?
      && match records[user].value
         case Json(_) => true
         case Unparsable(raw) => Strings.TrimJava(raw) != ""
    }

    /** saveGraphPositions: the object is written to the user's record, which is created when missing. */
    method SaveGraphPositions(user: UserId, positions: map<string, Value>)
      modifies this
      ensures records == old(records)[user := Some(Json(positions))]
      ensures Positions(user) == positions && HasGraphPositions(user)
    {
      records := records[user := Some(Json(positions))];
    }

    /**
     * saveGraphPositionsForGroup: the stored object with the group's entry
     * replaced; it reads back, and no other group or user is touched.
     */
    method SaveGraphPositionsForGroup(user: UserId, groupKey: string, positions: map<string, Value>)
      modifies this
      ensures records == old(records)[user := Some(Json(old(Positions(user))[groupKey := Object(positions)]))]
      ensures GroupPositions(user, groupKey) == positions
      ensures forall k :: k != groupKey ==> GroupPositions(user, k) == old(GroupPositions(user, k))
      ensures forall u :: u != user ==> Positions(u) == old(Positions(u))
    {
      var all := Positions(user);
      all := all[groupKey := Object(positions)];
      SaveGraphPositions(user, all);
    }

    /** clearGraphPositions: the column of an existing record becomes null. */
    method ClearGraphPositions(user: UserId)
      modifies this
      ensures user in old(records) ==> records == old(records)[user := None]
      ensures user !in old(records) ==> records == old(records)
      ensures Positions(user) == map[] && !HasGraphPositions(user)
    {
      if user in records {
        records := records[user := None];
      }
    }

    /**
     * clearGraphPositionsForGroup: the group's entry is removed; when no
     * entry is left the whole column is cleared.
     */
    method ClearGraphPositionsForGroup(user: UserId, groupKey: string)
      modifies this
      ensures Positions(user) == old(Positions(user)) - {groupKey}
      ensures GroupPositions(user, groupKey) == map[]
      ensures forall k :: k != groupKey ==> GroupPositions(user, k) == old(GroupPositions(user, k))
      ensures forall u :: u != user ==> (u in records <==> u in old(records))
      ensures forall u :: u != user && u in records ==> records[u] == old(records)[u]
      ensures old(Positions(user)).Keys <= {groupKey} ==> !HasGraphPositions(user)
      ensures !(old(Positions(user)).Keys <= {groupKey}) ==> HasGraphPositions(user)
    {
      var before := Positions(user);
      var all := before - {groupKey};
      if |all| == 0 {
        assert all == map[];
        assert before.Keys <= {groupKey};
        ClearGraphPositions(user);
      } else {
        SaveGraphPositions(user, all);
      }
    }
  }
}

/** The chatter records kept by the persistence service, modelled as an
    in-memory roster in insertion order. The store is reached through four
    calls: `find(filter)`, `findOne(filter)`, `create(fields)` (an append)
    and `delete(filter)`, which removes every matching record and returns
    the removed ones. */
module ChatterStore {
  import opened Wrappers

  /** One presence record. `id` is the identifier the store assigns on
      creation; `socketId` binds the record to one connection. */
  datatype Chatter = Chatter(id: nat, username: string, room: string, status: string, socketId: string)

  /** The attribute filters the chat protocol passes to the store. */
  datatype Filter =
    | NameInRoom(username: string, room: string)
    | IdIs(id: nat)
    | InRoom(room: string)
    | BoundTo(socketId: string)

  predicate Matches(c: Chatter, f: Filter) {
    match f
    case NameInRoom(u, r) => c.username == u && c.room == r
    case IdIs(i) => c.id == i
    case InRoom(r) => c.room == r
    case BoundTo(s) => c.socketId == s
  }

  /** `find(filter)`: the matching records, in roster order. */
  function Find(roster: seq<Chatter>, f: Filter): (r: seq<Chatter>)
    ensures |r| <= |roster|
    ensures forall c :: c in r <==> c in roster && Matches(c, f)
  {
    if roster == [] then []
    else if Matches(roster[0], f) then [roster[0]] + Find(roster[1..], f)
    else Find(roster[1..], f)
  }

  /** The roster that `delete(filter)` leaves behind: the records that do
      not match, in their old order. */
  function Remove(roster: seq<Chatter>, f: Filter): (r: seq<Chatter>)
    ensures |r| <= |roster|
    ensures forall c :: c in r <==> c in roster && !Matches(c, f)
  {
    if roster == [] then []
    else if Matches(roster[0], f) then Remove(roster[1..], f)
    else [roster[0]] + Remove(roster[1..], f)
  }

  /** `findOne(filter)`: the first matching record, if there is one. */
  function FindOne(roster: seq<Chatter>, f: Filter): (r: Option<Chatter>)
    ensures r.Some? <==> exists c :: c in roster && Matches(c, f)
    ensures r.Some? ==> r.value in roster && Matches(r.value, f)
  {
    var found := Find(roster, f);
    if found == [] then None
    else
      assert found[0] in found;
      Some(found[0])
  }

  /** `find` comes back empty exactly when no record matches. */
  lemma FindEmpty(roster: seq<Chatter>, f: Filter)
    ensures Find(roster, f) == [] <==> forall c :: c in roster ==> !Matches(c, f)
  {
    var found := Find(roster, f);
    if found != [] {
      assert found[0] in found;
    }
  }

  /** `delete(filter)` loses nothing: the records it returns and the records
      it keeps are together exactly the old roster. */
  lemma {:induction false} FindRemovePartition(roster: seq<Chatter>, f: Filter)
    ensures multiset(Find(roster, f)) + multiset(Remove(roster, f)) == multiset(roster)
  {
    if roster != [] {
      FindRemovePartition(roster[1..], f);
      assert roster == [roster[0]] + roster[1..];
    }
  }

  /** A delete that matches nothing leaves the roster as it was. */
  lemma {:induction false} RemoveUnmatched(roster: seq<Chatter>, f: Filter)
    requires Find(roster, f) == []
    ensures Remove(roster, f) == roster
  {
    if roster != [] {
      assert !Matches(roster[0], f);
      assert Find(roster[1..], f) == [];
      RemoveUnmatched(roster[1..], f);
      assert roster == [roster[0]] + roster[1..];
    }
  }

  /** A second delete with the same filter removes nothing more. */
  lemma RemoveIdempotent(roster: seq<Chatter>, f: Filter)
    ensures Find(Remove(roster, f), f) == []
    ensures Remove(Remove(roster, f), f) == Remove(roster, f)
  {
    FindEmpty(Remove(roster, f), f);
    RemoveUnmatched(Remove(roster, f), f);
  }

  /** Appending a record to the roster extends `find` by that record
      exactly when it matches. */
  lemma {:induction false} FindAppend(roster: seq<Chatter>, c: Chatter, f: Filter)
    ensures Find(roster + [c], f) == Find(roster, f) + (if Matches(c, f) then [c] else [])
  {
    if roster == [] {
      assert roster + [c] == [c];
    } else {
      assert (roster + [c])[0] == roster[0];
      assert (roster + [c])[1..] == roster[1..] + [c];
      FindAppend(roster[1..], c, f);
    }
  }

  /** Appending a record to the roster extends what a delete keeps by that
      record exactly when it does not match. */
  lemma {:induction false} RemoveAppend(roster: seq<Chatter>, c: Chatter, f: Filter)
    ensures Remove(roster + [c], f) == Remove(roster, f) + (if Matches(c, f) then [] else [c])
  {
    if roster == [] {
      assert roster + [c] == [c];
    } else {
      assert (roster + [c])[0] == roster[0];
      assert (roster + [c])[1..] == roster[1..] + [c];
      RemoveAppend(roster[1..], c, f);
    }
  }

  /** The key under which usernames must be unique: a username within a room. */
  function Seat(c: Chatter): (string, string) {
    (c.username, c.room)
  }

  /** The store-assigned identifier of a record. */
  function IdOf(c: Chatter): nat {
    c.id
  }

  /** No two records of the roster share a key. */
  ghost predicate UniqueBy<K>(roster: seq<Chatter>, key: Chatter -> K) {
    forall i, j :: 0 <= i < j < |roster| ==> key(roster[i]) != key(roster[j])
  }

  /** Keys stay unique under prepending exactly when the new key is not
      already used. */
  lemma ConsUniqueBy<K>(c: Chatter, roster: seq<Chatter>, key: Chatter -> K)
    ensures UniqueBy([c] + roster, key) <==>
            UniqueBy(roster, key) && forall d :: d in roster ==> key(d) != key(c)
  {
    var s := [c] + roster;
    if UniqueBy(s, key) {
      forall i, j | 0 <= i < j < |roster|
        ensures key(roster[i]) != key(roster[j])
      {
        assert roster[i] == s[i + 1] && roster[j] == s[j + 1];
      }
      forall d | d in roster
        ensures key(d) != key(c)
      {
        var k :| 0 <= k < |roster| && roster[k] == d;
        assert s[0] == c && s[k + 1] == d;
      }
    }
    if UniqueBy(roster, key) && forall d :: d in roster ==> key(d) != key(c) {
      forall i, j | 0 <= i < j < |s|
        ensures key(s[i]) != key(s[j])
      {
        assert s[j] == roster[j - 1];
        if i > 0 {
          assert s[i] == roster[i - 1];
        }
      }
    }
  }

  /** Keys stay unique under appending exactly when the new key is not
      already used. */
  lemma AppendUniqueBy<K>(roster: seq<Chatter>, c: Chatter, key: Chatter -> K)
    ensures UniqueBy(roster + [c], key) <==>
            UniqueBy(roster, key) && forall d :: d in roster ==> key(d) != key(c)
  {
    var s := roster + [c];
    if UniqueBy(s, key) {
      forall i, j | 0 <= i < j < |roster|
        ensures key(roster[i]) != key(roster[j])
      {
        assert roster[i] == s[i] && roster[j] == s[j];
      }
      forall d | d in roster
        ensures key(d) != key(c)
      {
        var k :| 0 <= k < |roster| && roster[k] == d;
        assert s[k] == d && s[|roster|] == c;
      }
    }
    if UniqueBy(roster, key) && forall d :: d in roster ==> key(d) != key(c) {
      forall i, j | 0 <= i < j < |s|
        ensures key(s[i]) != key(s[j])
      {
        assert s[i] == roster[i];
        if j < |roster| {
          assert s[j] == roster[j];
        }
      }
    }
  }

  /** Deleting records never makes two remaining records share a key. */
  lemma {:induction false} RemoveKeepsUniqueBy<K>(roster: seq<Chatter>, f: Filter, key: Chatter -> K)
    requires UniqueBy(roster, key)
    ensures UniqueBy(Remove(roster, f), key)
  {
    if roster != [] {
      assert roster == [roster[0]] + roster[1..];
      ConsUniqueBy(roster[0], roster[1..], key);
      RemoveKeepsUniqueBy(roster[1..], f, key);
      if !Matches(roster[0], f) {
        ConsUniqueBy(roster[0], Remove(roster[1..], f), key);
      }
    }
  }

  /** With unique identifiers, `findOne` by identifier returns the one
      record that carries it. */
  lemma FindOneById(roster: seq<Chatter>, c: Chatter)
    requires UniqueBy(roster, IdOf)
    requires c in roster
    ensures FindOne(roster, IdIs(c.id)) == Some(c)
  {
    var r := FindOne(roster, IdIs(c.id));
    assert Matches(c, IdIs(c.id));
    var i :| 0 <= i < |roster| && roster[i] == r.value;
    var j :| 0 <= j < |roster| && roster[j] == c;
    assert IdOf(roster[i]) == IdOf(roster[j]);
  }
}

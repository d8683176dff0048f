/** gencat's catalogue of message sets: MCAddSet, MCAddMsg, MCDelSet and MCDelMsg. */
module Catalogue {
  import opened Bytes
  import opened SortedList

  /** A message's text: its characters without the NUL. */
  type Text = seq<byte>

  type Messages = List<Text>

  ghost predicate Separate(a: Messages, b: Messages)
    reads a, b
  {
    a != b && forall x: object :: x in a.nodes ==> x !in b.nodes
  }

  /** The message lists are well linked and sorted, and share nothing. */
  ghost predicate Family(lists: map<int, Messages>)
    reads *
  {
    && (forall id :: id in lists ==> lists[id].Valid())
    && (forall a, b :: a in lists && b in lists && a != b ==> Separate(lists[a], lists[b]))
  }

  class Cat {
    var sets: List<Messages>
    var curSet: Node?<Messages>

    ghost predicate Valid()
      reads *
    {
      sets.Valid() && Family(sets.contents)
    }

    /** The catalogue as a map from set ids to maps from message ids to texts. */
    ghost function Model(): map<int, map<int, Text>>
      reads this, sets, sets.contents.Values
    {
      map id | id in sets.contents :: sets.contents[id].contents
    }

    /** The current set has not been deleted. */
    ghost predicate Live()
      reads this, sets
    {
      curSet != null && curSet in sets.nodes
    }

    /** The objects of the catalogue. */
    ghost predicate Owns(o: object)
      reads *
    {
      || o == this || o == sets || o in sets.nodes
      || (exists id :: id in sets.contents && (o == sets.contents[id] || o in sets.contents[id].nodes))
    }

    /** The current set has been freed. */
    ghost predicate Dangling()
      reads this, sets
    {
      curSet != null && curSet !in sets.nodes
    }

    constructor ()
      ensures Valid() && Model() == map[] && curSet == null && sets.ids == []
      ensures forall o: object :: Owns(o) ==> fresh(o)
    {
      sets := new List<Messages>();
      curSet := null;
    }

    /** The search and insertion of MCAddSet, with the messages that a new set starts with. */
    method LinkSet(setId: int, none: Messages)
      requires Valid() && none.Valid() && none.nodes == []
      modifies this, sets, sets.nodes
      ensures sets == old(sets) && sets.Valid() && Live() && curSet.id == setId
      ensures Family(old(sets.contents)) && none.Valid()
      ensures sets.contents == if setId in old(sets.contents) then old(sets.contents) else old(sets.contents)[setId := none]
      ensures unchanged(none) && forall l :: l in old(sets.contents.Values) ==> unchanged(l)
      ensures forall o: object :: o in sets.nodes && !fresh(o) ==> o in old(sets.nodes)
    {
      hide List.Valid, Separate;
      ghost var was := sets.contents;
      curSet := sets.Place(setId, none);
      forall id | id in was ensures was[id].Valid() {
        assert old(was[id].Valid());
      }
      forall a, b | a in was && b in was && a != b ensures Separate(was[a], was[b]) {
        assert old(Separate(was[a], was[b]));
      }
    }

    /** The set with this id, made empty if there was none, becomes the current one. */
    method PlaceSet(setId: int) returns (ghost empty: Messages)
      requires Valid()
      modifies this, sets, sets.nodes
      ensures Valid() && sets == old(sets) && Live() && curSet.id == setId && empty.contents == map[]
      ensures sets.contents == if setId in old(sets.contents) then old(sets.contents) else old(sets.contents)[setId := empty]
      ensures forall l :: l in old(sets.contents.Values) ==> l.contents == old(l.contents)
      ensures forall o: object :: Owns(o) && !fresh(o) ==> old(Owns(o))
    {
      hide List.Valid, Separate, Family;
      var none := new List<Text>();
      ghost var was := sets.contents;
      LinkSet(setId, none);
      empty := none;
      FamilyGrows(was, setId, none);
    }

    /** MCAddSet; `ok` is false when error() ends the program. */
    method AddSet(setId: int) returns (ok: bool)
      requires Valid()
      modifies this, sets, sets.nodes
      ensures Valid() && sets == old(sets) && ok == (setId > 0)
      ensures Model() == if ok && setId !in old(Model()) then old(Model())[setId := map[]] else old(Model())
      ensures ok ==> Live() && curSet.id == setId
      ensures forall o: object :: Owns(o) && !fresh(o) ==> old(Owns(o))
      ensures !ok ==> curSet == old(curSet) && sets.nodes == old(sets.nodes) && (curSet != null ==> curSet.id == old(curSet.id))
    {
      hide List.Valid, Family, Owns;
      if setId <= 0 {
        return false;
      }
      ghost var empty := PlaceSet(setId);
      ok := true;
    }

    /** A set read from a file is linked in behind the others, which have smaller ids. */
    method AppendSet(setId: int, list: Messages)
      requires Valid() && list.Valid() && Between(sets.ids, |sets.ids|, setId)
      requires forall a :: a in sets.contents ==>
                 list != sets.contents[a] && Separate(sets.contents[a], list) && Separate(list, sets.contents[a])
      modifies sets, sets.nodes
      ensures Valid() && sets.contents == old(sets.contents)[setId := list] && sets.ids == old(sets.ids) + [setId]
      ensures unchanged(list) && forall l :: l in old(sets.contents.Values) ==> unchanged(l)
      ensures forall o: object :: o in sets.nodes && !fresh(o) ==> o in old(sets.nodes)
    {
      hide List.Valid, Separate;
      ghost var was := sets.contents;
      var node := sets.Append(setId, list);
      WithMembers(old(sets.nodes), |old(sets.nodes)|, node);
      assert list.Valid() by { assert old(list.Valid()); }
      forall id | id in was ensures was[id].Valid() {
        assert old(was[id].Valid());
      }
      forall a, b | a in was && b in was && a != b ensures Separate(was[a], was[b]) {
        assert old(Separate(was[a], was[b]));
      }
      forall a | a in was ensures list != was[a] && Separate(was[a], list) && Separate(list, was[a]) {
        assert old(Separate(was[a], list) && Separate(list, was[a]));
      }
      FamilyGrows(was, setId, list);
    }

    /** What MCAddMsg and MCDelMsg do to the list of the current set; the other sets keep theirs. */
    method Edit(msgId: int, put: bool, str: Text) returns (found: bool)
      requires Valid() && Live()
      modifies curSet.value, curSet.value.nodes
      ensures Valid() && sets.nodes == old(sets.nodes) && sets.contents == old(sets.contents)
      ensures curSet.id in sets.contents && sets.contents[curSet.id] == curSet.value
      ensures curSet.id == old(curSet.id) && curSet.value == old(curSet.value)
      ensures curSet.value.contents
           == if put then old(curSet.value.contents)[msgId := str] else old(curSet.value.contents) - {msgId}
      ensures !put ==> found == (msgId in old(curSet.value.contents))
      ensures forall x :: x in sets.contents && x != curSet.id ==> sets.contents[x].contents == old(sets.contents[x].contents)
      ensures forall o: object :: Owns(o) && !fresh(o) ==> old(Owns(o))
    {
      var list := curSet.value;
      ghost var c := sets.Standing(curSet);
      ghost var id, was := curSet.id, sets.contents;
      found := list.Edit(msgId, put, str);
      forall x | x in was && x != id
        ensures was[x].Valid() && unchanged(was[x]) && Separate(was[x], list) && Separate(list, was[x])
      {
        var l := was[x];
        assert old(l.Valid() && Separate(l, list) && Separate(list, l));
        forall i | 0 <= i < |l.nodes| ensures Cell(l.nodes, l.ids, l.vals, i) {
          assert l.nodes[i] in l.nodes;
          assert unchanged(l.nodes[i]) && old(Cell(l.nodes, l.ids, l.vals, i));
        }
      }
    }

    /** MCAddMsg. */
    method AddMsg(msgId: int, str: Text) returns (ok: bool)
      requires Valid() && (curSet == null || Live())
      modifies if curSet == null then {} else {curSet.value}, if curSet == null then [] else curSet.value.nodes
      ensures Valid() && sets.nodes == old(sets.nodes) && (curSet != null ==> curSet.id == old(curSet.id))
      ensures ok == (curSet != null && msgId > 0)
      ensures ok ==> curSet.id in old(Model())
      ensures ok ==> Model() == old(Model())[curSet.id := old(Model())[curSet.id][msgId := str]]
      ensures !ok ==> Model() == old(Model())
      ensures forall o: object :: Owns(o) && !fresh(o) ==> old(Owns(o))
    {
      hide List.Valid, Family, Owns;
      if curSet == null || msgId <= 0 {
        return false;
      }
      ghost var c := sets.Standing(curSet);
      ghost var m, id := Model(), curSet.id;
      assert m[id] == curSet.value.contents;
      var found := Edit(msgId, true, str);
      assert m == old(Model()) && id == curSet.id && Model().Keys == m.Keys;
      assert Model()[id] == m[id][msgId := str];
      assert forall x :: x in m && x != id ==> Model()[x] == m[x];
      ok := true;
    }

    /** MCDelMsg; a message that is not there only draws a warning. */
    method DelMsg(msgId: int) returns (ok: bool, found: bool)
      requires Valid() && (curSet == null || Live())
      modifies if curSet == null then {} else {curSet.value}, if curSet == null then [] else curSet.value.nodes
      ensures Valid() && sets.nodes == old(sets.nodes) && (curSet != null ==> curSet.id == old(curSet.id))
      ensures ok == (curSet != null)
      ensures ok ==> curSet.id in old(Model()) && found == (msgId in old(Model())[curSet.id])
      ensures ok ==> Model() == old(Model())[curSet.id := old(Model())[curSet.id] - {msgId}]
      ensures !ok ==> Model() == old(Model())
      ensures forall o: object :: Owns(o) && !fresh(o) ==> old(Owns(o))
    {
      hide List.Valid, Family, Owns;
      if curSet == null {
        return false, false;
      }
      ghost var c := sets.Standing(curSet);
      ghost var m, id := Model(), curSet.id;
      assert m[id] == curSet.value.contents;
      found := Edit(msgId, false, []);
      assert m == old(Model()) && id == curSet.id && Model().Keys == m.Keys;
      assert Model()[id] == m[id] - {msgId};
      assert forall x :: x in m && x != id ==> Model()[x] == m[x];
      ok := true;
    }

    /** The messages of a set are freed; no other set has one of them. */
    method FreeMessages(setId: int) returns (stale: bool)
      requires Valid()
      ensures stale == (setId in sets.contents && sets.contents[setId].contents != map[])
    {
      hide Distinct, Increasing, Refines, Separate;
      var node, k := sets.Seek(setId);
      stale := false;
      if node != null && node.id == setId {
        sets.HoldsAt(k);
        var freed;
        freed, stale := node.value.FreeAll();
      } else {
        sets.HasNone(k, setId);
      }
    }

    /** MCDelSet; the current set may be the one that goes.  `stale` says whether its loop reads a
        message that it has just freed; the model takes for it what the message held. */
    method DelSet(setId: int) returns (found: bool, stale: bool)
      requires Valid()
      modifies sets, sets.nodes
      ensures stale == (setId in old(Model()) && old(Model())[setId] != map[])
      ensures Valid() && found == (setId in old(Model())) && Model() == old(Model()) - {setId}
      ensures old(Live()) && old(curSet.id) != setId ==> Live() && curSet.id == old(curSet.id)
      ensures old(Live()) && old(curSet.id) == setId ==> !Live()
      ensures !old(Live()) ==> !Live()
      ensures forall o: object :: Owns(o) && !fresh(o) ==> old(Owns(o))
    {
      hide List.Valid, Separate;
      ghost var was := sets.contents;
      stale := FreeMessages(setId);
      found := sets.Remove(setId);
      forall id | id in sets.contents ensures sets.contents[id].Valid() {
        assert old(was[id].Valid());
      }
      forall a, b | a in sets.contents && b in sets.contents && a != b
        ensures Separate(sets.contents[a], sets.contents[b])
      {
        assert old(Separate(was[a], was[b]));
      }
    }
  }

  /** A list that shares nothing with the others can join them. */
  lemma FamilyGrows(lists: map<int, Messages>, id: int, list: Messages)
    requires Family(lists) && list.Valid()
    requires forall a :: a in lists ==> list != lists[a] && (list.nodes == [] || (Separate(lists[a], list) && Separate(list, lists[a])))
    ensures Family(lists[id := list])
  {
    hide List.Valid;
  }

  // ----- whole runs -----

  /** An id is an int of the C code. */
  type cint = n: int | -0x8000_0000 <= n < 0x8000_0000

  datatype Op = OpAddSet(setId: cint) | OpAddMsg(msgId: cint, str: Text) | OpDelSet(setId: cint) | OpDelMsg(msgId: cint)

  /** The current set: none yet, one that exists, or one that was deleted. */
  datatype Current = NoSet | Set(id: int) | Deleted

  datatype State = State(sets: map<int, map<int, Text>>, current: Current)

  /** A set that was deleted is not used again. */
  predicate Allowed(s: State, op: Op) {
    op.OpAddMsg? || op.OpDelMsg? ==> s.current != Deleted
  }

  /** error() is called. */
  predicate Fails(s: State, op: Op) {
    match op
    case OpAddSet(setId) => setId <= 0
    case OpAddMsg(msgId, _) => s.current == NoSet || msgId <= 0
    case OpDelSet(_) => false
    case OpDelMsg(_) => s.current == NoSet
  }

  /** The operations on maps. */
  function Apply(s: State, op: Op): State {
    match op
    case OpAddSet(setId) => State(if setId in s.sets then s.sets else s.sets[setId := map[]], Set(setId))
    case OpAddMsg(msgId, str) =>
      if s.current.Set? && s.current.id in s.sets
      then s.(sets := s.sets[s.current.id := s.sets[s.current.id][msgId := str]]) else s
    case OpDelSet(setId) => State(s.sets - {setId}, if s.current == Set(setId) then Deleted else s.current)
    case OpDelMsg(msgId) =>
      if s.current.Set? && s.current.id in s.sets
      then s.(sets := s.sets[s.current.id := s.sets[s.current.id] - {msgId}]) else s
  }

  /** The state after a run, which ends early where error() is called. */
  function After(s: State, ops: seq<Op>): State
    decreases ops
  {
    if ops == [] || Fails(s, ops[0]) then s else After(Apply(s, ops[0]), ops[1..])
  }

  /** No operation of the run calls error(). */
  predicate Succeeds(s: State, ops: seq<Op>)
    decreases ops
  {
    ops == [] || (!Fails(s, ops[0]) && Succeeds(Apply(s, ops[0]), ops[1..]))
  }

  ghost predicate AllAllowed(s: State, ops: seq<Op>)
    decreases ops
  {
    ops == [] || (Allowed(s, ops[0]) && (Fails(s, ops[0]) || AllAllowed(Apply(s, ops[0]), ops[1..])))
  }

  /** The heap represents `s`. */
  ghost predicate Represents(cat: Cat, s: State)
    reads *
  {
    && cat.Valid() && cat.Model() == s.sets
    && (s.current.NoSet? ==> cat.curSet == null)
    && (s.current.Set? ==> cat.Live() && cat.curSet.id == s.current.id && s.current.id in s.sets)
    && (s.current.Deleted? ==> cat.Dangling())
  }

  /** The operations that are not allowed are exactly those that would go through a set that has been
      freed. */
  lemma ForbiddenIsDangling(cat: Cat, s: State, op: Op)
    requires Represents(cat, s)
    ensures !Allowed(s, op) <==> (op.OpAddMsg? || op.OpDelMsg?) && cat.Dangling()
  {
    hide Cat.Valid;
  }

  /** The shortest run that does: a set is added and deleted, and then a message is added. */
  lemma UseAfterDelete(id: cint, msgId: cint, str: Text)
    requires id > 0
    ensures var s := After(State(map[], NoSet), [OpAddSet(id), OpDelSet(id)]);
            s == State(map[], Deleted) && !Allowed(s, OpAddMsg(msgId, str))
    ensures !AllAllowed(State(map[], NoSet), [OpAddSet(id), OpDelSet(id), OpAddMsg(msgId, str)])
  {
    var s0, ops := State(map[], NoSet), [OpAddSet(id), OpDelSet(id), OpAddMsg(msgId, str)];
    var s1 := Apply(s0, ops[0]);
    var s2 := Apply(s1, ops[1]);
    assert s1 == State(map[id := map[]], Set(id)) && s2.sets == map[];
    assert ops[1..] == [ops[1], ops[2]] && ops[1..][1..] == [ops[2]];
    assert !AllAllowed(s2, [ops[2]]);
    var two := [OpAddSet(id), OpDelSet(id)];
    assert two[1..] == [OpDelSet(id)] && two[1..][1..] == [];
    assert After(s2, []) == s2;
    assert After(s1, [OpDelSet(id)]) == s2;
  }

  /** The operation reads a message that it has freed. */
  predicate ReadsFreed(s: State, op: Op) {
    op.OpDelSet? && op.setId in s.sets && s.sets[op.setId] != map[]
  }

  method Perform(cat: Cat, op: Op, ghost s: State) returns (ok: bool, stale: bool)
    requires Represents(cat, s) && Allowed(s, op)
    modifies cat, cat.sets, cat.sets.nodes
    modifies if cat.Live() then {cat.curSet.value} else {}, if cat.Live() then cat.curSet.value.nodes else []
    ensures ok == !Fails(s, op) && Represents(cat, if ok then Apply(s, op) else s)
    ensures stale == ReadsFreed(s, op)
    ensures forall o: object :: cat.Owns(o) && !fresh(o) ==> old(cat.Owns(o))
  {
    hide List.Valid, Family, Cat.Owns;
    stale := false;
    match op {
      case OpAddSet(setId) =>
        ok := cat.AddSet(setId);
      case OpAddMsg(msgId, str) =>
        ok := cat.AddMsg(msgId, str);
      case OpDelSet(setId) =>
        var found;
        found, stale := cat.DelSet(setId);
        ok := true;
      case OpDelMsg(msgId) =>
        var found;
        ok, found := cat.DelMsg(msgId);
    }
  }
}

/** gencat as a whole: a catalogue is read from its file, edited in memory, and written again. */
module Gencat {
  import opened Bytes
  import opened SortedList
  import opened Catalogue
  import CatalogueFile

  type MessageSet = CatalogueFile.MessageSet
  type Message = CatalogueFile.Message

  // ----- a catalogue as a sequence and as a map -----

  /** Ids that gencat hands out: positive ints. */
  predicate Proper(id: int) {
    0 < id < 0x8000_0000
  }

  ghost predicate SortedMessages(msgs: seq<Message>) {
    && (forall j :: 0 <= j < |msgs| ==> Proper(msgs[j].id))
    && (forall i, j :: 0 <= i < j < |msgs| ==> msgs[i].id < msgs[j].id)
  }

  ghost predicate Sorted(sets: seq<MessageSet>) {
    && (forall k :: 0 <= k < |sets| ==> Proper(sets[k].id) && SortedMessages(sets[k].messages))
    && (forall i, j :: 0 <= i < j < |sets| ==> sets[i].id < sets[j].id)
  }

  function MessageMap(msgs: seq<Message>): map<int, Text> {
    if msgs == [] then map[]
    else
      var last := msgs[|msgs| - 1];
      MessageMap(msgs[..|msgs| - 1])[last.id := last.text]
  }

  function SetMap(sets: seq<MessageSet>): map<int, map<int, Text>> {
    if sets == [] then map[]
    else
      var last := sets[|sets| - 1];
      SetMap(sets[..|sets| - 1])[last.id := MessageMap(last.messages)]
  }

  lemma MessageMapStep(msgs: seq<Message>, k: nat)
    requires k < |msgs|
    ensures MessageMap(msgs[..k + 1]) == MessageMap(msgs[..k])[msgs[k].id := msgs[k].text]
  {
    assert msgs[..k + 1][..k] == msgs[..k];
  }

  lemma SetMapStep(sets: seq<MessageSet>, k: nat)
    requires k < |sets|
    ensures SetMap(sets[..k + 1]) == SetMap(sets[..k])[sets[k].id := MessageMap(sets[k].messages)]
  {
    assert sets[..k + 1][..k] == sets[..k];
  }

  // ----- from the file into memory -----

  /** The reader's loop over messages: each is linked behind the last. */
  method LoadMessages(msgs: seq<Message>) returns (list: Messages)
    requires SortedMessages(msgs)
    ensures list.Valid() && list.contents == MessageMap(msgs)
    ensures fresh(list) && forall i :: 0 <= i < |list.nodes| ==> fresh(list.nodes[i])
  {
    hide List.Valid, MessageMap;
    list := new List<Text>();
    assert list.contents == MessageMap(msgs[..0]) by { NoMessages(msgs[..0]); }
    for k := 0 to |msgs|
      invariant list.Valid() && list.contents == MessageMap(msgs[..k])
      invariant |list.ids| == k && forall j :: 0 <= j < k ==> list.ids[j] == msgs[j].id
      invariant fresh(list) && forall i :: 0 <= i < |list.nodes| ==> fresh(list.nodes[i])
    {
      Lengths(list);
      ghost var nodes, ids := list.nodes, list.ids;
      var node := list.Append(msgs[k].id, msgs[k].text);
      WithIs(nodes, |nodes|, node);
      WithIs(ids, |ids|, msgs[k].id);
      MessageMapStep(msgs, k);
    }
    assert msgs[..|msgs|] == msgs;
  }

  lemma NoMessages(msgs: seq<Message>)
    requires msgs == []
    ensures MessageMap(msgs) == map[]
  {
  }

  lemma Lengths<T>(list: List<T>)
    requires list.Valid()
    ensures |list.nodes| == |list.ids| == |list.vals|
  {
  }

  /** The messages of a set are linked apart from the catalogue. */
  method LoadApart(cat: Cat, msgs: seq<Message>) returns (list: Messages)
    requires cat.Valid() && SortedMessages(msgs)
    ensures cat.Valid() && list.Valid() && list.contents == MessageMap(msgs)
    ensures fresh(list) && forall i :: 0 <= i < |list.nodes| ==> fresh(list.nodes[i])
    ensures forall a :: a in cat.sets.contents ==>
              list != cat.sets.contents[a] && Separate(cat.sets.contents[a], list) && Separate(list, cat.sets.contents[a])
  {
    hide List.Valid, MessageMap, SortedMessages;
    ghost var was := cat.sets.contents;
    list := LoadMessages(msgs);
    forall id | id in was ensures was[id].Valid() {
      assert old(was[id].Valid());
    }
    forall a, b | a in was && b in was && a != b ensures Separate(was[a], was[b]) {
      assert old(Separate(was[a], was[b]));
    }
    assert cat.sets.Valid() by { assert old(cat.sets.Valid()); }
  }

  /** One set with its messages goes behind the others. */
  method LoadSet(cat: Cat, set_: MessageSet)
    requires cat.Valid() && SortedMessages(set_.messages) && Between(cat.sets.ids, |cat.sets.ids|, set_.id)
    modifies cat.sets, cat.sets.nodes
    ensures cat.Valid() && cat.sets.ids == old(cat.sets.ids) + [set_.id]
    ensures cat.Model() == old(cat.Model())[set_.id := MessageMap(set_.messages)]
    ensures forall o: object :: cat.Owns(o) && !fresh(o) ==> old(cat.Owns(o))
  {
    hide List.Valid, MessageMap, SortedMessages, Family, Separate;
    var list := LoadApart(cat, set_.messages);
    cat.AppendSet(set_.id, list);
  }

  lemma OwnsSets(cat: Cat)
    ensures cat.Owns(cat) && cat.Owns(cat.sets)
    ensures forall i :: 0 <= i < |cat.sets.nodes| ==> cat.Owns(cat.sets.nodes[i])
  {
  }

  /** MCReadCat's linking of what it reads: a new catalogue that holds the sets. */
  method Load(sets: seq<MessageSet>) returns (cat: Cat)
    requires Sorted(sets)
    ensures fresh(cat) && cat.Valid() && cat.Model() == SetMap(sets) && cat.curSet == null
    ensures forall o: object :: cat.Owns(o) ==> fresh(o)
  {
    hide List.Valid, Family, SetMap, MessageMap, SortedMessages, Separate, Cat.Owns;
    cat := new Cat();
    assert cat.Model() == SetMap(sets[..0]) by { NoSets(sets[..0]); }
    for k := 0 to |sets|
      invariant cat.Valid() && cat.Model() == SetMap(sets[..k]) && cat.curSet == null && fresh(cat)
      invariant |cat.sets.ids| == k && forall j :: 0 <= j < k ==> cat.sets.ids[j] == sets[j].id
      invariant forall o: object :: cat.Owns(o) ==> fresh(o)
    {
      OwnsSets(cat);
      LoadSet(cat, sets[k]);
      SetMapStep(sets, k);
    }
    assert sets[..|sets|] == sets;
  }

  lemma NoSets(sets: seq<MessageSet>)
    requires sets == []
    ensures SetMap(sets) == map[]
  {
  }

  // ----- from memory to the sequence that is written -----

  lemma {:induction false} MessageLookup(msgs: seq<Message>, k: nat)
    requires SortedMessages(msgs) && k <= |msgs|
    ensures forall j :: 0 <= j < k ==>
              msgs[j].id in MessageMap(msgs[..k]) && MessageMap(msgs[..k])[msgs[j].id] == msgs[j].text
    ensures forall id :: id in MessageMap(msgs[..k]) ==> exists j :: 0 <= j < k && msgs[j].id == id
  {
    hide MessageMap;
    if k == 0 {
      NoMessages(msgs[..0]);
    } else {
      MessageLookup(msgs, k - 1);
      MessageMapStep(msgs, k - 1);
    }
  }

  lemma {:induction false} SetLookup(sets: seq<MessageSet>, k: nat)
    requires Sorted(sets) && k <= |sets|
    ensures forall j :: 0 <= j < k ==>
              sets[j].id in SetMap(sets[..k]) && SetMap(sets[..k])[sets[j].id] == MessageMap(sets[j].messages)
    ensures forall id :: id in SetMap(sets[..k]) ==> exists j :: 0 <= j < k && sets[j].id == id
  {
    hide SetMap, MessageMap, SortedMessages;
    if k == 0 {
      NoSets(sets[..0]);
    } else {
      SetLookup(sets, k - 1);
      SetMapStep(sets, k - 1);
    }
  }

  /** The messages of a list in order hold what the list holds. */
  lemma ListMap(ids: seq<int>, vals: seq<Text>, contents: map<int, Text>, msgs: seq<Message>)
    requires Increasing(ids) && Refines(ids, vals, contents) && |msgs| == |ids| && SortedMessages(msgs)
    requires forall j :: 0 <= j < |msgs| ==> msgs[j].id == ids[j] && msgs[j].text == vals[j]
    ensures MessageMap(msgs) == contents
  {
    hide MessageMap;
    MessageLookup(msgs, |msgs|);
    assert msgs[..|msgs|] == msgs;
    forall id | id in contents ensures id in MessageMap(msgs) && MessageMap(msgs)[id] == contents[id] {
      var j :| 0 <= j < |ids| && ids[j] == id;
      assert msgs[j].id == id;
    }
    forall id | id in MessageMap(msgs) ensures id in contents {
      var j :| 0 <= j < |msgs| && msgs[j].id == id;
      assert ids[j] in contents;
    }
    assert MessageMap(msgs).Keys == contents.Keys;
  }

  lemma ListSorted(ids: seq<int>, vals: seq<Text>, contents: map<int, Text>, msgs: seq<Message>)
    requires Increasing(ids) && Refines(ids, vals, contents) && |msgs| <= |ids|
    requires forall id :: id in contents ==> Proper(id)
    requires forall j :: 0 <= j < |msgs| ==> msgs[j].id == ids[j]
    ensures SortedMessages(msgs)
  {
  }

  /** Along `next`, from the first message to the last. */
  method WalkMessages(list: Messages) returns (msgs: seq<Message>)
    requires list.Valid() && forall id :: id in list.contents ==> Proper(id)
    ensures SortedMessages(msgs) && MessageMap(msgs) == list.contents
  {
    hide Distinct, Increasing, Refines, MessageMap, SortedMessages, Proper;
    msgs := [];
    var node := list.first;
    while node != null
      invariant |msgs| <= |list.nodes| && node == At(list.nodes, |msgs|)
      invariant forall j :: 0 <= j < |msgs| ==> msgs[j].id == list.ids[j] && msgs[j].text == list.vals[j]
      decreases |list.nodes| - |msgs|
    {
      assert Cell(list.nodes, list.ids, list.vals, |msgs|);
      assert Proper(node.id) by { Holds(list.ids, list.vals, list.contents, |msgs|); }
      var id := ProperId(node.id);
      msgs := msgs + [CatalogueFile.Message(id, node.value)];
      node := node.next;
    }
    ListSorted(list.ids, list.vals, list.contents, msgs);
    ListMap(list.ids, list.vals, list.contents, msgs);
  }

  function ProperId(id: int): (n: u32)
    requires Proper(id)
    ensures n == id
  {
    id
  }

  ghost predicate ProperMap(m: map<int, map<int, Text>>) {
    forall id :: id in m ==> Proper(id) && forall k :: k in m[id] ==> Proper(k)
  }

  /** `set_` is what the model says of the set at position `j`. */
  ghost predicate Walked(ids: seq<int>, model: map<int, map<int, Text>>, set_: MessageSet, j: nat) {
    && j < |ids| && set_.id == ids[j] && ids[j] in model
    && MessageMap(set_.messages) == model[ids[j]] && SortedMessages(set_.messages)
  }

  lemma WalkedAll(ids: seq<int>, vals: seq<Messages>, contents: map<int, Messages>, model: map<int, map<int, Text>>,
                  sets: seq<MessageSet>)
    requires Increasing(ids) && Refines(ids, vals, contents) && model.Keys == contents.Keys && ProperMap(model)
    requires |sets| == |ids| && forall j :: 0 <= j < |sets| ==> Walked(ids, model, sets[j], j)
    ensures Sorted(sets) && SetMap(sets) == model
  {
    hide Sorted, SetMap, Walked, Increasing, Refines, ProperMap;
    WalkedSorted(ids, model, sets);
    forall id ensures id in model <==> id in ids {
      KeysOf(ids, vals, contents, id);
    }
    WalkedMap(ids, model, sets);
  }

  lemma KeysOf<T>(ids: seq<int>, vals: seq<T>, contents: map<int, T>, id: int)
    requires Refines(ids, vals, contents)
    ensures id in contents <==> id in ids
  {
  }

  lemma WalkedSorted(ids: seq<int>, model: map<int, map<int, Text>>, sets: seq<MessageSet>)
    requires Increasing(ids) && ProperMap(model)
    requires |sets| == |ids| && forall j :: 0 <= j < |sets| ==> Walked(ids, model, sets[j], j)
    ensures Sorted(sets)
  {
    hide MessageMap, SortedMessages, Proper;
  }

  lemma WalkedMap(ids: seq<int>, model: map<int, map<int, Text>>, sets: seq<MessageSet>)
    requires Sorted(sets) && forall id :: id in model <==> id in ids
    requires |sets| == |ids| && forall j :: 0 <= j < |sets| ==> Walked(ids, model, sets[j], j)
    ensures SetMap(sets) == model
  {
    hide MessageMap, SortedMessages, Proper, SetMap, Sorted;
    SetLookup(sets, |sets|);
    assert sets[..|sets|] == sets;
    forall id | id in model ensures id in SetMap(sets) && SetMap(sets)[id] == model[id] {
      var j :| 0 <= j < |ids| && ids[j] == id;
      assert Walked(ids, model, sets[j], j);
    }
    forall id | id in SetMap(sets) ensures id in model {
      var j :| 0 <= j < |sets| && sets[j].id == id;
      assert Walked(ids, model, sets[j], j);
    }
    assert SetMap(sets).Keys == model.Keys;
  }

  /** The catalogue in the order of its lists, along `next` at both levels. */
  method Walk(cat: Cat) returns (sets: seq<MessageSet>)
    requires cat.Valid() && ProperMap(cat.Model())
    ensures Sorted(sets) && SetMap(sets) == cat.Model()
  {
    hide SetMap, MessageMap, SortedMessages, Proper, Separate, Distinct, Increasing, Refines;
    sets := [];
    var node := cat.sets.first;
    ghost var nodes, ids, vals, lists, model := cat.sets.nodes, cat.sets.ids, cat.sets.vals, cat.sets.contents, cat.Model();
    while node != null
      invariant |sets| <= |nodes| && node == At(nodes, |sets|)
      invariant forall j :: 0 <= j < |sets| ==> Walked(ids, model, sets[j], j)
      decreases |nodes| - |sets|
    {
      ghost var j := |sets|;
      assert old(Cell(nodes, ids, vals, j));
      Holds(ids, vals, lists, j);
      var list, id, next := node.value, ProperId(node.id), node.next;
      assert model[id] == old(list.contents);
      assert list.Valid() by { assert old(list.Valid()); }
      var msgs := WalkMessages(list);
      sets := sets + [CatalogueFile.MessageSet(id, msgs)];
      node := next;
    }
    WalkedAll(ids, vals, lists, model, sets);
  }

  // ----- whole runs -----

  /** A catalogue just read, with no current set. */
  function Opened(sets: seq<MessageSet>): State {
    State(SetMap(sets), NoSet)
  }

  /** Every run from a catalogue that was read, or from an empty one, that never uses a deleted set:
      the lists stay well linked and sorted and hold what the maps hold. */
  method Run(sets: seq<MessageSet>, ops: seq<Op>) returns (cat: Cat, ok: bool)
    requires Sorted(sets) && AllAllowed(Opened(sets), ops)
    ensures fresh(cat) && Represents(cat, After(Opened(sets), ops)) && ok == Succeeds(Opened(sets), ops)
  {
    hide Represents, Cat.Owns, Apply, Fails, After, AllAllowed, Succeeds, Opened;
    cat := Load(sets);
    ghost var s := Opened(sets);
    assert Represents(cat, s) by { LoadedCatalogue(cat, sets); }
    var k := 0;
    assert ops[0..] == ops;
    while k < |ops|
      invariant 0 <= k <= |ops| && Represents(cat, s) && AllAllowed(s, ops[k..])
      invariant After(s, ops[k..]) == After(Opened(sets), ops) && Succeeds(s, ops[k..]) == Succeeds(Opened(sets), ops)
      invariant forall o: object :: cat.Owns(o) ==> fresh(o)
    {
      RunStep(s, ops[k..]);
      Footprint(cat, s);
      var stale;
      ok, stale := Perform(cat, ops[k], s);
      if !ok {
        assert cat.Owns(cat) by { OwnsSets(cat); }
        return;
      }
      assert ops[k..][1..] == ops[k + 1..];
      s, k := Apply(s, ops[k]), k + 1;
    }
    RunEnd(s, ops[k..]);
    assert cat.Owns(cat) by { OwnsSets(cat); }
    ok := true;
  }

  lemma LoadedCatalogue(cat: Cat, sets: seq<MessageSet>)
    requires cat.Valid() && cat.Model() == SetMap(sets) && cat.curSet == null
    ensures Represents(cat, Opened(sets))
  {
  }

  lemma RunStep(s: State, ops: seq<Op>)
    requires AllAllowed(s, ops) && ops != []
    ensures Allowed(s, ops[0])
    ensures Fails(s, ops[0]) ==> After(s, ops) == s && !Succeeds(s, ops)
    ensures !Fails(s, ops[0]) ==> AllAllowed(Apply(s, ops[0]), ops[1..]) && After(s, ops) == After(Apply(s, ops[0]), ops[1..])
    ensures !Fails(s, ops[0]) ==> Succeeds(s, ops) == Succeeds(Apply(s, ops[0]), ops[1..])
  {
  }

  lemma RunEnd(s: State, ops: seq<Op>)
    requires ops == []
    ensures After(s, ops) == s && Succeeds(s, ops)
  {
  }

  /** What an operation may modify belongs to the catalogue. */
  lemma Footprint(cat: Cat, s: State)
    requires Represents(cat, s)
    ensures cat.Owns(cat) && cat.Owns(cat.sets)
    ensures forall i :: 0 <= i < |cat.sets.nodes| ==> cat.Owns(cat.sets.nodes[i])
    ensures cat.Live() ==> cat.Owns(cat.curSet.value)
    ensures cat.Live() ==> forall i :: 0 <= i < |cat.curSet.value.nodes| ==> cat.Owns(cat.curSet.value.nodes[i])
  {
    hide List.Valid, Family;
    if cat.Live() {
      var c := cat.sets.Standing(cat.curSet);
    }
  }

  /** Operations only ever make proper ids. */
  lemma {:induction false} AfterProper(s: State, ops: seq<Op>)
    requires ProperMap(s.sets)
    ensures ProperMap(After(s, ops).sets)
    decreases ops
  {
    hide Apply, Fails, Proper, ProperMap;
    if ops != [] && !Fails(s, ops[0]) {
      ApplyProper(s, ops[0]);
      AfterProper(Apply(s, ops[0]), ops[1..]);
    }
  }

  /** From nothing, whatever the operations are, ids are positive ints. */
  lemma MadeIdsArePositive(ops: seq<Op>, id: int, msgId: int)
    requires id in After(State(map[], NoSet), ops).sets
    ensures 0 < id <= 2147483647
    ensures msgId in After(State(map[], NoSet), ops).sets[id] ==> 0 < msgId <= 2147483647
  {
    hide After;
    AfterProper(State(map[], NoSet), ops);
  }

  lemma ApplyProper(s: State, op: Op)
    requires ProperMap(s.sets) && !Fails(s, op)
    ensures ProperMap(Apply(s, op).sets)
  {
  }

  lemma SortedIsProper(sets: seq<MessageSet>)
    requires Sorted(sets)
    ensures ProperMap(SetMap(sets))
  {
    hide SetMap, MessageMap, Proper, SortedMessages;
    SetLookup(sets, |sets|);
    assert sets[..|sets|] == sets;
    forall id | id in SetMap(sets) ensures Proper(id) && forall k :: k in SetMap(sets)[id] ==> Proper(k) {
      var j :| 0 <= j < |sets| && sets[j].id == id;
      SortedIsProperSet(sets[j].messages);
    }
  }

  lemma SortedIsProperSet(msgs: seq<Message>)
    requires SortedMessages(msgs)
    ensures forall k :: k in MessageMap(msgs) ==> Proper(k)
  {
    hide MessageMap, Proper;
    MessageLookup(msgs, |msgs|);
    assert msgs[..|msgs|] == msgs;
  }

  /** How gencat leaves the file on disk. */
  datatype Result = Untouched(bytes: seq<byte>) | Stopped(bytes: seq<byte>) | Written(bytes: seq<byte>, sets: seq<MessageSet>)

  /** What can be read from a file is sorted, and the edits use no deleted set. */
  ghost predicate Editable(file: seq<byte>, lay: CatalogueFile.Layout, ops: seq<Op>) {
    var first := CatalogueFile.Reading(file, lay);
    first.Loaded? ==> Sorted(first.sets) && AllAllowed(Opened(first.sets), ops)
  }

  /** gencat on an existing catalogue file: MCReadCat, the truncation of the file, the edits, MCWriteCat.
      A file that cannot be read stays as it is.  If the edits succeed, the file holds exactly the
      edited map, in sorted order, and can be read and edited again if there is a set left.  If one
      calls error(), the file is already empty, and the old catalogue is lost. */
  method EditFile(file: seq<byte>, lay: CatalogueFile.Layout, ops: seq<Op>) returns (r: Result)
    requires Editable(file, lay, ops)
    ensures var first := CatalogueFile.Reading(file, lay);
            && (r.Untouched? <==> !first.Loaded?)
            && (r.Untouched? ==> r.bytes == file)
            && (r.Stopped? <==> first.Loaded? && !Succeeds(Opened(first.sets), ops))
            && (r.Written? ==> SetMap(r.sets) == After(Opened(first.sets), ops).sets)
    ensures r.Stopped? ==> r.bytes == [] && CatalogueFile.Reading(r.bytes, lay) == CatalogueFile.Corrupt
    ensures r.Written? ==> Sorted(r.sets) && CatalogueFile.Stored(r.bytes, lay, r.sets)
    ensures r.Written? && CatalogueFile.Fits(lay, r.sets) ==>
              (CatalogueFile.Reading(r.bytes, lay) == CatalogueFile.Loaded(r.sets) <==> r.sets != [])
  {
    hide CatalogueFile.Stored, CatalogueFile.Fits, CatalogueFile.Reading, Sorted, SetMap, After, Succeeds, AllAllowed, Opened;
    hide List.Valid, Family, ProperMap;
    var f := new CatalogueFile.File(file);
    var first := CatalogueFile.ReadCat(f, lay);
    if !first.Loaded? {
      return Untouched(f.bytes);
    }
    f.Truncate();
    var cat, ok := Run(first.sets, ops);
    if !ok {
      CatalogueFile.NothingIsCorrupt(lay);
      return Stopped(f.bytes);
    }
    assert ProperMap(cat.Model()) by { EditedProper(first.sets, ops); }
    var edited := Walk(cat);
    CatalogueFile.WriteCat(f, lay, edited);
    CatalogueFile.StoredIsRead(f.bytes, lay, edited);
    CatalogueFile.NeverLoadsNothing(f.bytes, lay);
    r := Written(f.bytes, edited);
  }

  /** A file that gencat has written is one that it can edit. */
  lemma WrittenIsEditable(file: seq<byte>, lay: CatalogueFile.Layout, sets: seq<MessageSet>, ops: seq<Op>)
    requires CatalogueFile.Stored(file, lay, sets) && CatalogueFile.Fits(lay, sets) && Sorted(sets) && sets != []
    ensures CatalogueFile.Reading(file, lay) == CatalogueFile.Loaded(sets)
    ensures Editable(file, lay, ops) <==> AllAllowed(Opened(sets), ops)
  {
    hide CatalogueFile.Stored, CatalogueFile.Fits, CatalogueFile.Reading, Sorted, AllAllowed, Opened;
    CatalogueFile.StoredIsRead(file, lay, sets);
  }

  lemma EditedProper(sets: seq<MessageSet>, ops: seq<Op>)
    requires Sorted(sets)
    ensures ProperMap(After(Opened(sets), ops).sets)
  {
    hide Sorted, SetMap, After, ProperMap;
    SortedIsProper(sets);
    AfterProper(Opened(sets), ops);
  }
}

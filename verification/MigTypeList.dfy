/** The self-organizing list of named types. */
module MigTypeList {

  class IpcType {
    var itName: string
    var itNext: IpcType?

    constructor ()
      ensures itNext == null
    {
      itName, itNext := "", null;
    }
  }

  // ----- the list as a value: its nodes in order and their names -----

  ghost predicate Distinct(nodes: seq<IpcType>) {
    forall i, j :: 0 <= i < j < |nodes| ==> nodes[i] != nodes[j]
  }

  ghost function At(nodes: seq<IpcType>, i: nat): IpcType? {
    if i < |nodes| then nodes[i] else null
  }

  /** `latest` maps every name in the list to its node nearest the front. */
  ghost predicate Shadows(nodes: seq<IpcType>, names: seq<string>, latest: map<string, IpcType>) {
    && |names| == |nodes|
    && (forall n :: n in latest ==> Named(nodes, names, n, latest[n]))
    && (forall i :: 0 <= i < |names| ==> names[i] in latest)
    && (forall i, j :: 0 <= i < j < |names| ==> names[i] in latest && latest[names[i]] != nodes[j])
  }

  ghost predicate Named(nodes: seq<IpcType>, names: seq<string>, n: string, x: IpcType) {
    exists i :: 0 <= i < |nodes| && i < |names| && nodes[i] == x && names[i] == n
  }

  /** A sequence with its element at `k` brought to the front. */
  ghost function Fronted<T>(s: seq<T>, k: nat): (f: seq<T>)
    requires k < |s|
    ensures |f| == |s|
    ensures forall i :: 0 <= i < |s| ==> f[i] == s[Origin(k, i)]
  {
    [s[k]] + s[..k] + s[k + 1..]
  }

  /** Where the element at `i` of the new order stood. */
  ghost function Origin(k: nat, i: nat): nat {
    if i == 0 then k else if i <= k then i - 1 else i
  }

  /** The node of a name that is nearest the front is the latest one. */
  lemma FirstIsLatest(nodes: seq<IpcType>, names: seq<string>, latest: map<string, IpcType>, k: nat)
    requires Shadows(nodes, names, latest) && k < |nodes|
    requires forall i :: 0 <= i < k ==> names[i] != names[k]
    ensures names[k] in latest && latest[names[k]] == nodes[k]
  {
    assert Named(nodes, names, names[k], latest[names[k]]);
    var m :| 0 <= m < |nodes| && nodes[m] == latest[names[k]] && names[m] == names[k];
    assert k <= m;
  }

  /** Bringing a latest node to the front shadows nothing new. */
  lemma FrontedShadows(nodes: seq<IpcType>, names: seq<string>, latest: map<string, IpcType>, k: nat)
    requires Shadows(nodes, names, latest) && Distinct(nodes) && k < |nodes|
    requires names[k] in latest && latest[names[k]] == nodes[k]
    ensures Shadows(Fronted(nodes, k), Fronted(names, k), latest) && Distinct(Fronted(nodes, k))
  {
    hide Fronted, Named;
    var f, g := Fronted(nodes, k), Fronted(names, k);
    forall n | n in latest ensures Named(f, g, n, latest[n]) {
      StillNamed(nodes, names, k, n, latest[n]);
    }
  }

  lemma StillNamed(nodes: seq<IpcType>, names: seq<string>, k: nat, n: string, x: IpcType)
    requires |names| == |nodes| && k < |nodes| && Named(nodes, names, n, x)
    ensures Named(Fronted(nodes, k), Fronted(names, k), n, x)
  {
    hide Fronted;
    var i :| 0 <= i < |nodes| && nodes[i] == x && names[i] == n;
    var i' := if i == k then 0 else if i < k then i + 1 else i;
    assert Origin(k, i') == i;
    assert Fronted(nodes, k)[i'] == x && Fronted(names, k)[i'] == n;
  }

  lemma InsertShadows(nodes: seq<IpcType>, names: seq<string>, latest: map<string, IpcType>, name: string, it: IpcType)
    requires Shadows(nodes, names, latest) && Distinct(nodes) && it !in nodes
    ensures Shadows([it] + nodes, [name] + names, latest[name := it]) && Distinct([it] + nodes)
  {
    hide Named;
    var nodes', names', latest' := [it] + nodes, [name] + names, latest[name := it];
    assert Named(nodes', names', name, it) by { NamedFront(nodes, names, name, it); }
    forall n | n in latest && n != name ensures Named(nodes', names', n, latest[n]) {
      NamedBehind(nodes, names, name, it, n, latest[n]);
    }
  }

  lemma NamedFront(nodes: seq<IpcType>, names: seq<string>, name: string, it: IpcType)
    ensures Named([it] + nodes, [name] + names, name, it)
  {
    assert ([it] + nodes)[0] == it && ([name] + names)[0] == name;
  }

  lemma NamedBehind(nodes: seq<IpcType>, names: seq<string>, name: string, it: IpcType, n: string, x: IpcType)
    requires Named(nodes, names, n, x)
    ensures Named([it] + nodes, [name] + names, n, x)
  {
    var i :| 0 <= i < |nodes| && i < |names| && nodes[i] == x && names[i] == n;
    assert ([it] + nodes)[i + 1] == x && ([name] + names)[i + 1] == n;
  }

  // ----- the list in the heap -----

  /** `head` starts a chain through exactly `nodes`, which carry `names`. */
  ghost predicate Chain(head: IpcType?, nodes: seq<IpcType>, names: seq<string>)
    reads nodes
  {
    && head == At(nodes, 0) && |names| == |nodes|
    && (forall i :: 0 <= i < |nodes| ==> Cell(nodes, names, i))
  }

  ghost predicate Cell(nodes: seq<IpcType>, names: seq<string>, i: nat)
    requires i < |nodes| == |names|
    reads nodes[i]
  {
    nodes[i].itNext == At(nodes, i + 1) && nodes[i].itName == names[i]
  }

  class TypeList {
    var list: IpcType?
    ghost var nodes: seq<IpcType>
    ghost var names: seq<string>
    ghost var latest: map<string, IpcType>

    ghost predicate Valid()
      reads this, nodes
    {
      Chain(list, nodes, names) && Shadows(nodes, names, latest) && Distinct(nodes)
    }

    constructor ()
      ensures Valid() && nodes == [] && latest == map[]
    {
      list, nodes, names, latest := null, [], [], map[];
    }

    /** itInsert. */
    method Insert(name: string, it: IpcType)
      requires Valid() && it !in nodes
      modifies this, it
      ensures Valid() && nodes == [it] + old(nodes) && names == [name] + old(names) && latest == old(latest)[name := it]
    {
      hide Shadows, Distinct;
      InsertShadows(nodes, names, latest, name, it);
      ghost var nodes0, names0 := nodes, names;
      it.itName := name;
      it.itNext := list;
      list := it;
      nodes, names, latest := [it] + nodes, [name] + names, latest[name := it];
      forall i | 0 <= i < |nodes| ensures Cell(nodes, names, i) {
        assert i > 0 ==> old(Cell(nodes0, names0, i - 1));
      }
    }

    /** itLookUp: the node found moves to the front; names keep meaning what they meant. */
    method LookUp(name: string) returns (found: IpcType?)
      requires Valid()
      modifies this, nodes
      ensures Valid() && latest == old(latest) && multiset(nodes) == multiset(old(nodes))
      ensures found == if name in latest then latest[name] else null
      ensures found != null ==> nodes != [] && nodes[0] == found && names[0] == name
    {
      hide Shadows, Distinct;
      var it: IpcType?, last: IpcType? := list, null;
      ghost var k := 0;
      while it != null
        invariant 0 <= k <= |nodes| && it == At(nodes, k) && last == (if k == 0 then null else nodes[k - 1])
        invariant forall i :: 0 <= i < k ==> names[i] != name
        decreases |nodes| - k
      {
        assert Cell(nodes, names, k);
        if it.itName == name {
          FirstIsLatest(nodes, names, latest, k);
          MoveToFront(it, last, k);
          return it;
        }
        last := it;
        it := it.itNext;
        k := k + 1;
      }
      NotThere(nodes, names, latest, name);
      return null;
    }

    /** The three assignments; `last` is the node before, none for the first. */
    method MoveToFront(it: IpcType, last: IpcType?, ghost k: nat)
      requires Valid() && k < |nodes| && nodes[k] == it && last == (if k == 0 then null else nodes[k - 1])
      requires names[k] in latest && latest[names[k]] == it
      modifies this, nodes
      ensures Valid() && nodes == Fronted(old(nodes), k) && names == Fronted(old(names), k) && latest == old(latest)
      ensures multiset(nodes) == multiset(old(nodes))
    {
      hide Shadows, Fronted;
      FrontedShadows(nodes, names, latest, k);
      SameNodes(nodes, k);
      ghost var nodes0, names0 := nodes, names;
      assert Cell(nodes, names, k);
      if last == null {
        list := it.itNext;
      } else {
        last.itNext := it.itNext;
      }
      it.itNext := list;
      list := it;
      nodes, names := Fronted(nodes, k), Fronted(names, k);
      forall i | 0 <= i < |nodes| ensures Cell(nodes, names, i) {
        var j := Origin(k, i);
        assert nodes[i] == nodes0[j] && names[i] == names0[j] && old(Cell(nodes0, names0, j));
        assert At(nodes, i + 1) == At(nodes0, if i == 0 && k > 0 then 0 else if i == k then k + 1 else j + 1);
      }
    }
  }

  lemma NotThere(nodes: seq<IpcType>, names: seq<string>, latest: map<string, IpcType>, name: string)
    requires Shadows(nodes, names, latest) && forall i :: 0 <= i < |names| ==> names[i] != name
    ensures name !in latest
  {
  }

  lemma SameNodes(nodes: seq<IpcType>, k: nat)
    requires k < |nodes|
    ensures multiset(Fronted(nodes, k)) == multiset(nodes)
  {
    assert nodes == nodes[..k] + [nodes[k]] + nodes[k + 1..];
  }

  // ----- whole runs -----

  datatype Op = Declare(name: string) | Use(name: string)

  /** The declaration of `name` that is in force before step `k`. */
  function InForce(ops: seq<Op>, k: nat, name: string): (j: int)
    requires k <= |ops|
    ensures -1 <= j < k && (j >= 0 ==> ops[j] == Declare(name))
    ensures forall i :: j < i < k ==> ops[i] != Declare(name)
  {
    if k == 0 then -1 else if ops[k - 1] == Declare(name) then k - 1 else InForce(ops, k - 1, name)
  }

  /** Names mean what the latest declarations made them mean. */
  ghost predicate Current(ops: seq<Op>, k: nat, made: seq<IpcType?>, latest: map<string, IpcType>) {
    k <= |ops| && |made| == k && forall name :: Means(ops, k, made, latest, name)
  }

  ghost predicate Means(ops: seq<Op>, k: nat, made: seq<IpcType?>, latest: map<string, IpcType>, name: string)
    requires k <= |ops| && |made| == k
  {
    var j := InForce(ops, k, name);
    if j < 0 then name !in latest else name in latest && made[j] == latest[name]
  }

  /** Every interleaving of insertions and look-ups: a look-up finds the node of the latest earlier
      declaration of its name, whatever was looked up before. */
  method Run(ops: seq<Op>) returns (made: seq<IpcType?>, found: seq<IpcType?>)
    ensures |made| == |found| == |ops|
    ensures forall k :: 0 <= k < |ops| && ops[k].Use? ==>
              var j := InForce(ops, k, ops[k].name);
              if j < 0 then found[k] == null else found[k] != null && found[k] == made[j]
  {
    hide Shadows, Distinct, Current, InForce, Chain;
    var types := new TypeList();
    made, found := [], [];
    assert Current(ops, 0, made, types.latest) by { StartCurrent(ops); }
    for k := 0 to |ops|
      invariant |made| == |found| == k && types.Valid() && Current(ops, k, made, types.latest)
      invariant fresh(types) && forall i :: 0 <= i < |types.nodes| ==> fresh(types.nodes[i])
      invariant forall l {:trigger found[l]} :: 0 <= l < k && ops[l].Use? ==> Found(ops, l, made, found[l])
    {
      ghost var made0, latest0 := made, types.latest;
      match ops[k] {
        case Declare(name) =>
          var it := new IpcType();
          types.Insert(name, it);
          made, found := made + [it], found + [null];
          DeclareCurrent(ops, k, made0, latest0, it);
        case Use(name) =>
          ghost var nodes0 := types.nodes;
          var it := types.LookUp(name);
          SameMembers(types.nodes, nodes0);
          made, found := made + [null], found + [it];
          UseCurrent(ops, k, made0, latest0, it);
      }
      forall l {:trigger found[l]} | 0 <= l < k && ops[l].Use? ensures Found(ops, l, made, found[l]) {
        FoundStays(ops, l, made0, made, found[l]);
      }
    }
  }

  ghost predicate Found(ops: seq<Op>, k: nat, made: seq<IpcType?>, found: IpcType?)
    requires k < |ops|
  {
    var j := InForce(ops, k, ops[k].name);
    if j < 0 then found == null else found != null && j < |made| && found == made[j]
  }

  lemma FoundStays(ops: seq<Op>, k: nat, made: seq<IpcType?>, made': seq<IpcType?>, found: IpcType?)
    requires k < |ops| && Found(ops, k, made, found) && made <= made'
    ensures Found(ops, k, made', found)
  {
  }

  lemma StartCurrent(ops: seq<Op>)
    ensures Current(ops, 0, [], map[])
  {
  }

  lemma DeclareCurrent(ops: seq<Op>, k: nat, made: seq<IpcType?>, latest: map<string, IpcType>, it: IpcType)
    requires k < |ops| && ops[k].Declare? && Current(ops, k, made, latest)
    ensures Current(ops, k + 1, made + [it], latest[ops[k].name := it])
  {
    var made', latest' := made + [it], latest[ops[k].name := it];
    var k' := k + 1;
    forall name ensures Means(ops, k', made', latest', name) {
      assert Means(ops, k, made, latest, name);
    }
  }

  lemma UseCurrent(ops: seq<Op>, k: nat, made: seq<IpcType?>, latest: map<string, IpcType>, found: IpcType?)
    requires k < |ops| && ops[k].Use? && Current(ops, k, made, latest)
    requires found == if ops[k].name in latest then latest[ops[k].name] else null
    ensures Current(ops, k + 1, made + [null], latest) && Found(ops, k, made + [null], found)
  {
    var made' := made + [null];
    var k' := k + 1;
    forall name ensures Means(ops, k', made', latest, name) {
      assert Means(ops, k, made, latest, name);
    }
    assert Means(ops, k, made, latest, ops[k].name);
  }

  lemma SameMembers(a: seq<IpcType>, b: seq<IpcType>)
    requires multiset(a) == multiset(b)
    ensures forall i :: 0 <= i < |a| ==> a[i] in b
  {
    forall i | 0 <= i < |a| ensures a[i] in b {
      assert a[i] in multiset(a);
    }
  }
}

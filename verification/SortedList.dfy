/** The doubly linked lists of gencat, kept sorted by id. */
module SortedList {

  class Node<T> {
    var id: int
    var value: T
    var prev: Node?<T>
    var next: Node?<T>

    constructor (id: int, value: T)
      ensures this.id == id && this.value == value && prev == null && next == null
    {
      this.id, this.value, prev, next := id, value, null, null;
    }
  }

  // ----- the list as a value -----

  ghost predicate Increasing(ids: seq<int>) {
    forall i, j :: 0 <= i < j < |ids| ==> ids[i] < ids[j]
  }

  /** `contents` is the map with these keys and values. */
  ghost predicate Refines<T>(ids: seq<int>, vals: seq<T>, contents: map<int, T>) {
    && |ids| == |vals|
    && (forall k :: k in contents <==> k in ids)
    && (forall i :: 0 <= i < |ids| ==> ids[i] in contents && contents[ids[i]] == vals[i])
  }

  /** `s` with `x` before its element at `k`. */
  ghost function With<T>(s: seq<T>, k: nat, x: T): seq<T>
    requires k <= |s|
  {
    s[..k] + [x] + s[k..]
  }

  /** `s` without its element at `k`. */
  ghost function Without<T>(s: seq<T>, k: nat): seq<T>
    requires k < |s|
  {
    s[..k] + s[k + 1..]
  }

  ghost predicate IsWith<T>(r: seq<T>, s: seq<T>, k: nat, x: T) {
    && k <= |s| && |r| == |s| + 1 && r[k] == x
    && (forall i :: 0 <= i < k ==> r[i] == s[i])
    && (forall i :: k < i < |r| ==> r[i] == s[i - 1])
  }

  ghost predicate IsWithout<T>(r: seq<T>, s: seq<T>, k: nat) {
    && k < |s| && |r| == |s| - 1
    && (forall i :: 0 <= i < k ==> r[i] == s[i])
    && (forall i :: k <= i < |r| ==> r[i] == s[i + 1])
  }

  lemma WithIs<T>(s: seq<T>, k: nat, x: T)
    requires k <= |s|
    ensures IsWith(With(s, k, x), s, k, x)
  {
  }

  lemma WithMembers<T>(s: seq<T>, k: nat, x: T)
    requires k <= |s|
    ensures forall y :: y in With(s, k, x) <==> y == x || y in s
  {
    assert s == s[..k] + s[k..];
  }

  lemma WithoutIs<T>(s: seq<T>, k: nat)
    requires k < |s|
    ensures IsWithout(Without(s, k), s, k)
  {
  }

  lemma WithoutMembers<T>(s: seq<T>, k: nat)
    requires k < |s|
    ensures forall y :: y in Without(s, k) ==> y in s
    ensures forall y :: y in s && y != s[k] ==> y in Without(s, k)
  {
    assert s == s[..k] + [s[k]] + s[k + 1..];
  }

  ghost predicate Between(ids: seq<int>, k: nat, id: int) {
    k <= |ids| && (k > 0 ==> ids[k - 1] < id) && (k < |ids| ==> id < ids[k])
  }

  /** The early exit misses nothing: beyond a larger id there are only larger ones. */
  lemma NotBeyond(ids: seq<int>, k: nat, id: int)
    requires Increasing(ids) && Between(ids, k, id)
    ensures id !in ids
    ensures forall i :: 0 <= i < k ==> ids[i] < id
    ensures forall i :: k <= i < |ids| ==> id < ids[i]
  {
  }

  lemma WithIncreasing(ids: seq<int>, k: nat, id: int)
    requires Increasing(ids) && Between(ids, k, id)
    ensures Increasing(With(ids, k, id))
  {
    hide With;
    WithIs(ids, k, id);
    NotBeyond(ids, k, id);
  }

  lemma WithRefines<T>(ids: seq<int>, vals: seq<T>, contents: map<int, T>, k: nat, id: int, v: T)
    requires Refines(ids, vals, contents) && k <= |ids| && id !in ids
    ensures Refines(With(ids, k, id), With(vals, k, v), contents[id := v])
  {
    hide With;
    WithIs(ids, k, id);
    WithIs(vals, k, v);
    WithMembers(ids, k, id);
  }

  lemma WithoutRefines<T>(ids: seq<int>, vals: seq<T>, contents: map<int, T>, k: nat)
    requires Refines(ids, vals, contents) && Increasing(ids) && k < |ids|
    ensures Refines(Without(ids, k), Without(vals, k), contents - {ids[k]}) && Increasing(Without(ids, k))
  {
    hide Without;
    WithoutIs(ids, k);
    WithoutIs(vals, k);
    WithoutMembers(ids, k);
  }

  ghost predicate Distinct<T>(nodes: seq<Node<T>>) {
    forall i, j :: 0 <= i < j < |nodes| ==> nodes[i] != nodes[j]
  }

  ghost function At<T>(nodes: seq<Node<T>>, i: int): Node?<T> {
    if 0 <= i < |nodes| then nodes[i] else null
  }

  /** A search that gives up at a larger id finds `id`: nothing in front of it is as large. */
  ghost predicate FoundEarly(ids: seq<int>, id: int) {
    exists i :: 0 <= i < |ids| && ids[i] == id && Smaller(ids[..i], id)
  }

  ghost predicate Smaller(ids: seq<int>, id: int) {
    forall j :: 0 <= j < |ids| ==> ids[j] < id
  }

  /** Among different ids, such a search finds every one if and only if they are sorted. */
  lemma EarlyExitExactly(ids: seq<int>)
    requires forall i, j :: 0 <= i < j < |ids| ==> ids[i] != ids[j]
    ensures (forall i :: 0 <= i < |ids| ==> FoundEarly(ids, ids[i])) <==> Increasing(ids)
  {
    if forall i :: 0 <= i < |ids| ==> FoundEarly(ids, ids[i]) {
      forall i, j | 0 <= i < j < |ids| ensures ids[i] < ids[j] {
        assert FoundEarly(ids, ids[j]);
        var l :| 0 <= l < |ids| && ids[l] == ids[j] && Smaller(ids[..l], ids[j]);
        assert l == j && ids[..l][i] == ids[i];
      }
    }
    if Increasing(ids) {
      forall i | 0 <= i < |ids| ensures FoundEarly(ids, ids[i]) {
        assert Smaller(ids[..i], ids[i]);
      }
    }
  }

  // ----- the list in the heap -----

  ghost predicate Cell<T>(nodes: seq<Node<T>>, ids: seq<int>, vals: seq<T>, i: nat)
    requires i < |nodes| == |ids| == |vals|
    reads nodes[i]
  {
    && nodes[i].prev == At(nodes, i - 1) && nodes[i].next == At(nodes, i + 1)
    && nodes[i].id == ids[i] && nodes[i].value == vals[i]
  }

  class List<T> {
    var first: Node?<T>
    var last: Node?<T>
    ghost var nodes: seq<Node<T>>
    ghost var ids: seq<int>
    ghost var vals: seq<T>
    ghost var contents: map<int, T>

    /** Well linked in both directions, sorted, and holding `contents`. */
    ghost predicate Valid()
      reads this, nodes
    {
      && |nodes| == |ids| == |vals| && first == At(nodes, 0) && last == At(nodes, |nodes| - 1)
      && (forall i :: 0 <= i < |nodes| ==> Cell(nodes, ids, vals, i))
      && Distinct(nodes) && Increasing(ids) && Refines(ids, vals, contents)
    }

    constructor ()
      ensures Valid() && contents == map[] && nodes == [] && ids == []
    {
      first, last, nodes, ids, vals, contents := null, null, [], [], [], map[];
    }

    /** The loop all four operations start with: the first node that is not smaller. */
    method Seek(id: int) returns (node: Node?<T>, ghost k: nat)
      requires Valid()
      ensures k <= |nodes| && node == At(nodes, k)
      ensures (k > 0 ==> ids[k - 1] < id) && (k < |ids| ==> id <= ids[k])
      ensures node != null ==> node.id == ids[k]
    {
      hide Distinct, Increasing, Refines;
      node, k := first, 0;
      while node != null
        invariant 0 <= k <= |nodes| && node == At(nodes, k) && (k > 0 ==> ids[k - 1] < id)
        decreases |nodes| - k
      {
        assert Cell(nodes, ids, vals, k);
        if node.id >= id {
          return;
        }
        node, k := node.next, k + 1;
      }
    }

    /** The loop of MCDelSet over the messages of its set: each is freed, once, and only then is its
        `next` read.  `stale` says whether a freed message was read, which any message is enough for. */
    method FreeAll() returns (freed: seq<Node<T>>, stale: bool)
      requires Valid()
      ensures freed == nodes && Distinct(freed) && stale == (contents != map[])
    {
      hide Increasing;
      freed, stale := [], false;
      var msg := first;
      while msg != null
        invariant |freed| <= |nodes| && freed == nodes[..|freed|] && msg == At(nodes, |freed|) && stale == (freed != [])
        decreases |nodes| - |freed|
      {
        assert Cell(nodes, ids, vals, |freed|);
        freed := freed + [msg];
        stale := stale || msg in freed;
        msg := msg.next;
      }
      if nodes != [] {
        assert ids[0] in contents;
      } else {
        assert forall id :: id !in contents;
      }
    }

    /** A new node before `node`, which stands at `k`. */
    method InsertBefore(node: Node<T>, id: int, v: T, ghost k: nat) returns (new_: Node<T>)
      requires Valid() && k < |nodes| && nodes[k] == node && Between(ids, k, id)
      modifies this, nodes
      ensures Valid() && fresh(new_) && nodes == With(old(nodes), k, new_) && ids == With(old(ids), k, id)
      ensures vals == With(old(vals), k, v) && contents == old(contents)[id := v]
    {
      hide Distinct, Increasing, Refines, With;
      assert Cell(nodes, ids, vals, k);
      new_ := new Node(id, v);
      new_.prev := node.prev;
      new_.next := node;
      if node.prev != null {
        node.prev.next := new_;
      } else {
        first := new_;
      }
      node.prev := new_;
      ghost var nodes0, ids0, vals0 := nodes, ids, vals;
      Record(k, new_, id, v);
      forall j | 0 <= j < |nodes0| ensures Relinked(nodes0, ids0, vals0, k, new_, j) {
        Apart(nodes0, j, k);
        assert old(Cell(nodes, ids, vals, j));
      }
      CellsWith(nodes0, ids0, vals0, k, new_, id, v);
    }

    /** A new node at the end. */
    method Append(id: int, v: T) returns (new_: Node<T>)
      requires Valid() && Between(ids, |ids|, id)
      modifies this, nodes
      ensures Valid() && fresh(new_) && nodes == With(old(nodes), |old(nodes)|, new_) && ids == With(old(ids), |old(ids)|, id)
      ensures vals == With(old(vals), |old(vals)|, v) && contents == old(contents)[id := v]
    {
      hide Distinct, Increasing, Refines, With;
      ghost var k := |nodes|;
      new_ := new Node(id, v);
      if first != null {
        new_.prev := last;
        new_.next := null;
        last.next := new_;
        last := new_;
      } else {
        first, last := new_, new_;
      }
      ghost var nodes0, ids0, vals0 := nodes, ids, vals;
      Record(k, new_, id, v);
      forall j | 0 <= j < |nodes0| ensures Relinked(nodes0, ids0, vals0, k, new_, j) {
        Apart(nodes0, j, k);
        assert old(Cell(nodes, ids, vals, j));
      }
      CellsWith(nodes0, ids0, vals0, k, new_, id, v);
    }

    /** The search and insertion of MCAddSet and MCAddMsg: the node with `id`, made with the value
        `v` if there was none. */
    method Place(id: int, v: T) returns (node: Node<T>)
      requires Valid()
      modifies this, nodes
      ensures Valid() && node in nodes && node.id == id
      ensures contents == if id in old(contents) then old(contents) else old(contents)[id := v]
      ensures forall x :: x in nodes <==> x in old(nodes) || x == node
      ensures id in old(contents) ==> nodes == old(nodes) && ids == old(ids) && vals == old(vals)
      ensures id !in old(contents) ==> fresh(node)
    {
      hide Distinct, Increasing, Refines, With;
      var at, k := Seek(id);
      if at != null && at.id == id {
        Holds(ids, vals, contents, k);
        return at;
      }
      NotHeld(ids, vals, contents, k, id);
      if at != null {
        node := InsertBefore(at, id, v, k);
      } else {
        node := Append(id, v);
      }
      WithIs(old(nodes), k, node);
      WithIs(old(ids), k, id);
      WithMembers(old(nodes), k, node);
      assert Cell(nodes, ids, vals, k);
    }

    /** MCAddMsg on its list: the node with `id` gets the value, new or not. */
    method Put(id: int, v: T)
      requires Valid()
      modifies this, nodes
      ensures Valid() && contents == old(contents)[id := v]
      ensures forall x :: x in nodes ==> x in old(nodes) || fresh(x)
    {
      hide Distinct, Increasing, Refines, With;
      var node := Place(id, v);
      ghost var k := Standing(node);
      Assign(node, v, k);
    }

    /** The removal of MCDelSet and MCDelMsg; without the id it does nothing. */
    method Remove(id: int) returns (found: bool)
      requires Valid()
      modifies this, nodes
      ensures Valid() && found == (id in old(contents)) && contents == old(contents) - {id}
      ensures forall x :: x in nodes ==> x in old(nodes)
      ensures forall x :: x in old(nodes) && old(x.id) != id ==> x in nodes && x.id == old(x.id)
      ensures forall x :: x in old(nodes) && old(x.id) == id ==> x !in nodes
    {
      hide Distinct, Increasing, Refines, Without;
      var node, k := Seek(id);
      if node == null || node.id != id {
        NotHeld(ids, vals, contents, k, id);
        NoneHas(id);
        return false;
      }
      Holds(ids, vals, contents, k);
      Unlink(node, k);
      WithoutMembers(old(nodes), k);
      NoneHas(id);
      found := true;
    }

    lemma HoldsAt(k: nat)
      requires Valid() && k < |nodes|
      ensures nodes[k].id in contents && contents[nodes[k].id] == nodes[k].value
    {
      hide Distinct, Increasing;
      assert Cell(nodes, ids, vals, k);
    }

    lemma HasNone(k: nat, id: int)
      requires Valid() && Between(ids, k, id)
      ensures id !in contents
    {
      hide Distinct, Increasing, Refines;
      NotHeld(ids, vals, contents, k, id);
    }

    /** No node has an id that the map does not have. */
    lemma NoneHas(id: int)
      requires Valid() && id !in contents
      ensures forall x :: x in nodes ==> x.id != id
    {
      hide List.Valid;
      forall x | x in nodes ensures x.id != id {
        var k := Standing(x);
      }
    }

    /** A message list as MCAddMsg or MCDelMsg leaves it. */
    method Edit(id: int, put: bool, v: T) returns (found: bool)
      requires Valid()
      modifies this, nodes
      ensures Valid() && contents == if put then old(contents)[id := v] else old(contents) - {id}
      ensures !put ==> found == (id in old(contents))
      ensures forall x :: x in nodes ==> x in old(nodes) || fresh(x)
    {
      hide List.Valid;
      found := false;
      if put {
        Put(id, v);
      } else {
        found := Remove(id);
      }
    }

    method Unlink(node: Node<T>, ghost k: nat)
      requires Valid() && k < |nodes| && nodes[k] == node
      modifies this, nodes
      ensures Valid() && nodes == Without(old(nodes), k) && contents == old(contents) - {old(ids)[k]}
      ensures ids == Without(old(ids), k) && vals == Without(old(vals), k)
      ensures forall x :: x in old(nodes) ==> x.id == old(x.id)
    {
      hide Distinct, Increasing, Refines, Without;
      assert Cell(nodes, ids, vals, k);
      if node.prev != null {
        node.prev.next := node.next;
      } else {
        first := node.next;
      }
      if node.next != null {
        node.next.prev := node.prev;
      } else {
        last := node.prev;
      }
      ghost var nodes0, ids0, vals0 := nodes, ids, vals;
      Forget(k);
      forall j | 0 <= j < |nodes0| && j != k ensures Unlinked(nodes0, ids0, vals0, k, j) {
        Apart(nodes0, j, k);
        Apart(nodes0, j, k + 1);
        assert old(Cell(nodes, ids, vals, j));
      }
      CellsWithout(nodes0, ids0, vals0, k);
    }

    /** The node leaves the list's value. */
    ghost method Forget(k: nat)
      requires |nodes| == |ids| == |vals| && k < |nodes|
      requires Increasing(ids) && Refines(ids, vals, contents) && Distinct(nodes)
      modifies this`nodes, this`ids, this`vals, this`contents
      ensures nodes == Without(old(nodes), k) && ids == Without(old(ids), k) && vals == Without(old(vals), k)
      ensures contents == old(contents) - {old(ids)[k]}
      ensures Increasing(ids) && Refines(ids, vals, contents) && Distinct(nodes)
      ensures At(nodes, 0) == At(old(nodes), if k == 0 then 1 else 0)
      ensures At(nodes, |nodes| - 1) == At(old(nodes), if k == |old(nodes)| - 1 then k - 1 else |old(nodes)| - 1)
    {
      hide Distinct, Increasing, Refines, Without;
      WithoutRefines(ids, vals, contents, k);
      DistinctWithout(nodes, k);
      WithoutIs(nodes, k);
      nodes, ids, vals, contents := Without(nodes, k), Without(ids, k), Without(vals, k), contents - {ids[k]};
    }

    /** A new value for the node with this id. */
    method Assign(node: Node<T>, v: T, ghost k: nat)
      requires Valid() && k < |nodes| && nodes[k] == node
      modifies this, node
      ensures Valid() && nodes == old(nodes) && ids == old(ids) && contents == old(contents)[node.id := v]
      ensures node.id == old(node.id)
    {
      hide Distinct, Increasing, Refines;
      node.value := v;
      AssignRefines(ids, vals, contents, k, v);
      vals, contents := vals[k := v], contents[ids[k] := v];
      forall j | 0 <= j < |nodes| ensures Cell(nodes, ids, vals, j) {
        Apart(nodes, j, k);
        assert old(Cell(nodes, ids, vals, j));
      }
      assert Cell(nodes, ids, vals, k);
    }

    /** Where a node of the list stands, and what the map says of it. */
    lemma Standing(node: Node<T>) returns (k: nat)
      requires Valid() && node in nodes
      ensures k < |nodes| && nodes[k] == node && node.id == ids[k]
      ensures node.id in contents && contents[node.id] == node.value
    {
      hide Distinct, Increasing, Refines;
      k :| 0 <= k < |nodes| && nodes[k] == node;
      assert Cell(nodes, ids, vals, k);
      Holds(ids, vals, contents, k);
    }

    /** The new node becomes part of the list's value. */
    ghost method Record(k: nat, new_: Node<T>, id: int, v: T)
      requires Between(ids, k, id) && |nodes| == |ids| == |vals| && new_ !in nodes
      requires Increasing(ids) && Refines(ids, vals, contents) && Distinct(nodes)
      modifies this`nodes, this`ids, this`vals, this`contents
      ensures nodes == With(old(nodes), k, new_) && ids == With(old(ids), k, id) && vals == With(old(vals), k, v)
      ensures contents == old(contents)[id := v]
      ensures Increasing(ids) && Refines(ids, vals, contents) && Distinct(nodes)
      ensures At(nodes, 0) == (if k == 0 then new_ else At(old(nodes), 0))
      ensures At(nodes, |nodes| - 1) == (if k == |old(nodes)| then new_ else At(old(nodes), |old(nodes)| - 1))
    {
      hide Distinct, Increasing, Refines, With;
      NotBeyond(ids, k, id);
      WithIs(nodes, k, new_);
      WithIncreasing(ids, k, id);
      WithRefines(ids, vals, contents, k, id, v);
      DistinctWith(nodes, k, new_);
      nodes, ids, vals, contents := With(nodes, k, new_), With(ids, k, id), With(vals, k, v), contents[id := v];
    }
  }

  /** What the node at `j` must be once `new_` is linked in at `k`. */
  ghost predicate Relinked<T>(nodes: seq<Node<T>>, ids: seq<int>, vals: seq<T>, k: nat, new_: Node<T>, j: nat)
    requires j < |nodes| == |ids| == |vals|
    reads nodes[j]
  {
    && nodes[j].id == ids[j] && nodes[j].value == vals[j]
    && nodes[j].prev == (if j == k then new_ else At(nodes, j - 1))
    && nodes[j].next == (if j == k - 1 then new_ else At(nodes, j + 1))
  }

  /** A position other than `k` and `k - 1` holds another node. */
  lemma Apart<T>(nodes: seq<Node<T>>, j: nat, k: nat)
    requires Distinct(nodes) && j < |nodes| && k <= |nodes|
    ensures j != k && k < |nodes| ==> nodes[j] != nodes[k]
    ensures j != k - 1 && k > 0 ==> nodes[j] != nodes[k - 1]
  {
  }

  lemma DistinctWith<T>(nodes: seq<Node<T>>, k: nat, x: Node<T>)
    requires Distinct(nodes) && k <= |nodes| && x !in nodes
    ensures Distinct(With(nodes, k, x))
  {
    hide With;
    WithIs(nodes, k, x);
  }

  /** Relinking makes the longer list well linked. */
  lemma CellsWith<T>(nodes: seq<Node<T>>, ids: seq<int>, vals: seq<T>, k: nat, new_: Node<T>, id: int, v: T)
    requires |nodes| == |ids| == |vals| && k <= |nodes|
    requires forall j :: 0 <= j < |nodes| ==> Relinked(nodes, ids, vals, k, new_, j)
    requires new_.id == id && new_.value == v && new_.prev == At(nodes, k - 1) && new_.next == At(nodes, k)
    ensures var nodes', ids', vals' := With(nodes, k, new_), With(ids, k, id), With(vals, k, v);
            |nodes'| == |ids'| == |vals'| && forall i :: 0 <= i < |nodes'| ==> Cell(nodes', ids', vals', i)
  {
    hide With;
    WithIs(nodes, k, new_);
    WithIs(ids, k, id);
    WithIs(vals, k, v);
    var nodes', ids', vals' := With(nodes, k, new_), With(ids, k, id), With(vals, k, v);
    forall i | 0 <= i < |nodes'| ensures Cell(nodes', ids', vals', i) {
      if i != k {
        assert Relinked(nodes, ids, vals, k, new_, if i < k then i else i - 1);
      }
    }
  }

  lemma Holds<T>(ids: seq<int>, vals: seq<T>, contents: map<int, T>, k: nat)
    requires Refines(ids, vals, contents) && k < |ids|
    ensures ids[k] in contents && contents[ids[k]] == vals[k]
  {
  }

  lemma NotHeld<T>(ids: seq<int>, vals: seq<T>, contents: map<int, T>, k: nat, id: int)
    requires Refines(ids, vals, contents) && Increasing(ids) && Between(ids, k, id)
    ensures id !in contents
  {
    NotBeyond(ids, k, id);
  }

  lemma AssignRefines<T>(ids: seq<int>, vals: seq<T>, contents: map<int, T>, k: nat, v: T)
    requires Refines(ids, vals, contents) && Increasing(ids) && k < |ids|
    ensures Refines(ids, vals[k := v], contents[ids[k] := v])
  {
  }

  /** What the node at `j` must be once the one at `k` is unlinked. */
  ghost predicate Unlinked<T>(nodes: seq<Node<T>>, ids: seq<int>, vals: seq<T>, k: nat, j: nat)
    requires j < |nodes| == |ids| == |vals|
    reads nodes[j]
  {
    && nodes[j].id == ids[j] && nodes[j].value == vals[j]
    && nodes[j].prev == At(nodes, if j == k + 1 then k - 1 else j - 1)
    && nodes[j].next == At(nodes, if j == k - 1 then k + 1 else j + 1)
  }

  lemma CellsWithout<T>(nodes: seq<Node<T>>, ids: seq<int>, vals: seq<T>, k: nat)
    requires |nodes| == |ids| == |vals| && k < |nodes|
    requires forall j :: 0 <= j < |nodes| && j != k ==> Unlinked(nodes, ids, vals, k, j)
    ensures var nodes', ids', vals' := Without(nodes, k), Without(ids, k), Without(vals, k);
            |nodes'| == |ids'| == |vals'| && forall i :: 0 <= i < |nodes'| ==> Cell(nodes', ids', vals', i)
  {
    hide Without;
    WithoutIs(nodes, k);
    WithoutIs(ids, k);
    WithoutIs(vals, k);
    var nodes', ids', vals' := Without(nodes, k), Without(ids, k), Without(vals, k);
    forall i | 0 <= i < |nodes'| ensures Cell(nodes', ids', vals', i) {
      assert Unlinked(nodes, ids, vals, k, if i < k then i else i + 1);
    }
  }

  lemma DistinctWithout<T>(nodes: seq<Node<T>>, k: nat)
    requires Distinct(nodes) && k < |nodes|
    ensures Distinct(Without(nodes, k))
  {
    hide Without;
    WithoutIs(nodes, k);
  }
}

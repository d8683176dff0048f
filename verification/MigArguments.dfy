/** The implicit arguments that migcom adds to a routine while it walks the argument list. */
module MigArguments {
  import opened Options

  // ----- arguments -----

  /** What the expansion asks of an ipc_type_t: `multiple` is IS_MULTIPLE_KPD, `elementVaries` is
      itElement->itVarArray, `poly` says that itInName or itOutName is polymorphic. */
  datatype Type = Type(varArray: bool, inLine: bool, portType: bool, poly: bool, multiple: bool, elementVaries: bool)

  /** itVarArrayDecl: `array[*:n] of` a port, for n above one. */
  function PortArray(poly: bool): Type {
    Type(true, true, true, poly, true, false)
  }

  /** itPrevDecl, `type new = old`: itCopyType makes the old type the element of the new one. */
  function Alias(old_: Type): Type {
    old_.(elementVaries := old_.varArray)
  }

  /** The flags and argument-kind bits that the expansion looks at. */
  datatype Flags = Flags(dealloc: bool, notDealloc: bool, maybeDealloc: bool, countInOut: bool)
  datatype Kind = Kind(send: bool, return_: bool, reply: bool)
  datatype Side = Side(kernelServer: bool, kernelUser: bool)

  datatype Role = Poly | CountInOut | Count | SubCount | Dealloc

  /** A node of the list: written in the definition file, or allocated for another node.  A type is
      missing when its declaration was in error. */
  datatype Argument =
    | Given(index: nat, declared: Option<Type>, flags: Flags, kind: Kind)
    | Implicit(role: Role, master: Argument)

  /** argParent; a count-in-out argument has none. */
  function Parent(a: Argument): Option<Argument> {
    if a.Implicit? && a.role != CountInOut then Some(a.master) else None
  }

  /** itMakeCountType, itMakePolyType and itMakeDeallocType. */
  const WORD_TYPE := Type(false, true, false, false, false, false)

  /** The type given to a node when it is made; a sub-count varies iff its master does. */
  function TypeOf(a: Argument): Option<Type> {
    match a
    case Given(_, declared, _, _) => declared
    case Implicit(SubCount, m) =>
      Some(WORD_TYPE.(varArray := TypeOf(m).Some? && TypeOf(m).value.varArray))
    case Implicit(_, _) => Some(WORD_TYPE)
  }

  datatype Deallocate = No | Yes | Maybe

  /** rtProcessDeallocFlag; new nodes carry no flags. */
  function DeallocOf(a: Argument, side: Side): Deallocate
    requires TypeOf(a).Some?
  {
    if a.Implicit? then No
    else
      var dealloc := a.flags.dealloc && !a.flags.maybeDealloc && !a.flags.notDealloc;
      if dealloc && ((side.kernelServer && a.kind.return_) || (side.kernelUser && a.kind.send)) then Yes
      else if !a.flags.maybeDealloc && !dealloc then No
      else if TypeOf(a).value.inLine && !TypeOf(a).value.portType then No
      else if a.flags.maybeDealloc then Maybe
      else Yes
  }

  /** rtProcessCountInOutFlag. */
  predicate CountsInOut(a: Argument)
    requires TypeOf(a).Some?
  {
    a.Given? && a.flags.countInOut && a.kind.reply && a.declared.value.varArray && a.declared.value.inLine
  }

  // ----- what an argument is owed -----

  predicate Owes(a: Argument, role: Role, side: Side) {
    TypeOf(a).Some? &&
    var it := TypeOf(a).value;
    var sub := it.multiple && it.elementVaries;
    match role
    case Poly => it.poly
    case CountInOut => CountsInOut(a)
    case Count => it.varArray && !sub
    case SubCount => sub
    case Dealloc => DeallocOf(a, side) == Maybe
  }

  /** What a given argument is owed, on its flags and its type.  Only `dealloc[]`, which cancels the other
      two flags, adds a dealloc argument, and only for a port or what is out of line; a plain `dealloc`
      never does. */
  lemma GivenOwes(index: nat, it: Type, flags: Flags, kind: Kind, side: Side)
    ensures var a := Given(index, Some(it), flags, kind);
            && (Owes(a, Poly, side) <==> it.poly)
            && (Owes(a, CountInOut, side) <==> flags.countInOut && kind.reply && it.varArray && it.inLine)
            && (Owes(a, SubCount, side) <==> it.multiple && it.elementVaries)
            && (Owes(a, Count, side) <==> it.varArray && !(it.multiple && it.elementVaries))
            && (Owes(a, Dealloc, side) <==> flags.maybeDealloc && (it.portType || !it.inLine))
            && (DeallocOf(a, side) == Yes <==>
                  && flags.dealloc && !flags.notDealloc && !flags.maybeDealloc
                  && (it.portType || !it.inLine || (side.kernelServer && kind.return_) || (side.kernelUser && kind.send)))
    ensures !Owes(Given(index, None, flags, kind), Poly, side) && !Owes(Given(index, None, flags, kind), Dealloc, side)
    ensures !Owes(Given(index, None, flags, kind), Count, side) && !Owes(Given(index, None, flags, kind), SubCount, side)
    ensures !Owes(Given(index, None, flags, kind), CountInOut, side)
  {
  }

  function IfOwed(a: Argument, role: Role, side: Side): seq<Argument> {
    if Owes(a, role, side) then [Implicit(role, a)] else []
  }

  /** The counts of an argument: its count, or its sub-counts and, if those vary, their count. */
  function Counts(a: Argument, side: Side): seq<Argument> {
    IfOwed(a, Count, side) + IfOwed(a, SubCount, side)
    + if Owes(a, SubCount, side) then IfOwed(Implicit(SubCount, a), Count, side) else []
  }

  /** The order documented in the source: arg, poly, count-in-out, count, dealloc. */
  function Expansion(a: Argument, side: Side): seq<Argument> {
    [a] + IfOwed(a, Poly, side) + IfOwed(a, CountInOut, side) + Counts(a, side) + IfOwed(a, Dealloc, side)
  }

  function Expanded(args: seq<Argument>, side: Side): seq<Argument> {
    if args == [] then [] else Expansion(args[0], side) + Expanded(args[1..], side)
  }

  /** All that one given argument becomes, in order: arg, poly, count-in-out, count or sub-counts with a
      count of their own, dealloc. */
  lemma GivenExpands(index: nat, it: Type, flags: Flags, kind: Kind, side: Side)
    ensures var a := Given(index, Some(it), flags, kind);
            Expanded([a], side) ==
            [a] + (if it.poly then [Implicit(Poly, a)] else [])
            + (if flags.countInOut && kind.reply && it.varArray && it.inLine then [Implicit(CountInOut, a)] else [])
            + (if it.multiple && it.elementVaries
               then [Implicit(SubCount, a)] + (if it.varArray then [Implicit(Count, Implicit(SubCount, a))] else [])
               else if it.varArray then [Implicit(Count, a)] else [])
            + (if flags.maybeDealloc && (it.portType || !it.inLine) then [Implicit(Dealloc, a)] else [])
    ensures Expanded([Given(index, None, flags, kind)], side) == [Given(index, None, flags, kind)]
  {
    hide Owes;
    var a, u := Given(index, Some(it), flags, kind), Given(index, None, flags, kind);
    GivenOwes(index, it, flags, kind, side);
    SubCountOwes(a, side);
    assert [a][1..] == [] && [u][1..] == [] && Expanded([], side) == [];
  }

  lemma SubCountOwes(a: Argument, side: Side)
    ensures Owes(Implicit(SubCount, a), Count, side) <==> TypeOf(a).Some? && TypeOf(a).value.varArray
  {
  }

  /** Given arguments rank above sub-counts, and these above everything else. */
  function Rank(a: Argument): nat {
    if a.Given? then 2 else if a.role == SubCount then 1 else 0
  }

  /** What one iteration puts behind the argument it is at. */
  function Added(a: Argument, side: Side): seq<Argument> {
    IfOwed(a, Poly, side) + IfOwed(a, CountInOut, side)
    + (IfOwed(a, Count, side) + IfOwed(a, SubCount, side)) + IfOwed(a, Dealloc, side)
  }

  /** Only given arguments and sub-counts are owed anything, and always something of lower rank. */
  lemma AddedRank(a: Argument, side: Side)
    ensures forall x :: x in Added(a, side) ==> Rank(x) < Rank(a)
    ensures Rank(a) == 0 ==> Added(a, side) == []
  {
  }

  lemma CountOwesNothing(a: Argument, role: Role, side: Side)
    requires Rank(a) == 0
    ensures !Owes(a, role, side)
  {
  }

  lemma LeafExpands(a: Argument, side: Side)
    requires Rank(a) == 0
    ensures Expansion(a, side) == [a]
  {
    hide Owes;
    forall role: Role ensures !Owes(a, role, side) {
      CountOwesNothing(a, role, side);
    }
  }

  lemma SubCountExpands(a: Argument, side: Side)
    ensures Expansion(Implicit(SubCount, a), side)
         == [Implicit(SubCount, a)] + IfOwed(Implicit(SubCount, a), Count, side)
  {
  }

  lemma {:induction false} ExpandedAppend(s: seq<Argument>, t: seq<Argument>, side: Side)
    ensures Expanded(s + t, side) == Expanded(s, side) + Expanded(t, side)
  {
    hide Expansion;
    if s == [] {
      assert s + t == t;
    } else {
      assert (s + t)[1..] == s[1..] + t;
      ExpandedAppend(s[1..], t, side);
    }
  }

  lemma ExpandedLeaf(a: Argument, role: Role, side: Side)
    requires role != SubCount
    ensures Expanded(IfOwed(a, role, side), side) == IfOwed(a, role, side)
  {
    hide Owes, Expansion;
    LeafExpands(Implicit(role, a), side);
  }

  /** Expanding what an argument gets, in turn, gives the argument's whole expansion. */
  lemma AddedExpands(a: Argument, side: Side)
    ensures Expansion(a, side) == [a] + Expanded(Added(a, side), side)
  {
    hide Owes, Expanded, IfOwed;
    var p, i := IfOwed(a, Poly, side), IfOwed(a, CountInOut, side);
    var c, u, d := IfOwed(a, Count, side), IfOwed(a, SubCount, side), IfOwed(a, Dealloc, side);
    ExpandedAppend(p + i + (c + u), d, side);
    ExpandedAppend(p + i, c + u, side);
    ExpandedAppend(p, i, side);
    ExpandedAppend(c, u, side);
    ExpandedLeaf(a, Poly, side);
    ExpandedLeaf(a, CountInOut, side);
    ExpandedLeaf(a, Count, side);
    ExpandedLeaf(a, Dealloc, side);
    ExpandedSubCount(a, side);
  }

  lemma ExpandedSubCount(a: Argument, side: Side)
    ensures Expanded(IfOwed(a, SubCount, side), side)
         == IfOwed(a, SubCount, side)
            + (if Owes(a, SubCount, side) then IfOwed(Implicit(SubCount, a), Count, side) else [])
  {
    hide Owes, Expansion;
    SubCountExpands(a, side);
  }

  // ----- the list being walked -----

  function Insert(s: seq<Argument>, k: nat, x: Argument): seq<Argument>
    requires k <= |s|
  {
    s[..k] + [x] + s[k..]
  }

  lemma InsertMembers(s: seq<Argument>, k: nat, x: Argument)
    requires k <= |s|
    ensures forall y :: y in Insert(s, k, x) <==> y == x || y in s
    ensures |Insert(s, k, x)| == |s| + 1
    ensures forall i :: 0 <= i < k ==> Insert(s, k, x)[i] == s[i]
  {
    assert s == s[..k] + s[k..];
  }

  ghost predicate Distinct(s: seq<Argument>) {
    forall i, j :: 0 <= i < j < |s| ==> s[i] != s[j]
  }

  /** Every implicit argument belongs to one of the first `k` and is owed to it. */
  ghost predicate Sound(s: seq<Argument>, k: nat, side: Side)
    requires k <= |s|
  {
    forall x :: x in s && x.Implicit? ==> x.master in s[..k] && Owes(x.master, x.role, side)
  }

  /** The first `k` arguments have everything that they are owed. */
  ghost predicate Served(s: seq<Argument>, k: nat, side: Side)
    requires k <= |s|
  {
    forall a, role :: a in s[..k] && Owes(a, role, side) ==> Implicit(role, a) in s
  }

  /** The list with `t` put behind its element at `k`. */
  function Behind(s: seq<Argument>, k: nat, t: seq<Argument>): seq<Argument>
    requires k < |s|
  {
    s[..k + 1] + t + s[k + 1..]
  }

  /** The list after the iteration at `k`. */
  function Stepped(s: seq<Argument>, k: nat, side: Side): seq<Argument>
    requires k < |s|
  {
    Behind(s, k, Added(s[k], side))
  }

  lemma BehindMembers(s: seq<Argument>, k: nat, t: seq<Argument>)
    requires k < |s|
    ensures k < |Behind(s, k, t)| && Behind(s, k, t)[k] == s[k]
    ensures forall x :: x in Behind(s, k, t) <==> x in s || x in t
  {
    assert s == s[..k + 1] + s[k + 1..];
  }

  lemma InsertBehind(s: seq<Argument>, k: nat, t: seq<Argument>, x: Argument)
    requires k < |s|
    ensures k + 1 <= |Behind(s, k, t)| && Insert(Behind(s, k, t), k + 1, x) == Behind(s, k, [x] + t)
  {
    var b := Behind(s, k, t);
    assert b[..k + 1] == s[..k + 1];
    assert b[k + 1..] == t + s[k + 1..];
  }

  lemma BehindNothing(s: seq<Argument>, k: nat)
    requires k < |s|
    ensures Behind(s, k, []) == s
  {
  }


  lemma IfOwedMembers(a: Argument, role: Role, side: Side)
    ensures forall x :: x in IfOwed(a, role, side) <==> x == Implicit(role, a) && Owes(a, role, side)
    ensures Distinct(IfOwed(a, role, side))
  {
    hide Owes;
  }

  lemma DistinctAppend(s: seq<Argument>, t: seq<Argument>)
    requires Distinct(s) && Distinct(t) && forall x :: x in t ==> x !in s
    ensures Distinct(s + t)
  {
    forall i, j | 0 <= i < j < |s + t| ensures (s + t)[i] != (s + t)[j] {
      if i < |s| <= j {
        assert s[i] in s && t[j - |s|] in t;
      }
    }
  }

  lemma AddedMembers(a: Argument, side: Side)
    ensures forall x :: x in Added(a, side) <==> x.Implicit? && x.master == a && Owes(a, x.role, side)
    ensures Distinct(Added(a, side))
  {
    hide Owes, IfOwed, Distinct;
    var p, i := IfOwed(a, Poly, side), IfOwed(a, CountInOut, side);
    var c, u, d := IfOwed(a, Count, side), IfOwed(a, SubCount, side), IfOwed(a, Dealloc, side);
    IfOwedMembers(a, Poly, side);
    IfOwedMembers(a, CountInOut, side);
    IfOwedMembers(a, Count, side);
    IfOwedMembers(a, SubCount, side);
    IfOwedMembers(a, Dealloc, side);
    DistinctAppend(c, u);
    DistinctAppend(p, i);
    DistinctAppend(p + i, c + u);
    DistinctAppend(p + i + (c + u), d);
    forall x ensures x in Added(a, side) <==> x.Implicit? && x.master == a && Owes(a, x.role, side) {
      assert x in Added(a, side) <==> x in p || x in i || x in c || x in u || x in d;
      if x.Implicit? && x.master == a {
        assert x == Implicit(x.role, a);
        assert x.role == Poly || x.role == CountInOut || x.role == Count || x.role == SubCount || x.role == Dealloc;
      }
    }
  }

  lemma NewIsNew(s: seq<Argument>, k: nat, x: Argument, side: Side)
    requires k < |s| && Distinct(s) && Sound(s, k, side) && x.Implicit? && x.master == s[k]
    ensures x !in s
  {
    hide Owes;
  }

  lemma SteppedMembers(s: seq<Argument>, k: nat, side: Side)
    requires k < |s|
    ensures forall x :: x in Stepped(s, k, side) <==> x in s || x in Added(s[k], side)
    ensures k + 1 <= |Stepped(s, k, side)| && Stepped(s, k, side)[..k + 1] == s[..k + 1]
    ensures Stepped(s, k, side)[k + 1..] == Added(s[k], side) + s[k + 1..]
  {
    hide Added;
    assert s == s[..k + 1] + s[k + 1..];
  }

  lemma DistinctThree(s: seq<Argument>, t: seq<Argument>, u: seq<Argument>)
    requires Distinct(s + u) && Distinct(t) && forall x :: x in t ==> x !in s && x !in u
    ensures Distinct(s + t + u)
  {
    var w, v := s + t + u, s + u;
    assert forall i :: 0 <= i < |s| ==> v[i] == s[i];
    assert forall i :: 0 <= i < |u| ==> v[|s| + i] == u[i];
    forall i, j | 0 <= i < j < |w| ensures w[i] != w[j] {
      var x, y := w[i], w[j];
      if |s| <= i < |s| + |t| {
        assert x in t;
        if j < |s| + |t| {
          assert x == t[i - |s|] && y == t[j - |s|];
        } else {
          assert y in u;
        }
      } else if |s| <= j < |s| + |t| {
        assert y in t && x in s;
      } else {
        var i', j' := if i < |s| then i else i - |t|, if j < |s| then j else j - |t|;
        assert x == v[i'] && y == v[j'];
      }
    }
  }

  lemma StepKeeps(s: seq<Argument>, k: nat, side: Side)
    requires k < |s| && Distinct(s) && Sound(s, k, side) && Served(s, k, side)
    ensures var s' := Stepped(s, k, side);
            k + 1 <= |s'| && Distinct(s') && Sound(s', k + 1, side) && Served(s', k + 1, side)
  {
    hide Owes, Added, Stepped;
    var s' := Stepped(s, k, side);
    SteppedMembers(s, k, side);
    AddedMembers(s[k], side);
    assert s[..k + 1] == s[..k] + [s[k]];
    forall x | x in Added(s[k], side) ensures x !in s {
      NewIsNew(s, k, x, side);
    }
    assert s[..k + 1] + s[k + 1..] == s;
    DistinctThree(s[..k + 1], Added(s[k], side), s[k + 1..]);
    assert s' == s[..k + 1] + Added(s[k], side) + s[k + 1..] by { SteppedIs(s, k, side); }
  }

  lemma SteppedIs(s: seq<Argument>, k: nat, side: Side)
    requires k < |s|
    ensures Stepped(s, k, side) == s[..k + 1] + Added(s[k], side) + s[k + 1..]
  {
    hide Added;
  }

  /** One iteration replaces what is still to be walked by something with the same expansion. */
  lemma StepExpands(s: seq<Argument>, k: nat, side: Side)
    requires k < |s|
    ensures k + 1 <= |Stepped(s, k, side)|
    ensures Expanded(s[k..], side) == [s[k]] + Expanded(Stepped(s, k, side)[k + 1..], side)
  {
    hide Added, Stepped, Expansion;
    SteppedMembers(s, k, side);
    ExpandedAppend(Added(s[k], side), s[k + 1..], side);
    AddedExpands(s[k], side);
    assert s[k..][0] == s[k] && s[k..][1..] == s[k + 1..];
  }

  // ----- links between the nodes -----

  /** A pointer field set on every node that has an implicit argument of that role. */
  ghost predicate Linked(links: map<Argument, Argument>, s: seq<Argument>, role: Role) {
    && (forall a :: a in links <==> Implicit(role, a) in s)
    && (forall a :: a in links ==> links[a] == Implicit(role, a))
  }

  /** argCount leads to the count, or past the sub-counts to theirs. */
  ghost predicate CountLinked(links: map<Argument, Argument>, s: seq<Argument>) {
    && (forall a :: a in links <==> Implicit(Count, a) in s || Implicit(Count, Implicit(SubCount, a)) in s)
    && (forall a :: a in links ==>
          links[a] == if Implicit(Count, a) in s then Implicit(Count, a) else Implicit(Count, Implicit(SubCount, a)))
  }

  /** A count-in-out argument and the count it stands beside lead to each other. */
  ghost predicate InOutLinked(links: map<Argument, Argument>, s: seq<Argument>) {
    forall a :: Implicit(CountInOut, a) in s ==>
      && Implicit(CountInOut, a) in links && links[Implicit(CountInOut, a)] == Implicit(Count, a)
      && Implicit(Count, a) in links && links[Implicit(Count, a)] == Implicit(CountInOut, a)
  }

  /** A new node of another role leaves a pointer field right as it is. */
  lemma KeepsLinks(links: map<Argument, Argument>, s: seq<Argument>, s': seq<Argument>, role: Role, node: Argument)
    requires Linked(links, s, role) && node.Implicit? && node.role != role
    requires forall y :: y in s' <==> y == node || y in s
    ensures Linked(links, s', role)
  {
  }

  lemma AddsLink(links: map<Argument, Argument>, s: seq<Argument>, s': seq<Argument>, role: Role, arg: Argument)
    requires Linked(links, s, role)
    requires forall y :: y in s' <==> y == Implicit(role, arg) || y in s
    ensures Linked(links[arg := Implicit(role, arg)], s', role)
  {
  }

  lemma KeepsOthers(counts: map<Argument, Argument>, inOuts: map<Argument, Argument>, s: seq<Argument>, s': seq<Argument>,
                    node: Argument)
    requires node.Implicit? && forall y :: y in s' <==> y == node || y in s
    ensures node.role != CountInOut && InOutLinked(inOuts, s) ==> InOutLinked(inOuts, s')
    ensures node.role != Count && CountLinked(counts, s) ==> CountLinked(counts, s')
  {
  }

  lemma AddsCount(links: map<Argument, Argument>, s: seq<Argument>, s': seq<Argument>, arg: Argument)
    requires CountLinked(links, s)
    requires forall y :: y in s' <==> y == Implicit(Count, arg) || y in s
    requires arg.Given? || (arg.role == SubCount && Implicit(Count, arg.master) !in s)
    ensures var node := Implicit(Count, arg);
            var own := links[arg := node];
            CountLinked(if Parent(arg).Some? then own[Parent(arg).value := node] else own, s')
  {
  }

  lemma CountFound(links: map<Argument, Argument>, s: seq<Argument>, arg: Argument)
    requires CountLinked(links, s) && Implicit(Count, Implicit(SubCount, arg)) !in s
    ensures arg in links <==> Implicit(Count, arg) in s
    ensures arg in links ==> links[arg] == Implicit(Count, arg)
  {
  }

  lemma AddsInOut(links: map<Argument, Argument>, s: seq<Argument>, s': seq<Argument>, arg: Argument)
    requires InOutLinked(links, s) && forall y :: y in s' <==> y == Implicit(CountInOut, arg) || y in s
    ensures InOutLinked(links[Implicit(CountInOut, arg) := Implicit(Count, arg)][Implicit(Count, arg) := Implicit(CountInOut, arg)], s')
  {
  }

  class Arguments {
    var list: seq<Argument>
    var argCount: map<Argument, Argument>
    var argSubCount: map<Argument, Argument>
    var argCInOut: map<Argument, Argument>
    var argPoly: map<Argument, Argument>
    var argDealloc: map<Argument, Argument>

    ghost predicate Links()
      reads this
    {
      && Linked(argPoly, list, Poly) && Linked(argDealloc, list, Dealloc) && Linked(argSubCount, list, SubCount)
      && CountLinked(argCount, list) && InOutLinked(argCInOut, list)
    }

    constructor (given: seq<Argument>)
      requires forall a :: a in given ==> a.Given?
      ensures list == given && Links()
    {
      list, argCount, argSubCount, argCInOut, argPoly, argDealloc := given, map[], map[], map[], map[], map[];
    }

    method AddDealloc(k: nat)
      requires k < |list| && Implicit(Dealloc, list[k]) !in list && Links()
      modifies this
      ensures list == Insert(old(list), k + 1, Implicit(Dealloc, old(list)[k])) && Links()
    {
      var node := Implicit(Dealloc, list[k]);
      InsertMembers(list, k + 1, node);
      argDealloc := argDealloc[list[k] := node];
      list := Insert(list, k + 1, node);
    }

    method AddPoly(k: nat)
      requires k < |list| && Implicit(Poly, list[k]) !in list && Links()
      modifies this
      ensures list == Insert(old(list), k + 1, Implicit(Poly, old(list)[k])) && Links()
    {
      var node := Implicit(Poly, list[k]);
      InsertMembers(list, k + 1, node);
      argPoly := argPoly[list[k] := node];
      list := Insert(list, k + 1, node);
    }

    /** rtAddCountArg. */
    method AddCount(k: nat, ghost side: Side)
      requires k < |list| && TypeOf(list[k]).Some? && Links()
      requires Owes(list[k], Count, side) || Owes(list[k], SubCount, side)
      requires Implicit(Count, list[k]) !in list && Implicit(SubCount, list[k]) !in list
      requires list[k].Given? || (list[k].role == SubCount && Implicit(Count, list[k].master) !in list)
      modifies this
      ensures Links()
      ensures list == Insert(old(list), k + 1, Implicit(if Owes(old(list)[k], SubCount, side) then SubCount else Count, old(list)[k]))
    {
      hide Linked, CountLinked, InOutLinked, Insert;
      var arg := list[k];
      var it := TypeOf(arg).value;
      var sub := it.multiple && it.elementVaries;
      assert sub == Owes(arg, SubCount, side);
      var node := Implicit(if sub then SubCount else Count, arg);
      var longer := Insert(list, k + 1, node);
      InsertMembers(list, k + 1, node);
      KeepsLinks(argPoly, list, longer, Poly, node);
      KeepsLinks(argDealloc, list, longer, Dealloc, node);
      KeepsOthers(argCount, argCInOut, list, longer, node);
      if sub {
        AddsLink(argSubCount, list, longer, SubCount, arg);
        argSubCount := argSubCount[arg := node];
      } else {
        KeepsLinks(argSubCount, list, longer, SubCount, node);
        AddsCount(argCount, list, longer, arg);
        argCount := argCount[arg := node];
        if Parent(arg).Some? {
          argCount := argCount[Parent(arg).value := node];
        }
      }
      list := longer;
    }

    /** rtAddCountInOutArg; it follows arg->argCount, and a null pointer there is the end (`ok` is
        false). */
    method AddCountInOut(k: nat) returns (ok: bool)
      requires k < |list| && Links() && Implicit(CountInOut, list[k]) !in list
      requires Implicit(Count, Implicit(SubCount, list[k])) !in list
      modifies this
      ensures ok <==> Implicit(Count, old(list)[k]) in old(list)
      ensures ok ==> list == Insert(old(list), k + 1, Implicit(CountInOut, old(list)[k])) && Links()
    {
      hide Linked, CountLinked, InOutLinked, Insert;
      CountFound(argCount, list, list[k]);
      if list[k] !in argCount {
        return false;
      }
      var node := Implicit(CountInOut, list[k]);
      var count := argCount[list[k]];
      var longer := Insert(list, k + 1, node);
      InsertMembers(list, k + 1, node);
      KeepsLinks(argPoly, list, longer, Poly, node);
      KeepsLinks(argDealloc, list, longer, Dealloc, node);
      KeepsLinks(argSubCount, list, longer, SubCount, node);
      KeepsOthers(argCount, argCInOut, list, longer, node);
      AddsInOut(argCInOut, list, longer, list[k]);
      argCInOut := argCInOut[node := count][count := node];
      list := longer;
      ok := true;
    }

    /** Nothing of this role stands behind the argument yet. */
    ghost predicate Ready(s: seq<Argument>, k: nat, t: seq<Argument>, side: Side)
      reads this
    {
      && k < |s| && Distinct(s) && Sound(s, k, side) && list == Behind(s, k, t) && Links()
    }

    method AddIfMaybe(k: nat, side: Side)
      requires Ready(list, k, [], side) && TypeOf(list[k]).Some?
      modifies this
      ensures Ready(old(list), k, IfOwed(old(list)[k], Dealloc, side), side)
    {
      hide Linked, CountLinked, InOutLinked, Insert, Sound, Distinct, Behind;
      var arg := list[k];
      BehindNothing(list, k);
      if DeallocOf(arg, side) == Maybe {
        NewIsNew(list, k, Implicit(Dealloc, arg), side);
        InsertBehind(list, k, [], Implicit(Dealloc, arg));
        assert [Implicit(Dealloc, arg)] + [] == [Implicit(Dealloc, arg)];
        AddDealloc(k);
      }
    }

    method AddIfVaries(k: nat, side: Side, ghost s: seq<Argument>, ghost t: seq<Argument>)
      requires Ready(s, k, t, side) && TypeOf(s[k]).Some? && t == IfOwed(s[k], Dealloc, side)
      modifies this
      ensures Ready(s, k, IfOwed(s[k], Count, side) + IfOwed(s[k], SubCount, side) + t, side)
    {
      hide Linked, CountLinked, InOutLinked, Insert, Sound, Distinct, Behind;
      BehindMembers(s, k, t);
      var arg := list[k];
      var it := TypeOf(arg).value;
      if it.varArray || (it.multiple && it.elementVaries) {
        NewIsNew(s, k, Implicit(Count, arg), side);
        NewIsNew(s, k, Implicit(SubCount, arg), side);
        ghost var node := Implicit(if Owes(arg, SubCount, side) then SubCount else Count, arg);
        InsertBehind(s, k, t, node);
        MasterOfSubCount(s, k, side);
        AddCount(k, side);
        assert IfOwed(s[k], Count, side) + IfOwed(s[k], SubCount, side) == [node];
      } else {
        assert IfOwed(s[k], Count, side) + IfOwed(s[k], SubCount, side) + t == t;
      }
    }

    method AddIfCountsInOut(k: nat, side: Side, ghost s: seq<Argument>, ghost t: seq<Argument>) returns (ok: bool)
      requires Ready(s, k, t, side) && TypeOf(s[k]).Some?
      requires t == IfOwed(s[k], Count, side) + IfOwed(s[k], SubCount, side) + IfOwed(s[k], Dealloc, side)
      modifies this
      ensures ok <==> !FollowsNull(s[k])
      ensures ok ==> Ready(s, k, IfOwed(s[k], CountInOut, side) + t, side)
    {
      hide Linked, CountLinked, InOutLinked, Insert, Sound, Distinct, Behind, DeallocOf;
      BehindMembers(s, k, t);
      var arg := list[k];
      ok := true;
      if CountsInOut(arg) {
        NewIsNew(s, k, Implicit(CountInOut, arg), side);
        NewIsNew(s, k, Implicit(Count, arg), side);
        NoCountOfSubCount(s, k, side);
        InsertBehind(s, k, t, Implicit(CountInOut, arg));
        assert Implicit(Count, arg) in t <==> Owes(arg, Count, side);
        ok := AddCountInOut(k);
      } else {
        assert [] + t == t;
      }
    }

    method AddIfPolymorphic(k: nat, side: Side, ghost s: seq<Argument>, ghost t: seq<Argument>)
      requires Ready(s, k, t, side) && TypeOf(s[k]).Some? && Implicit(Poly, s[k]) !in t
      modifies this
      ensures Ready(s, k, IfOwed(s[k], Poly, side) + t, side)
    {
      hide Linked, CountLinked, InOutLinked, Insert, Sound, Distinct, Behind, DeallocOf;
      BehindMembers(s, k, t);
      var arg := list[k];
      if TypeOf(arg).value.poly {
        NewIsNew(s, k, Implicit(Poly, arg), side);
        InsertBehind(s, k, t, Implicit(Poly, arg));
        AddPoly(k);
      } else {
        assert [] + t == t;
      }
    }

    /** One iteration of rtCheckRoutineArgs: every addition goes right behind the argument, so the
        last one made comes first. */
    method CheckArgument(k: nat, side: Side) returns (ok: bool)
      requires Ready(list, k, [], side)
      modifies this
      ensures ok <==> !FollowsNull(old(list)[k])
      ensures ok ==> list == Stepped(old(list), k, side) && Links()
    {
      hide Linked, CountLinked, InOutLinked, Sound, Distinct, Behind, Owes, FollowsNull, IfOwed, Added;
      var arg := list[k];
      ghost var s := list;
      ok := true;
      if TypeOf(arg).None? {
        NothingOwed(arg, side);
        assert !FollowsNull(arg) by { UntypedIsSafe(arg); }
        return;
      }
      ghost var d := IfOwed(arg, Dealloc, side);
      ghost var c := IfOwed(arg, Count, side) + IfOwed(arg, SubCount, side);
      ghost var i := IfOwed(arg, CountInOut, side);
      AddIfMaybe(k, side);
      AddIfVaries(k, side, s, d);
      ok := AddIfCountsInOut(k, side, s, c + d);
      if !ok {
        return;
      }
      AddedInTurn(arg, side);
      AddIfPolymorphic(k, side, s, i + (c + d));
    }

    /** rtCheckRoutineArgs: although it inserts into the list it walks, it ends.  It follows a null
        pointer exactly if some given argument asks for it; otherwise every given argument is in its
        old order and followed by its implicit ones, and all pointers are set. */
    method CheckRoutineArgs(side: Side) returns (ok: bool)
      requires Distinct(list) && (forall a :: a in list ==> a.Given?) && Links()
      modifies this
      ensures ok <==> forall a :: a in old(list) ==> !FollowsNull(a)
      ensures ok ==> list == Expanded(old(list), side) && Distinct(list) && Links()
      ensures ok ==> forall a, role :: a in list ==> (Owes(a, role, side) <==> Implicit(role, a) in list)
    {
      hide Linked, CountLinked, InOutLinked, Walk, Stepped, Expanded, FollowsNull;
      var k := 0;
      ghost var given := list;
      WalkStarts(list, side);
      while k < |list|
        invariant Links() && Walk(list, k, side, given) && 0 <= k <= |list|
        decreases |Expanded(given, side)| - k
      {
        WalkSteps(list, k, side, given);
        ok := CheckArgument(k, side);
        if !ok {
          return;
        }
        k := k + 1;
      }
      WalkEnds(list, side, given);
      ok := true;
    }
  }

  /** A count-in-out argument with sub-counts instead of a count: rtAddCountInOutArg goes through an
      argCount that is still null. */
  predicate FollowsNull(a: Argument) {
    TypeOf(a).Some? && CountsInOut(a) && TypeOf(a).value.multiple && TypeOf(a).value.elementVaries
  }

  /** Such an argument: a CountInOut array of ports whose type is only another name for the array. */
  lemma AliasFollowsNull(flags: Flags, kind: Kind, poly: bool)
    requires flags.countInOut && kind.reply
    ensures FollowsNull(Given(0, Some(Alias(PortArray(poly))), flags, kind))
    ensures !FollowsNull(Given(0, Some(PortArray(poly)), flags, kind))
  {
  }

  /** The count of an argument's sub-counts is added only behind those. */
  lemma NoCountOfSubCount(s: seq<Argument>, k: nat, side: Side)
    requires k < |s| && Distinct(s) && Sound(s, k, side)
    ensures Implicit(Count, Implicit(SubCount, s[k])) !in s
  {
    hide Owes;
    NewIsNew(s, k, Implicit(SubCount, s[k]), side);
    assert forall x :: x in s[..k] ==> x in s;
  }

  /** The first `k` arguments are done, without a null pointer; what is left expands to the rest of the
      final list. */
  ghost predicate Walk(s: seq<Argument>, k: nat, side: Side, given: seq<Argument>) {
    && k <= |s| && Distinct(s) && Sound(s, k, side) && Served(s, k, side)
    && (forall x :: x in s && x.Given? ==> x in given) && (forall i :: 0 <= i < k ==> !FollowsNull(s[i]))
    && s[..k] + Expanded(s[k..], side) == Expanded(given, side)
  }

  lemma WalkStarts(s: seq<Argument>, side: Side)
    requires Distinct(s) && forall a :: a in s ==> a.Given?
    ensures Walk(s, 0, side, s)
  {
    hide Distinct, Owes, Expanded;
    assert s[0..] == s && s[..0] == [];
  }

  lemma WalkSteps(s: seq<Argument>, k: nat, side: Side, given: seq<Argument>)
    requires Walk(s, k, side, given) && k < |s|
    ensures Distinct(s) && Sound(s, k, side) && Behind(s, k, []) == s
    ensures FollowsNull(s[k]) ==> s[k] in given
    ensures !FollowsNull(s[k]) ==> Walk(Stepped(s, k, side), k + 1, side, given)
    ensures k < |Expanded(given, side)| && k + 1 <= |Stepped(s, k, side)|
  {
    hide Distinct, Owes, Stepped, Expanded, Behind, Sound, Served, FollowsNull;
    BehindNothing(s, k);
    StepKeeps(s, k, side);
    StepExpands(s, k, side);
    SteppedMembers(s, k, side);
    assert s[..k + 1] == s[..k] + [s[k]];
    OnlyGivenFollows(s[k]);
    StepGiven(s, k, side, given);
    SamePrefix(s, Stepped(s, k, side), k + 1);
  }

  lemma SamePrefix(s: seq<Argument>, t: seq<Argument>, n: nat)
    requires n <= |s| && n <= |t| && s[..n] == t[..n]
    ensures forall i :: 0 <= i < n ==> s[i] == t[i]
  {
    assert forall i :: 0 <= i < n ==> s[i] == s[..n][i] && t[i] == t[..n][i];
  }

  lemma OnlyGivenFollows(a: Argument)
    ensures FollowsNull(a) ==> a.Given?
  {
  }

  lemma StepGiven(s: seq<Argument>, k: nat, side: Side, given: seq<Argument>)
    requires k < |s| && forall x :: x in s && x.Given? ==> x in given
    ensures forall x :: x in Stepped(s, k, side) && x.Given? ==> x in given
  {
    hide Added, Stepped, Owes;
    SteppedMembers(s, k, side);
    AddedMembers(s[k], side);
  }

  lemma WalkEnds(s: seq<Argument>, side: Side, given: seq<Argument>)
    requires Walk(s, |s|, side, given)
    ensures s == Expanded(given, side) && Distinct(s)
    ensures forall a, role :: a in s ==> (Owes(a, role, side) <==> Implicit(role, a) in s)
    ensures forall a :: a in given ==> !FollowsNull(a)
  {
    hide Distinct, Owes, FollowsNull;
    assert s[..|s|] == s && s[|s|..] == [];
    forall a | a in given ensures !FollowsNull(a) {
      GivenInExpanded(given, side, a);
    }
  }

  lemma {:induction false} GivenInExpanded(given: seq<Argument>, side: Side, a: Argument)
    requires a in given
    ensures a in Expanded(given, side)
  {
    hide Expansion;
    ExpansionTail(given[0], side);
    if a != given[0] {
      GivenInExpanded(given[1..], side, a);
    }
  }

  /** The additions of one iteration, in the order in which they are made. */
  lemma AddedInTurn(a: Argument, side: Side)
    ensures var c := IfOwed(a, Count, side) + IfOwed(a, SubCount, side);
            var t := IfOwed(a, CountInOut, side) + (c + IfOwed(a, Dealloc, side));
            Implicit(Poly, a) !in t && IfOwed(a, Poly, side) + t == Added(a, side)
  {
    hide Owes, IfOwed;
    IfOwedMembers(a, Count, side);
    IfOwedMembers(a, SubCount, side);
    IfOwedMembers(a, CountInOut, side);
    IfOwedMembers(a, Dealloc, side);
  }

  lemma UntypedIsSafe(a: Argument)
    requires TypeOf(a).None?
    ensures !FollowsNull(a)
  {
  }

  lemma NothingOwed(a: Argument, side: Side)
    requires TypeOf(a).None?
    ensures Added(a, side) == []
  {
  }

  /** A sub-count stands in the list for a master that has no count of its own. */
  lemma MasterOfSubCount(s: seq<Argument>, k: nat, side: Side)
    requires k < |s| && Sound(s, k, side)
    requires Owes(s[k], Count, side) || Owes(s[k], SubCount, side)
    ensures s[k].Given? || (s[k].role == SubCount && Implicit(Count, s[k].master) !in s)
  {
  }

  // ----- the given arguments in the final list -----

  function GivenOnly(s: seq<Argument>): seq<Argument> {
    if s == [] then [] else (if s[0].Given? then [s[0]] else []) + GivenOnly(s[1..])
  }

  lemma {:induction false} GivenOnlyAppend(s: seq<Argument>, t: seq<Argument>)
    ensures GivenOnly(s + t) == GivenOnly(s) + GivenOnly(t)
  {
    hide GivenOnly;
    if s == [] {
      assert s + t == t && GivenOnly(s) == [] by { GivenStep(s); }
    } else {
      assert (s + t)[1..] == s[1..] + t && (s + t)[0] == s[0];
      GivenStep(s);
      GivenStep(s + t);
      GivenOnlyAppend(s[1..], t);
      Joined(if s[0].Given? then [s[0]] else [], GivenOnly(s[1..]), GivenOnly(t));
    }
  }

  lemma GivenStep(s: seq<Argument>)
    ensures GivenOnly(s) == if s == [] then [] else (if s[0].Given? then [s[0]] else []) + GivenOnly(s[1..])
  {
  }

  lemma Joined<T>(a: seq<T>, b: seq<T>, c: seq<T>)
    ensures a + b + c == a + (b + c)
  {
  }

  lemma {:induction false} NoneGiven(s: seq<Argument>)
    requires forall x :: x in s ==> x.Implicit?
    ensures GivenOnly(s) == []
  {
    if s != [] {
      assert s[0] in s;
      NoneGiven(s[1..]);
    }
  }

  /** Without the implicit arguments the final list is the original one, in its order. */
  lemma {:induction false} ExpandedKeepsGiven(args: seq<Argument>, side: Side)
    requires forall a :: a in args ==> a.Given?
    ensures GivenOnly(Expanded(args, side)) == args
  {
    hide Expansion;
    assert forall i :: 0 <= i < |args| ==> args[i] in args;
    if args != [] {
      var a, rest := args[0], args[1..];
      ExpandedKeepsGiven(rest, side);
      ExpansionTail(a, side);
      var e := Expansion(a, side);
      GivenOnlyAppend(e, Expanded(rest, side));
      NoneGiven(e[1..]);
      assert GivenOnly(e) == [a];
      assert args == [a] + rest;
    }
  }

  lemma ExpansionTail(a: Argument, side: Side)
    ensures var e := Expansion(a, side); e != [] && e[0] == a && forall x :: x in e[1..] ==> x.Implicit?
  {
    hide Owes, IfOwed;
    var e := Expansion(a, side);
    assert e[1..] == IfOwed(a, Poly, side) + IfOwed(a, CountInOut, side) + Counts(a, side) + IfOwed(a, Dealloc, side);
    IfOwedMembers(a, Poly, side);
    IfOwedMembers(a, CountInOut, side);
    IfOwedMembers(a, Count, side);
    IfOwedMembers(a, SubCount, side);
    IfOwedMembers(a, Dealloc, side);
    IfOwedMembers(Implicit(SubCount, a), Count, side);
  }
}

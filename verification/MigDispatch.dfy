/** Routine numbers, the tables emitted for the server, and the demultiplexer that uses them. */
module MigDispatch {
  import opened Options

  const INT_LIMIT := 0x8000_0000

  /** A message id is a 32-bit int. */
  type id32 = n: int | -0x8000_0000 <= n < 0x8000_0000

  /** The base of a subsystem: digits that atoi reads. */
  type base32 = n: int | 0 <= n < 0x8000_0000

  /** The result of an `int` addition or subtraction that wraps, and what %d prints for an unsigned sum. */
  function Wrap32(n: int): id32 {
    (n + 0x8000_0000) % 0x1_0000_0000 - 0x8000_0000
  }

  /** A declaration of the definition file: a routine, a skipped number, or something else. */
  datatype Declaration = Routine(name: string) | Skip | Other

  /** A statement of the parsed list; a skip leaves none. */
  datatype Statement = RoutineStatement(number: nat, name: string) | OtherStatement

  /** What each message number stands for: one slot per routine or skip, in order. */
  function Slots(decls: seq<Declaration>): seq<Option<string>> {
    if decls == [] then []
    else
      var init, last := Slots(decls[..|decls| - 1]), decls[|decls| - 1];
      match last
      case Routine(name) => init + [Some(name)]
      case Skip => init + [None]
      case Other => init
  }

  /** The routine with number `n`, if the list has one. */
  function Find(stats: seq<Statement>, n: nat): Option<string> {
    if stats == [] then None
    else
      var last := stats[|stats| - 1];
      if last.RoutineStatement? && last.number == n then Some(last.name) else Find(stats[..|stats| - 1], n)
  }

  /** Routine numbers grow along the list and stay below `limit`. */
  ghost predicate Increasing(stats: seq<Statement>, limit: nat) {
    && (forall i :: 0 <= i < |stats| && stats[i].RoutineStatement? ==> stats[i].number < limit)
    && (forall i, j :: 0 <= i < j < |stats| && stats[i].RoutineStatement? && stats[j].RoutineStatement? ==>
          stats[i].number < stats[j].number)
  }

  /** rtAlloc and rtSkip, called along the definition file. */
  method NumberRoutines(decls: seq<Declaration>) returns (stats: seq<Statement>, rtNumber: nat)
    ensures rtNumber == |Slots(decls)| && Increasing(stats, rtNumber)
    ensures forall n :: 0 <= n < rtNumber ==> Find(stats, n) == Slots(decls)[n]
  {
    hide Find, Slots;
    stats, rtNumber := [], 0;
    assert Slots(decls[..0]) == [] by { SlotsOfNothing(decls[..0]); }
    for k := 0 to |decls|
      invariant rtNumber == |Slots(decls[..k])| && Increasing(stats, rtNumber)
      invariant forall n :: 0 <= n < rtNumber ==> Find(stats, n) == Slots(decls[..k])[n]
    {
      SlotsStep(decls, k);
      FindAbove(stats, rtNumber, rtNumber);
      match decls[k] {
        case Routine(name) =>
          FindAppend(stats, RoutineStatement(rtNumber, name));
          stats := stats + [RoutineStatement(rtNumber, name)];
          rtNumber := rtNumber + 1;
        case Skip =>
          rtNumber := rtNumber + 1;
        case Other =>
          FindAppend(stats, OtherStatement);
          stats := stats + [OtherStatement];
      }
    }
    assert decls[..|decls|] == decls;
  }

  lemma SlotsOfNothing(decls: seq<Declaration>)
    requires decls == []
    ensures Slots(decls) == []
  {
  }

  lemma FindAppend(stats: seq<Statement>, last: Statement)
    ensures forall n :: Find(stats + [last], n) ==
              if last.RoutineStatement? && last.number == n then Some(last.name) else Find(stats, n)
  {
    assert (stats + [last])[..|stats|] == stats;
  }

  lemma SlotsStep(decls: seq<Declaration>, k: nat)
    requires k < |decls|
    ensures Slots(decls[..k + 1]) == Slots(decls[..k]) + match decls[k] {
      case Routine(name) => [Some(name)]
      case Skip => [None]
      case Other => []
    }
  {
    assert decls[..k + 1][..k] == decls[..k];
  }

  /** Numbers at or above a prefix's limit are not found in it. */
  lemma {:induction false} FindAbove(stats: seq<Statement>, limit: nat, n: nat)
    requires Increasing(stats, limit) && limit <= n
    ensures Find(stats, n) == None
  {
    if stats != [] {
      FindAbove(stats[..|stats| - 1], limit, n);
    }
  }

  // ----- the emitted tables -----

  /** A routine descriptor: the stub, or zero. */
  type RoutineEntry = Option<string>

  datatype SymbolEntry = NoSymbol | Symbol(name: string, id: int, stub: string)

  function StubName(name: string): string {
    "_X" + name
  }

  /** Different routines have different stubs. */
  lemma StubsDiffer(a: string, b: string)
    ensures StubName(a) == StubName(b) <==> a == b
    ensures |StubName(a)| == 2 + |a| && StubName(a)[0] == '_' && StubName(a)[1] == 'X'
  {
    assert StubName(a)[2..] == a && StubName(b)[2..] == b;
  }

  /** What index `n` of the routine table must hold. */
  function RoutineSlot(stats: seq<Statement>, n: nat): RoutineEntry {
    match Find(stats, n)
    case None => None
    case Some(name) => Some(StubName(name))
  }

  function SymbolSlot(stats: seq<Statement>, n: nat, base: int): SymbolEntry {
    match Find(stats, n)
    case None => NoSymbol
    case Some(name) => Symbol(name, Wrap32(base + n), StubName(name))
  }

  /** What the emitters know of the statements they have passed: all numbers below `emitted`. */
  lemma Passed(stats: seq<Statement>, k: nat, limit: nat, emitted: nat)
    requires k < |stats| && Increasing(stats, limit) && Increasing(stats[..k], emitted) && emitted <= limit
    requires forall i :: k <= i < |stats| && stats[i].RoutineStatement? ==> emitted <= stats[i].number
    ensures stats[k].RoutineStatement? ==> Increasing(stats[..k + 1], stats[k].number + 1)
    ensures !stats[k].RoutineStatement? ==> Increasing(stats[..k + 1], emitted)
  {
    assert stats[..k + 1] == stats[..k] + [stats[k]];
  }

  lemma FindStep(stats: seq<Statement>, k: nat, n: nat)
    requires k < |stats|
    ensures Find(stats[..k + 1], n)
         == if stats[k].RoutineStatement? && stats[k].number == n then Some(stats[k].name) else Find(stats[..k], n)
  {
    assert stats[..k + 1][..k] == stats[..k];
  }

  /** WriteRoutineEntries. */
  method RoutineEntries(stats: seq<Statement>, rtNumber: nat) returns (table: seq<RoutineEntry>)
    requires Increasing(stats, rtNumber)
    ensures |table| == rtNumber
    ensures forall n :: 0 <= n < rtNumber ==> table[n] == RoutineSlot(stats, n)
  {
    hide Find, StubName;
    table := [];
    var current := 0;
    for k := 0 to |stats|
      invariant current == |table| <= rtNumber && Increasing(stats[..k], current)
      invariant forall i :: k <= i < |stats| && stats[i].RoutineStatement? ==> current <= stats[i].number
      invariant forall n :: 0 <= n < current ==> table[n] == RoutineSlot(stats[..k], n)
    {
      Passed(stats, k, rtNumber, current);
      if stats[k].RoutineStatement? {
        var number := stats[k].number;
        ghost var emitted := current;
        // while (current++ < number): the failing test increments too
        while current < number
          invariant emitted <= current == |table| <= number
          invariant forall n :: 0 <= n < emitted ==> table[n] == RoutineSlot(stats[..k], n)
          invariant forall n :: emitted <= n < current ==> table[n] == None
        {
          current := current + 1;
          table := table + [None];
        }
        current := current + 1;
        table := table + [Some(StubName(stats[k].name))];
        forall n | emitted <= n < number ensures Find(stats[..k], n) == None {
          FindAbove(stats[..k], emitted, n);
        }
      }
      forall n | 0 <= n < current ensures table[n] == RoutineSlot(stats[..k + 1], n) {
        FindStep(stats, k, n);
      }
    }
    ghost var emitted := current;
    assert stats[..|stats|] == stats;
    while current < rtNumber
      invariant emitted <= current == |table| <= rtNumber
      invariant forall n :: 0 <= n < emitted ==> table[n] == RoutineSlot(stats, n)
      invariant forall n :: emitted <= n < current ==> table[n] == None
    {
      current := current + 1;
      table := table + [None];
    }
    forall n | emitted <= n < rtNumber ensures Find(stats, n) == None {
      FindAbove(stats, emitted, n);
    }
  }

  /** WriteSymTabEntries. */
  method SymbolEntries(stats: seq<Statement>, rtNumber: nat, base: int) returns (table: seq<SymbolEntry>)
    requires Increasing(stats, rtNumber)
    ensures |table| == rtNumber
    ensures forall n :: 0 <= n < rtNumber ==> table[n] == SymbolSlot(stats, n, base)
  {
    hide Find, StubName;
    table := [];
    var current := 0;
    for k := 0 to |stats|
      invariant current == |table| <= rtNumber && Increasing(stats[..k], current)
      invariant forall i :: k <= i < |stats| && stats[i].RoutineStatement? ==> current <= stats[i].number
      invariant forall n :: 0 <= n < current ==> table[n] == SymbolSlot(stats[..k], n, base)
    {
      Passed(stats, k, rtNumber, current);
      if stats[k].RoutineStatement? {
        var number := stats[k].number;
        ghost var emitted := current;
        // while (++current <= number)
        current := current + 1;
        while current <= number
          invariant emitted < current <= number + 1 && current == |table| + 1
          invariant forall n :: 0 <= n < emitted ==> table[n] == SymbolSlot(stats[..k], n, base)
          invariant forall n :: emitted <= n < |table| ==> table[n] == NoSymbol
        {
          table := table + [NoSymbol];
          current := current + 1;
        }
        table := table + [Symbol(stats[k].name, Wrap32(base + current - 1), StubName(stats[k].name))];
        forall n | emitted <= n < number ensures Find(stats[..k], n) == None {
          FindAbove(stats[..k], emitted, n);
        }
      }
      forall n | 0 <= n < current ensures table[n] == SymbolSlot(stats[..k + 1], n, base) {
        FindStep(stats, k, n);
      }
    }
    ghost var emitted := current;
    assert stats[..|stats|] == stats;
    current := current + 1;
    while current <= rtNumber
      invariant emitted < current <= rtNumber + 1 && current == |table| + 1
      invariant forall n :: 0 <= n < emitted ==> table[n] == SymbolSlot(stats, n, base)
      invariant forall n :: emitted <= n < |table| ==> table[n] == NoSymbol
    {
      table := table + [NoSymbol];
      current := current + 1;
    }
    forall n | emitted <= n < rtNumber ensures Find(stats, n) == None {
      FindAbove(stats, emitted, n);
    }
  }

  // ----- the demultiplexer -----

  const MIG_BAD_ID := -303

  /** What the emitted demultiplexer does with a message, and the id it puts on the reply. */
  datatype Demux = Call(stub: string, replyId: int) | Refuse(code: int, replyId: int)

  /** The message number that an id is for: the n for which clients send it as base + n. */
  function Index(base: base32, id: id32): nat {
    (id - base) % 0x1_0000_0000
  }

  /** The stub that an id stands for. */
  ghost function Target(decls: seq<Declaration>, base: base32, id: id32): Option<string> {
    var n := Index(base, id);
    if n < |Slots(decls)| && Slots(decls)[n].Some? then Some(StubName(Slots(decls)[n].value)) else None
  }

  /** The sum of base and the number of routines, less one, is printed as an int.  If it is beyond the
      largest int the limit is negative, and every id is refused. */
  method Demultiplex(table: seq<RoutineEntry>, base: base32, id: id32) returns (r: Demux)
    requires |table| <= INT_LIMIT
    ensures r.replyId == Wrap32(id + 100)
    ensures r.Call? <==> base + |table| <= INT_LIMIT && Index(base, id) < |table| && table[Index(base, id)].Some?
    ensures r.Call? ==> r.stub == table[Index(base, id)].value
    ensures r.Refuse? ==> r.code == -303
  {
    if id > Wrap32(base + |table| - 1) || id < base {
      return Refuse(MIG_BAD_ID, Wrap32(id + 100));
    }
    match table[id - base] {
      case None => r := Refuse(MIG_BAD_ID, Wrap32(id + 100));
      case Some(stub) => r := Call(stub, Wrap32(id + 100));
    }
  }

  /** The emitted `_routine` function subtracts before it compares with the number of routines, so it
      has no sum that could be beyond the largest int. */
  method FindRoutine(table: seq<RoutineEntry>, base: base32, id: id32) returns (stub: RoutineEntry)
    requires |table| <= INT_LIMIT
    ensures stub == if Index(base, id) < |table| then table[Index(base, id)] else None
  {
    var index := Wrap32(id - base);
    if index > |table| - 1 || index < 0 {
      return None;
    }
    stub := table[index];
  }

  /** A whole subsystem: `_routine` finds the routine that an id stands for, and so does the symbol
      table; the demultiplexer calls it if and only if base and number of routines leave every id
      within an int, and refuses every message otherwise. */
  method Serve(decls: seq<Declaration>, base: base32, id: id32)
    returns (r: Demux, stub: RoutineEntry, symbols: seq<SymbolEntry>)
    requires |Slots(decls)| <= INT_LIMIT
    ensures stub == Target(decls, base, id) && |symbols| == |Slots(decls)|
    ensures r == if base + |Slots(decls)| <= INT_LIMIT && stub.Some?
                 then Call(stub.value, Wrap32(id + 100)) else Refuse(MIG_BAD_ID, Wrap32(id + 100))
    ensures forall n :: 0 <= n < |symbols| ==>
      symbols[n] == match Slots(decls)[n] {
        case None => NoSymbol
        case Some(name) => Symbol(name, Wrap32(base + n), StubName(name))
      }
  {
    hide Slots, StubName, Find, Index, Wrap32;
    var stats, rtNumber := NumberRoutines(decls);
    var table := RoutineEntries(stats, rtNumber);
    symbols := SymbolEntries(stats, rtNumber, base);
    r := Demultiplex(table, base, id);
    stub := FindRoutine(table, base, id);
  }

  /** The id that a client stub sends for the routine declared at `k` stands for that routine, and
      reaches it if and only if all ids of the subsystem are within an int; the reply carries the id
      that the client expects. */
  method CallRoutine(decls: seq<Declaration>, base: base32, k: nat) returns (r: Demux, stub: RoutineEntry)
    requires k < |decls| && decls[k].Routine? && |Slots(decls)| <= INT_LIMIT
    ensures stub == Some(StubName(decls[k].name))
    ensures r.Call? <==> base + |Slots(decls)| <= INT_LIMIT
    ensures r.Call? ==> r.stub == StubName(decls[k].name)
    ensures r.replyId == Wrap32(base + |Slots(decls[..k])| + 100)
  {
    hide Slots, StubName, Index, Wrap32;
    var n := |Slots(decls[..k])|;
    SlotOf(decls, k);
    OwnIndex(base, n);
    var symbols;
    r, stub, symbols := Serve(decls, base, Wrap32(base + n));
  }

  lemma OwnIndex(base: base32, n: nat)
    requires n < INT_LIMIT
    ensures Index(base, Wrap32(base + n)) == n && Wrap32(Wrap32(base + n) + 100) == Wrap32(base + n + 100)
  {
    hide Wrap32;
    WrapOnce(base + n);
    WrapOnce(base + n + 100);
    WrapOnce(Wrap32(base + n) + 100);
  }

  lemma WrapOnce(n: int)
    requires -0x8000_0000 <= n < 0x1_8000_0000
    ensures Wrap32(n) == if n < INT_LIMIT then n else n - 0x1_0000_0000
  {
  }

  /** Every routine and every skip takes a number, wherever it stands, and nothing else does. */
  lemma {:induction false} SlotsCount(a: seq<Declaration>, d: Declaration, b: seq<Declaration>)
    ensures |Slots(a + [d] + b)| == |Slots(a)| + |Slots(b)| + if d.Other? then 0 else 1
    decreases |b|
  {
    var all := a + [d] + b;
    if b == [] {
      assert all[..|all| - 1] == a && all[|all| - 1] == d;
      assert Slots(b) == [];
    } else {
      SlotsCount(a, d, b[..|b| - 1]);
      assert all[..|all| - 1] == a + [d] + b[..|b| - 1] && all[|all| - 1] == b[|b| - 1];
    }
  }

  lemma {:induction false} SlotsPrefix(decls: seq<Declaration>, j: nat, k: nat)
    requires j <= k <= |decls|
    ensures Slots(decls[..j]) <= Slots(decls[..k])
    decreases k
  {
    hide Slots;
    if j < k {
      SlotsPrefix(decls, j, k - 1);
      SlotsStep(decls, k - 1);
    }
  }

  /** Its own slot. */
  lemma SlotOf(decls: seq<Declaration>, k: nat)
    requires k < |decls| && decls[k].Routine?
    ensures |Slots(decls[..k])| < |Slots(decls)| && Slots(decls)[|Slots(decls[..k])|] == Some(decls[k].name)
  {
    hide Slots;
    SlotsStep(decls, k);
    SlotsPrefix(decls, k + 1, |decls|);
    assert decls[..|decls|] == decls;
  }
}

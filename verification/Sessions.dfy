/** The pass of last over the login log, newest record first. */
module Sessions {
  import opened Options
  import opened Bytes
  import opened CaseFold

  datatype Kind = Boot | Shutdown | OldTime | NewTime | User | Dead | Unknown

  /** A utmpx record; `user`, `line` and `host` only matter to the display filter. */
  datatype Record = Record(kind: Kind, id: seq<byte>, pid: int, time: int, user: string, line: string, host: string) {
    predicate Down() {
      kind.Boot? || kind.Shutdown?
    }

    predicate Process() {
      kind.User? || kind.Dead?
    }

    function Key(): (seq<byte>, int) {
      (id, pid)
    }
  }

  type Key = (seq<byte>, int)

  // ----- what a session's end is, by looking at the log -----

  /** An event that ends the session `key`. */
  predicate Ends(r: Record, key: Key) {
    r.Down() || (r.Process() && r.Key() == key)
  }

  /** The chronologically nearest later event for `key`: later records stand before `i`. */
  function Later(log: seq<Record>, i: nat, key: Key): (k: Option<nat>)
    requires i <= |log|
    ensures k.Some? ==> k.value < i && Ends(log[k.value], key)
    ensures k.Some? ==> forall j :: k.value < j < i ==> !Ends(log[j], key)
    ensures k.None? ==> forall j :: 0 <= j < i ==> !Ends(log[j], key)
  {
    if i == 0 then None
    else if Ends(log[i - 1], key) then Some(i - 1)
    else Later(log, i - 1, key)
  }

  datatype Ending = Still | LoggedOut(at: int) | Cut(at: int, crash: bool)

  /** How the session of a login at `i` ended. */
  function EndingOf(log: seq<Record>, i: nat, key: Key): Ending
    requires i <= |log|
  {
    match Later(log, i, key)
    case None => Still
    case Some(k) => if log[k].Down() then Cut(log[k].time, log[k].kind.Boot?) else LoggedOut(log[k].time)
  }

  /** The ending on the records themselves: boots and shutdowns end every session, a login or logout of the
      same terminal and process ends that one, and the nearest of them counts. */
  lemma EndingExactly(log: seq<Record>, i: nat, key: Key, k: nat)
    requires k < i <= |log|
    requires var r := log[k];
             r.kind == Boot || r.kind == Shutdown || ((r.kind == User || r.kind == Dead) && (r.id, r.pid) == key)
    requires forall j :: k < j < i ==>
               var r := log[j];
               && r.kind != Boot && r.kind != Shutdown
               && ((r.kind == User || r.kind == Dead) ==> (r.id, r.pid) != key)
    ensures EndingOf(log, i, key) ==
            match log[k].kind {
              case Boot => Cut(log[k].time, true)
              case Shutdown => Cut(log[k].time, false)
              case _ => LoggedOut(log[k].time)
            }
  {
    hide Later;
    var l := Later(log, i, key);
    assert Ends(log[k], key) && l.Some?;
    assert l.value >= k;
  }

  /** With no such record, the session still goes on. */
  lemma StillExactly(log: seq<Record>, i: nat, key: Key)
    requires i <= |log|
    requires forall j :: 0 <= j < i ==>
               var r := log[j];
               && r.kind != Boot && r.kind != Shutdown
               && ((r.kind == User || r.kind == Dead) ==> (r.id, r.pid) != key)
    ensures EndingOf(log, i, key) == Still
  {
    hide Later;
    var l := Later(log, i, key);
  }

  // ----- what the table holds -----

  /** The value kept for `key`: negative for a boot or shutdown, zero for nothing. */
  function Signed(log: seq<Record>, i: nat, key: Key): int
    requires i <= |log|
  {
    match Later(log, i, key)
    case None => 0
    case Some(k) => if log[k].Down() then -log[k].time else log[k].time
  }

  /** What `crmsg` says: whether the nearest later boot or shutdown was a boot. */
  function Crashed(log: seq<Record>, i: nat): bool
    requires i <= |log|
  {
    if i == 0 then false else if log[i - 1].Down() then log[i - 1].kind.Boot? else Crashed(log, i - 1)
  }

  /** How the table's value is shown. */
  function Decode(logout: int, crash: bool): Ending {
    if logout == 0 then Still else if logout < 0 then Cut(-logout, crash) else LoggedOut(logout)
  }

  lemma {:induction false} CauseIsNearest(log: seq<Record>, i: nat, key: Key)
    requires i <= |log| && Later(log, i, key).Some? && log[Later(log, i, key).value].Down()
    ensures Crashed(log, i) == log[Later(log, i, key).value].kind.Boot?
  {
    if !Ends(log[i - 1], key) {
      CauseIsNearest(log, i - 1, key);
    }
  }

  /** The decoded value is the true ending exactly when the event's time is positive. */
  lemma DecodedIsEnding(log: seq<Record>, i: nat, key: Key)
    requires i <= |log|
    ensures var k := Later(log, i, key);
            Decode(Signed(log, i, key), Crashed(log, i)) == EndingOf(log, i, key) <==> k.None? || log[k.value].time > 0
  {
    var k := Later(log, i, key);
    if k.Some? && log[k.value].Down() {
      CauseIsNearest(log, i, key);
    }
  }

  // ----- the display -----

  const HOSTSIZE := 256
  const LINESIZE := 32
  const USERSIZE := 256

  datatype Arg = HostArg(name: string) | TtyArg(name: string) | UserArg(name: string)

  /** strncmp(a, b, n) == 0 on strings. */
  predicate SamePrefix(a: string, b: string, n: nat) {
    (if |a| <= n then a else a[..n]) == (if |b| <= n then b else b[..n])
  }

  /** One step of want's search. */
  predicate Matches(arg: Arg, r: Record, check: bool) {
    match arg
    case HostArg(name) => SamePrefix(Lower(name), Lower(r.host), HOSTSIZE)
    case TtyArg(name) =>
      var line := if check && "ftp" <= r.line then "ftp" else if check && "uucp" <= r.line then "uucp" else r.line;
      SamePrefix(name, line, LINESIZE)
    case UserArg(name) =>
      || (r.kind.Boot? && SamePrefix(name, "reboot", USERSIZE))
      || (r.kind.Shutdown? && SamePrefix(name, "shutdown", USERSIZE))
      || SamePrefix(name, r.user, USERSIZE)
  }

  predicate Wanted(args: seq<Arg>, r: Record, check: bool) {
    args == [] || exists i :: 0 <= i < |args| && Matches(args[i], r, check)
  }

  /** want. */
  method Want(args: seq<Arg>, r: Record, check: bool) returns (yes: bool)
    ensures yes == Wanted(args, r, check)
  {
    if args == [] {
      return true;
    }
    for i := 0 to |args|
      invariant forall j :: 0 <= j < i ==> !Matches(args[j], r, check)
    {
      if Matches(args[i], r, check) {
        return true;
      }
    }
    return false;
  }

  // What want selects, apart from how it searches.

  /** One of several arguments is enough. */
  lemma WantedByOne(args: seq<Arg>, r: Record, check: bool)
    ensures Wanted(args, r, check) <==> args == [] || exists i :: 0 <= i < |args| && Wanted([args[i]], r, check)
  {
    hide Matches;
    forall i | 0 <= i < |args| ensures Wanted([args[i]], r, check) <==> Matches(args[i], r, check) {
      assert [args[i]][0] == args[i];
    }
  }

  /** A user argument selects the records of that user; "reboot" and "shutdown" also select boots and
      shutdowns.  Names of 256 characters and more are only compared so far. */
  lemma UserWanted(name: string, r: Record, check: bool)
    ensures |name| < 256 ==>
              (Wanted([UserArg(name)], r, check) <==>
                 r.user == name || (r.kind == Boot && name == "reboot") || (r.kind == Shutdown && name == "shutdown"))
    ensures |name| >= 256 ==> (Wanted([UserArg(name)], r, check) <==> |r.user| >= 256 && r.user[..256] == name[..256])
  {
    assert [UserArg(name)][0] == UserArg(name);
  }

  /** A host argument selects the records with that host, in large or small letters; longer names are
      compared up to 256 characters. */
  lemma HostWanted(name: string, r: Record, check: bool)
    ensures |name| < 256 ==>
              (Wanted([HostArg(name)], r, check) <==>
                 |r.host| == |name| && forall i :: 0 <= i < |name| ==> LowerChar(name[i]) == LowerChar(r.host[i]))
    ensures |name| >= 256 ==>
              (Wanted([HostArg(name)], r, check) <==>
                 |r.host| >= 256 && forall i :: 0 <= i < 256 ==> LowerChar(name[i]) == LowerChar(r.host[i]))
  {
    assert [HostArg(name)][0] == HostArg(name);
    SameExactly(name, r.host);
    var a, b := Lower(name), Lower(r.host);
    if |name| >= 256 && |r.host| >= 256 {
      assert forall i :: 0 <= i < 256 ==> a[..256][i] == a[i] == LowerChar(name[i]) && b[..256][i] == b[i] == LowerChar(r.host[i]);
    }
  }

  /** A terminal argument selects the records of that line, compared up to 32 characters; of logins, "ftp"
      and "uucp" select all lines that start so. */
  lemma TtyWanted(name: string, r: Record, check: bool)
    ensures check && "ftp" <= r.line ==> (Wanted([TtyArg(name)], r, check) <==> name == "ftp")
    ensures check && "uucp" <= r.line ==> (Wanted([TtyArg(name)], r, check) <==> name == "uucp")
    ensures !(check && ("ftp" <= r.line || "uucp" <= r.line)) && |name| < 32 ==>
              (Wanted([TtyArg(name)], r, check) <==> name == r.line)
    ensures !(check && ("ftp" <= r.line || "uucp" <= r.line)) && |name| >= 32 ==>
              (Wanted([TtyArg(name)], r, check) <==> |r.line| >= 32 && r.line[..32] == name[..32])
  {
    assert [TtyArg(name)][0] == TtyArg(name);
    assert "uucp" <= r.line ==> r.line[0] == 'u';
    assert "ftp" <= r.line ==> r.line[0] == 'f';
  }

  /** The records that can have a line: logins, for which alone "ftp" and "uucp" are special, boots,
      shutdowns and changes of the time. */
  lemma DisplayedExactly(args: seq<Arg>, r: Record)
    ensures Displayed(args, r) <==> r.kind != Dead && r.kind != Unknown && Wanted(args, r, r.kind == User)
  {
    hide Wanted;
  }

  datatype Line = DownLine(index: nat) | DateLine(index: nat) | LoginLine(index: nat, ending: Ending)

  predicate Displayed(args: seq<Arg>, r: Record) {
    match r.kind
    case Boot | Shutdown | OldTime | NewTime => Wanted(args, r, false)
    case User => Wanted(args, r, true)
    case Dead | Unknown => false
  }

  function LineOf(log: seq<Record>, i: nat): Line
    requires i < |log|
  {
    match log[i].kind
    case Boot | Shutdown => DownLine(i)
    case OldTime | NewTime => DateLine(i)
    case _ => LoginLine(i, Decode(Signed(log, i, log[i].Key()), Crashed(log, i)))
  }

  /** maxrec after a line: -1 stands for no limit, except that date lines count it on. */
  function Counted(r: Record, maxrec: int): int {
    if r.kind.OldTime? || r.kind.NewTime? then if maxrec != 0 then maxrec - 1 else 0
    else if maxrec != -1 then maxrec - 1 else -1
  }

  /** The pass stops after a line. */
  predicate Stops(r: Record, maxrec: int) {
    Counted(r, maxrec) == 0 && maxrec != 0
  }

  /** The lines shown for the records from `i` on. */
  function Shown(log: seq<Record>, args: seq<Arg>, i: nat, maxrec: int): seq<Line>
    requires i <= |log|
    decreases |log| - i
  {
    if i == |log| then []
    else if !Displayed(args, log[i]) then Shown(log, args, i + 1, maxrec)
    else if Stops(log[i], maxrec) then [LineOf(log, i)]
    else [LineOf(log, i)] + Shown(log, args, i + 1, Counted(log[i], maxrec))
  }

  function Number(log: seq<Record>, args: seq<Arg>, i: nat): nat
    requires i <= |log|
    decreases |log| - i
  {
    if i == |log| then 0 else Number(log, args, i + 1) + if Displayed(args, log[i]) then 1 else 0
  }

  /** A positive maxrec is the number of lines at most shown; zero or less never stops the pass. */
  lemma {:induction false} ShownNumber(log: seq<Record>, args: seq<Arg>, i: nat, maxrec: int)
    requires i <= |log|
    ensures |Shown(log, args, i, maxrec)|
         == if 0 < maxrec < Number(log, args, i) then maxrec else Number(log, args, i)
    decreases |log| - i
  {
    hide Displayed, LineOf;
    if i < |log| {
      var r := log[i];
      ShownNumber(log, args, i + 1, if Displayed(args, r) then Counted(r, maxrec) else maxrec);
    }
  }

  // ----- the pass -----

  datatype Tty = Tty(key: Key, logout: int)

  /** The entry found for `key`, or what a new entry would start with. */
  function Entry(ttys: seq<Tty>, currentout: int, key: Key): int {
    if ttys == [] then currentout else if ttys[0].key == key then ttys[0].logout else Entry(ttys[1..], currentout, key)
  }

  /** The table says of every terminal what the log says. */
  ghost predicate Agrees(ttys: seq<Tty>, currentout: int, crmsg: bool, log: seq<Record>, i: nat) {
    && i <= |log| && crmsg == Crashed(log, i)
    && forall key: Key :: Entry(ttys, currentout, key) == Signed(log, i, key)
  }

  /** Everybody logged out. */
  function AllOut(ttys: seq<Tty>, out: int): seq<Tty> {
    if ttys == [] then [] else [ttys[0].(logout := out)] + AllOut(ttys[1..], out)
  }

  lemma {:induction false} EntryAllOut(ttys: seq<Tty>, out: int, key: Key)
    ensures Entry(AllOut(ttys, out), out, key) == out
  {
    if ttys != [] {
      EntryAllOut(ttys[1..], out, key);
    }
  }

  lemma {:induction false} AllOutAt(ttys: seq<Tty>, out: int)
    ensures |AllOut(ttys, out)| == |ttys|
    ensures forall j :: 0 <= j < |ttys| ==> AllOut(ttys, out)[j] == ttys[j].(logout := out)
  {
    if ttys != [] {
      AllOutAt(ttys[1..], out);
    }
  }

  /** The first entry of a terminal is the one that is found. */
  lemma {:induction false} EntryFound(ttys: seq<Tty>, currentout: int, k: nat, v: int)
    requires k < |ttys| && forall j :: 0 <= j < k ==> ttys[j].key != ttys[k].key
    ensures Entry(ttys, currentout, ttys[k].key) == ttys[k].logout
    ensures Entry(ttys[k := ttys[k].(logout := v)], currentout, ttys[k].key) == v
    ensures forall key: Key :: key != ttys[k].key ==>
              Entry(ttys[k := ttys[k].(logout := v)], currentout, key) == Entry(ttys, currentout, key)
  {
    if k > 0 {
      EntryFound(ttys[1..], currentout, k - 1, v);
      assert ttys[k := ttys[k].(logout := v)][1..] == ttys[1..][k - 1 := ttys[k].(logout := v)];
    } else {
      assert ttys[0 := ttys[0].(logout := v)][1..] == ttys[1..];
    }
  }

  lemma {:induction false} EntryMissing(ttys: seq<Tty>, currentout: int, key: Key)
    requires forall j :: 0 <= j < |ttys| ==> ttys[j].key != key
    ensures Entry(ttys, currentout, key) == currentout
  {
    if ttys != [] {
      EntryMissing(ttys[1..], currentout, key);
    }
  }

  class Last {
    var ttylist: seq<Tty>
    var currentout: int
    var crmsg: bool
    var maxrec: int

    constructor (maxrec: int)
      ensures ttylist == [] && currentout == 0 && !crmsg && this.maxrec == maxrec
    {
      ttylist, currentout, crmsg, this.maxrec := [], 0, false, maxrec;
    }

    /** BOOT_TIME and SHUTDOWN_TIME: everybody just logged out. */
    method LogoutAll(r: Record)
      requires r.Down()
      modifies this
      ensures ttylist == AllOut(old(ttylist), -r.time) && currentout == -r.time && crmsg == r.kind.Boot?
      ensures maxrec == old(maxrec)
    {
      AllOutAt(ttylist, -r.time);
      for k := 0 to |ttylist|
        invariant |ttylist| == |old(ttylist)| && maxrec == old(maxrec)
        invariant forall j :: 0 <= j < k ==> ttylist[j] == old(ttylist)[j].(logout := -r.time)
        invariant forall j :: k <= j < |ttylist| ==> ttylist[j] == old(ttylist)[j]
      {
        ttylist := ttylist[k := ttylist[k].(logout := -r.time)];
      }
      currentout, crmsg := -r.time, r.kind.Boot?;
    }

    /** The search for a terminal, and addtty at the front when there is none. */
    method FindTty(key: Key) returns (k: nat)
      modifies this`ttylist
      ensures k < |ttylist| && ttylist[k].key == key && forall j :: 0 <= j < k ==> ttylist[j].key != key
      ensures forall other: Key :: Entry(ttylist, currentout, other) == Entry(old(ttylist), currentout, other)
    {
      k := 0;
      while k < |ttylist|
        invariant 0 <= k <= |ttylist| && forall j :: 0 <= j < k ==> ttylist[j].key != key
      {
        if ttylist[k].key == key {
          return;
        }
        k := k + 1;
      }
      EntryMissing(ttylist, currentout, key);
      ttylist := [Tty(key, currentout)] + ttylist;
      assert ttylist[1..] == old(ttylist);
      k := 0;
    }

    /** One record: what is shown for it, and whether the pass ends with it. */
    method ShowRecord(log: seq<Record>, args: seq<Arg>, i: nat) returns (line: seq<Line>, end: bool)
      requires i < |log| && Agrees(ttylist, currentout, crmsg, log, i)
      modifies this
      ensures line == if Displayed(args, log[i]) then [LineOf(log, i)] else []
      ensures end == (Displayed(args, log[i]) && Stops(log[i], old(maxrec)))
      ensures maxrec == if Displayed(args, log[i]) then Counted(log[i], old(maxrec)) else old(maxrec)
      ensures !end ==> Agrees(ttylist, currentout, crmsg, log, i + 1)
    {
      hide Agrees, Wanted, Entry, Signed, AllOut, Crashed;
      var r := log[i];
      line, end := [], false;
      match r.kind {
        case Boot | Shutdown =>
          DownAgrees(ttylist, currentout, crmsg, log, i);
          LogoutAll(r);
          var yes := Want(args, r, false);
          if yes {
            line := [DownLine(i)];
            if maxrec != -1 {
              maxrec := maxrec - 1;
              end := maxrec == 0;
            }
          }
        case OldTime | NewTime =>
          OtherAgrees(ttylist, currentout, crmsg, log, i);
          var yes := Want(args, r, false);
          if yes {
            line := [DateLine(i)];
            if maxrec != 0 {
              maxrec := maxrec - 1;
              end := maxrec == 0;
            }
          }
        case User | Dead =>
          line, end := ShowProcess(log, args, i);
        case Unknown =>
          OtherAgrees(ttylist, currentout, crmsg, log, i);
      }
    }

    /** USER_PROCESS and DEAD_PROCESS. */
    method ShowProcess(log: seq<Record>, args: seq<Arg>, i: nat) returns (line: seq<Line>, end: bool)
      requires i < |log| && Agrees(ttylist, currentout, crmsg, log, i) && log[i].Process()
      modifies this
      ensures line == if Displayed(args, log[i]) then [LineOf(log, i)] else []
      ensures end == (Displayed(args, log[i]) && Stops(log[i], old(maxrec)))
      ensures maxrec == if Displayed(args, log[i]) then Counted(log[i], old(maxrec)) else old(maxrec)
      ensures !end ==> Agrees(ttylist, currentout, crmsg, log, i + 1)
    {
      hide Agrees, Wanted, Entry, Signed, Crashed;
      var r := log[i];
      line, end := [], false;
      CauseOf(ttylist, currentout, crmsg, log, i);
      var k := FindTty(r.Key());
      assert Agrees(ttylist, currentout, crmsg, log, i) by { SameAgrees(old(ttylist), ttylist, currentout, crmsg, log, i); }
      ProcessAgrees(ttylist, currentout, crmsg, log, i, k);
      ghost var after := ttylist[k := ttylist[k].(logout := r.time)];
      var yes := false;
      if r.kind != Dead {
        yes := Want(args, r, true);
      }
      if yes {
        var logout := ttylist[k].logout;
        line := [LoginLine(i, Decode(logout, crmsg))];
        if logout < 0 {
          ttylist := ttylist[k := ttylist[k].(logout := -logout)];
        }
        if maxrec != -1 {
          maxrec := maxrec - 1;
          if maxrec == 0 {
            return line, true;
          }
        }
      }
      ttylist := ttylist[k := ttylist[k].(logout := r.time)];
      assert ttylist == after;
    }

    /** wtmp: every line shown, and the table after every record, follow from the log alone. */
    method Wtmp(log: seq<Record>, args: seq<Arg>) returns (lines: seq<Line>)
      requires ttylist == [] && currentout == 0 && !crmsg
      modifies this
      ensures lines == Shown(log, args, 0, old(maxrec))
    {
      hide Shown, Displayed, LineOf, Stops, Counted, Agrees, Wanted;
      lines := [];
      StartAgrees(log);
      for i := 0 to |log|
        invariant Agrees(ttylist, currentout, crmsg, log, i)
        invariant lines + Shown(log, args, i, maxrec) == Shown(log, args, 0, old(maxrec))
      {
        var r := log[i];
        ShownStep(log, args, i, maxrec);
        var line, end := ShowRecord(log, args, i);
        lines := lines + line;
        if end {
          return;
        }
      }
      ShownEnd(log, args, maxrec);
    }
  }

  /** With positive times every login line shows how the session ended, whatever the filter and
      the limit left out before it. */
  lemma {:induction false} ShownEndings(log: seq<Record>, args: seq<Arg>, i: nat, maxrec: int, line: Line)
    requires i <= |log| && (forall j :: 0 <= j < |log| ==> log[j].time > 0)
    requires line in Shown(log, args, i, maxrec) && line.LoginLine?
    ensures line.index < |log| && line.ending == EndingOf(log, line.index, log[line.index].Key())
    decreases |log| - i
  {
    hide Displayed, Stops, Counted, Decode, Signed, Crashed, EndingOf;
    if i < |log| {
      if line == LineOf(log, i) {
        DecodedIsEnding(log, i, log[i].Key());
      } else {
        ShownEndings(log, args, i + 1, if Displayed(args, log[i]) then Counted(log[i], maxrec) else maxrec, line);
      }
    }
  }

  lemma StartAgrees(log: seq<Record>)
    ensures Agrees([], 0, false, log, 0)
  {
  }

  lemma ShownEnd(log: seq<Record>, args: seq<Arg>, maxrec: int)
    ensures Shown(log, args, |log|, maxrec) == []
  {
  }

  lemma ShownStep(log: seq<Record>, args: seq<Arg>, i: nat, maxrec: int)
    requires i < |log|
    ensures !Displayed(args, log[i]) ==> Shown(log, args, i, maxrec) == Shown(log, args, i + 1, maxrec)
    ensures Displayed(args, log[i]) && Stops(log[i], maxrec) ==> Shown(log, args, i, maxrec) == [LineOf(log, i)]
    ensures Displayed(args, log[i]) && !Stops(log[i], maxrec) ==>
              Shown(log, args, i, maxrec) == [LineOf(log, i)] + Shown(log, args, i + 1, Counted(log[i], maxrec))
  {
    hide Displayed, LineOf, Stops, Counted;
  }

  lemma CauseOf(ttys: seq<Tty>, currentout: int, crmsg: bool, log: seq<Record>, i: nat)
    requires Agrees(ttys, currentout, crmsg, log, i)
    ensures i <= |log| && crmsg == Crashed(log, i)
  {
  }

  lemma SameAgrees(ttys: seq<Tty>, ttys': seq<Tty>, currentout: int, crmsg: bool, log: seq<Record>, i: nat)
    requires Agrees(ttys, currentout, crmsg, log, i)
    requires forall key: Key :: Entry(ttys', currentout, key) == Entry(ttys, currentout, key)
    ensures Agrees(ttys', currentout, crmsg, log, i)
  {
    hide Entry, Signed;
  }

  lemma DownAgrees(ttys: seq<Tty>, currentout: int, crmsg: bool, log: seq<Record>, i: nat)
    requires Agrees(ttys, currentout, crmsg, log, i) && i < |log| && log[i].Down()
    ensures Agrees(AllOut(ttys, -log[i].time), -log[i].time, log[i].kind.Boot?, log, i + 1)
  {
    var out := -log[i].time;
    var all := AllOut(ttys, out);
    forall key: Key ensures Entry(all, out, key) == Signed(log, i + 1, key) {
      EntryAllOut(ttys, out, key);
    }
  }

  lemma OtherAgrees(ttys: seq<Tty>, currentout: int, crmsg: bool, log: seq<Record>, i: nat)
    requires Agrees(ttys, currentout, crmsg, log, i) && i < |log| && !log[i].Down() && !log[i].Process()
    ensures Agrees(ttys, currentout, crmsg, log, i + 1)
  {
    forall key: Key ensures Signed(log, i + 1, key) == Signed(log, i, key) {
    }
  }

  lemma ProcessAgrees(ttys: seq<Tty>, currentout: int, crmsg: bool, log: seq<Record>, i: nat, k: nat)
    requires Agrees(ttys, currentout, crmsg, log, i) && i < |log| && log[i].Process()
    requires k < |ttys| && ttys[k].key == log[i].Key() && forall j :: 0 <= j < k ==> ttys[j].key != ttys[k].key
    ensures Signed(log, i, log[i].Key()) == ttys[k].logout
    ensures Agrees(ttys[k := ttys[k].(logout := log[i].time)], currentout, crmsg, log, i + 1)
  {
    hide Entry;
    var t := log[i].time;
    EntryFound(ttys, currentout, k, t);
    var ttys' := ttys[k := ttys[k].(logout := t)];
    forall key: Key ensures Entry(ttys', currentout, key) == Signed(log, i + 1, key) {
      assert key != log[i].Key() ==> Signed(log, i + 1, key) == Signed(log, i, key);
    }
  }
}

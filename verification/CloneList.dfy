/** The list of running clones: a FIFO linked through its nodes, with a free list that recycles the
    nodes of reaped clones, and the control loop that drives it. */
module CloneList {
  import opened Sequences

  /** A clone's control block; `pid` is -1 if the clone call failed. */
  class Node {
    var next: Node?
    var pid: int

    /** Fresh anonymous pages are zero. */
    constructor ()
      ensures next == null && pid == 0
    {
      next := null;
      pid := 0;
    }
  }

  /** The node at position `i`, or null past the end. */
  ghost function At(s: seq<Node>, i: nat): Node?
  {
    if i < |s| then s[i] else null
  }

  ghost function Front(s: seq<Node>): seq<Node>
  {
    if s == [] then [] else s[..|s| - 1]
  }

  /** Every node but the last one links to its successor in `s`. */
  ghost predicate Chained(s: seq<Node>)
    reads Front(s)`next
  {
    forall i :: 0 <= i < |s| - 1 ==> Front(s)[i].next == s[i + 1]
  }

  /** `s` is a whole list: its last node links to null. */
  ghost predicate Linked(s: seq<Node>)
    reads s`next
  {
    Chained(s) && (s != [] ==> s[|s| - 1].next == null)
  }

  lemma NextInList(s: seq<Node>, i: nat)
    requires Linked(s) && i < |s|
    ensures s[i].next == At(s, i + 1)
  {
    if i < |s| - 1 { assert Front(s)[i] == s[i]; }
  }

  lemma LinkedTail(s: seq<Node>)
    requires Linked(s) && s != []
    ensures Linked(s[1..])
  {
    assert forall i :: 0 <= i < |s| - 2 ==> Front(s[1..])[i] == Front(s)[i + 1];
  }

  lemma LinkedCons(x: Node, s: seq<Node>)
    requires Linked(s) && x.next == At(s, 0)
    ensures Linked([x] + s)
  {
    var t := [x] + s;
    forall i | 0 <= i < |t| - 1 ensures Front(t)[i].next == t[i + 1] {
      if i > 0 { NextInList(s, i - 1); }
    }
  }

  lemma LinkedAppend(s: seq<Node>, x: Node)
    requires Chained(s) && (s != [] ==> s[|s| - 1].next == x) && x.next == null
    ensures Linked(s + [x])
  {
    var t := s + [x];
    forall i | 0 <= i < |t| - 1 ensures Front(t)[i].next == t[i + 1] {
      if i < |s| - 1 { assert Front(s)[i] == s[i]; }
    }
  }

  /** In a list without repeats the last node is the first one only if it is alone. */
  lemma LastIsFirst(s: seq<Node>)
    requires s != [] && NoRepeats(s) && s[|s| - 1] == s[0]
    ensures |s| == 1
  {}

  lemma LastNotInFront(s: seq<Node>)
    requires NoRepeats(s) && s != []
    ensures s[|s| - 1] !in Front(s)
  {}

  lemma LinkedIsChained(s: seq<Node>)
    requires Linked(s)
    ensures Chained(s)
  {}

  lemma Singleton(r: Node)
    ensures NoRepeats([r])
  {}

  lemma Parts(s: seq<Node>, t: seq<Node>)
    ensures NoRepeats(s + t) <==> NoRepeats(s) && NoRepeats(t) && forall n :: n in s ==> n !in t
  {
    var u := s + t;
    assert forall i :: 0 <= i < |s| ==> u[i] == s[i];
    assert forall i :: 0 <= i < |t| ==> u[|s| + i] == t[i];
    if NoRepeats(s) && NoRepeats(t) && forall n :: n in s ==> n !in t {
      forall i, j | 0 <= i < j < |u| ensures u[i] != u[j] {
        if i < |s| <= j { assert s[i] !in t; assert u[j] == t[j - |s|]; }
      }
    }
    if NoRepeats(u) {
      forall n | n in s ensures n !in t {
        var i :| 0 <= i < |s| && s[i] == n;
        forall j | 0 <= j < |t| ensures t[j] != n { assert u[|s| + j] == t[j] && u[i] == n; }
      }
    }
  }

  lemma MoveFront(x: Node, s: seq<Node>, t: seq<Node>)
    requires NoRepeats([x] + s + t)
    ensures NoRepeats(s + ([x] + t))
  {
    var u, v := [x] + s + t, s + ([x] + t);
    assert forall i :: 0 <= i < |s| ==> v[i] == u[i + 1];
    assert v[|s|] == u[0];
    assert forall i :: |s| < i < |v| ==> v[i] == u[i];
  }

  ghost function Pids(s: seq<Node>): (p: seq<int>)
    reads s`pid
    ensures |p| == |s|
  {
    if s == [] then [] else [s[0].pid] + Pids(s[1..])
  }

  lemma {:induction false} PidsAppend(s: seq<Node>, x: Node)
    ensures Pids(s + [x]) == Pids(s) + [x.pid]
  {
    if s != [] {
      assert (s + [x])[1..] == s[1..] + [x];
      PidsAppend(s[1..], x);
    }
  }

  class Clones {
    var head: Node?
    var tail: Node?
    var free: Node?
    var length: nat
    /** The clones on the active list, oldest first, and the nodes on the free list. */
    ghost var active: seq<Node>
    ghost var spare: seq<Node>
    /** The arguments of the calls to waitpid, and the nodes that mmap gave, so far. */
    ghost var waited: seq<int>
    ghost var mapped: set<Node>

    /** Both lists are acyclic and disjoint, `tail` is the last active node, `length` their number. */
    ghost predicate Valid()
      reads this, active`next, spare`next
    {
      && NoRepeats(active + spare)
      && Linked(active) && head == At(active, 0)
      && Linked(spare) && free == At(spare, 0)
      && tail == (if active == [] then null else active[|active| - 1])
      && length == |active|
    }

    /** The nodes of both lists. */
    ghost function Nodes(): set<Node>
      reads this
    {
      set n | n in active + spare
    }

    constructor ()
      ensures Valid() && active == [] && spare == [] && waited == [] && mapped == {}
    {
      head, tail, free, length := null, null, null, 0;
      active, spare, waited, mapped := [], [], [], {};
    }

    /** The first part of stress_clone_new: the first node of the free list, or a new one. */
    method Take(mmapOk: bool) returns (r: Node?)
      requires Valid()
      modifies this`free, this`spare, this`mapped, spare`next
      ensures Linked(active) && Linked(spare) && free == At(spare, 0)
      ensures old(spare) == [] && !mmapOk ==> r == null && spare == []
      ensures old(spare) != [] || mmapOk ==> r != null && r.next == null && NoRepeats<Node>((active + [r]) + spare)
      ensures old(spare) != [] ==> r == old(spare)[0] && spare == old(spare)[1..]
      ensures old(spare) == [] && mmapOk ==> fresh(r) && spare == []
      ensures mapped == old(mapped) + if old(spare) == [] && mmapOk then {r} else {}
    {
      hide NoRepeats, Linked, Chained, Front;
      ghost var a, s := active, spare;
      Parts(a, s);
      if free != null {
        r := free;
        assert r == s[0] && r in s && s == [r] + s[1..];
        Parts([r], s[1..]);
        assert r in [r];
        NextInList(s, 0);
        LinkedTail(s);
        free := r.next;
        r.next := null;
        spare := s[1..];
        assert a + s == (a + [r]) + spare;
      } else {
        if !mmapOk {
          return null;
        }
        r := new Node();
        mapped := mapped + {r};
        Singleton(r);
        Parts(a, [r]);
        assert (a + [r]) + spare == a + [r];
      }
    }

    /** stress_clone_new: takes a node from the free list, or maps one if the list is empty, and adds
        it at the end of the active list; null if mmap fails. */
    method New(mmapOk: bool) returns (r: Node?)
      requires Valid()
      modifies this`head, this`tail, this`free, this`length, this`active, this`spare, this`mapped
      modifies active`next, spare`next
      ensures Valid()
      ensures old(spare) == [] && !mmapOk ==> r == null && active == old(active) && spare == old(spare)
      ensures old(spare) != [] || mmapOk ==> r != null && active == old(active) + [r]
      ensures old(spare) != [] ==> r == old(spare)[0] && spare == old(spare)[1..]
      ensures old(spare) == [] && mmapOk ==> fresh(r) && spare == []
      ensures mapped == old(mapped) + if old(spare) == [] && mmapOk then {r} else {}
    {
      hide NoRepeats, Linked, Chained, Front;
      ghost var a := active;
      r := Take(mmapOk);
      if r == null {
        return;
      }
      Parts(a + [r], spare);
      Parts(a, [r]);
      assert r in [r] && r in a + [r];
      LinkedIsChained(a);
      if head != null {
        assert tail in a && tail in a + [r];
        LastNotInFront(a);
        tail.next := r;
      } else {
        head := r;
      }
      tail := r;
      length := length + 1;
      active := active + [r];
      LinkedAppend(a, r);
    }

    /** stress_clone_head_remove: waits for the oldest clone and moves its node to the free list. */
    method HeadRemove()
      requires Valid()
      modifies this`head, this`tail, this`free, this`length, this`active, this`spare, this`waited
      modifies active`next
      ensures Valid()
      ensures old(active) == [] ==> active == [] && spare == old(spare) && waited == old(waited)
      ensures old(active) != [] ==>
                && active == old(active)[1..] && spare == [old(active)[0]] + old(spare)
                && waited == old(waited) + [old(active)[0].pid]
    {
      hide NoRepeats, Linked, Chained, Front;
      ghost var a, s := active, spare;
      Parts(a, s);
      if head != null {
        var first := head;
        assert first == a[0] && a == [first] + a[1..] && first in [first];
        Parts([first], a[1..]);
        NextInList(a, 0);
        LinkedTail(a);
        waited := waited + [first.pid];
        if tail == head {
          LastIsFirst(a);
          tail := null;
          head := null;
        } else {
          head := first.next;
        }
        assert first !in s && first !in a[1..];
        first.next := free;
        free := first;
        length := length - 1;
        LinkedCons(first, s);
        active, spare := a[1..], [first] + s;
        assert [first] + active + s == a + s;
        MoveFront(first, active, s);
      }
    }

    /** stress_clone_free: unmaps every node of both lists; `unmapped` is the order of the calls, and
        `trace` shows that no node is read after it was unmapped. */
    method Free() returns (unmapped: seq<Node>, ghost trace: seq<Access<Node>>)
      requires Valid()
      modifies this`head, this`free
      ensures unmapped == active + spare && NoRepeats(unmapped)
      ensures trace == InTurn(unmapped) && Safe(trace)
      ensures head == null && free == null
    {
      hide NoRepeats, Safe, Linked, Chained, Front;
      unmapped, trace := [], [];
      while head != null
        invariant |unmapped| <= |active| && unmapped == active[..|unmapped|] && trace == InTurn(unmapped)
        invariant head == At(active, |unmapped|) && free == old(free)
        decreases |active| - |unmapped|
      {
        NextInList(active, |unmapped|);
        trace := trace + [Read(head)];
        var next := head.next;
        InTurnAppend(unmapped, head);
        unmapped := unmapped + [head];
        trace := trace + [Release(head)];
        head := next;
      }
      ghost var done := 0;
      while free != null
        invariant 0 <= done <= |spare| && unmapped == active + spare[..done] && trace == InTurn(unmapped)
        invariant free == At(spare, done) && head == null
        decreases |spare| - done
      {
        NextInList(spare, done);
        trace := trace + [Read(free)];
        var next := free.next;
        InTurnAppend(unmapped, free);
        unmapped := unmapped + [free];
        trace := trace + [Release(free)];
        free := next;
        done := done + 1;
      }
      InTurnSafe(unmapped);
    }
  }

  // ---- the control loop, on pids and numbers of nodes only

  /** What the system does in one turn of the control loop: whether mmap succeeds, if it is called,
      and the pid that the clone call returns, -1 for a failure. */
  datatype Turn = Turn(mmapOk: bool, pid: int)

  /** A queue of pids, the number of spare nodes, and the pids waited for so far. */
  datatype Account = Account(active: seq<int>, spare: nat, waited: seq<int>) {

    function Nodes(): nat
    {
      |active| + spare
    }

    function Reaped(): Account
    {
      if active == [] then this else Account(active[1..], spare + 1, waited + [active[0]])
    }

    function Started(pid: int): Account
    {
      Account(active + [pid], if spare > 0 then spare - 1 else 0, waited)
    }

    /** No node can be had for a new clone. */
    predicate Stops(turn: Turn, cloneMax: nat)
    {
      |active| < cloneMax && spare == 0 && !turn.mmapOk
    }

    /** One turn: below the limit a clone is started, and if that failed the oldest one is reaped; at
        the limit the oldest one is reaped. */
    function After(turn: Turn, cloneMax: nat): Account
    {
      if |active| >= cloneMax then Reaped()
      else if Stops(turn, cloneMax) then this
      else if turn.pid == -1 then Started(-1).Reaped()
      else Started(turn.pid)
    }
  }

  const NOTHING := Account([], 0, [])

  function Run(a: Account, turns: seq<Turn>, cloneMax: nat): Account
    decreases |turns|
  {
    if turns == [] || a.Stops(turns[0], cloneMax) then a
    else Run(a.After(turns[0], cloneMax), turns[1..], cloneMax)
  }

  /** The results of the clone calls that a run makes, in order, failures included. */
  function Begun(a: Account, turns: seq<Turn>, cloneMax: nat): seq<int>
    decreases |turns|
  {
    if turns == [] || a.Stops(turns[0], cloneMax) then []
    else
      (if |a.active| < cloneMax then [turns[0].pid] else [])
      + Begun(a.After(turns[0], cloneMax), turns[1..], cloneMax)
  }

  function Max(a: nat, b: nat): nat
  {
    if a >= b then a else b
  }

  /** The greatest length that the active list has in a run. */
  function Peak(a: Account, turns: seq<Turn>, cloneMax: nat): nat
    decreases |turns|
  {
    if turns == [] || a.Stops(turns[0], cloneMax) then |a.active|
    else
      Max(if |a.active| < cloneMax then |a.active| + 1 else |a.active|,
          Peak(a.After(turns[0], cloneMax), turns[1..], cloneMax))
  }

  lemma ReapedAccounts(a: Account)
    ensures a.Reaped().waited + a.Reaped().active == a.waited + a.active
    ensures a.Reaped().Nodes() == a.Nodes()
  {
    if a.active != [] { assert a.active == [a.active[0]] + a.active[1..]; }
  }

  lemma AfterAccounts(a: Account, turn: Turn, cloneMax: nat)
    requires !a.Stops(turn, cloneMax)
    ensures var b := a.After(turn, cloneMax);
            b.waited + b.active ==
            (a.waited + a.active) + if |a.active| < cloneMax then [turn.pid] else []
  {
    if |a.active| >= cloneMax {
      ReapedAccounts(a);
    } else if turn.pid == -1 {
      ReapedAccounts(a.Started(-1));
    }
  }

  /** Clones are waited for in the order in which they were started: those waited for and those still
      active are together all that were ever started. */
  lemma {:induction false} RunAccounts(a: Account, turns: seq<Turn>, cloneMax: nat)
    ensures var b := Run(a, turns, cloneMax);
            b.waited + b.active == (a.waited + a.active) + Begun(a, turns, cloneMax)
    decreases |turns|
  {
    if turns != [] && !a.Stops(turns[0], cloneMax) {
      AfterAccounts(a, turns[0], cloneMax);
      RunAccounts(a.After(turns[0], cloneMax), turns[1..], cloneMax);
    }
  }

  /** A node is mapped only if all nodes are in use, so a run has mapped as many as were ever in use at
      once. */
  lemma {:induction false} RunNodes(a: Account, turns: seq<Turn>, cloneMax: nat)
    ensures Run(a, turns, cloneMax).Nodes() == Max(a.Nodes(), Peak(a, turns, cloneMax))
    decreases |turns|
  {
    if turns != [] && !a.Stops(turns[0], cloneMax) {
      RunNodes(a.After(turns[0], cloneMax), turns[1..], cloneMax);
    }
  }

  lemma {:induction false} PeakBound(a: Account, turns: seq<Turn>, cloneMax: nat)
    requires |a.active| <= cloneMax
    ensures Peak(a, turns, cloneMax) <= cloneMax
    decreases |turns|
  {
    if turns != [] && !a.Stops(turns[0], cloneMax) {
      PeakBound(a.After(turns[0], cloneMax), turns[1..], cloneMax);
    }
  }

  /** How many of the clone calls succeeded. */
  function Successes(pids: seq<int>): nat
  {
    if pids == [] then 0 else (if pids[0] == -1 then 0 else 1) + Successes(pids[1..])
  }

  lemma SuccessesCons(pid: int, pids: seq<int>)
    ensures Successes([pid] + pids) == (if pid == -1 then 0 else 1) + Successes(pids)
  {
    assert ([pid] + pids)[1..] == pids;
  }

  /** How many turns a run makes before it stops. */
  function Taken(a: Account, turns: seq<Turn>, cloneMax: nat): (n: nat)
    ensures n <= |turns|
    decreases |turns|
  {
    if turns == [] || a.Stops(turns[0], cloneMax) then 0
    else 1 + Taken(a.After(turns[0], cloneMax), turns[1..], cloneMax)
  }

  /** Only a successful call makes the list longer, and only a turn that makes no call makes it shorter:
      a failed call leaves its length, for the oldest clone is reaped. */
  lemma {:induction false} LengthLaw(a: Account, turns: seq<Turn>, cloneMax: nat)
    requires cloneMax > 0
    ensures var calls := Begun(a, turns, cloneMax);
            |Run(a, turns, cloneMax).active| + Taken(a, turns, cloneMax) ==
            |a.active| + |calls| + Successes(calls)
    decreases |turns|
  {
    if turns != [] && !a.Stops(turns[0], cloneMax) {
      var b := a.After(turns[0], cloneMax);
      LengthLaw(b, turns[1..], cloneMax);
      SuccessesCons(turns[0].pid, Begun(b, turns[1..], cloneMax));
      assert [] + Begun(b, turns[1..], cloneMax) == Begun(b, turns[1..], cloneMax);
    }
  }

  /** The length of the list by itself, as a counter. */
  function Level(n: nat, turns: seq<Turn>, cloneMax: nat): nat
    decreases |turns|
  {
    if turns == [] then n
    else
      var next := if n >= cloneMax then (if n == 0 then 0 else n - 1) else if turns[0].pid == -1 then n else n + 1;
      Level(next, turns[1..], cloneMax)
  }

  /** If memory can always be had, the list has the length of the counter after every run. */
  lemma {:induction false} LevelIs(a: Account, turns: seq<Turn>, cloneMax: nat)
    requires forall i :: 0 <= i < |turns| ==> turns[i].mmapOk
    ensures |Run(a, turns, cloneMax).active| == Level(|a.active|, turns, cloneMax)
    ensures Taken(a, turns, cloneMax) == |turns|
    decreases |turns|
  {
    if turns != [] {
      LevelIs(a.After(turns[0], cloneMax), turns[1..], cloneMax);
    }
  }

  /** So the number of clone calls of a run is known from the number of turns and of failures. */
  lemma CallsMade(a: Account, turns: seq<Turn>, cloneMax: nat)
    requires cloneMax > 0 && forall i :: 0 <= i < |turns| ==> turns[i].mmapOk
    ensures var calls := Begun(a, turns, cloneMax);
            Level(|a.active|, turns, cloneMax) + |turns| == |a.active| + |calls| + Successes(calls)
  {
    LengthLaw(a, turns, cloneMax);
    LevelIs(a, turns, cloneMax);
  }

  /** If every clone call fails, every turn makes a call, and one node serves the whole run. */
  lemma {:induction false} AllFail(a: Account, turns: seq<Turn>, cloneMax: nat)
    requires |a.active| < cloneMax
    requires forall i :: 0 <= i < |turns| ==> turns[i].mmapOk && turns[i].pid == -1
    ensures |Begun(a, turns, cloneMax)| == |turns|
    ensures |Run(a, turns, cloneMax).active| == |a.active|
    ensures Peak(a, turns, cloneMax) <= |a.active| + 1
    decreases |turns|
  {
    if turns != [] {
      AllFail(a.After(turns[0], cloneMax), turns[1..], cloneMax);
    }
  }

  /** Once as many nodes are mapped as there may be clones, mmap is not needed: a run makes all its
      turns, whatever mmap would answer. */
  lemma {:induction false} EnoughNodes(a: Account, turns: seq<Turn>, cloneMax: nat)
    requires a.Nodes() >= cloneMax
    ensures Taken(a, turns, cloneMax) == |turns|
    decreases |turns|
  {
    if turns != [] {
      EnoughNodes(a.After(turns[0], cloneMax), turns[1..], cloneMax);
    }
  }

  /** A run ends early only in a turn in which mmap fails, and with an empty list of nodes it ends in the
      first such turn. */
  lemma StopsAt(a: Account, turns: seq<Turn>, cloneMax: nat)
    requires cloneMax > 0
    ensures turns != [] && a.Nodes() == 0 && !turns[0].mmapOk ==> Taken(a, turns, cloneMax) == 0
    ensures Taken(a, turns, cloneMax) < |turns| ==> !turns[Taken(a, turns, cloneMax)].mmapOk
    decreases |turns|
  {
    if turns != [] && !a.Stops(turns[0], cloneMax) {
      StopsAt(a.After(turns[0], cloneMax), turns[1..], cloneMax);
    }
  }

  /** If every call succeeds, the list fills up and from then on every other turn starts a clone. */
  lemma {:induction false} SteadyRun(a: Account, turns: seq<Turn>, cloneMax: nat)
    requires |a.active| <= cloneMax && cloneMax > 0
    requires forall i :: 0 <= i < |turns| ==> turns[i].mmapOk && turns[i].pid != -1
    ensures var room := cloneMax - |a.active|;
            |Begun(a, turns, cloneMax)| == if |turns| <= room then |turns| else room + (|turns| - room) / 2
    decreases |turns|
  {
    if turns != [] {
      SteadyRun(a.After(turns[0], cloneMax), turns[1..], cloneMax);
    }
  }

  // ---- the control loop on the lists

  ghost function AccountOf(clones: Clones): Account
    reads clones, clones.active`pid
  {
    Account(Pids(clones.active), |clones.spare|, clones.waited)
  }

  /** The lists are in order and hold exactly the nodes mapped. */
  ghost predicate Accounted(clones: Clones)
    reads clones, clones.active`next, clones.spare`next
  {
    clones.Valid() && clones.mapped == clones.Nodes()
  }

  method Reap(clones: Clones)
    requires Accounted(clones)
    modifies clones, clones.Nodes()`next
    ensures Accounted(clones) && clones.mapped == old(clones.mapped)
    ensures AccountOf(clones) == old(AccountOf(clones)).Reaped()
  {
    ghost var a, s := clones.active, clones.spare;
    clones.HeadRemove();
    if a != [] {
      assert a == [a[0]] + a[1..];
      SameNodes(a[0], a[1..], s);
    }
  }

  lemma SameNodes(x: Node, a: seq<Node>, s: seq<Node>)
    ensures (set n | n in ([x] + a) + s) == (set n | n in a + ([x] + s))
  {
    forall n ensures n in ([x] + a) + s <==> n in a + ([x] + s) {}
  }

  /** One turn of the control loop; `stop` if no node could be had.  A node is mapped only if none is
      spare, and none is ever dropped. */
  method OneTurn(clones: Clones, turn: Turn, cloneMax: nat) returns (stop: bool)
    requires Accounted(clones)
    modifies clones, clones.Nodes()
    ensures Accounted(clones)
    ensures stop <==> old(AccountOf(clones)).Stops(turn, cloneMax)
    ensures AccountOf(clones) == old(AccountOf(clones)).After(turn, cloneMax)
    ensures old(clones.mapped) <= clones.mapped && fresh(clones.mapped - old(clones.mapped))
    ensures clones.mapped != old(clones.mapped) ==> old(clones.spare) == []
  {
    hide NoRepeats, Linked, Chained, Pids, At;
    stop := false;
    if clones.length < cloneMax {
      ghost var a, s := clones.active, clones.spare;
      ghost var before := AccountOf(clones);
      var cloneInfo := clones.New(turn.mmapOk);
      if cloneInfo == null {
        stop := true;
        return;
      }
      NewNodes(a, s, cloneInfo, clones.spare);
      assert cloneInfo !in a;
      cloneInfo.pid := turn.pid;
      PidsAppend(a, cloneInfo);
      assert AccountOf(clones) == before.Started(turn.pid);
      assert Accounted(clones);
      if cloneInfo.pid == -1 {
        Reap(clones);
      }
    } else {
      Reap(clones);
    }
  }

  lemma NewNodes(a: seq<Node>, s: seq<Node>, r: Node, spare: seq<Node>)
    requires NoRepeats(a + s) && NoRepeats((a + [r]) + spare)
    requires s != [] ==> r == s[0] && spare == s[1..]
    requires s == [] ==> spare == []
    ensures (set n | n in (a + [r]) + spare) == (set n | n in a + s) + {r}
    ensures s != [] ==> r in s
    ensures r !in a
  {
    Parts(a + [r], spare);
    Parts(a, [r]);
    assert s != [] ==> s == [r] + spare;
  }

  lemma RunFrom(a: Account, turns: seq<Turn>, k: nat, cloneMax: nat)
    requires k <= |turns|
    ensures k == |turns| ==> Run(a, turns[k..], cloneMax) == a
    ensures k < |turns| ==>
              Run(a, turns[k..], cloneMax) ==
              if a.Stops(turns[k], cloneMax) then a else Run(a.After(turns[k], cloneMax), turns[k + 1..], cloneMax)
  {
    if k < |turns| { assert turns[k..][0] == turns[k] && turns[k..][1..] == turns[k + 1..]; }
  }

  lemma StopKeeps(a: Account, turn: Turn, cloneMax: nat)
    ensures a.Stops(turn, cloneMax) ==> a.After(turn, cloneMax) == a
  {}

  /** The loop that waits for all clones that are still active. */
  method Drain(clones: Clones)
    requires Accounted(clones)
    modifies clones, clones.Nodes()`next
    ensures Accounted(clones) && clones.active == [] && clones.mapped == old(clones.mapped)
    ensures clones.waited == old(AccountOf(clones).waited + AccountOf(clones).active)
    ensures |clones.spare| == old(AccountOf(clones)).Nodes()
  {
    hide NoRepeats, Linked, Chained, Pids;
    while clones.head != null
      invariant Accounted(clones) && clones.mapped == old(clones.mapped)
      invariant AccountOf(clones).waited + AccountOf(clones).active ==
                old(AccountOf(clones).waited + AccountOf(clones).active)
      invariant AccountOf(clones).Nodes() == old(AccountOf(clones)).Nodes()
      decreases |clones.active|
    {
      ReapedAccounts(AccountOf(clones));
      Reap(clones);
    }
  }

  /** The control loop of stress_clone_child. */
  method ControlLoop(clones: Clones, turns: seq<Turn>, cloneMax: nat)
    requires Accounted(clones)
    modifies clones, clones.Nodes()
    ensures Accounted(clones)
    ensures AccountOf(clones) == Run(old(AccountOf(clones)), turns, cloneMax)
    ensures old(clones.mapped) <= clones.mapped && fresh(clones.mapped - old(clones.mapped))
  {
    hide NoRepeats, Linked, Chained, Pids, Run, Account.After, Account.Stops, Clones.Valid;
    ghost var end := Run(AccountOf(clones), turns, cloneMax);
    var k := 0;
    assert turns[0..] == turns;
    while k < |turns|
      invariant 0 <= k <= |turns|
      invariant Accounted(clones)
      invariant old(clones.mapped) <= clones.mapped && fresh(clones.mapped - old(clones.mapped))
      invariant Run(AccountOf(clones), turns[k..], cloneMax) == end
    {
      ghost var a := AccountOf(clones);
      RunFrom(a, turns, k, cloneMax);
      StopKeeps(a, turns[k], cloneMax);
      var stop := OneTurn(clones, turns[k], cloneMax);
      if stop {
        return;
      }
      k := k + 1;
    }
    RunFrom(AccountOf(clones), turns, k, cloneMax);
  }

  /** The control loop of stress_clone_child with its final drain and free.  Every clone call that the
      turns lead to is waited for once, in order; as many nodes are mapped as clones were ever active
      at once, and each of them is unmapped once. */
  method Child(cloneMax: nat, turns: seq<Turn>)
    returns (unmapped: seq<Node>, ghost waited: seq<int>, ghost mapped: set<Node>, ghost trace: seq<Access<Node>>)
    ensures waited == Begun(NOTHING, turns, cloneMax)
    ensures |unmapped| == Peak(NOTHING, turns, cloneMax) <= cloneMax
    ensures NoRepeats(unmapped) && mapped == set n | n in unmapped
    ensures trace == InTurn(unmapped) && Safe(trace)
  {
    hide NoRepeats, Safe, Linked, Chained, Run, Begun, Peak;
    RunAccounts(NOTHING, turns, cloneMax);
    RunNodes(NOTHING, turns, cloneMax);
    PeakBound(NOTHING, turns, cloneMax);
    var clones := new Clones();
    assert AccountOf(clones) == NOTHING;
    ControlLoop(clones, turns, cloneMax);
    Drain(clones);
    waited, mapped := clones.waited, clones.mapped;
    unmapped, trace := clones.Free();
    assert unmapped == clones.active + clones.spare;
  }
}

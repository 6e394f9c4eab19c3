/** Runs of the daemon: its passes follow the controller, so what holds of every run of the controller
    holds of the files that the daemon counts. */
module SwapRuns {
  import opened Sequences
  import opened SwapDaemon
  import opened SwapFiles

  /** What one pass meets: the memory available outside the swap files, which the daemon does not see,
      what it reads, and how the system answers its calls.  `calls.name` identifies the file that
      mkstemp would create, and `swapoffs(i)` is the answer of swapoff for file `i` if the daemon gives
      up. */
  datatype Event = Event(outside: int, reading: int, calls: AddCalls, offOk: bool, swapoffs: nat -> bool)

  /** `gain` tells how much each file adds to the memory available. */
  function PassOf(c: Config, gain: nat -> nat, e: Event): Pass
  {
    Pass(e.outside, gain(e.calls.name), e.calls.Succeed(c.Pages()), e.offOk)
  }

  function Passes(c: Config, gain: nat -> nat, events: seq<Event>): (ps: seq<Pass>)
    ensures |ps| == |events| && forall i :: 0 <= i < |events| ==> ps[i] == PassOf(c, gain, events[i])
  {
    seq(|events|, i requires 0 <= i < |events| => PassOf(c, gain, events[i]))
  }

  function Gains(files: seq<nat>, gain: nat -> nat): (s: seq<nat>)
    ensures |s| == |files| && forall i :: 0 <= i < |files| ==> s[i] == gain(files[i])
  {
    seq(|files|, i requires 0 <= i < |files| => gain(files[i]))
  }

  /** `st` holds the contributions of exactly the files in use: those that the daemon counts, and the
      `lost` ones that it does not. */
  ghost predicate Represents(d: Daemon, st: State, gain: nat -> nat, lost: seq<nat>)
    reads d, d.swamfile, d.page
  {
    && d.Valid()
    && st.gains == Gains(d.Files(), gain)
    && NoRepeats(lost) && (forall f :: f in lost <==> f in d.active - d.Tracked())
    && st.stuck == Sum(Gains(lost, gain))
  }

  lemma SumAppend(s: seq<nat>, x: nat)
    ensures Sum(s + [x]) == Sum(s) + x
  {
    assert (s + [x])[..|s|] == s;
  }

  lemma Lose(lost: seq<nat>, f: nat, gain: nat -> nat)
    requires NoRepeats(lost) && f !in lost
    ensures NoRepeats(lost + [f])
    ensures Sum(Gains(lost + [f], gain)) == Sum(Gains(lost, gain)) + gain(f)
  {
    assert Gains(lost + [f], gain) == Gains(lost, gain) + [gain(f)];
    SumAppend(Gains(lost, gain), gain(f));
  }

  /** The controller's next state, in terms of files: `all` are those counted before, with the new one
      if there is one. */
  lemma NextFiles(c: Config, st: State, p: Pass, gain: nat -> nat, files: seq<nat>, all: seq<nat>)
    requires st.gains == Gains(files, gain)
    requires Gains(all, gain) == AfterAdd(c, st, p).gains
    ensures var next := Next(c, st, p);
            && |next.gains| == |all| - (if RemovesNow(c, st, p) then 1 else 0)
            && next.gains == Gains(all[..|next.gains|], gain)
            && next.stuck ==
               st.stuck + (if RemovesNow(c, st, p) && !p.offOk then gain(all[|all| - 1]) else 0)
  {
    var next := Next(c, st, p);
    assert next.gains == Gains(all[..|next.gains|], gain);
  }

  /** The files that a pass leaves: of all that it counted or put into use, the last is dropped if it
      removes one, and then lost if swapoff fails. */
  method PassFiles(d: Daemon, e: Event) returns (exited: bool, ghost all: seq<nat>)
    requires d.Valid() && e.calls.name !in d.active
    modifies d`chunks, d`active, d.swamfile, d.page
    ensures d.Valid() && d.active <= old(d.active) + {e.calls.name}
    ensures exited <==> d.cfg.Adds(e.reading, old(d.chunks)) && e.calls.Abort()
    ensures exited ==> d.chunks == 0
    ensures all == old(d.Files() + d.NewFiles(e.reading, d.chunks, e.calls))
    ensures !exited ==>
              if d.cfg.Removes(e.reading, |all|) then
                && |all| > 0 && d.Files() == all[..|all| - 1]
                && d.active - d.Tracked() ==
                   old(d.active - d.Tracked()) + if e.offOk then {} else {all[|all| - 1]}
              else
                d.Files() == all && d.active - d.Tracked() == old(d.active - d.Tracked())
  {
    hide IsHeader, IsZero, Config.Adds, Config.RemoveMark, Config.Accepted, AddCalls.Succeed, AddCalls.Abort;
    hide Daemon.Gone, Daemon.Tracked;
    all := d.Files() + d.NewFiles(e.reading, d.chunks, e.calls);
    var n := d.chunks;
    exited := d.MainPass(e.reading, e.calls, e.offOk, seq(n, i requires 0 <= i < n => e.swapoffs(i)));
  }

  /** A pass whose reading is the memory available takes the controller to its next state. */
  method FollowPass(d: Daemon, e: Event, ghost gain: nat -> nat, ghost st: State, ghost lost: seq<nat>)
    returns (exited: bool, ghost lost': seq<nat>)
    requires Represents(d, st, gain, lost) && e.calls.name !in d.active
    requires e.reading == Available(st, PassOf(d.cfg, gain, e))
    modifies d`chunks, d`active, d.swamfile, d.page
    ensures d.Valid() && d.active <= old(d.active) + {e.calls.name}
    ensures exited <==> d.cfg.Adds(e.reading, old(d.chunks)) && e.calls.Abort()
    ensures exited ==> d.chunks == 0
    ensures !exited ==> Represents(d, Next(d.cfg, st, PassOf(d.cfg, gain, e)), gain, lost')
  {
    hide NoRepeats, Sum, Gains, Next, Config.Adds, Config.Removes, Config.Accepted, AddCalls.Succeed, AddCalls.Abort;
    hide IsHeader, IsZero, Daemon.Tracked;
    ghost var p := PassOf(d.cfg, gain, e);
    ghost var files := d.Files();
    ghost var more := d.NewFiles(e.reading, d.chunks, e.calls);
    GainsOfAll(files, more, gain);
    NextFiles(d.cfg, st, p, gain, files, files + more);
    NoneLost(d, lost, more);
    ghost var all;
    exited, all := PassFiles(d, e);
    lost' := lost;
    if !exited && RemovesNow(d.cfg, st, p) && !e.offOk {
      Lose(lost, all[|all| - 1], gain);
      lost' := lost + [all[|all| - 1]];
    }
  }

  /** No file that the daemon counts or creates is lost. */
  lemma NoneLost(d: Daemon, lost: seq<nat>, more: seq<nat>)
    requires d.Valid() && forall f :: f in lost ==> f in d.active - d.Tracked()
    requires forall f :: f in more ==> f !in d.active
    ensures forall i :: 0 <= i < |d.Files() + more| ==> (d.Files() + more)[i] !in lost
  {}

  lemma GainsOfAll(files: seq<nat>, more: seq<nat>, gain: nat -> nat)
    ensures Gains(files + more, gain) == Gains(files, gain) + Gains(more, gain)
    ensures |more| == 1 ==> Gains(more, gain) == [gain(more[0])]
    ensures more == [] ==> Gains(more, gain) == []
  {}

  // ---- runs

  /** The numbers of files counted before, between and after the passes of the controller. */
  function Counts(c: Config, st: State, ps: seq<Pass>): (counts: seq<nat>)
    ensures |counts| == |ps| + 1 && counts[0] == |st.gains|
    decreases |ps|
  {
    [|st.gains|] + if ps == [] then [] else Counts(c, Next(c, st, ps[0]), ps[1..])
  }

  function StateAfter(c: Config, st: State, ps: seq<Pass>): State
    decreases |ps|
  {
    if ps == [] then st else StateAfter(c, Next(c, st, ps[0]), ps[1..])
  }

  lemma {:induction false} RunAppend(c: Config, st: State, ps: seq<Pass>, p: Pass)
    ensures StateAfter(c, st, ps + [p]) == Next(c, StateAfter(c, st, ps), p)
    ensures Counts(c, st, ps + [p]) == Counts(c, st, ps) + [|StateAfter(c, st, ps + [p]).gains|]
    decreases |ps|
  {
    hide Next;
    if ps == [] {
      assert ([] + [p])[1..] == [];
      assert Counts(c, Next(c, st, p), []) == [|Next(c, st, p).gains|];
    } else {
      assert (ps + [p])[1..] == ps[1..] + [p];
      RunAppend(c, Next(c, st, ps[0]), ps[1..], p);
    }
  }

  ghost predicate Grows(counts: seq<nat>)
  {
    forall i :: 0 <= i < |counts| - 1 ==> counts[i] <= counts[i + 1]
  }

  ghost predicate Shrinks(counts: seq<nat>)
  {
    forall i :: 0 <= i < |counts| - 1 ==> counts[i] >= counts[i + 1]
  }

  lemma {:induction false} OneWay(c: Config, st: State, ps: seq<Pass>)
    ensures !EverRemoves(c, st, ps) ==> Grows(Counts(c, st, ps))
    ensures !EverAdds(c, st, ps) ==> Shrinks(Counts(c, st, ps))
    decreases |ps|
  {
    if ps != [] {
      var next := Next(c, st, ps[0]);
      OneWay(c, next, ps[1..]);
      var counts, rest := Counts(c, st, ps), Counts(c, next, ps[1..]);
      assert forall i :: 0 < i < |counts| ==> counts[i] == rest[i - 1];
    }
  }

  const START := State([], 0)

  /** The outside memory of a run stays within a band that the hysteresis covers. */
  ghost predicate Steady(c: Config, ps: seq<Pass>, low: int, band: nat)
  {
    c.chunksz + c.upper <= INT_MAX && band <= c.upper - c.lower + 1 && Within(c, START, ps, low, band)
  }

  /** The daemon gives up in pass `i` of a run. */
  predicate GivesUp(c: Config, ps: seq<Pass>, events: seq<Event>, i: nat)
    requires i < |ps| == |events|
  {
    var st := StateAfter(c, START, ps[..i]);
    c.Adds(Available(st, ps[i]), |st.gains|) && events[i].calls.Abort()
  }

  /** Every reading is the memory outside plus what the files in use add, as the passes before left
      them. */
  ghost predicate ReadsAvailable(c: Config, ps: seq<Pass>, events: seq<Event>)
    requires |ps| == |events|
  {
    forall i :: 0 <= i < |events| ==> events[i].reading == Available(StateAfter(c, START, ps[..i]), ps[i])
  }

  /** The daemon from its start until it gives up or the events end; `counts` are its numbers of files
      before, between and after the passes.  They are those of the controller, and so is what the
      daemon holds in the end; so if the outside memory is steady they only grow, or they only
      shrink. */
  method RunDaemon(c: Config, events: seq<Event>, ghost gain: nat -> nat)
    returns (d: Daemon, counts: seq<nat>, exited: bool, ghost lost: seq<nat>)
    requires c.Accepted() && ReadsAvailable(c, Passes(c, gain, events), events)
    requires forall i, j :: 0 <= i < j < |events| ==> events[i].calls.name != events[j].calls.name
    ensures fresh(d) && d.Valid() && d.cfg == c
    ensures 0 < |counts| <= |events| + 1
    ensures forall i :: 0 <= i < |counts| - 1 ==> !GivesUp(c, Passes(c, gain, events), events, i)
    ensures exited ==>
              |counts| <= |events| && GivesUp(c, Passes(c, gain, events), events, |counts| - 1) && d.chunks == 0
    ensures !exited ==>
              && |counts| == |events| + 1 && d.chunks == counts[|events|]
              && Represents(d, StateAfter(c, START, Passes(c, gain, events)), gain, lost)
    ensures counts == Counts(c, START, Passes(c, gain, events)[..|counts| - 1])
    ensures forall low: int, band: nat :: Steady(c, Passes(c, gain, events), low, band) ==>
                                            Grows(counts) || Shrinks(counts)
  {
    hide Daemon.Valid, Represents, GivesUp, Next, Counts, StateAfter, Steady, Grows, Shrinks, Gains, Config.Accepted;
    d := new Daemon(c);
    var k := 0;
    ghost var ps, st := Passes(c, gain, events), START;
    counts, exited, lost := [d.chunks], false, [];
    StartsEmpty(d, gain);
    NoPasses(c, ps[..0]);
    while k < |events|
      invariant 0 <= k <= |events| && |counts| == k + 1 && !exited
      invariant fresh(d) && fresh(d.swamfile) && fresh(d.page) && d.cfg == c && Represents(d, st, gain, lost)
      invariant forall f :: f in d.active ==> exists i :: 0 <= i < k && events[i].calls.name == f
      invariant forall i :: 0 <= i < k ==> !GivesUp(c, ps, events, i)
      invariant st == StateAfter(c, START, ps[..k]) && counts == Counts(c, START, ps[..k]) && counts[k] == d.chunks
    {
      SameCount(d, st, gain, lost);
      GivesUpIs(c, ps, events, k, st);
      exited, lost := FollowPass(d, events[k], gain, st, lost);
      assert GivesUp(c, ps, events, k) <==> exited;
      if exited {
        break;
      }
      RunAppend(c, START, ps[..k], ps[k]);
      assert ps[..k + 1] == ps[..k] + [ps[k]];
      st := Next(c, st, ps[k]);
      SameCount(d, st, gain, lost);
      counts := counts + [d.chunks];
      k := k + 1;
    }
    SteadyRun(c, ps, k);
    if !exited {
      assert ps[..k] == ps;
      SameCount(d, st, gain, lost);
    }
  }

  lemma GivesUpIs(c: Config, ps: seq<Pass>, events: seq<Event>, i: nat, st: State)
    requires i < |ps| == |events| && st == StateAfter(c, START, ps[..i])
    ensures GivesUp(c, ps, events, i) <==> c.Adds(Available(st, ps[i]), |st.gains|) && events[i].calls.Abort()
  {}

  lemma SameCount(d: Daemon, st: State, gain: nat -> nat, lost: seq<nat>)
    requires Represents(d, st, gain, lost)
    ensures |st.gains| == d.chunks && d.Valid()
  {}

  lemma NoPasses(c: Config, ps: seq<Pass>)
    requires ps == []
    ensures StateAfter(c, START, ps) == START && Counts(c, START, ps) == [0]
  {}

  lemma StartsEmpty(d: Daemon, gain: nat -> nat)
    requires d.Valid() && d.chunks == 0 && d.active == {}
    ensures Represents(d, START, gain, [])
  {
    assert d.Tracked() == {};
    assert Sum([]) == 0;
  }

  lemma SteadyRun(c: Config, ps: seq<Pass>, k: nat)
    requires c.Accepted() && k <= |ps|
    ensures forall low: int, band: nat :: Steady(c, ps, low, band) ==>
                                            Grows(Counts(c, START, ps[..k])) || Shrinks(Counts(c, START, ps[..k]))
  {
    hide Grows, Shrinks, Counts;
    forall low: int, band: nat | Steady(c, ps, low, band)
      ensures Grows(Counts(c, START, ps[..k])) || Shrinks(Counts(c, START, ps[..k]))
    {
      NeverBoth(c, START, ps[..k], low, band);
      OneWay(c, START, ps[..k]);
    }
  }

  // ---- runs at the two ends

  lemma NoPassesFrom(c: Config, st: State, ps: seq<Pass>)
    requires ps == []
    ensures StateAfter(c, st, ps) == st
  {}

  lemma Prefix(ps: seq<Pass>, k: nat)
    requires k < |ps|
    ensures ps[..k + 1] == ps[..k] + [ps[k]]
  {}

  /** While memory is always low and every addition succeeds, `k` passes leave `k` files in use, up to
      the greatest number allowed. */
  lemma {:induction false} AlwaysLow(c: Config, ps: seq<Pass>, k: nat)
    requires c.Accepted() && c.chunksz + c.upper <= INT_MAX && k <= |ps|
    requires forall i :: 0 <= i < |ps| ==> ps[i].addOk && Available(StateAfter(c, START, ps[..i]), ps[i]) < c.lower
    ensures |StateAfter(c, START, ps[..k]).gains| == if k < c.numchunks then k else c.numchunks
  {
    hide StateAfter, Available, Sum;
    if k == 0 {
      NoPasses(c, ps[..0]);
    } else {
      AlwaysLow(c, ps, k - 1);
      Prefix(ps, k - 1);
      RunAppend(c, START, ps[..k - 1], ps[k - 1]);
      assert c.RemoveMark() == c.chunksz + c.upper;
    }
  }

  /** While memory is always high, each pass drops a file, down to none. */
  lemma {:induction false} AlwaysHigh(c: Config, st: State, ps: seq<Pass>, k: nat)
    requires c.Accepted() && c.chunksz + c.upper <= INT_MAX && k <= |ps|
    requires forall i :: 0 <= i < |ps| ==> Available(StateAfter(c, st, ps[..i]), ps[i]) > c.chunksz + c.upper
    ensures |StateAfter(c, st, ps[..k]).gains| == if k < |st.gains| then |st.gains| - k else 0
  {
    hide StateAfter, Available, Sum;
    if k == 0 {
      NoPassesFrom(c, st, ps[..0]);
    } else {
      AlwaysHigh(c, st, ps, k - 1);
      Prefix(ps, k - 1);
      RunAppend(c, st, ps[..k - 1], ps[k - 1]);
      assert c.RemoveMark() == c.chunksz + c.upper;
    }
  }
}

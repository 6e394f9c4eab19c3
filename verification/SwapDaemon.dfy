/** The controller of the adaptive swap daemon: two water marks decide when a swap file is added or
    removed. */
module SwapDaemon {
  import opened Words

  const PAGE_SIZE := 4096
  const INT_MAX := 0x7fff_ffff

  /** The option values, all of C type int. */
  datatype Config = Config(lower: int, upper: int, chunksz: int, numchunks: int) {

    /** What ckconf and the option parser let through. */
    predicate Accepted()
    {
      && 2 * PAGE_SIZE <= chunksz <= (PAGE_SIZE - 10) * 8 * PAGE_SIZE
      && 0 < lower <= upper <= INT_MAX
      && 0 < numchunks <= INT_MAX
    }

    function Pages(): int
    {
      chunksz / PAGE_SIZE
    }

    /** `chunksz + upper` in 32-bit two's complement. */
    function RemoveMark(): int
    {
      (chunksz + upper + INT_MAX + 1) % TWO32 - INT_MAX - 1
    }

    /** The test for adding a file when `swap` bytes are available and `chunks` files are in use. */
    predicate Adds(swap: int, chunks: int)
    {
      swap < lower && chunks < numchunks
    }

    predicate Removes(swap: int, chunks: int)
    {
      swap > RemoveMark() && chunks > 0
    }
  }

  // ---- the controller

  /** No pass both adds and removes, whatever it reads, exactly if the sum of the chunk size and the
      upper mark fits an int. */
  lemma PassDoesOneThing(c: Config)
    requires c.Accepted()
    ensures (forall swap: int, chunks: nat :: c.Adds(swap, chunks) ==> !c.Removes(swap, chunks + 1)) <==>
            c.chunksz + c.upper <= INT_MAX
  {
    if c.chunksz + c.upper <= INT_MAX {
      assert c.RemoveMark() == c.chunksz + c.upper;
    } else {
      assert c.RemoveMark() == c.chunksz + c.upper - TWO32;
      assert c.Adds(0, 0) && c.Removes(0, 0 + 1);
    }
  }

  /** What a pass meets: the memory available outside the swap files, what a new file would add to it,
      and whether adding a file and swapoff succeed. */
  datatype Pass = Pass(outside: int, gain: nat, addOk: bool, offOk: bool)

  /** The contributions of the files in use, the last added last, and those of files that swapoff
      failed on and that the daemon no longer counts. */
  datatype State = State(gains: seq<nat>, stuck: nat)

  function Sum(s: seq<nat>): nat
  {
    if s == [] then 0 else Sum(s[..|s| - 1]) + s[|s| - 1]
  }

  function Available(st: State, p: Pass): int
  {
    p.outside + Sum(st.gains) + st.stuck
  }

  predicate AddsNow(c: Config, st: State, p: Pass)
  {
    c.Adds(Available(st, p), |st.gains|) && p.addOk
  }

  function AfterAdd(c: Config, st: State, p: Pass): State
  {
    if AddsNow(c, st, p) then st.(gains := st.gains + [p.gain]) else st
  }

  predicate RemovesNow(c: Config, st: State, p: Pass)
  {
    c.Removes(Available(st, p), |AfterAdd(c, st, p).gains|)
  }

  /** One pass of the main loop; the availability is read once, at its start. */
  function Next(c: Config, st: State, p: Pass): State
  {
    var mid := AfterAdd(c, st, p);
    if RemovesNow(c, st, p) then
      var last := |mid.gains| - 1;
      State(mid.gains[..last], if p.offOk then mid.stuck else mid.stuck + mid.gains[last])
    else mid
  }

  predicate EverAdds(c: Config, st: State, ps: seq<Pass>)
    decreases |ps|
  {
    ps != [] && (AddsNow(c, st, ps[0]) || EverAdds(c, Next(c, st, ps[0]), ps[1..]))
  }

  predicate EverRemoves(c: Config, st: State, ps: seq<Pass>)
    decreases |ps|
  {
    ps != [] && (RemovesNow(c, st, ps[0]) || EverRemoves(c, Next(c, st, ps[0]), ps[1..]))
  }

  /** The outside memory stays within `band` of `low`, and no file gives more than its size. */
  predicate Within(c: Config, st: State, ps: seq<Pass>, low: int, band: nat)
  {
    && (forall i :: 0 <= i < |ps| ==> low <= ps[i].outside <= low + band && ps[i].gain <= c.chunksz)
    && (forall i :: 0 <= i < |st.gains| ==> st.gains[i] <= c.chunksz)
  }

  function Total(st: State): nat
  {
    Sum(st.gains) + st.stuck
  }

  lemma NextTotal(c: Config, st: State, p: Pass)
    requires c.Accepted() && c.chunksz + c.upper <= INT_MAX
    requires p.gain <= c.chunksz && forall i :: 0 <= i < |st.gains| ==> st.gains[i] <= c.chunksz
    ensures AddsNow(c, st, p) ==> !RemovesNow(c, st, p) && Total(Next(c, st, p)) == Total(st) + p.gain
    ensures RemovesNow(c, st, p) ==> Total(st) - c.chunksz <= Total(Next(c, st, p)) <= Total(st)
    ensures !AddsNow(c, st, p) && !RemovesNow(c, st, p) ==> Next(c, st, p) == st
    ensures forall i :: 0 <= i < |Next(c, st, p).gains| ==> Next(c, st, p).gains[i] <= c.chunksz
  {
    PassDoesOneThing(c);
    if AddsNow(c, st, p) {
      assert (st.gains + [p.gain])[..|st.gains|] == st.gains;
    }
  }

  lemma {:induction false} NoRemoveAfterAdd(c: Config, st: State, ps: seq<Pass>, low: int, band: nat)
    requires c.Accepted() && c.chunksz + c.upper <= INT_MAX && band <= c.upper - c.lower + 1
    requires Within(c, st, ps, low, band) && low + Total(st) < c.lower + c.chunksz
    ensures !EverRemoves(c, st, ps)
    decreases |ps|
  {
    hide Sum;
    if ps != [] {
      NextTotal(c, st, ps[0]);
      assert c.RemoveMark() == c.chunksz + c.upper;
      NoRemoveAfterAdd(c, Next(c, st, ps[0]), ps[1..], low, band);
    }
  }

  lemma {:induction false} NoAddAfterRemove(c: Config, st: State, ps: seq<Pass>, low: int, band: nat)
    requires c.Accepted() && c.chunksz + c.upper <= INT_MAX && band <= c.upper - c.lower + 1
    requires Within(c, st, ps, low, band) && low + band + Total(st) > c.upper
    ensures !EverAdds(c, st, ps)
    decreases |ps|
  {
    hide Sum;
    if ps != [] {
      NextTotal(c, st, ps[0]);
      assert c.RemoveMark() == c.chunksz + c.upper;
      NoAddAfterRemove(c, Next(c, st, ps[0]), ps[1..], low, band);
    }
  }

  lemma {:induction false} NeverBoth(c: Config, st: State, ps: seq<Pass>, low: int, band: nat)
    requires c.Accepted() && c.chunksz + c.upper <= INT_MAX && band <= c.upper - c.lower + 1
    requires Within(c, st, ps, low, band)
    ensures !(EverAdds(c, st, ps) && EverRemoves(c, st, ps))
    decreases |ps|
  {
    hide Sum;
    if ps != [] {
      var next := Next(c, st, ps[0]);
      NextTotal(c, st, ps[0]);
      assert c.RemoveMark() == c.chunksz + c.upper;
      if AddsNow(c, st, ps[0]) {
        NoRemoveAfterAdd(c, next, ps[1..], low, band);
      } else if RemovesNow(c, st, ps[0]) {
        NoAddAfterRemove(c, next, ps[1..], low, band);
      } else {
        NeverBoth(c, next, ps[1..], low, band);
      }
    }
  }

  ghost predicate Oscillates(c: Config, st: State, ps: seq<Pass>, low: int, band: nat)
  {
    Within(c, st, ps, low, band) && EverAdds(c, st, ps) && EverRemoves(c, st, ps)
  }

  /** The hysteresis of the controller is exactly `upper - lower + 1`: with the outside memory moving
      within a band of that width no run both adds and removes files, and with a band one byte wider
      some run does. */
  lemma Hysteresis(c: Config, band: nat)
    requires c.Accepted() && c.chunksz + c.upper <= INT_MAX
    ensures (forall st: State, ps: seq<Pass>, low: int :: !Oscillates(c, st, ps, low, band)) <==>
            band <= c.upper - c.lower + 1
  {
    if band <= c.upper - c.lower + 1 {
      forall st: State, ps: seq<Pass>, low: int ensures !Oscillates(c, st, ps, low, band) {
        if Within(c, st, ps, low, band) { NeverBoth(c, st, ps, low, band); }
      }
    } else {
      var low := c.lower - 1;
      var first, second := Pass(low, c.chunksz, true, true), Pass(c.upper + 1, 0, true, true);
      var st, mid := State([], 0), State([c.chunksz], 0);
      assert c.RemoveMark() == c.chunksz + c.upper;
      assert [] + [c.chunksz] == [c.chunksz];
      assert Sum(mid.gains) == c.chunksz by { assert mid.gains[..0] == []; }
      assert Available(st, first) == low;
      assert AddsNow(c, st, first) && Next(c, st, first) == mid;
      assert RemovesNow(c, mid, second);
      assert [first, second][1..] == [second];
      assert EverRemoves(c, mid, [second]);
      assert Oscillates(c, st, [first, second], low, band);
    }
  }

  /** With constant outside memory the controller never oscillates. */
  lemma ConstantOutside(c: Config, st: State, ps: seq<Pass>, low: int)
    requires c.Accepted() && c.chunksz + c.upper <= INT_MAX && Within(c, st, ps, low, 0)
    ensures !(EverAdds(c, st, ps) && EverRemoves(c, st, ps))
  {
    NeverBoth(c, st, ps, low, 0);
  }
}

/** Sequences of heap nodes: lists without repeats, and the order in which a cleanup loop reads and
    releases the nodes of a list. */
module Sequences {

  ghost predicate NoRepeats<T>(s: seq<T>)
  {
    forall i, j :: 0 <= i < j < |s| ==> s[i] != s[j]
  }

  /** What a cleanup loop does with a node: it reads the link to the next one, and it hands the node
      to `free` or `munmap`. */
  datatype Access<T> = Read(node: T) | Release(node: T)

  /** A released node is neither read nor released again. */
  ghost predicate Safe<T>(trace: seq<Access<T>>)
  {
    forall i, j :: 0 <= i < j < |trace| && trace[i].Release? ==> trace[j].node != trace[i].node
  }

  /** Every node of `s` in turn is read and then released. */
  ghost function InTurn<T>(s: seq<T>): (trace: seq<Access<T>>)
    ensures |trace| == 2 * |s|
  {
    seq(2 * |s|, i requires 0 <= i < 2 * |s| => if i % 2 == 0 then Read(s[i / 2]) else Release(s[i / 2]))
  }

  lemma InTurnAppend<T>(s: seq<T>, x: T)
    ensures InTurn(s + [x]) == (InTurn(s) + [Read(x)]) + [Release(x)]
  {
    var t, u := InTurn(s + [x]), (InTurn(s) + [Read(x)]) + [Release(x)];
    forall i | 0 <= i < |t| ensures t[i] == u[i] {
      if i < 2 * |s| { assert (s + [x])[i / 2] == s[i / 2]; }
    }
  }

  /** Releasing the nodes in turn is safe exactly if no node occurs twice. */
  lemma InTurnSafe<T>(s: seq<T>)
    ensures Safe(InTurn(s)) <==> NoRepeats(s)
  {
    var t := InTurn(s);
    if NoRepeats(s) {
      forall i, j | 0 <= i < j < |t| && t[i].Release? ensures t[j].node != t[i].node {
        assert i / 2 < j / 2;
      }
    }
    if Safe(t) {
      forall i, j | 0 <= i < j < |s| ensures s[i] != s[j] {
        assert t[2 * i + 1] == Release(s[i]) && t[2 * j + 1] == Release(s[j]);
      }
    }
  }
}

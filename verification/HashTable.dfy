/** The chained hash table of strings: it refines a map from the strings added to their nodes. */
module HashTable {
  import opened Hashes
  import opened HashInverses
  import opened Sequences
  import opened Words

  type Str = seq<Byte>

  class Node {
    const str: Str
    var next: Node?

    constructor (str: Str, next: Node?)
      ensures this.str == str && this.next == next
    {
      this.str := str;
      this.next := next;
    }
  }

  /** `stress_hash_sdbm(str) % n`. */
  function Bucket(s: Str, signed: bool, n: nat): (h: nat)
    requires n > 0
    ensures h < n
  {
    Sdbm(s, signed) % n
  }

  /** The bucket is found from the characters as digits in base 65599. */
  lemma BucketIs(s: Str, signed: bool, n: nat)
    requires n > 0
    ensures Bucket(s, signed, n) == Value(Chars(s, signed)) % TWO32 % n
  {
    hide Sdbm, Value;
    SdbmExact(s, signed);
  }

  /** `chain` is the list of nodes from `head` to the end of its next links. */
  ghost predicate Linked(head: Node?, chain: seq<Node>)
    reads chain
  {
    if chain == [] then head == null
    else head == chain[0] && Linked(chain[0].next, chain[1..])
  }

  ghost predicate Distinct(chain: seq<Node>)
  {
    forall i, j :: 0 <= i < j < |chain| ==> chain[i].str != chain[j].str
  }

  /** The first node of a chain that holds `s`. */
  ghost function Lookup(chain: seq<Node>, s: Str): (r: Node?)
    ensures r == null ==> forall i :: 0 <= i < |chain| ==> chain[i].str != s
    ensures r != null ==> r in chain && r.str == s
  {
    if chain == [] then null
    else if chain[0].str == s then chain[0]
    else Lookup(chain[1..], s)
  }

  /** stress_hash_find. */
  method Find(head: Node?, s: Str, ghost chain: seq<Node>) returns (r: Node?)
    requires Linked(head, chain)
    ensures r == Lookup(chain, s)
  {
    var hash := head;
    ghost var rest := chain;
    while hash != null
      invariant Linked(hash, rest)
      invariant Lookup(rest, s) == Lookup(chain, s)
      decreases |rest|
    {
      if s == hash.str {
        return hash;
      }
      hash := hash.next;
      rest := rest[1..];
    }
    return null;
  }

  /** stress_hash_create; `oom` tells which of the two allocations fails, if any. */
  method Create(n: nat, signed: bool, oom: bool) returns (t: Table?)
    ensures t == null <==> n == 0 || oom
    ensures t != null ==> fresh(t) && fresh(t.table) && t.Valid() && t.table.Length == n && t.signed == signed
    ensures t != null ==> t.Nodes() == {} && forall s :: t.At(s) == null
  {
    if n == 0 || oom {
      return null;
    }
    t := new Table(n, signed);
  }

  class Table {
    const table: array<Node?>
    const signed: bool
    /** The nodes of every bucket, in chain order. */
    ghost var chains: seq<seq<Node>>

    ghost predicate BucketValid(b: nat)
      requires b < |chains| == table.Length
      reads this, table, chains[b]
    {
      && Linked(table[b], chains[b])
      && Distinct(chains[b])
      && forall i :: 0 <= i < |chains[b]| ==> Bucket(chains[b][i].str, signed, table.Length) == b
    }

    ghost function Nodes(): set<Node>
      reads this
    {
      set b, i | 0 <= b < |chains| && 0 <= i < |chains[b]| :: chains[b][i]
    }

    /** Every entry sits in the bucket of its string, and no string occurs twice. */
    ghost predicate Valid()
      reads this, table, Nodes()
    {
      && |chains| == table.Length > 0
      && forall b :: 0 <= b < |chains| ==> BucketValid(b)
    }

    /** The abstract map: the node that holds `s`, or null. */
    ghost function At(s: Str): Node?
      requires Valid()
      reads this, table, Nodes()
    {
      Lookup(chains[Bucket(s, signed, table.Length)], s)
    }

    /** The map has a node for `s` exactly if some node in the table holds `s`. */
    lemma AtMeaning(s: Str)
      requires Valid()
      ensures At(s) != null ==> At(s) in Nodes() && At(s).str == s
      ensures forall n :: n in Nodes() && n.str == s ==> At(s) == n
    {
      hide Bucket;
      forall n | n in Nodes() && n.str == s ensures At(s) == n {
        var b, i :| 0 <= b < |chains| && 0 <= i < |chains[b]| && chains[b][i] == n;
        assert BucketValid(b);
        assert b == Bucket(s, signed, table.Length);
        assert forall j :: 0 <= j < |chains[b]| && chains[b][j].str == s ==> j == i;
      }
    }

    constructor (n: nat, signed: bool)
      requires n > 0
      ensures Valid() && table.Length == n && this.signed == signed && fresh(table)
      ensures Nodes() == {} && forall s :: At(s) == null
    {
      table := new Node?[n](_ => null);
      this.signed := signed;
      chains := seq(n, _ => []);
    }

    /** stress_hash_get. */
    method Get(s: Str) returns (r: Node?)
      requires Valid()
      ensures r == At(s)
    {
      var h := Bucket(s, signed, table.Length);
      assert BucketValid(h);
      r := Find(table[h], s, chains[h]);
    }

    /** stress_hash_add: a string already present returns its node and changes nothing; otherwise a
        new node is added, unless malloc fails. */
    method Add(s: Str, oom: bool) returns (r: Node?)
      requires Valid()
      modifies this, table
      ensures Valid()
      ensures old(At(s)) != null || oom ==> r == old(At(s)) && chains == old(chains) && Nodes() == old(Nodes())
      ensures old(At(s)) == null && !oom ==> r != null && fresh(r) && r.str == s && Nodes() == old(Nodes()) + {r}
      ensures At(s) == r
      ensures forall t :: t != s ==> At(t) == old(At(t))
    {
      hide Bucket, Distinct;
      var h := Bucket(s, signed, table.Length);
      assert BucketValid(h);
      r := Find(table[h], s, chains[h]);
      if r != null || oom {
        return;
      }
      r := new Node(s, table[h]);
      table[h] := r;
      Inserted(r, chains[h]);
      ghost var before := chains;
      chains := chains[h := [r] + chains[h]];
      forall b | 0 <= b < |chains| ensures BucketValid(b) {
        assert old(BucketValid(b));
      }
      InsertedNodes(before, h, r);
    }

    /** stress_hash_delete: frees the nodes of every bucket in turn; `freed` is the order of the calls
        to free, each node once, and `trace` shows that no node is read after it was freed. */
    method Delete() returns (freed: seq<Node>, ghost trace: seq<Access<Node>>)
      requires Valid()
      ensures NoRepeats(freed)
      ensures forall n :: n in freed <==> n in Nodes()
      ensures trace == InTurn(freed) && Safe(trace)
    {
      hide NoRepeats, Safe, Distinct;
      freed, trace := [], [];
      for i := 0 to table.Length
        invariant freed == Flatten(chains[..i]) && trace == InTurn(freed)
      {
        assert BucketValid(i);
        var hash := table[i];
        ghost var rest := chains[i];
        while hash != null
          invariant Linked(hash, rest)
          invariant freed + rest == Flatten(chains[..i]) + chains[i] && trace == InTurn(freed)
          decreases |rest|
        {
          trace := trace + [Read(hash)];
          var next := hash.next;
          MoveOver(freed, hash, rest);
          InTurnAppend(freed, hash);
          freed := freed + [hash];
          trace := trace + [Release(hash)];
          hash := next;
          rest := rest[1..];
        }
        assert chains[..i + 1][..i] == chains[..i];
      }
      assert chains[..|chains|] == chains;
      FlattenNodes();
      InTurnSafe(freed);
    }

    lemma FlattenNodes()
      requires Valid()
      ensures NoRepeats(Flatten(chains))
      ensures forall n :: n in Flatten(chains) <==> n in Nodes()
    {
      forall b, c | 0 <= b < c < |chains| ensures Disjoint(chains[b], chains[c]) {
        assert BucketValid(b) && BucketValid(c);
      }
      forall b | 0 <= b < |chains| ensures NoRepeats(chains[b]) { assert BucketValid(b); }
      FlattenNoRepeats(chains);
      forall n ensures n in Flatten(chains) <==> n in Nodes() { FlattenMember(chains, n); }
    }
  }

  // ---- chains as sequences

  lemma Inserted(r: Node, chain: seq<Node>)
    requires Distinct(chain) && Lookup(chain, r.str) == null
    ensures Distinct([r] + chain)
    ensures Lookup([r] + chain, r.str) == r
    ensures forall t :: t != r.str ==> Lookup([r] + chain, t) == Lookup(chain, t)
  {
    assert ([r] + chain)[1..] == chain;
  }

  lemma MoveOver(freed: seq<Node>, x: Node, rest: seq<Node>)
    requires rest != [] && rest[0] == x
    ensures freed + rest == (freed + [x]) + rest[1..]
  {}

  ghost predicate Disjoint(s: seq<Node>, t: seq<Node>)
  {
    forall i, j :: 0 <= i < |s| && 0 <= j < |t| ==> s[i] != t[j]
  }

  ghost function Flatten(cs: seq<seq<Node>>): seq<Node>
  {
    if cs == [] then [] else Flatten(cs[..|cs| - 1]) + cs[|cs| - 1]
  }

  lemma {:induction false} FlattenMember(cs: seq<seq<Node>>, n: Node)
    ensures n in Flatten(cs) <==> exists b, i :: 0 <= b < |cs| && 0 <= i < |cs[b]| && cs[b][i] == n
  {
    if cs != [] {
      var front, last := cs[..|cs| - 1], cs[|cs| - 1];
      FlattenMember(front, n);
      if n in Flatten(front) {
        var b, i :| 0 <= b < |front| && 0 <= i < |front[b]| && front[b][i] == n;
        assert cs[b][i] == n;
      }
      if n in last {
        var i :| 0 <= i < |last| && last[i] == n;
        assert cs[|cs| - 1][i] == n;
      }
    }
  }

  lemma {:induction false} FlattenNoRepeats(cs: seq<seq<Node>>)
    requires forall b, c :: 0 <= b < c < |cs| ==> Disjoint(cs[b], cs[c])
    requires forall b :: 0 <= b < |cs| ==> NoRepeats(cs[b])
    ensures NoRepeats(Flatten(cs))
  {
    if cs != [] {
      var front, last := cs[..|cs| - 1], cs[|cs| - 1];
      FlattenNoRepeats(front);
      forall n | n in Flatten(front) ensures n !in last {
        FlattenMember(front, n);
        var b, i :| 0 <= b < |front| && 0 <= i < |front[b]| && front[b][i] == n;
        assert Disjoint(cs[b], last);
      }
      JoinNoRepeats(Flatten(front), last);
    }
  }

  lemma JoinNoRepeats(s: seq<Node>, t: seq<Node>)
    requires NoRepeats(s) && NoRepeats(t) && forall n :: n in s ==> n !in t
    ensures NoRepeats(s + t)
  {
    var u := s + t;
    forall i, j | 0 <= i < j < |u| ensures u[i] != u[j] {
      if i < |s| <= j { assert s[i] !in t; assert u[j] in t; }
    }
  }

  /** The nodes of a table whose bucket `h` has just received `r`. */
  lemma InsertedNodes(before: seq<seq<Node>>, h: nat, r: Node)
    requires h < |before|
    ensures var after := before[h := [r] + before[h]];
            (set b, i | 0 <= b < |after| && 0 <= i < |after[b]| :: after[b][i]) ==
            (set b, i | 0 <= b < |before| && 0 <= i < |before[b]| :: before[b][i]) + {r}
  {
    var after := before[h := [r] + before[h]];
    assert after[h][0] == r;
    forall b, i | 0 <= b < |before| && 0 <= i < |before[b]|
      ensures exists c, j :: 0 <= c < |after| && 0 <= j < |after[c]| && after[c][j] == before[b][i]
    {
      if b == h { assert after[b][i + 1] == before[b][i]; } else { assert after[b][i] == before[b][i]; }
    }
  }

  // ---- runs of operations

  datatype Op = AddOp(str: Str, oom: bool) | GetOp(str: Str)

  /** The operation leaves `s` in the table. */
  predicate Grants(op: Op, s: Str)
  {
    op.AddOp? && !op.oom && op.str == s
  }

  /** Some add of `s` among the first `k` operations found memory. */
  ghost predicate Added(ops: seq<Op>, k: nat, s: Str)
    requires k <= |ops|
  {
    exists j :: 0 <= j < k && Grants(ops[j], s)
  }

  lemma AddedStep(ops: seq<Op>, k: nat, s: Str)
    requires k < |ops|
    ensures Added(ops, k + 1, s) <==> Added(ops, k, s) || Grants(ops[k], s)
  {}

  /** The table holds exactly the strings added so far. */
  ghost predicate Holds(t: Table, ops: seq<Op>, k: nat)
    requires k <= |ops| && t.Valid()
    reads t, t.table, t.Nodes()
  {
    forall s :: t.At(s) != null <==> Added(ops, k, s)
  }

  method Apply(t: Table, ops: seq<Op>, k: nat) returns (r: Node?)
    requires k < |ops| && t.Valid() && Holds(t, ops, k)
    modifies t, t.table
    ensures t.Valid() && Holds(t, ops, k + 1)
    ensures r == t.At(ops[k].str) && (r != null <==> Added(ops, k + 1, ops[k].str))
    ensures forall s :: old(t.At(s)) != null ==> t.At(s) == old(t.At(s))
  {
    hide Added, Lookup;
    match ops[k] {
      case AddOp(s, oom) => r := t.Add(s, oom);
      case GetOp(s) => r := t.Get(s);
    }
    forall s ensures t.At(s) != null <==> Added(ops, k + 1, s) { AddedStep(ops, k, s); }
  }

  /** Over any sequence of operations the table behaves as a set of strings: an operation on a string
      returns a node exactly if the string has been added by then (so an add fails only without
      memory for a new string), and all nodes ever returned for one string are the same node. */
  method RunOps(n: nat, signed: bool, ops: seq<Op>) returns (results: seq<Node?>)
    requires n > 0
    ensures |results| == |ops|
    ensures forall i :: 0 <= i < |ops| ==> (results[i] != null <==> Added(ops, i + 1, ops[i].str))
    ensures forall i :: 0 <= i < |ops| && results[i] != null ==> results[i].str == ops[i].str
    ensures forall i, j :: 0 <= i < j < |ops| && results[i] != null && ops[i].str == ops[j].str ==>
                             results[i] == results[j]
  {
    hide Added, Lookup, Holds, Table.Valid, Table.At;
    var t := new Table(n, signed);
    results := [];
    NoneAdded(t, ops);
    for k := 0 to |ops|
      invariant t.Valid() && fresh(t) && fresh(t.table) && |results| == k && Holds(t, ops, k)
      invariant forall i :: 0 <= i < k ==> (results[i] != null <==> Added(ops, i + 1, ops[i].str))
      invariant forall i :: 0 <= i < k && results[i] != null ==> results[i] == t.At(ops[i].str)
    {
      var r := Apply(t, ops, k);
      results := results + [r];
    }
    forall i, j | 0 <= i < j < |ops| && results[i] != null && ops[i].str == ops[j].str
      ensures results[i] == results[j]
    {
      AddedLater(ops, i + 1, j + 1, ops[i].str);
    }
    forall i | 0 <= i < |ops| && results[i] != null ensures results[i].str == ops[i].str {
      t.AtMeaning(ops[i].str);
    }
  }

  lemma AddedLater(ops: seq<Op>, j: nat, k: nat, s: Str)
    requires j <= k <= |ops| && Added(ops, j, s)
    ensures Added(ops, k, s)
  {}

  lemma NoneAdded(t: Table, ops: seq<Op>)
    requires t.Valid() && forall s :: t.At(s) == null
    ensures Holds(t, ops, 0)
  {}
}

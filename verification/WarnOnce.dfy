/** The table of warnings already given: open addressing over a ring of slots that every call scans
    completely. */
module WarnOnce {
  import opened Hashes
  import opened Numbers
  import opened Words

  const WARN_HASH_MAX := 128

  /** The hash of a place in the source code. */
  function PlaceHash(filename: seq<Byte>, line: int, signed: bool): Word
  {
    Plus(Pjw(filename, signed), line % TWO32)
  }

  /** Zero marks an empty slot, so a zero hash is replaced. */
  function Adjusted(h: Word): (a: Word)
    ensures a != 0
  {
    if h == 0 then WARN_HASH_MAX else h
  }

  /** The only two hashes that are not told apart after the adjustment are 0 and the table size. */
  lemma AdjustedApart(h: Word, k: Word)
    ensures Adjusted(h) == Adjusted(k) <==> h == k || {h, k} == {0, WARN_HASH_MAX}
    ensures h != 0 ==> Adjusted(h) == h
  {
    assert 0 in {h, k} <==> h == 0 || k == 0;
  }

  /** Two lines of one file share a hash only if they are 2^32 apart. */
  lemma LinesApart(filename: seq<Byte>, l: int, m: int, signed: bool)
    ensures PlaceHash(filename, l, signed) == PlaceHash(filename, m, signed) <==> (l - m) % TWO32 == 0
  {
    hide Pjw;
    var a, b := l % TWO32, m % TWO32;
    if PlaceHash(filename, l, signed) == PlaceHash(filename, m, signed) {
      PlusInjective(a, b, Pjw(filename, signed));
    }
    Apart(l, m);
  }

  lemma Apart(l: int, m: int)
    ensures l % TWO32 == m % TWO32 <==> (l - m) % TWO32 == 0
  {}

  /** The slot inspected in step `k` of a scan that starts at `start`. */
  function Slot(start: nat, k: nat): (j: nat)
    ensures j < WARN_HASH_MAX
  {
    (start + k) % WARN_HASH_MAX
  }

  /** Starting anywhere, the ring is covered in one round. */
  lemma RingCovers(start: nat, x: nat) returns (k: nat)
    requires x < WARN_HASH_MAX
    ensures k < WARN_HASH_MAX && Slot(start, k) == x
  {
    k := (x + WARN_HASH_MAX - start % WARN_HASH_MAX) % WARN_HASH_MAX;
  }

  lemma FirstSlot(h: nat)
    ensures Slot(h, 0) == h % WARN_HASH_MAX
  {}

  lemma NextSlot(h: nat, i: nat)
    ensures Slot(h, i + 1) == (Slot(h, i) + 1) % WARN_HASH_MAX
  {}

  ghost function Values(s: seq<Word>): set<Word>
  {
    set i | 0 <= i < |s| :: s[i]
  }

  lemma {:induction false} DistinctCount(s: seq<Word>)
    requires forall i, j :: 0 <= i < j < |s| ==> s[i] != s[j]
    ensures |Values(s)| == |s|
  {
    if s != [] {
      var front, last := s[..|s| - 1], s[|s| - 1];
      DistinctCount(front);
      assert last !in Values(front);
      assert Values(s) == Values(front) + {last} by {
        forall x | x in Values(s) ensures x in Values(front) + {last} {
          var i :| 0 <= i < |s| && s[i] == x;
          if i < |front| { assert front[i] == x; }
        }
        forall x | x in Values(front) ensures x in Values(s) {
          var i :| 0 <= i < |front| && front[i] == x;
          assert s[i] == x;
        }
      }
    }
  }

  lemma {:induction false} ValuesCount(s: seq<Word>)
    ensures |Values(s)| <= |s|
  {
    if s != [] {
      var front, last := s[..|s| - 1], s[|s| - 1];
      ValuesCount(front);
      forall x | x in Values(s) ensures x in Values(front) + {last} {
        var i :| 0 <= i < |s| && s[i] == x;
        if i < |front| { assert front[i] == x; }
      }
      SubsetCount(Values(s), Values(front) + {last});
    }
  }

  /** The adjusted hashes of the first `k` calls. */
  ghost function Seen(calls: seq<Word>, k: nat): set<Word>
    requires k <= |calls|
  {
    set i | 0 <= i < k :: Adjusted(calls[i])
  }

  lemma NoneSeen(calls: seq<Word>)
    ensures Seen(calls, 0) == {}
  {}

  lemma SeenStep(calls: seq<Word>, k: nat)
    requires k < |calls|
    ensures Seen(calls, k + 1) == Seen(calls, k) + {Adjusted(calls[k])}
  {}

  lemma {:induction false} SeenCount(calls: seq<Word>, k: nat)
    requires k <= |calls|
    ensures Seen(calls, k) <= Seen(calls, |calls|) && |Seen(calls, k)| <= |Seen(calls, |calls|)|
  {
    var all := Seen(calls, |calls|);
    assert all == Seen(calls, k) + (all - Seen(calls, k));
  }

  // ---- which hashes find a slot

  /** The hashes in the table after the first `k` calls. */
  ghost function Kept(calls: seq<Word>, k: nat): set<Word>
    requires k <= |calls|
  {
    if k == 0 then {}
    else
      var s := Kept(calls, k - 1);
      if |s| < WARN_HASH_MAX then s + {Adjusted(calls[k - 1])} else s
  }

  /** Up to the capacity of the table every hash seen is kept. */
  lemma {:induction false} KeptCount(calls: seq<Word>, k: nat)
    requires k <= |calls|
    ensures Kept(calls, k) <= Seen(calls, k) && |Kept(calls, k)| <= WARN_HASH_MAX
    ensures |Kept(calls, k)| < WARN_HASH_MAX || |Seen(calls, k)| <= WARN_HASH_MAX ==> Kept(calls, k) == Seen(calls, k)
  {
    hide Adjusted, Seen;
    NoneSeen(calls);
    if k > 0 {
      KeptCount(calls, k - 1);
      SeenStep(calls, k - 1);
      SubsetCount(Seen(calls, k - 1), Seen(calls, k));
      SubsetCount(Kept(calls, k), Seen(calls, k));
    }
  }

  /** The hashes kept are the first distinct ones, as many as there are slots: those that occurred when
      fewer had been seen. */
  lemma {:induction false} KeptMeaning(calls: seq<Word>, k: nat, x: Word)
    requires k <= |calls|
    ensures x in Kept(calls, k) <==>
            exists j :: 0 <= j < k && Adjusted(calls[j]) == x && |Seen(calls, j)| < WARN_HASH_MAX
  {
    hide Adjusted, Seen;
    if k > 0 {
      KeptMeaning(calls, k - 1, x);
      KeptCount(calls, k - 1);
      if Adjusted(calls[k - 1]) == x && |Seen(calls, k - 1)| < WARN_HASH_MAX {
        SubsetCount(Kept(calls, k - 1), Seen(calls, k - 1));
      }
    }
  }

  /** A hash that is ever kept is kept from its first occurrence on. */
  lemma {:induction false} KeptEarly(calls: seq<Word>, j: nat, k: nat, m: nat)
    requires j < k <= m <= |calls|
    ensures Adjusted(calls[j]) in Kept(calls, m) <==> Adjusted(calls[j]) in Kept(calls, k)
    decreases m
  {
    hide Adjusted, Seen, Kept;
    if m > k {
      KeptEarly(calls, j, k, m - 1);
      KeptStep(calls, m - 1);
      KeptCount(calls, m - 1);
      SeenCall(calls, j, m - 1);
    }
  }

  lemma KeptStep(calls: seq<Word>, k: nat)
    requires k < |calls|
    ensures Kept(calls, k + 1) ==
            Kept(calls, k) + if |Kept(calls, k)| < WARN_HASH_MAX then {Adjusted(calls[k])} else {}
  {}

  lemma NoneKept(calls: seq<Word>)
    ensures Kept(calls, 0) == {}
  {}

  lemma SeenCall(calls: seq<Word>, j: nat, k: nat)
    requires j < k <= |calls|
    ensures Adjusted(calls[j]) in Seen(calls, k)
  {}

  // ---- runs of calls

  /** Over any sequence of calls, the answer is true exactly if the hash is not among those kept from
      the earlier calls; with no more distinct hashes than slots that is the first call for it. */
  method WarnAll(calls: seq<Word>) returns (answers: seq<bool>)
    ensures |answers| == |calls|
    ensures forall k :: 0 <= k < |calls| ==> (answers[k] <==> Adjusted(calls[k]) !in Kept(calls, k))
    ensures |Seen(calls, |calls|)| <= WARN_HASH_MAX ==>
              forall k :: 0 <= k < |calls| ==>
                (answers[k] <==> forall j :: 0 <= j < k ==> Adjusted(calls[j]) != Adjusted(calls[k]))
  {
    hide Adjusted, Seen, Kept, Table.Valid, Table.Stored, Table.Full;
    var t := new Table();
    answers := [];
    NoneKept(calls);
    for k := 0 to |calls|
      invariant t.Valid() && fresh(t.hash) && |answers| == k
      invariant t.Stored() == Kept(calls, k)
      invariant forall i :: 0 <= i < k ==> (answers[i] <==> Adjusted(calls[i]) !in Kept(calls, i))
    {
      t.FullCount();
      KeptStep(calls, k);
      var a := t.Warn(calls[k]);
      answers := answers + [a];
    }
    if |Seen(calls, |calls|)| <= WARN_HASH_MAX { FirstCalls(calls, answers); }
  }

  lemma FirstCalls(calls: seq<Word>, answers: seq<bool>)
    requires |answers| == |calls| && |Seen(calls, |calls|)| <= WARN_HASH_MAX
    requires forall k :: 0 <= k < |calls| ==> (answers[k] <==> Adjusted(calls[k]) !in Kept(calls, k))
    ensures forall k :: 0 <= k < |calls| ==>
              (answers[k] <==> forall j :: 0 <= j < k ==> Adjusted(calls[j]) != Adjusted(calls[k]))
  {
    hide Adjusted, Seen, Kept;
    forall k | 0 <= k < |calls|
      ensures answers[k] <==> forall j :: 0 <= j < k ==> Adjusted(calls[j]) != Adjusted(calls[k])
    {
      SeenCount(calls, k);
      KeptCount(calls, k);
      NotSeen(calls, k);
    }
  }

  lemma NotSeen(calls: seq<Word>, k: nat)
    requires k < |calls|
    ensures Adjusted(calls[k]) !in Seen(calls, k) <==>
            forall j :: 0 <= j < k ==> Adjusted(calls[j]) != Adjusted(calls[k])
  {}

  // ---- one answer for each place

  /** A place in the source code. */
  datatype Place = Place(file: seq<Byte>, line: int)

  function Hashed(places: seq<Place>, signed: bool): (calls: seq<Word>)
    ensures |calls| == |places|
    ensures forall i :: 0 <= i < |places| ==> calls[i] == PlaceHash(places[i].file, places[i].line, signed)
  {
    seq(|places|, i requires 0 <= i < |places| => PlaceHash(places[i].file, places[i].line, signed))
  }

  /** What the function promises: true exactly on the first call for a place. */
  ghost predicate OncePerPlace(places: seq<Place>, answers: seq<bool>)
    requires |answers| == |places|
  {
    forall k :: 0 <= k < |places| ==> (answers[k] <==> forall j :: 0 <= j < k ==> places[j] != places[k])
  }

  /** The hash of call `i` finds a slot. */
  ghost predicate HasSlot(calls: seq<Word>, i: nat)
    requires i < |calls|
  {
    Adjusted(calls[i]) in Kept(calls, |calls|)
  }

  /** Two different places share a hash that is kept. */
  ghost predicate Collide(places: seq<Place>, calls: seq<Word>, i: nat, j: nat)
    requires i < |places| == |calls| && j < |places|
  {
    places[i] != places[j] && Adjusted(calls[i]) == Adjusted(calls[j]) && HasSlot(calls, i)
  }

  /** A place is called again although its hash found no slot. */
  ghost predicate Forgotten(places: seq<Place>, calls: seq<Word>, i: nat, j: nat)
    requires i < |places| == |calls| && j < |places|
  {
    i < j && places[i] == places[j] && !HasSlot(calls, i)
  }

  ghost predicate Answered(calls: seq<Word>, answers: seq<bool>)
    requires |answers| == |calls|
  {
    forall k :: 0 <= k < |calls| ==> (answers[k] <==> Adjusted(calls[k]) !in Kept(calls, k))
  }

  ghost predicate Faultless(places: seq<Place>, calls: seq<Word>)
    requires |places| == |calls|
  {
    forall i, j :: 0 <= i < |places| && 0 <= j < |places| ==>
      !Collide(places, calls, i, j) && !Forgotten(places, calls, i, j)
  }

  lemma KeptWasCalled(calls: seq<Word>, k: nat)
    requires k < |calls| && Adjusted(calls[k]) in Kept(calls, k)
    ensures exists j :: 0 <= j < k && Adjusted(calls[j]) == Adjusted(calls[k])
  {
    KeptMeaning(calls, k, Adjusted(calls[k]));
  }

  /** The hash of a call depends on its place only. */
  ghost predicate ByPlace(places: seq<Place>, calls: seq<Word>)
  {
    && |places| == |calls|
    && forall i, j :: 0 <= i < |places| && 0 <= j < |places| && places[i] == places[j] ==> calls[i] == calls[j]
  }

  lemma {:induction false} FirstOfPlace(places: seq<Place>, j: nat) returns (f: nat)
    requires j < |places|
    ensures f <= j && places[f] == places[j] && forall i :: 0 <= i < f ==> places[i] != places[j]
    decreases j
  {
    if k :| 0 <= k < j && places[k] == places[j] {
      f := FirstOfPlace(places, k);
    } else {
      f := j;
    }
  }

  /** Of two places that share a kept hash, the one called later is never warned about. */
  lemma CollisionShows(places: seq<Place>, calls: seq<Word>, answers: seq<bool>, i: nat, j: nat)
    requires |answers| == |places| && ByPlace(places, calls) && Answered(calls, answers)
    requires i < |places| && j < |places| && Collide(places, calls, i, j)
    ensures !OncePerPlace(places, answers)
  {
    hide Adjusted, Kept;
    var f := FirstOfPlace(places, i);
    var g := FirstOfPlace(places, j);
    var early, late := if f < g then f else g, if f < g then g else f;
    KeptEarly(calls, early, late, |calls|);
    assert !answers[late];
  }

  /** A place that is called again is warned about again if its hash found no slot. */
  lemma ForgottenShows(places: seq<Place>, calls: seq<Word>, answers: seq<bool>, i: nat, j: nat)
    requires |answers| == |places| && ByPlace(places, calls) && Answered(calls, answers)
    requires i < |places| && j < |places| && Forgotten(places, calls, i, j)
    ensures !OncePerPlace(places, answers)
  {
    hide Adjusted, Kept;
    KeptEarly(calls, i, j, |calls|);
    assert answers[j];
  }

  lemma RightAnswer(places: seq<Place>, calls: seq<Word>, answers: seq<bool>, k: nat)
    requires |answers| == |places| && ByPlace(places, calls) && Answered(calls, answers)
    requires Faultless(places, calls) && k < |places|
    ensures answers[k] <==> forall j :: 0 <= j < k ==> places[j] != places[k]
  {
    hide Adjusted, Kept;
    if j :| 0 <= j < k && places[j] == places[k] {
      assert !Forgotten(places, calls, j, k);
      KeptEarly(calls, j, k, |calls|);
    } else if Adjusted(calls[k]) in Kept(calls, k) {
      KeptWasCalled(calls, k);
      var j :| 0 <= j < k && Adjusted(calls[j]) == Adjusted(calls[k]);
      KeptEarly(calls, j, k, |calls|);
      assert !Collide(places, calls, j, k);
    }
  }

  /** Every place gets its one answer if and only if no two different places share a hash that found a
      slot, and no place whose hash found none is called again. */
  lemma PlacesExact(places: seq<Place>, calls: seq<Word>, answers: seq<bool>)
    requires |answers| == |places| == |calls| && ByPlace(places, calls) && Answered(calls, answers)
    ensures OncePerPlace(places, answers) <==> Faultless(places, calls)
  {
    hide Adjusted, Kept, HasSlot, Collide, Forgotten, Answered, ByPlace;
    if Faultless(places, calls) {
      forall k | 0 <= k < |places| ensures answers[k] <==> forall j :: 0 <= j < k ==> places[j] != places[k] {
        RightAnswer(places, calls, answers, k);
      }
    } else {
      var i, j :| 0 <= i < |places| && 0 <= j < |places|
                  && (Collide(places, calls, i, j) || Forgotten(places, calls, i, j));
      if Collide(places, calls, i, j) {
        CollisionShows(places, calls, answers, i, j);
      } else {
        ForgottenShows(places, calls, answers, i, j);
      }
    }
  }

  ghost predicate SomeCollision(places: seq<Place>, calls: seq<Word>)
    requires |places| == |calls|
  {
    exists i, j :: 0 <= i < j < |places| && places[i] != places[j] && Adjusted(calls[i]) == Adjusted(calls[j])
  }

  /** With no more distinct hashes than slots, only collisions matter. */
  lemma FaultlessWithinCapacity(places: seq<Place>, calls: seq<Word>)
    requires |places| == |calls| && |Seen(calls, |calls|)| <= WARN_HASH_MAX
    ensures Faultless(places, calls) <==> !SomeCollision(places, calls)
  {
    hide Adjusted, Kept;
    KeptCount(calls, |calls|);
    assert forall i :: 0 <= i < |calls| ==> HasSlot(calls, i);
    if i, j :| 0 <= i < j < |places| && places[i] != places[j] && Adjusted(calls[i]) == Adjusted(calls[j]) {
      assert Collide(places, calls, i, j);
    } else {
      forall i, j | 0 <= i < |places| && 0 <= j < |places|
        ensures !Collide(places, calls, i, j) && !Forgotten(places, calls, i, j)
      {}
    }
  }

  /** The function as its callers use it: a run of calls, each from some place. */
  method WarnPlaces(places: seq<Place>, signed: bool) returns (answers: seq<bool>)
    ensures |answers| == |places| && Answered(Hashed(places, signed), answers)
    ensures OncePerPlace(places, answers) <==> Faultless(places, Hashed(places, signed))
    ensures |Seen(Hashed(places, signed), |places|)| <= WARN_HASH_MAX ==>
              (OncePerPlace(places, answers) <==> !SomeCollision(places, Hashed(places, signed)))
  {
    hide PlaceHash, Adjusted, Kept, Seen, Faultless, OncePerPlace, SomeCollision;
    var calls := Hashed(places, signed);
    answers := WarnAll(calls);
    PlacesExact(places, calls, answers);
    if |Seen(calls, |calls|)| <= WARN_HASH_MAX { FaultlessWithinCapacity(places, calls); }
  }

  /** Different places do collide: line 2 of a file "a" and line 1 of a file "b". */
  lemma PlacesCollide(signed: bool)
    ensures PlaceHash([97], 2, signed) == PlaceHash([98], 1, signed)
  {
    PjwOfOne(97, signed);
    PjwOfOne(98, signed);
  }

  /** So the second of these two calls is answered wrongly. */
  lemma OnceFails(signed: bool, answers: seq<bool>)
    requires |answers| == 2
    requires Answered(Hashed([Place([97], 2), Place([98], 1)], signed), answers)
    ensures !OncePerPlace([Place([97], 2), Place([98], 1)], answers)
  {
    hide PlaceHash, Adjusted, Kept, Seen, Faultless, OncePerPlace, Answered;
    var places := [Place([97], 2), Place([98], 1)];
    var calls := Hashed(places, signed);
    PlacesCollide(signed);
    assert calls[0] == calls[1];
    SeenCount2(calls);
    PlacesExact(places, calls, answers);
    FaultlessWithinCapacity(places, calls);
    assert places[0] != places[1];
  }

  lemma SeenCount2(calls: seq<Word>)
    requires |calls| == 2
    ensures |Seen(calls, 2)| <= 2
  {
    NoneSeen(calls);
    SeenStep(calls, 0);
    SeenStep(calls, 1);
  }

  lemma ShlZero()
    ensures Shl(0, 4) == 0
  {}

  lemma PlusZero(c: Word)
    ensures Plus(0, c) == c
  {}

  lemma PjwRoundFromZero(c: Word)
    requires c < 128
    ensures PjwRound(0, c) == c
  {
    hide Shl, And, Xor32, Shr, Plus;
    ShlZero();
    assert Plus(0, c) == c by { PlusZero(c); }
    SmallAnd(c);
  }

  lemma PjwOfOne(c: Byte, signed: bool)
    requires c < 128
    ensures Pjw([c], signed) == c
  {
    hide PjwRound;
    var w: Word := c;
    PjwRoundFromZero(w);
    assert Chars([c], signed) == [w];
    assert [w][1..] == [];
    assert Fold(PjwRound, 0, [w]) == Fold(PjwRound, PjwRound(0, w), []);
  }

  lemma SmallAnd(c: Word)
    requires c < 128
    ensures And(c, 0xf000_0000) == 0
  {
    forall i | 0 <= i < 32 ensures Bit(And(c, 0xf000_0000), i) <==> Bit(0, i) {
      BitAnd(c, 0xf000_0000, i);
      ZeroBits(i);
      assert Pow2(7) == 128;
      if i >= 7 { HighBits(c, 7, i); } else { TopBits(i); }
    }
    AndBound(c, 0xf000_0000);
    Pow2Of32();
    WordExt(And(c, 0xf000_0000), 0, 32);
  }

  class Table {
    const hash: array<Word>

    /** The non-empty slots hold pairwise distinct hashes. */
    ghost predicate Valid()
      reads this, hash
    {
      && hash.Length == WARN_HASH_MAX
      && forall i, j :: 0 <= i < j < WARN_HASH_MAX && hash[i] != 0 ==> hash[i] != hash[j]
    }

    ghost function Stored(): set<Word>
      reads this, hash
    {
      set i | 0 <= i < hash.Length && hash[i] != 0 :: hash[i]
    }

    ghost predicate Full()
      reads this, hash
    {
      forall i :: 0 <= i < hash.Length ==> hash[i] != 0
    }

    /** The table is full exactly if it holds as many hashes as it has slots, which is the most it can. */
    lemma FullCount()
      requires Valid()
      ensures Full() <==> |Stored()| == WARN_HASH_MAX
      ensures |Stored()| <= WARN_HASH_MAX
    {
      if Full() {
        DistinctCount(hash[..]);
        assert Stored() == Values(hash[..]);
      } else {
        var i :| 0 <= i < hash.Length && hash[i] == 0;
        var rest := hash[..i] + hash[i + 1..];
        forall x | x in Stored() ensures x in Values(rest) {
          var k :| 0 <= k < hash.Length && hash[k] == x && x != 0;
          assert rest[if k < i then k else k - 1] == x;
        }
        ValuesCount(rest);
        SubsetCount(Stored(), Values(rest));
      }
    }

    constructor ()
      ensures Valid() && Stored() == {} && fresh(hash)
    {
      hash := new Word[WARN_HASH_MAX](_ => 0);
    }

    /** stress_warn_once_hash. */
    method WarnOnce(filename: array<Byte>, line: int, signed: bool, ghost len: nat) returns (notWarnedYet: bool)
      requires Valid() && CString(filename, len)
      modifies hash
      ensures Valid()
      ensures var h := Adjusted(PlaceHash(old(filename[..len]), line, signed));
              && (notWarnedYet <==> h !in old(Stored()))
              && Stored() == if old(Full()) then old(Stored()) else old(Stored()) + {h}
    {
      hide Adjusted, Pjw;
      var h := HashPjw(filename, signed, len);
      notWarnedYet := Warn(Plus(h, line % TWO32));
    }

    /** stress_warn_once_hash, from the computed hash on: the answer is true exactly if the adjusted
        hash is not in the table, and it is then stored unless every slot is taken; a stored hash never
        leaves its slot. */
    method Warn(computed: Word) returns (notWarnedYet: bool)
      requires Valid()
      modifies hash
      ensures Valid()
      ensures notWarnedYet <==> Adjusted(computed) !in old(Stored())
      ensures Stored() == if old(Full()) then old(Stored()) else old(Stored()) + {Adjusted(computed)}
      ensures forall i :: 0 <= i < hash.Length && old(hash[i]) != 0 ==> hash[i] == old(hash[i])
    {
      hide Slot;
      var h: Word := computed;
      if h == 0 {
        h := h + WARN_HASH_MAX;
      }
      var freeSlot := WARN_HASH_MAX;
      var j := h % WARN_HASH_MAX;
      FirstSlot(h);
      for i := 0 to WARN_HASH_MAX
        invariant hash[..] == old(hash[..]) && j == Slot(h, i)
        invariant forall k :: 0 <= k < i ==> hash[Slot(h, k)] != h
        invariant freeSlot == WARN_HASH_MAX ==> forall k :: 0 <= k < i ==> hash[Slot(h, k)] != 0
        invariant freeSlot != WARN_HASH_MAX ==> 0 <= freeSlot < WARN_HASH_MAX && hash[freeSlot] == 0
      {
        if hash[j] == h {
          assert h in Stored();
          assert Stored() + {h} == Stored();
          return false;
        }
        if freeSlot == WARN_HASH_MAX && hash[j] == 0 {
          freeSlot := j;
        }
        NextSlot(h, i);
        j := (j + 1) % WARN_HASH_MAX;
      }
      forall x: nat | x < WARN_HASH_MAX ensures hash[x] != h && (freeSlot == WARN_HASH_MAX ==> hash[x] != 0) {
        var k := RingCovers(h, x);
      }
      assert h !in Stored();
      ghost var before := hash[..];
      if freeSlot != WARN_HASH_MAX {
        hash[freeSlot] := h;
        assert hash[freeSlot] in Stored();
        forall x | x in old(Stored()) ensures x in Stored() {
          var i :| 0 <= i < WARN_HASH_MAX && before[i] == x && x != 0;
          assert hash[i] == x;
        }
      }
      return true;
    }
  }
}

/** The files of the swap daemon: the header page that addswap builds in a static buffer, and which
    files the kernel swaps to. */
module SwapFiles {
  import opened Words
  import opened SwapDaemon

  /** "SWAP-SPACE". */
  const SIGNATURE: seq<Byte> := [83, 87, 65, 80, 45, 83, 80, 65, 67, 69]

  lemma SignatureSpelled(i: nat)
    requires i < 10
    ensures SIGNATURE[i] == "SWAP-SPACE"[i] as int
  {}

  const BITMAP_SIZE := PAGE_SIZE - 10

  // ---- the header page

  /** Bit `k` of the bitmap is set iff page `k` is usable, and the signature ends the page. */
  ghost predicate IsHeader(page: seq<Byte>, pages: nat)
  {
    && |page| == PAGE_SIZE && page[BITMAP_SIZE..] == SIGNATURE
    && forall b, k {:trigger Bit(page[b], k)} :: 0 <= b < BITMAP_SIZE && 0 <= k < 8 ==>
         (Bit(page[b], k) <==> 1 <= 8 * b + k < pages)
  }

  ghost predicate IsZero(page: seq<Byte>)
  {
    |page| == PAGE_SIZE && forall b :: 0 <= b < PAGE_SIZE ==> page[b] == 0
  }

  /** There is only one header for a number of pages. */
  lemma HeaderUnique(p: seq<Byte>, q: seq<Byte>, pages: nat)
    requires IsHeader(p, pages) && IsHeader(q, pages)
    ensures p == q
  {
    forall b | 0 <= b < PAGE_SIZE ensures p[b] == q[b] {
      if b < BITMAP_SIZE {
        forall k | 0 <= k < 8 ensures Bit(p[b], k) <==> Bit(q[b], k) {}
        assert Pow2(8) == 256;
        WordExt(p[b], q[b], 8);
      } else {
        assert p[b] == p[BITMAP_SIZE..][b - BITMAP_SIZE];
        assert q[b] == q[BITMAP_SIZE..][b - BITMAP_SIZE];
      }
    }
  }

  lemma EmptyByte(page: seq<Byte>, pages: nat, b: nat)
    requires IsHeader(page, pages) && b < BITMAP_SIZE && pages <= 8 * b
    ensures page[b] == 0
  {
    forall k | 0 <= k < 8 ensures Bit(page[b], k) <==> Bit(0, k) { ZeroBits(k); }
    assert Pow2(8) == 256;
    WordExt(page[b], 0, 8);
  }

  lemma FullByte(k: nat)
    requires k < 8
    ensures Bit(0xff, k)
  {
    assert Pow2(8) == 256;
    OnesBits(8, k);
  }

  lemma FirstMask(x: Byte, k: nat)
    requires k < 8
    ensures And(x, 0xfe) < 256 && (Bit(And(x, 0xfe), k) <==> Bit(x, k) && k != 0)
  {
    AndBound(x, 0xfe);
    BitAnd(x, 0xfe, k);
    if k > 0 {
      assert Pow2(7) == 128;
      OnesBits(7, k - 1);
    }
  }

  lemma LastMask(x: Byte, r: nat, k: nat)
    requires 0 < r < 8 && k < 8
    ensures And(x, Shr(0xff, 8 - r)) < 256
    ensures Bit(And(x, Shr(0xff, 8 - r)), k) <==> Bit(x, k) && k < r
  {
    AndBound(x, Shr(0xff, 8 - r));
    BitAnd(x, Shr(0xff, 8 - r), k);
    BitShrBy(0xff, 8 - r, k);
    assert Pow2(8) == 256;
    OnesBits(8, k + (8 - r));
  }

  /** The byte that the three steps of the code leave at position `b` of the bitmap. */
  function BitmapByte(b: nat, pages: nat): nat
  {
    var used := (pages + 7) / 8;
    if b >= used then 0
    else
      var x := if b == 0 then And(0xff, 0xfe) else 0xff;
      if pages % 8 != 0 && b == used - 1 then And(x, Shr(0xff, 8 - pages % 8)) else x
  }

  lemma BitmapBit(b: nat, pages: nat, k: nat)
    requires k < 8
    ensures BitmapByte(b, pages) < 256
    ensures Bit(BitmapByte(b, pages), k) <==> 1 <= 8 * b + k < pages
  {
    hide And, Shr, Bit;
    FullByte(k);
    ZeroBits(k);
    FirstMask(0xff, k);
    if pages % 8 != 0 {
      LastMask(And(0xff, 0xfe), pages % 8, k);
      LastMask(0xff, pages % 8, k);
    }
  }

  lemma BitmapIsHeader(page: seq<Byte>, pages: nat)
    requires |page| == PAGE_SIZE && page[BITMAP_SIZE..] == SIGNATURE
    requires forall b :: 0 <= b < BITMAP_SIZE ==> page[b] == BitmapByte(b, pages)
    ensures IsHeader(page, pages)
  {
    hide BitmapByte;
    forall b, k | 0 <= b < BITMAP_SIZE && 0 <= k < 8
      ensures Bit(page[b], k) <==> 1 <= 8 * b + k < pages
    {
      BitmapBit(b, pages, k);
    }
  }

  lemma UnusedBytes(page: seq<Byte>, pages: nat)
    requires IsZero(page) || IsHeader(page, pages)
    ensures forall b :: (pages + 7) / 8 <= b < BITMAP_SIZE ==> page[b] == 0
  {
    forall b: nat | (pages + 7) / 8 <= b < BITMAP_SIZE ensures page[b] == 0 {
      if !IsZero(page) { EmptyByte(page, pages, b); }
    }
  }

  /** The part of addswap that builds the header in the static page, whatever the last call left. */
  method BuildHeader(page: array<Byte>, pages: nat)
    requires page.Length == PAGE_SIZE && 2 <= pages <= 8 * BITMAP_SIZE
    requires IsZero(page[..]) || IsHeader(page[..], pages)
    modifies page
    ensures IsHeader(page[..], pages)
  {
    hide And, Shr, Bit, IsHeader, IsZero;
    var used := (pages + 7) / 8;
    UnusedBytes(page[..], pages);
    assert forall b :: used <= b < BITMAP_SIZE ==> page[b] == page[..][b] == 0;
    for i := 0 to 10
      invariant forall b :: used <= b < BITMAP_SIZE ==> page[b] == 0
      invariant forall j :: 0 <= j < i ==> page[BITMAP_SIZE + j] == SIGNATURE[j]
    {
      page[BITMAP_SIZE + i] := SIGNATURE[i];
    }
    for b := 0 to used
      invariant forall a :: 0 <= a < b ==> page[a] == 0xff
      invariant forall a :: used <= a < BITMAP_SIZE ==> page[a] == 0
      invariant forall j :: 0 <= j < 10 ==> page[BITMAP_SIZE + j] == SIGNATURE[j]
    {
      page[b] := 0xff;
    }
    FirstMask(0xff, 0);
    page[0] := And(page[0], 0xfe);
    if pages % 8 != 0 {
      LastMask(page[used - 1], pages % 8, 0);
      page[used - 1] := And(page[used - 1], Shr(0xff, 8 - pages % 8));
    }
    assert page[BITMAP_SIZE..] == SIGNATURE;
    BitmapIsHeader(page[..], pages);
  }

  // ---- the daemon

  /** How the system answers the calls of one addswap: mkstemp gives the file `name`, the first
      `goodWrites` page writes succeed. */
  datatype AddCalls = AddCalls(statfsOk: bool, spaceOk: bool, mkstempOk: bool, name: nat, goodWrites: nat,
                               syncOk: bool, closeOk: bool, swaponOk: bool) {

    /** A new file of `pages` pages comes into use. */
    predicate Succeed(pages: int)
    {
      statfsOk && spaceOk && mkstempOk && goodWrites >= pages && syncOk && closeOk && swaponOk
    }

    /** The daemon gives up. */
    predicate Abort()
    {
      !statfsOk || (spaceOk && !mkstempOk)
    }
  }

  datatype AddResult = Added | Refused | Exited

  /** The pages of a new swap file: the header and then zeros. */
  ghost predicate SwapFilePages(written: seq<seq<Byte>>, pages: nat)
  {
    forall k :: 0 <= k < |written| ==> if k == 0 then IsHeader(written[k], pages) else IsZero(written[k])
  }

  lemma EmptyDifference(a: set<nat>, b: set<nat>)
    requires a - b == {}
    ensures a <= b
  {
    forall x | x in a ensures x in b {
      assert x !in a - b;
    }
  }

  class Daemon {
    const cfg: Config
    /** The files of which the daemon knows, and the page buffer that addswap keeps between calls. */
    const swamfile: array<nat>
    const page: array<Byte>
    var chunks: nat
    /** The files that the kernel swaps to. */
    ghost var active: set<nat>

    ghost predicate Valid()
      reads this, swamfile, page
    {
      && cfg.Accepted() && chunks <= cfg.numchunks == swamfile.Length && page.Length == PAGE_SIZE
      && (IsZero(page[..]) || IsHeader(page[..], cfg.Pages()))
      && (forall i :: 0 <= i < chunks ==> swamfile[i] in active)
      && forall i, j :: 0 <= i < j < chunks ==> swamfile[i] != swamfile[j]
    }

    /** The files in use that the daemon still counts; the others are lost to it. */
    ghost function Tracked(): set<nat>
      requires chunks <= swamfile.Length
      reads this, swamfile
    {
      set i | 0 <= i < chunks :: swamfile[i]
    }

    /** The files that the daemon counts, the last added last. */
    ghost function Files(): seq<nat>
      requires chunks <= swamfile.Length
      reads this, swamfile
    {
      swamfile[..chunks]
    }

    /** The file that a pass puts into use, if any. */
    function NewFiles(swap: int, counted: nat, calls: AddCalls): seq<nat>
    {
      if cfg.Adds(swap, counted) && calls.Succeed(cfg.Pages()) then [calls.name] else []
    }

    /** The files that leave use if swapoff is called on every counted file. */
    ghost function Gone(offs: seq<bool>): set<nat>
      requires |offs| == chunks <= swamfile.Length
      reads this, swamfile
    {
      set i | 0 <= i < chunks && offs[i] :: swamfile[i]
    }

    constructor (cfg: Config)
      requires cfg.Accepted()
      ensures Valid() && this.cfg == cfg && chunks == 0 && active == {}
      ensures fresh(swamfile) && fresh(page)
    {
      this.cfg := cfg;
      swamfile := new nat[cfg.numchunks](_ => 0);
      page := new Byte[PAGE_SIZE](_ => 0);
      chunks, active := 0, {};
    }

    /** delswap. */
    method DelSwap(i: nat, offOk: bool) returns (ok: bool)
      requires i < swamfile.Length
      modifies this`active
      ensures ok == offOk
      ensures active == if offOk then old(active) - {swamfile[i]} else old(active)
    {
      if !offOk {
        return false;
      }
      active := active - {swamfile[i]};
      return true;
    }

    /** cleanup; `offs[i]` tells whether swapoff of file `i` succeeds.  Every file is gone afterwards
        exactly if each of these calls succeeds and no file was lost before. */
    method Cleanup(offs: seq<bool>)
      requires Valid() && |offs| == chunks
      modifies this`chunks, this`active
      ensures Valid() && chunks == 0
      ensures active == old(active) - old(Gone(offs))
      ensures active == {} <==> old(active) == old(Tracked()) && forall i :: 0 <= i < |offs| ==> offs[i]
    {
      ghost var n := chunks;
      while chunks > 0
        invariant chunks <= n && Valid()
        invariant active == old(active) - set i | chunks <= i < n && offs[i] :: swamfile[i]
      {
        chunks := chunks - 1;
        var ok := DelSwap(chunks, offs[chunks]);
        assert (set i | chunks <= i < n && offs[i] :: swamfile[i]) ==
               (set i | chunks + 1 <= i < n && offs[i] :: swamfile[i])
               + if offs[chunks] then {swamfile[chunks]} else {};
      }
      ghost var gone := set i | 0 <= i < n && offs[i] :: swamfile[i];
      assert gone == set i | chunks <= i < n && offs[i] :: swamfile[i];
      assert active == old(active) - gone;
      assert forall i :: 0 <= i < n ==> old(swamfile[i]) in old(active);
      if active == {} {
        EmptyDifference(old(active), gone);
        forall i | 0 <= i < n ensures offs[i] {
          assert old(swamfile[i]) in old(active);
          assert swamfile[i] in gone;
          var j :| 0 <= j < n && offs[j] && swamfile[j] == swamfile[i];
          assert i == j;
        }
      }
    }

    /** addswap: the file it leaves to swapon holds the header page followed by zero pages, and a call
        that fails at any point adds no file and leaves the page buffer fit for the next call. */
    method AddSwap(calls: AddCalls, offs: seq<bool>) returns (r: AddResult, written: seq<seq<Byte>>)
      requires Valid() && chunks < cfg.numchunks && |offs| == chunks && calls.name !in active
      modifies this`chunks, this`active, swamfile, page
      ensures Valid()
      ensures r == Exited <==> calls.Abort()
      ensures r == Exited ==> chunks == 0 && active == old(active) - old(Gone(offs))
      ensures r == Exited ==>
                (active == {} <==> old(active) == old(Tracked()) && forall i :: 0 <= i < |offs| ==> offs[i])
      ensures r != Exited ==> chunks == old(chunks) && forall i :: 0 <= i < chunks ==> swamfile[i] == old(swamfile[i])
      ensures r == Added <==> calls.Succeed(cfg.Pages())
      ensures r == Added ==> active == old(active) + {calls.name} && swamfile[chunks] == calls.name
      ensures r == Refused ==> active == old(active)
      ensures SwapFilePages(written, cfg.Pages()) && (r == Added ==> |written| == cfg.Pages())
    {
      written := [];
      if !calls.statfsOk {
        Cleanup(offs);
        return Exited, written;
      }
      if !calls.spaceOk {
        return Refused, written;
      }
      swamfile[chunks] := calls.name;
      if !calls.mkstempOk {
        Cleanup(offs);
        return Exited, written;
      }
      written := WritePages(calls.goodWrites);
      if |written| < cfg.Pages() || !calls.syncOk || !calls.closeOk || !calls.swaponOk {
        return Refused, written;
      }
      active := active + {calls.name};
      return Added, written;
    }

    /** The part of addswap that writes the pages. */
    method WritePages(goodWrites: nat) returns (written: seq<seq<Byte>>)
      requires Valid()
      modifies page
      ensures Valid()
      ensures SwapFilePages(written, cfg.Pages())
      ensures |written| == if goodWrites < cfg.Pages() then goodWrites else cfg.Pages()
    {
      hide IsHeader, IsZero;
      BuildHeader(page, cfg.Pages());
      written := [];
      var pages, clean := cfg.Pages(), 0;
      while pages > 0
        invariant 0 <= pages && |written| == clean == cfg.Pages() - pages <= goodWrites
        invariant if clean == 0 then IsHeader(page[..], cfg.Pages()) else IsZero(page[..])
        invariant SwapFilePages(written, cfg.Pages())
      {
        pages := pages - 1;
        if clean == goodWrites {
          return;
        }
        written := written + [page[..]];
        if clean == 0 {
          ZeroPage(page);
        }
        clean := clean + 1;
      }
    }

    /** `if (addswap(chunks)) chunks++`. */
    method AddLast(calls: AddCalls, offs: seq<bool>) returns (exited: bool)
      requires Valid() && chunks < cfg.numchunks && |offs| == chunks && calls.name !in active
      modifies this`chunks, this`active, swamfile, page
      ensures Valid()
      ensures exited <==> calls.Abort()
      ensures exited ==> chunks == 0 && active == old(active) - old(Gone(offs))
      ensures exited ==>
                (active == {} <==> old(active) == old(Tracked()) && forall i :: 0 <= i < |offs| ==> offs[i])
      ensures !exited ==> forall i :: 0 <= i < old(chunks) ==> swamfile[i] == old(swamfile[i])
      ensures !exited ==>
                if calls.Succeed(cfg.Pages()) then
                  && chunks == old(chunks) + 1 && swamfile[chunks - 1] == calls.name
                  && active == old(active) + {calls.name} && active - Tracked() == old(active - Tracked())
                else
                  chunks == old(chunks) && active == old(active) && active - Tracked() == old(active - Tracked())
    {
      hide IsHeader, IsZero, SwapFilePages;
      var r, written := AddSwap(calls, offs);
      exited := r == Exited;
      if r == Added {
        assert Tracked() == old(Tracked());
        chunks := chunks + 1;
        assert Tracked() == old(Tracked()) + {calls.name};
      }
    }

    /** `delswap(--chunks)`. */
    method RemoveLast(offOk: bool)
      requires Valid() && chunks > 0
      modifies this`chunks, this`active
      ensures Valid() && chunks == old(chunks) - 1
      ensures active == old(active) - if offOk then {swamfile[chunks]} else {}
      ensures active - Tracked() == old(active - Tracked()) + if offOk then {} else {swamfile[chunks]}
    {
      hide IsHeader, IsZero;
      ghost var before := Tracked();
      chunks := chunks - 1;
      assert before == Tracked() + {swamfile[chunks]};
      var ok := DelSwap(chunks, offOk);
    }

    /** One pass of the main loop; `offs` are the answers to cleanup if the pass ends the daemon.  A
        file is lost, still in use but no longer counted, exactly when it is removed and its swapoff
        fails. */
    method MainPass(swap: int, calls: AddCalls, offOk: bool, offs: seq<bool>) returns (exited: bool)
      requires Valid() && |offs| == chunks && calls.name !in active
      modifies this`chunks, this`active, swamfile, page
      ensures Valid()
      ensures exited <==> cfg.Adds(swap, old(chunks)) && calls.Abort()
      ensures exited ==> chunks == 0 && active == old(active) - old(Gone(offs))
      ensures exited ==>
                (active == {} <==> old(active) == old(Tracked()) && forall i :: 0 <= i < |offs| ==> offs[i])
      ensures !exited ==>
                && chunks <= old(chunks) + |NewFiles(swap, old(chunks), calls)|
                && Files() == (old(Files()) + NewFiles(swap, old(chunks), calls))[..chunks]
      ensures !exited ==>
                var added: nat := if cfg.Adds(swap, old(chunks)) && calls.Succeed(cfg.Pages()) then 1 else 0;
                var removed: nat := if cfg.Removes(swap, old(chunks) + added) then 1 else 0;
                var newFile := if added == 1 then {calls.name} else {};
                var gone := if removed == 0 then {} else if added == 1 then newFile else {old(swamfile[chunks - 1])};
                && chunks == old(chunks) + added - removed
                && (cfg.chunksz + cfg.upper <= INT_MAX ==> added + removed <= 1)
                && active == old(active) + newFile - (if offOk then gone else {})
                && active - Tracked() == old(active - Tracked()) + if offOk then {} else gone
    {
      hide IsHeader, IsZero, SwapFilePages;
      exited := false;
      if swap < cfg.lower && chunks < cfg.numchunks {
        exited := AddLast(calls, offs);
        if exited {
          return;
        }
      }
      if swap > cfg.RemoveMark() && chunks > 0 {
        RemoveLast(offOk);
      }
    }
  }

  /** `memset(page, 0, sizeof(page))`. */
  method ZeroPage(page: array<Byte>)
    requires page.Length == PAGE_SIZE
    modifies page
    ensures IsZero(page[..])
  {
    for b := 0 to PAGE_SIZE
      invariant forall a :: 0 <= a < b ==> page[a] == 0
    {
      page[b] := 0;
    }
  }
}

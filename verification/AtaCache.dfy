/** The bootloader's sector cache: eight slots of 1024 bytes with last-use ticks.  Proved here:
    every run of cached and uncached reads returns the bytes on the disk and keeps every valid
    slot equal to the disk, and the slot evicted is the least or second-least recently used. */
module AtaCache {
  import opened Prim

  const SLOTS := 8
  const SLOT_BYTES := 1024
  const NO_ADDR: u32 := 0xffff_ffff

  /** Slot i holds block addr[i] in the bytes of `data` from SLOT_BYTES * i on. */
  datatype Cache = Cache(addr: seq<u32>, tick: seq<u32>, data: seq<u8>, ticks: u32)

  predicate Shaped(c: Cache) {
    |c.addr| == |c.tick| == SLOTS && |c.data| == SLOTS * SLOT_BYTES
  }

  function Slot(c: Cache, i: nat, from: nat, n: nat): seq<u8>
    requires Shaped(c) && i < SLOTS && from + n <= SLOT_BYTES
  {
    c.data[SLOT_BYTES * i + from..SLOT_BYTES * i + from + n]
  }

  /** A drive that cannot read odd sectors alone is read in pairs (`wide`). */
  function Key(sector: nat, wide: bool): nat { if wide then sector - sector % 2 else sector }
  function BlockBytes(wide: bool): nat { if wide then 1024 else 512 }
  function Offset(sector: nat, wide: bool): nat { if wide && sector % 2 == 1 then 512 else 0 }

  predicate OnDisk(disk: seq<u8>, key: nat, wide: bool) { 512 * key + BlockBytes(wide) <= |disk| }

  function Block(disk: seq<u8>, key: nat, wide: bool): (b: seq<u8>)
    requires OnDisk(disk, key, wide)
    ensures |b| == BlockBytes(wide)
  {
    disk[512 * key..512 * key + BlockBytes(wide)]
  }

  function Sector(disk: seq<u8>, sector: nat): seq<u8>
    requires 512 * sector + 512 <= |disk|
  {
    disk[512 * sector..512 * sector + 512]
  }

  /** The first slot from i on that holds `key`. */
  function FirstWith(addr: seq<u32>, key: nat, i: nat): (r: Option<nat>)
    requires i <= |addr|
    ensures r.Some? ==> i <= r.value < |addr| && addr[r.value] == key && forall j :: i <= j < r.value ==> addr[j] != key
    ensures r.None? ==> forall j :: i <= j < |addr| ==> addr[j] != key
    decreases |addr| - i
  {
    if i == |addr| then None else if addr[i] == key then Some(i) else FirstWith(addr, key, i + 1)
  }

  /** Block 0 is never looked up. */
  function Lookup(c: Cache, key: nat): (r: Option<nat>)
    ensures r.Some? <==> key != 0 && key in c.addr
  {
    if key == 0 then None else FirstWith(c.addr, key, 0)
  }

  /** The first slot with the least tick. */
  predicate IsVictim(tick: seq<u32>, v: nat) {
    && v < |tick|
    && (forall j :: 0 <= j < |tick| ==> tick[v] <= tick[j])
    && (forall j :: 0 <= j < v ==> tick[v] < tick[j])
  }

  function Victim(tick: seq<u32>): (v: nat)
    requires tick != []
    ensures IsVictim(tick, v)
  {
    if |tick| == 1 then 0
    else
      var v := Victim(tick[..|tick| - 1]);
      if tick[|tick| - 1] < tick[v] then |tick| - 1 else v
  }

  function Bump(ticks: u32): u32 { (ticks + 1) % 0x1_0000_0000 }

  function Hit(c: Cache, i: nat): Cache
    requires Shaped(c) && i < SLOTS
  {
    c.(ticks := Bump(c.ticks), tick := c.tick[i := Bump(c.ticks)])
  }

  /** The victim takes the tick from before the read; only then the tick counter moves. */
  function Store(c: Cache, key: u32, block: seq<u8>): Cache
    requires Shaped(c) && |block| <= SLOT_BYTES
  {
    var v := Victim(c.tick);
    Cache(c.addr[v := key], c.tick[v := c.ticks], Splice(c.data, SLOT_BYTES * v, block), Bump(c.ticks))
  }

  datatype Request = Request(sector: nat, store: bool)

  predicate Readable(disk: seq<u8>, sector: nat, wide: bool) {
    sector < 0x1000_0000 && OnDisk(disk, Key(sector, wide), wide)
  }

  /** One call of the block reader: the cache afterwards, and the 512 bytes it delivers. */
  function ReadBlock(c: Cache, q: Request, wide: bool, disk: seq<u8>): (r: (Cache, seq<u8>))
    requires Shaped(c) && Readable(disk, q.sector, wide)
    ensures Shaped(r.0)
  {
    var key := Key(q.sector, wide);
    var at := Offset(q.sector, wide);
    match Lookup(c, key)
    case Some(i) => (Hit(c, i), Slot(c, i, at, 512))
    case None =>
      var block := Block(disk, key, wide);
      (if q.store then Store(c, key, block) else c, block[at..at + 512])
  }

  /** Every valid slot equals the disk. */
  predicate Coherent(c: Cache, disk: seq<u8>, wide: bool)
    requires Shaped(c)
  {
    forall i :: 0 <= i < SLOTS && c.addr[i] != NO_ADDR ==>
      OnDisk(disk, c.addr[i], wide) && Slot(c, i, 0, BlockBytes(wide)) == Block(disk, c.addr[i], wide)
  }

  lemma BlockHolds(disk: seq<u8>, sector: nat, wide: bool)
    requires OnDisk(disk, Key(sector, wide), wide)
    ensures 512 * sector + 512 <= |disk|
    ensures var at := Offset(sector, wide);
            Block(disk, Key(sector, wide), wide)[at..at + 512] == Sector(disk, sector)
  {
    var key, at := Key(sector, wide), Offset(sector, wide);
    assert 512 * key + at == 512 * sector;
    SliceOfSlice(disk, 512 * key, BlockBytes(wide), at, 512);
  }

  lemma SliceOfSlice(s: seq<u8>, from: nat, n: nat, at: nat, m: nat)
    requires from + n <= |s| && at + m <= n
    ensures s[from..from + n][at..at + m] == s[from + at..from + at + m]
  {
    var part, direct := s[from..from + n][at..at + m], s[from + at..from + at + m];
    assert forall k :: 0 <= k < m ==> part[k] == direct[k];
    assert part == direct;
  }

  lemma ReadBlockCorrect(c: Cache, q: Request, wide: bool, disk: seq<u8>)
    requires Shaped(c) && Coherent(c, disk, wide) && Readable(disk, q.sector, wide)
    ensures 512 * q.sector + 512 <= |disk|
    ensures var (c', bytes) := ReadBlock(c, q, wide, disk);
            Coherent(c', disk, wide) && bytes == Sector(disk, q.sector)
  {
    hide Sector, Slot, Block, Store, Hit, Coherent, FirstWith;
    var key := Key(q.sector, wide);
    BlockHolds(disk, q.sector, wide);
    match Lookup(c, key)
    case Some(i) =>
      HitDelivers(c, i, q.sector, wide, disk);
      HitKeepsCoherent(c, i, wide, disk);
    case None =>
      if q.store { StoreKeepsCoherent(c, key, wide, disk); }
  }

  lemma HitDelivers(c: Cache, i: nat, sector: nat, wide: bool, disk: seq<u8>)
    requires Shaped(c) && Coherent(c, disk, wide) && Readable(disk, sector, wide)
    requires i < SLOTS && c.addr[i] == Key(sector, wide)
    ensures 512 * sector + 512 <= |disk| && Slot(c, i, Offset(sector, wide), 512) == Sector(disk, sector)
  {
    var at := Offset(sector, wide);
    SliceOfSlice(c.data, SLOT_BYTES * i, BlockBytes(wide), at, 512);
    BlockHolds(disk, sector, wide);
  }

  lemma HitKeepsCoherent(c: Cache, i: nat, wide: bool, disk: seq<u8>)
    requires Shaped(c) && Coherent(c, disk, wide) && i < SLOTS
    ensures Coherent(Hit(c, i), disk, wide)
  {
    forall j | 0 <= j < SLOTS
      ensures Slot(Hit(c, i), j, 0, BlockBytes(wide)) == Slot(c, j, 0, BlockBytes(wide))
    {
    }
  }

  lemma StoreKeepsCoherent(c: Cache, key: u32, wide: bool, disk: seq<u8>)
    requires Shaped(c) && Coherent(c, disk, wide) && OnDisk(disk, key, wide)
    ensures Coherent(Store(c, key, Block(disk, key, wide)), disk, wide)
  {
    hide Slot, Block;
    StoreFillsOneSlot(c, key, Block(disk, key, wide), BlockBytes(wide));
  }

  lemma StoreFillsOneSlot(c: Cache, key: u32, block: seq<u8>, n: nat)
    requires Shaped(c) && |block| == n <= SLOT_BYTES
    ensures var c', v := Store(c, key, block), Victim(c.tick);
            forall i :: 0 <= i < SLOTS ==> Slot(c', i, 0, n) == if i == v then block else Slot(c, i, 0, n)
  {
    var c', v := Store(c, key, block), Victim(c.tick);
    forall i | 0 <= i < SLOTS
      ensures Slot(c', i, 0, n) == if i == v then block else Slot(c, i, 0, n)
    {
      assert i < v ==> SLOT_BYTES * i + SLOT_BYTES <= SLOT_BYTES * v;
      assert i > v ==> SLOT_BYTES * v + SLOT_BYTES <= SLOT_BYTES * i;
    }
  }

  // ---------------------------------------------------------------- runs

  /** A run of requests, with the time at which each slot was last used (0: never). */
  datatype History = History(cache: Cache, last: seq<nat>, now: nat)

  /** The slot a request uses; None when it goes past the cache. */
  function Used(c: Cache, q: Request, wide: bool): Option<nat>
    requires Shaped(c)
  {
    match Lookup(c, Key(q.sector, wide))
    case Some(i) => Some(i)
    case None => if q.store then Some(Victim(c.tick)) else None
  }

  function Advance(h: History, q: Request, wide: bool, disk: seq<u8>): History
    requires Shaped(h.cache) && |h.last| == SLOTS && Readable(disk, q.sector, wide)
  {
    var u := Used(h.cache, q, wide);
    History(ReadBlock(h.cache, q, wide, disk).0,
            if u.Some? then h.last[u.value := h.now + 1] else h.last, h.now + 1)
  }

  function RunAll(h: History, qs: seq<Request>, wide: bool, disk: seq<u8>): (r: (History, seq<seq<u8>>))
    requires Shaped(h.cache) && |h.last| == SLOTS
    requires forall q :: q in qs ==> Readable(disk, q.sector, wide)
    ensures Shaped(r.0.cache) && |r.0.last| == SLOTS
    decreases |qs|
  {
    if qs == [] then (h, [])
    else
      var rest := RunAll(Advance(h, qs[0], wide, disk), qs[1..], wide, disk);
      (rest.0, [ReadBlock(h.cache, qs[0], wide, disk).1] + rest.1)
  }

  /** Any sequence of cached and uncached reads delivers, call by call, the bytes on the disk. */
  lemma {:induction false} RunDeliversDisk(h: History, qs: seq<Request>, wide: bool, disk: seq<u8>)
    requires Shaped(h.cache) && |h.last| == SLOTS && Coherent(h.cache, disk, wide)
    requires forall q :: q in qs ==> Readable(disk, q.sector, wide)
    ensures var r := RunAll(h, qs, wide, disk);
            && Coherent(r.0.cache, disk, wide) && |r.1| == |qs|
            && forall i :: 0 <= i < |qs| ==>
                 512 * qs[i].sector + 512 <= |disk| && r.1[i] == Sector(disk, qs[i].sector)
    decreases |qs|
  {
    hide ReadBlock, Coherent, Sector, Readable;
    if qs != [] {
      ReadBlockCorrect(h.cache, qs[0], wide, disk);
      RunDeliversDisk(Advance(h, qs[0], wide, disk), qs[1..], wide, disk);
    }
  }

  // ---------------------------------------------------------------- recency

  const EMPTY: Cache :=
    Cache(seq(SLOTS, _ => NO_ADDR), seq(SLOTS, _ => 0), seq(SLOTS * SLOT_BYTES, _ => 0), 0)

  /** Ticks against last use: ticks are weakly monotone in last use; the current tick belongs to
      one slot at most, a positive one to two at most. */
  predicate Ordered(tick: seq<u32>, last: seq<nat>, ticks: nat, now: nat)
    requires |tick| == |last| == SLOTS
  {
    && ticks <= now
    && (forall i :: 0 <= i < SLOTS ==> tick[i] <= ticks && last[i] <= now)
    && (forall i, j :: 0 <= i < SLOTS && 0 <= j < SLOTS && last[i] < last[j] ==> tick[i] <= tick[j])
    && (forall i, j :: 0 <= i < j < SLOTS && last[i] == last[j] ==> last[i] == 0)
    && (forall i, j :: 0 <= i < j < SLOTS && tick[i] == ticks == tick[j] ==> ticks == 0)
    && (forall i, j, k :: 0 <= i < j < k < SLOTS && tick[i] == tick[j] == tick[k] ==> tick[i] == 0)
  }

  /** The slots fill up from slot 0, which starts with tick 0; a slot never used has tick 0. */
  predicate FillsUp(addr: seq<u32>, tick: seq<u32>, last: seq<nat>)
    requires |addr| == |tick| == |last| == SLOTS
  {
    && (forall i :: 0 <= i < SLOTS ==> (addr[i] == NO_ADDR <==> last[i] == 0))
    && (forall i :: 0 <= i < SLOTS && addr[i] == NO_ADDR ==> tick[i] == 0)
    && (forall i :: 1 <= i < SLOTS && addr[i] != NO_ADDR ==> tick[i] >= 1 && tick[0] >= 1)
  }

  predicate Recency(h: History) {
    && Shaped(h.cache) && |h.last| == SLOTS
    && Ordered(h.cache.tick, h.last, h.cache.ticks, h.now)
    && FillsUp(h.cache.addr, h.cache.tick, h.last)
  }

  /** A slot used now gets the current tick (a miss) or the next one (a hit). */
  lemma TouchKeepsOrder(tick: seq<u32>, last: seq<nat>, ticks: nat, now: nat, i: nat, t: u32)
    requires |tick| == |last| == SLOTS && Ordered(tick, last, ticks, now)
    requires i < SLOTS && (t == ticks || t == ticks + 1)
    ensures Ordered(tick[i := t], last[i := now + 1], ticks + 1, now + 1)
  {
  }

  lemma TouchFillsUp(addr: seq<u32>, tick: seq<u32>, last: seq<nat>, i: nat, key: u32, t: u32, now: nat)
    requires |addr| == |tick| == |last| == SLOTS && FillsUp(addr, tick, last) && i < SLOTS
    requires key != NO_ADDR && tick[i] <= t && (addr[i] == NO_ADDR && i > 0 ==> tick[0] >= 1 && t >= 1)
    ensures FillsUp(addr[i := key], tick[i := t], last[i := now + 1])
  {
  }

  /** What one request does to the history, by how the cache is used. */
  lemma AdvanceCases(h: History, q: Request, wide: bool, disk: seq<u8>)
    requires Shaped(h.cache) && |h.last| == SLOTS && Readable(disk, q.sector, wide)
    ensures var c, now, key := h.cache, h.now + 1, Key(q.sector, wide);
            Advance(h, q, wide, disk) ==
              match Lookup(c, key)
              case Some(i) => History(Hit(c, i), h.last[i := now], now)
              case None =>
                if q.store then History(Store(c, key, Block(disk, key, wide)), h.last[Victim(c.tick) := now], now)
                else History(c, h.last, now)
  {
    hide Hit, Store, FirstWith, Block, Slot, Victim, Key;
  }

  /** One request keeps the recency invariant, as long as the tick counter does not wrap. */
  lemma AdvanceKeepsRecency(h: History, q: Request, wide: bool, disk: seq<u8>)
    requires Recency(h) && Readable(disk, q.sector, wide) && h.now < 0xffff_ffff
    ensures Recency(Advance(h, q, wide, disk))
  {
    AdvanceCases(h, q, wide, disk);
    var found := Lookup(h.cache, Key(q.sector, wide));
    if found.Some? {
      HitKeepsRecency(h, found.value);
    } else if q.store {
      StoreKeepsRecency(h, Key(q.sector, wide), Block(disk, Key(q.sector, wide), wide));
    } else {
      IdleKeepsRecency(h);
    }
  }

  lemma IdleKeepsRecency(h: History)
    requires Recency(h)
    ensures Recency(History(h.cache, h.last, h.now + 1))
  {
    assert Ordered(h.cache.tick, h.last, h.cache.ticks, h.now + 1);
  }

  lemma HitKeepsRecency(h: History, i: nat)
    requires Recency(h) && h.now < 0xffff_ffff && i < SLOTS && h.cache.addr[i] != NO_ADDR
    ensures Recency(History(Hit(h.cache, i), h.last[i := h.now + 1], h.now + 1))
  {
    HitOrder(h.cache, h.last, h.now, i);
    var c, t := h.cache, Bump(h.cache.ticks);
    assert FillsUp(c.addr, c.tick[i := t], h.last[i := h.now + 1]) by {
      TouchFillsUp(c.addr, c.tick, h.last, i, c.addr[i], t, h.now);
      assert c.addr[i := c.addr[i]] == c.addr;
    }
  }

  lemma HitOrder(c: Cache, last: seq<nat>, now: nat, i: nat)
    requires Shaped(c) && |last| == SLOTS && Ordered(c.tick, last, c.ticks, now) && now < 0xffff_ffff && i < SLOTS
    ensures Ordered(c.tick[i := Bump(c.ticks)], last[i := now + 1], Bump(c.ticks), now + 1)
    ensures Bump(c.ticks) == c.ticks + 1 && c.tick[i] <= c.ticks
  {
    TouchKeepsOrder(c.tick, last, c.ticks, now, i, c.ticks + 1);
  }

  lemma StoreKeepsRecency(h: History, key: u32, block: seq<u8>)
    requires Recency(h) && h.now < 0xffff_ffff && key != NO_ADDR && |block| <= SLOT_BYTES
    ensures Recency(History(Store(h.cache, key, block), h.last[Victim(h.cache.tick) := h.now + 1], h.now + 1))
  {
    hide Ordered, FillsUp, Splice, Victim;
    StoreOrder(h.cache, h.last, h.now);
    TicksBounded(h);
    StoreFills(h.cache, h.last, h.now, key);
  }

  lemma StoreOrder(c: Cache, last: seq<nat>, now: nat)
    requires Shaped(c) && |last| == SLOTS && Ordered(c.tick, last, c.ticks, now) && now < 0xffff_ffff
    ensures var v := Victim(c.tick);
            Ordered(c.tick[v := c.ticks], last[v := now + 1], Bump(c.ticks), now + 1)
  {
    assert Bump(c.ticks) == c.ticks + 1;
    TouchKeepsOrder(c.tick, last, c.ticks, now, Victim(c.tick), c.ticks);
  }

  lemma TicksBounded(h: History)
    requires Recency(h)
    ensures forall i :: 0 <= i < SLOTS ==> h.cache.tick[i] <= h.cache.ticks
  {
  }

  lemma StoreFills(c: Cache, last: seq<nat>, now: nat, key: u32)
    requires Shaped(c) && |last| == SLOTS && FillsUp(c.addr, c.tick, last) && key != NO_ADDR
    requires forall i :: 0 <= i < SLOTS ==> c.tick[i] <= c.ticks
    ensures var v := Victim(c.tick);
            FillsUp(c.addr[v := key], c.tick[v := c.ticks], last[v := now + 1])
  {
    TouchFillsUp(c.addr, c.tick, last, Victim(c.tick), key, c.ticks, now);
  }

  lemma {:induction false} RunKeepsRecency(h: History, qs: seq<Request>, wide: bool, disk: seq<u8>)
    requires Recency(h) && h.now + |qs| <= 0xffff_ffff
    requires forall q :: q in qs ==> Readable(disk, q.sector, wide)
    ensures Recency(RunAll(h, qs, wide, disk).0)
    decreases |qs|
  {
    if qs != [] {
      AdvanceKeepsRecency(h, qs[0], wide, disk);
      RunKeepsRecency(Advance(h, qs[0], wide, disk), qs[1..], wide, disk);
    }
  }

  /** At most one slot was used longer ago than the one to be evicted. */
  predicate EvictsOldestButOne(h: History)
    requires Shaped(h.cache) && |h.last| == SLOTS
  {
    var v := Victim(h.cache.tick);
    forall i, j :: 0 <= i < SLOTS && 0 <= j < SLOTS && h.last[i] < h.last[v] && h.last[j] < h.last[v] ==> i == j
  }

  const START: History := History(EMPTY, seq(SLOTS, _ => 0), 0)

  /** From start-up, after any run shorter than the tick counter: at most one slot was used longer
      ago than the one to be evicted exactly when slot 0 is unused or has left tick 0 behind. */
  lemma EvictsOldestButOneExactly(qs: seq<Request>, wide: bool, disk: seq<u8>)
    requires forall q :: q in qs ==> Readable(disk, q.sector, wide)
    requires |qs| <= 0xffff_ffff
    ensures var h := RunAll(START, qs, wide, disk).0;
            EvictsOldestButOne(h) <==> h.cache.addr[0] == NO_ADDR || h.cache.tick[0] > 0
  {
    RunKeepsRecency(START, qs, wide, disk);
    OldestButOne(RunAll(START, qs, wide, disk).0);
  }

  lemma OldestButOne(h: History)
    requires Recency(h)
    ensures EvictsOldestButOne(h) <==> h.cache.addr[0] == NO_ADDR || h.cache.tick[0] > 0
  {
    if h.cache.addr[0] == NO_ADDR {
      NothingUsed(h);
    } else if h.cache.tick[0] == 0 {
      OnlySlotZero(h);
    } else {
      TicksTellAge(h);
    }
  }

  lemma NothingUsed(h: History)
    requires Recency(h) && h.cache.addr[0] == NO_ADDR
    ensures forall i :: 0 <= i < SLOTS ==> h.last[i] == 0
  {
    assert h.cache.tick[0] == 0;
  }

  /** While slot 0 is in use with tick 0 it is the only one in use, and the next to go. */
  lemma OnlySlotZero(h: History)
    requires Recency(h) && h.cache.addr[0] != NO_ADDR && h.cache.tick[0] == 0
    ensures !EvictsOldestButOne(h)
  {
    assert Victim(h.cache.tick) == 0 by { assert IsVictim(h.cache.tick, Victim(h.cache.tick)); }
    assert h.last[1] == 0 && h.last[2] == 0 && h.last[0] > 0;
  }

  /** Otherwise a slot with the victim's tick is at most one, or the victim was never used. */
  lemma TicksTellAge(h: History)
    requires Recency(h) && h.cache.tick[0] > 0
    ensures EvictsOldestButOne(h)
  {
    var v, t := Victim(h.cache.tick), h.cache.tick;
    forall i, j | 0 <= i < SLOTS && 0 <= j < SLOTS && h.last[i] < h.last[v] && h.last[j] < h.last[v]
      ensures i == j
    {
      assert t[i] == t[v] == t[j];
      assert t[v] >= 1;
    }
  }

  /** The victim is the least recently used slot if no other slot has its tick. */
  lemma UniqueTickIsOldest(qs: seq<Request>, wide: bool, disk: seq<u8>)
    requires forall q :: q in qs ==> Readable(disk, q.sector, wide)
    requires |qs| <= 0xffff_ffff
    ensures var h := RunAll(START, qs, wide, disk).0;
            var v := Victim(h.cache.tick);
            (forall i :: 0 <= i < SLOTS && i != v ==> h.cache.tick[i] != h.cache.tick[v]) ==>
              forall i :: 0 <= i < SLOTS && i != v ==> h.last[v] < h.last[i]
  {
    RunKeepsRecency(START, qs, wide, disk);
    UniqueTick(RunAll(START, qs, wide, disk).0);
  }

  lemma UniqueTick(h: History)
    requires Recency(h)
    ensures var v := Victim(h.cache.tick);
            (forall i :: 0 <= i < SLOTS && i != v ==> h.cache.tick[i] != h.cache.tick[v]) ==>
              forall i :: 0 <= i < SLOTS && i != v ==> h.last[v] < h.last[i]
  {
  }

  /** The first block kept is in slot 0 with tick 0, and so the first to go, though no other slot
      was ever used. */
  lemma WarmUpEvictsTheNewest(q: Request, wide: bool, disk: seq<u8>)
    requires Readable(disk, q.sector, wide) && q.store
    ensures var h := Advance(START, q, wide, disk);
            Victim(h.cache.tick) == 0 && h.last[0] == 1 && forall i :: 1 <= i < SLOTS ==> h.last[i] == 0
  {
    AllTied(EMPTY.tick);
    var h := Advance(START, q, wide, disk);
    assert h.cache.tick == EMPTY.tick;
  }

  lemma AllTied(tick: seq<u32>)
    requires tick != [] && forall i :: 0 <= i < |tick| ==> tick[i] == 0
    ensures Victim(tick) == 0
  {
    assert tick[Victim(tick)] == tick[0];
  }
}

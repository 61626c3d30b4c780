/** The buffer manager: a free list of never-used frames, a page map from
    page ids to frames, and clock replacement for misses once the free list
    is exhausted. */
module Buffer {
  import opened Global
  import opened Frames
  import opened Replacement

  /** The `contents` argument of pinPage. Any other integer matches no case
      of its switch and is kept as `PinOther`. */
  datatype PinMode = PinDiskIO | PinMemCpy | PinNoOp | PinOther(code: int)

  /** The exceptions the buffer manager raises. */
  datatype BufError =
    | PoolFull          // IllegalStateException: no free frame and no victim
    | NotPinned         // IllegalArgumentException of unpinPage
    | PagePinned        // IllegalArgumentException of freePage
    | AlreadyPinned     // IllegalArgumentException of newPage
    | NotInPool         // IllegalArgumentException of flushPage (null frame)

  datatype Status = Ok | Fail(error: BufError)

  datatype Allocation = Allocated(first: PageId) | AllocFail(error: BufError)

  /** The calls made to the disk manager, in order. */
  datatype DiskOp =
    | ReadPage(pid: PageId)
    | WritePage(pid: PageId)
    | AllocatePage(runSize: int, first: PageId)
    | DeallocatePage(pid: PageId)

  /** A key as handed to `HashMap.containsKey`: either a page id object or a
      boxed integer, which never equals a page id. */
  datatype MapKey = PageKey(pid: PageId) | IntKey(value: int)

  /** `HashMap<PageId, FrameDesc>.containsKey` on a key of either kind. */
  function ContainsKey(m: map<PageId, FrameDesc>, key: MapKey): (b: bool)
    ensures key.IntKey? ==> !b
  {
    match key
    case PageKey(p) => p in m
    case IntKey(_) => false
  }

  /** Every entry of `order` is a key of `m`. */
  ghost predicate KeysIn(order: seq<PageId>, m: map<PageId, FrameDesc>)
  {
    forall i :: 0 <= i < |order| ==> order[i] in m
  }

  /** The values of `m` in the iteration order `order`, one per key. */
  function Candidates(order: seq<PageId>, m: map<PageId, FrameDesc>): (c: seq<FrameDesc>)
    requires KeysIn(order, m)
    ensures |c| == |order|
    ensures forall i :: 0 <= i < |order| ==> c[i] == m[order[i]]
  {
    if order == [] then [] else [m[order[0]]] + Candidates(order[1..], m)
  }

  /** The keys of `m` that map to frame `v`. */
  ghost function KeysOf(m: map<PageId, FrameDesc>, v: FrameDesc): set<PageId>
  {
    set k | k in m && m[k] == v
  }

  /** The entries of `order` that map to frame `v`. */
  ghost function KeysAlong(order: seq<PageId>, m: map<PageId, FrameDesc>, v: FrameDesc): set<PageId>
  {
    set k | k in order && k in m && m[k] == v
  }

  /** A duplicate-free list of keys, with its tail. */
  ghost predicate DistinctKeys(order: seq<PageId>, m: map<PageId, FrameDesc>)
  {
    KeysIn(order, m) && forall i, j :: 0 <= i < j < |order| ==> order[i] != order[j]
  }

  lemma TailDistinct(order: seq<PageId>, m: map<PageId, FrameDesc>)
    requires DistinctKeys(order, m) && order != []
    ensures DistinctKeys(order[1..], m) && order[0] !in order[1..]
  {
    var rest := order[1..];
    forall i | 0 <= i < |rest| ensures rest[i] in m && rest[i] != order[0] {
      assert rest[i] == order[i + 1];
    }
    forall i, j | 0 <= i < j < |rest| ensures rest[i] != rest[j] {
      assert rest[i] == order[i + 1] && rest[j] == order[j + 1];
    }
  }

  lemma KeysAlongCons(order: seq<PageId>, m: map<PageId, FrameDesc>, v: FrameDesc)
    requires order != []
    ensures KeysAlong(order, m, v) ==
      KeysAlong(order[1..], m, v) + (if order[0] in m && m[order[0]] == v then {order[0]} else {})
  {
    assert forall k :: k in order <==> k == order[0] || k in order[1..];
  }

  /** `order` lists every key of `m` exactly once: one iteration order of the map. */
  ghost predicate IsEnumeration(order: seq<PageId>, m: map<PageId, FrameDesc>)
  {
    DistinctKeys(order, m) && forall k :: k in m ==> k in order
  }

  /** A duplicate-free key list has as many distinct keys as entries. */
  lemma {:induction false} DistinctCard(order: seq<PageId>, m: map<PageId, FrameDesc>)
    requires DistinctKeys(order, m)
    ensures |set k | k in order| == |order|
    decreases |order|
  {
    if order != [] {
      TailDistinct(order, m);
      DistinctCard(order[1..], m);
      assert (set k | k in order) == (set k | k in order[1..]) + {order[0]};
    }
  }

  /** An iteration order lists as many keys as the map has: the clock's
      candidate list is as long as the page map. */
  lemma EnumerationSize(order: seq<PageId>, m: map<PageId, FrameDesc>)
    requires IsEnumeration(order, m)
    ensures |order| == |m|
  {
    DistinctCard(order, m);
    var keys := set k | k in order;
    forall k | k in order
      ensures k in m
    {
      var i :| 0 <= i < |order| && order[i] == k;
    }
    assert forall k :: k in keys <==> k in m.Keys;
    assert keys == m.Keys;
    assert |m| == |m.Keys|;
  }

  /** Counting along a duplicate-free key list. */
  lemma {:induction false} CountAlong(order: seq<PageId>, m: map<PageId, FrameDesc>, v: FrameDesc)
    requires DistinctKeys(order, m)
    ensures multiset(Candidates(order, m))[v] == |KeysAlong(order, m, v)|
    decreases |order|
  {
    if order == [] {
      assert KeysAlong(order, m, v) == {};
    } else {
      TailDistinct(order, m);
      CountAlong(order[1..], m, v);
      KeysAlongCons(order, m, v);
      assert Candidates(order, m) == [m[order[0]]] + Candidates(order[1..], m);
    }
  }

  /** The clock sees a frame once per key that maps to it: frames reachable
      under several keys appear several times, and a frame no key maps to
      (one on the free list) does not appear at all. */
  lemma CandidatesCountKeys(order: seq<PageId>, m: map<PageId, FrameDesc>, v: FrameDesc)
    requires IsEnumeration(order, m)
    ensures multiset(Candidates(order, m))[v] == |KeysOf(m, v)|
  {
    CountAlong(order, m, v);
    forall k | k in KeysOf(m, v) ensures k in KeysAlong(order, m, v) {
      assert k in order;
    }
    assert KeysAlong(order, m, v) == KeysOf(m, v);
  }

  /** The keys of `m` whose frame is valid and dirty. */
  ghost function DirtyKeys(m: map<PageId, FrameDesc>): set<PageId>
    reads m.Values
  {
    set k | k in m && m[k].valid && m[k].dirty
  }

  /** The writes flushAllFrames makes when it visits `order` and writes the
      keys in `toWrite`. */
  function FlushWrites(order: seq<PageId>, toWrite: set<PageId>): seq<DiskOp>
  {
    if order == [] then []
    else
      var k := order[|order| - 1];
      FlushWrites(order[..|order| - 1], toWrite) + (if k in toWrite then [WritePage(k)] else [])
  }

  lemma FlushWritesStep(order: seq<PageId>, toWrite: set<PageId>, i: nat)
    requires i < |order|
    ensures FlushWrites(order[..i + 1], toWrite) == FlushWrites(order[..i], toWrite) +
      (if order[i] in toWrite then [WritePage(order[i])] else [])
  {
    assert order[..i + 1][..i] == order[..i];
  }

  /** flushAllFrames writes exactly the visited pages whose frames are valid
      and dirty, each as a WritePage under its own key. */
  lemma {:induction false} FlushWritesExactly(order: seq<PageId>, toWrite: set<PageId>)
    ensures forall op :: op in FlushWrites(order, toWrite) ==>
      op.WritePage? && op.pid in order && op.pid in toWrite
    ensures forall k :: k in order && k in toWrite ==> WritePage(k) in FlushWrites(order, toWrite)
    decreases |order|
  {
    if order != [] {
      var init := order[..|order| - 1];
      FlushWritesExactly(init, toWrite);
      forall k | k in order
        ensures k in init || k == order[|order| - 1]
      {
        var i :| 0 <= i < |order| && order[i] == k;
        if i < |order| - 1 { assert init[i] == k; }
      }
      forall k | k in init ensures k in order {
        var i :| 0 <= i < |init| && init[i] == k;
        assert order[i] == k;
      }
    }
  }

  /** Some element of a non-empty set. */
  lemma Member<T>(s: set<T>) returns (x: T)
    requires |s| > 0
    ensures x in s
  {
    x :| x in s;
  }

  /** A map has at most as many distinct values as keys. */
  lemma {:induction false} ValuesAtMostKeys<K, V>(m: map<K, V>)
    ensures |m.Values| <= |m.Keys|
    decreases |m.Keys|
  {
    if |m.Keys| > 0 {
      var k :| k in m.Keys;
      var m' := m - {k};
      ValuesAtMostKeys(m');
      assert m.Values <= m'.Values + {m[k]} by {
        forall v | v in m.Values ensures v in m'.Values + {m[k]} {
          var k0 :| k0 in m && m[k0] == v;
          if k0 != k { assert m'[k0] == v; }
        }
      }
      assert |m'.Values + {m[k]}| <= |m'.Values| + 1;
      assert |m.Keys| == |m'.Keys| + 1 by { assert m.Keys == m'.Keys + {k}; }
    }
  }

  /** The state in which a miss leaves the frame it loaded `pageno` into. */
  ghost predicate Holds(f: FrameDesc, pageno: PageId)
    reads f
  {
    f.pinCount == 1 && f.valid && !f.dirty && f.refbit && f.pageno == Some(pageno)
  }

  /** What a miss does to the frame it took, `f`, and to the page map, for
      each kind of `contents`: the three known kinds make `f` hold `pageno`
      with one pin and map `pageno` to it; any other value matches no case of
      the switch, so the frame is neither filled nor mapped. */
  ghost predicate Loaded(f: FrameDesc, pageno: PageId, contents: PinMode,
                         before: map<PageId, FrameDesc>, after: map<PageId, FrameDesc>)
    reads f
  {
    if contents.PinOther? then after == before && f.pinCount == 0 && !f.valid && !f.dirty && !f.refbit
    else after == before[pageno := f] && Holds(f, pageno)
  }

  /** The read a miss makes: only PIN_DISKIO goes to the disk. */
  function FillReads(pageno: PageId, contents: PinMode): seq<DiskOp>
  {
    if contents.PinDiskIO? then [ReadPage(pageno)] else []
  }

  /** The entries of `keys` whose frame in `m` has no pins. */
  ghost function UnpinnedAlong(keys: seq<PageId>, m: map<PageId, FrameDesc>): set<PageId>
    reads m.Values
  {
    set k | k in keys && k in m && m[k].pinCount == 0
  }

  /** Growing a prefix by one element. */
  lemma PrefixStep(order: seq<PageId>, i: nat)
    requires i < |order|
    ensures forall k :: k in order[..i + 1] <==> k in order[..i] || k == order[i]
    ensures order[..i + 1][..i] == order[..i]
  {
    assert order[..i + 1] == order[..i] + [order[i]];
  }

  /** The keys of `m` whose frame has no pins. */
  ghost function UnpinnedSet(m: map<PageId, FrameDesc>): set<PageId>
    reads m.Values
  {
    set k | k in m && m[k].pinCount == 0
  }

  /** The number of entries of `keys`, counted in order, whose frame in `m`
      has no pins: what getNumUnpinned's loop adds up. */
  ghost function UnpinnedCount(keys: seq<PageId>, m: map<PageId, FrameDesc>): nat
    reads m.Values
  {
    if keys == [] then 0
    else
      var k := keys[|keys| - 1];
      UnpinnedCount(keys[..|keys| - 1], m) + (if k in m && m[k].pinCount == 0 then 1 else 0)
  }

  lemma UnpinnedCountStep(keys: seq<PageId>, m: map<PageId, FrameDesc>, i: nat)
    requires i < |keys|
    ensures UnpinnedCount(keys[..i + 1], m) ==
      UnpinnedCount(keys[..i], m) + (if keys[i] in m && m[keys[i]].pinCount == 0 then 1 else 0)
  {
    assert keys[..i + 1][..i] == keys[..i];
  }

  /** Counted along a duplicate-free prefix, the count is the number of
      unpinned keys in that prefix. */
  lemma {:induction false} UnpinnedCountAlong(order: seq<PageId>, m: map<PageId, FrameDesc>, i: nat)
    requires DistinctKeys(order, m) && i <= |order|
    ensures UnpinnedCount(order[..i], m) == |UnpinnedAlong(order[..i], m)|
  {
    if i > 0 {
      UnpinnedCountAlong(order, m, i - 1);
      UnpinnedStep(order, m, i - 1);
      UnpinnedCountStep(order, m, i - 1);
    } else {
      assert UnpinnedAlong(order[..0], m) == {};
    }
  }

  /** getNumUnpinned's count along an enumeration of the map is the number of
      unpinned keys. */
  lemma UnpinnedTotal(order: seq<PageId>, m: map<PageId, FrameDesc>)
    requires IsEnumeration(order, m)
    ensures UnpinnedCount(order, m) == |UnpinnedSet(m)|
  {
    UnpinnedCountAlong(order, m, |order|);
    assert order[..|order|] == order;
    forall k | k in UnpinnedSet(m) ensures k in UnpinnedAlong(order, m) {
      assert k in order;
    }
    assert UnpinnedAlong(order, m) == UnpinnedSet(m);
  }

  /** The entries of `m` whose keys are not in `visited`. */
  ghost function Without(m: map<PageId, FrameDesc>, visited: seq<PageId>): map<PageId, FrameDesc>
  {
    map k | k in m && k !in visited :: m[k]
  }

  lemma WithoutStep(m: map<PageId, FrameDesc>, order: seq<PageId>, i: nat)
    requires i < |order|
    ensures Without(m, order[..i + 1]) == Without(m, order[..i]) - {order[i]}
  {
    PrefixStep(order, i);
  }

  lemma WithoutAll(m: map<PageId, FrameDesc>, order: seq<PageId>)
    requires forall k :: k in m ==> k in order
    ensures Without(m, order[..|order|]) == map[]
  {
    assert order[..|order|] == order;
    assert forall k :: k !in Without(m, order);
  }

  lemma DistinctStep(order: seq<PageId>, m: map<PageId, FrameDesc>, i: nat)
    requires DistinctKeys(order, m) && i < |order|
    ensures order[i] !in order[..i] && order[i] in m
  {
    assert forall j :: 0 <= j < i ==> order[..i][j] == order[j] != order[i];
  }

  lemma UnpinnedStep(order: seq<PageId>, m: map<PageId, FrameDesc>, i: nat)
    requires DistinctKeys(order, m) && i < |order|
    ensures order[i] !in UnpinnedAlong(order[..i], m)
    ensures UnpinnedAlong(order[..i + 1], m) ==
      UnpinnedAlong(order[..i], m) + (if m[order[i]].pinCount == 0 then {order[i]} else {})
  {
    assert forall k :: k in order[..i + 1] <==> k in order[..i] || k == order[i];
    assert forall j :: 0 <= j < i ==> order[..i][j] == order[j] != order[i];
  }

  class BufMgr {
    /** The free list: frames that have never held a page. */
    var bufferPool: seq<FrameDesc>
    /** Page id to the frame that was loaded for it. */
    var pageFrameMap: map<PageId, FrameDesc>
    const replPolicy: Clock
    /** Every frame the constructor created. */
    ghost var frames: set<FrameDesc>
    /** The disk-manager calls made so far. */
    ghost var disk: seq<DiskOp>

    /** The frames: the free list holds distinct unused frames, and the page
        map refers to frames that have left it. */
    ghost predicate PoolValid()
      reads this, frames
    {
      && (forall f :: f in bufferPool ==> f in frames && f.Unused())
      && (forall i, j :: 0 <= i < j < |bufferPool| ==> bufferPool[i] != bufferPool[j])
      && (forall k :: k in pageFrameMap ==> pageFrameMap[k] in frames && pageFrameMap[k] !in bufferPool)
    }

    /** The hand only moves inside the clock, which runs only once the free
        list is empty, and nothing refills the free list; between clock
        calls the page map only grows, except that flushAllFrames empties
        it. So the hand is always below the size of a non-empty page map. */
    ghost predicate HandInRange()
      reads this, replPolicy
    {
      && (replPolicy.current > 0 ==> bufferPool == [])
      && (|pageFrameMap| > 0 ==> replPolicy.current < |pageFrameMap|)
    }

    ghost predicate Valid()
      reads this, frames, replPolicy
    {
      PoolValid() && HandInRange()
    }

    /** The page-map keys whose frame has no pins. */
    ghost function UnpinnedKeys(): set<PageId>
      reads this, pageFrameMap.Values
    {
      UnpinnedSet(pageFrameMap)
    }

    constructor (numframes: int)
      ensures Valid() && fresh(frames) && fresh(replPolicy)
      ensures |bufferPool| == (if numframes > 0 then numframes else 0)
      ensures frames == set f | f in bufferPool
      ensures pageFrameMap == map[] && disk == []
      ensures replPolicy.current == 0
    {
      var pool: seq<FrameDesc> := [];
      var i := 0;
      while i < numframes
        invariant |pool| == (if i > 0 then i else 0)
        invariant i <= 0 || i <= numframes
        invariant forall f :: f in pool ==> fresh(f) && f.Unused()
        invariant forall a, b :: 0 <= a < b < |pool| ==> pool[a] != pool[b]
      {
        var f := new FrameDesc();
        pool := pool + [f];
        i := i + 1;
      }
      bufferPool := pool;
      frames := set f | f in pool;
      pageFrameMap := map[];
      replPolicy := new Clock();
      disk := [];
    }

    /** Writes the frame under `pageno` when it is dirty; the frame itself,
        its dirty bit included, is left as it is. */
    method FlushPage(pageno: PageId, frameNo: FrameDesc?) returns (s: Status)
      modifies this`disk
      ensures frameNo == null ==> s == Fail(NotInPool) && disk == old(disk)
      ensures frameNo != null ==>
        s == Ok && disk == old(disk) + (if frameNo.dirty then [WritePage(pageno)] else [])
    {
      if frameNo != null {
        if frameNo.dirty {
          disk := disk + [WritePage(pageno)];
        }
        s := Ok;
      } else {
        s := Fail(NotInPool);
      }
    }

    /** The frames of `fs` other than `victim`. */
    static ghost function Others(fs: set<FrameDesc>, victim: FrameDesc?): set<FrameDesc>
    {
      set f | f in fs && f != victim
    }

    /** What a call of the clock over `cands` from the hand `hand`, passing
        `passed` frames, does to the frames `others` (all but the victim):
        the reference bits of the frames passed over and unpinned are
        cleared, and nothing else changes. */
    static twostate predicate ClockFrames(others: set<FrameDesc>, cands: seq<FrameDesc>, hand: nat, passed: nat)
      reads others
    {
      forall f :: f in others ==>
        && f.valid == old(f.valid) && f.pinCount == old(f.pinCount)
        && f.dirty == old(f.dirty) && f.pageno == old(f.pageno)
        && f.refbit == (old(f.refbit) && (f !in Passed(cands, hand, passed) || f.pinCount != 0))
    }

    /** The clock's choice over `cands` from the hand `hand`, as the buffer
        manager sees it after the call: the clock keeps `cands` as its frame
        array; a failure leaves the hand alone; a victim is the frame in the
        slot the hand stops at, `passed` slots on, which is the first slot in
        circular order from `hand` the scan can take
        (Replacement.ScanStopsAtFirst). */
    twostate predicate ClockChoice(cands: seq<FrameDesc>, hand: nat, passed: nat, s: Status, victim: FrameDesc?)
      reads replPolicy
    {
      && replPolicy.pageFrameArray == cands
      && (s.Fail? ==> replPolicy.current == hand)
      && (s.Ok? ==>
            && victim != null && hand < |cands| && passed < 2 * |cands|
            && replPolicy.current == Pos(hand, passed, |cands|)
            && replPolicy.current < |cands| && cands[replPolicy.current] == victim
            && old(PassesOver(cands, hand, passed))
            && old(TakeableAt(cands, hand, passed)))
    }

    /** A miss with an empty free list: asks the clock for a victim over the
        page map's values (in the map's iteration order `order`). */
    method TakeVictim(pageno: PageId, order: seq<PageId>) returns (s: Status, victim: FrameDesc?, ghost passed: nat)
      requires Valid() && IsEnumeration(order, pageFrameMap) && pageno !in pageFrameMap
      requires bufferPool == []
      modifies this`pageFrameMap, this`disk, frames, replPolicy
      ensures Valid() && pageFrameMap == old(pageFrameMap)
      ensures s.Ok? <==> victim != null
      ensures s.Fail? ==> s.error == PoolFull
      ensures victim != null ==> victim in frames
      ensures
        var cands := old(Candidates(order, pageFrameMap));
        && ClockFrames(Others(frames, victim), cands, old(replPolicy.current), passed)
        && ClockChoice(cands, old(replPolicy.current), passed, s, victim)
        && (s.Fail? <==> |cands| == 0 || forall f :: f in cands ==> old(Pinned(f)))
        && (s.Fail? ==> disk == old(disk))
        && (s.Ok? ==>
              && |replPolicy.pageFrameArray| == |pageFrameMap|
              && victim.pinCount == 0 && !victim.valid && !victim.dirty && !victim.refbit
              && victim.pageno == old(victim.pageno)
              && disk == old(disk) + (if old(victim.dirty) then [WritePage(pageno)] else []))
    {
      var cands := Candidates(order, pageFrameMap);
      forall f | f in cands
        ensures f in frames
      {
        var i :| 0 <= i < |cands| && cands[i] == f;
        assert order[i] in pageFrameMap;
      }
      // by HandInRange, the hand is inside a non-empty candidate list
      EnumerationSize(order, pageFrameMap);
      var pick;
      pick, passed := replPolicy.PickVictim(cands);
      label Picked:
      // the clock changes reference bits of candidates only
      forall f | f in frames
        ensures f.valid == old(f.valid) && f.pinCount == old(f.pinCount)
        ensures f.dirty == old(f.dirty) && f.pageno == old(f.pageno)
        ensures f.refbit == (old(f.refbit) && (f !in Passed(cands, old(replPolicy.current), passed) || f.pinCount != 0))
      {
      }
      if pick.Chosen? {
        victim := pick.frame;
        Evict(pageno, victim);
        assert forall g :: g in frames && g != victim ==>
          g.valid == old@Picked(g.valid) && g.pinCount == old@Picked(g.pinCount) &&
          g.dirty == old@Picked(g.dirty) && g.pageno == old@Picked(g.pageno) &&
          g.refbit == old@Picked(g.refbit);
        s := Ok;
      } else {
        s, victim := Fail(PoolFull), null;
      }
    }

    /** What a miss does to the clock's victim: writes it out under the
        REQUESTED id when dirty, removes `pageno` from the map (a miss: it is
        not a key, so this removes nothing), and resets the frame. */
    method Evict(pageno: PageId, victim: FrameDesc)
      requires pageno !in pageFrameMap
      modifies this`pageFrameMap, this`disk, victim
      ensures pageFrameMap == old(pageFrameMap)
      ensures victim.pinCount == 0 && !victim.valid && !victim.dirty && !victim.refbit
      ensures victim.pageno == old(victim.pageno)
      ensures disk == old(disk) + (if old(victim.dirty) then [WritePage(pageno)] else [])
    {
      if victim.dirty {
        var _ := FlushPage(pageno, victim);
      }
      pageFrameMap := pageFrameMap - {pageno};
      victim.pinCount := 0;
      victim.valid := false;
      victim.dirty := false;
      victim.refbit := false;
    }

    /** The switch on `contents` after a miss: PIN_DISKIO, PIN_MEMCPY and
        PIN_NOOP set the same metadata and map `pageno` to the frame; only the
        first reads the disk (byte copying is not modelled); any other value
        matches no case. */
    method Fill(pageno: PageId, contents: PinMode, victim: FrameDesc)
      requires PoolValid() && victim in frames && victim !in bufferPool
      // the free list was non-empty (so the hand is at 0), or the hand was just placed
      requires replPolicy.current > 0 ==> bufferPool == [] && replPolicy.current < |pageFrameMap|
      requires victim.pinCount == 0 && !victim.valid && !victim.dirty && !victim.refbit
      modifies this`pageFrameMap, this`disk, victim
      ensures Valid()
      ensures Loaded(victim, pageno, contents, old(pageFrameMap), pageFrameMap)
      ensures contents.PinOther? ==> victim.pageno == old(victim.pageno)
      ensures disk == old(disk) + FillReads(pageno, contents)
    {
      if !contents.PinOther? {
        if contents.PinDiskIO? {
          disk := disk + [ReadPage(pageno)];
        }
        victim.pinCount := victim.pinCount + 1;
        victim.valid := true;
        victim.dirty := false;
        victim.pageno := Some(pageno);
        victim.refbit := true;
        pageFrameMap := pageFrameMap[pageno := victim];
      }
    }

    /** The effect of one pinPage call on `pageno` with `contents`, from the
        state `old` to the current one, where `writes` are the disk calls it
        made: a hit, a miss served from the free list, or a
        miss served by the clock over the page map's values in iteration
        order `order`. `used` is the frame pinned, and `passed` the number of
        frames the clock passed over. */
    twostate predicate PinOutcome(pageno: PageId, contents: PinMode, order: seq<PageId>,
                                  s: Status, used: FrameDesc?, passed: nat, writes: seq<DiskOp>)
      requires old(IsEnumeration(order, pageFrameMap)) && frames == old(frames)
      reads this, frames, replPolicy
    {
      && (s.Ok? <==> used != null)
      && (s.Fail? ==> s.error == PoolFull)
      && (used != null ==> used in frames)
      && (old(pageno in pageFrameMap) ==> HitOutcome(pageno, s, used, writes))
      && (old(pageno !in pageFrameMap && |bufferPool| > 0) ==> FreeListOutcome(pageno, contents, s, used, writes))
      && (old(pageno !in pageFrameMap && |bufferPool| == 0) ==> ClockOutcome(pageno, contents, order, s, used, passed, writes))
    }

    /** A hit adds a pin to the mapped frame, whatever `contents` says, and
        changes nothing else. */
    twostate predicate HitOutcome(pageno: PageId, s: Status, used: FrameDesc?, writes: seq<DiskOp>)
      requires old(pageno in pageFrameMap) && frames == old(frames)
      reads this, frames, replPolicy
    {
      && s == Ok && used != null && used in frames && used == old(pageFrameMap[pageno])
      && pageFrameMap == old(pageFrameMap) && bufferPool == old(bufferPool) && writes == []
      && unchanged(replPolicy)
      && used.pinCount == old(used.pinCount) + 1
      && used.valid == old(used.valid) && used.dirty == old(used.dirty)
      && used.refbit == old(used.refbit) && used.pageno == old(used.pageno)
      && (forall f :: f in frames && f != used ==> unchanged(f))
    }

    /** A miss with frames on the free list takes the last one and fills it;
        the clock is not consulted. */
    twostate predicate FreeListOutcome(pageno: PageId, contents: PinMode, s: Status, used: FrameDesc?,
                                       writes: seq<DiskOp>)
      requires old(|bufferPool| > 0) && frames == old(frames)
      reads this, frames, replPolicy
    {
      && s == Ok && used != null && used in frames && used == old(bufferPool[|bufferPool| - 1])
      && bufferPool == old(bufferPool[..|bufferPool| - 1])
      && unchanged(replPolicy)
      && (forall f :: f in frames && f != used ==> unchanged(f))
      && Loaded(used, pageno, contents, old(pageFrameMap), pageFrameMap)
      && (contents.PinOther? ==> used.pageno == None)
      && writes == FillReads(pageno, contents)
    }

    /** A miss with an empty free list asks the clock for a victim, writes
        it out when dirty and fills it; the victim and the bits cleared are
        the clock's (ClockChoice). Without a victim nothing but reference
        bits of candidates change. */
    twostate predicate ClockOutcome(pageno: PageId, contents: PinMode, order: seq<PageId>,
                                    s: Status, used: FrameDesc?, passed: nat, writes: seq<DiskOp>)
      requires old(IsEnumeration(order, pageFrameMap)) && frames == old(frames)
      reads this, frames, replPolicy
    {
      var cands := old(Candidates(order, pageFrameMap));
      && bufferPool == []
      && (used != null ==> used in frames)
      && ClockFrames(Others(frames, used), cands, old(replPolicy.current), passed)
      && ClockChoice(cands, old(replPolicy.current), passed, s, used)
      && (s.Fail? <==> |cands| == 0 || forall f :: f in cands ==> old(Pinned(f)))
      && (s.Fail? ==> used == null && pageFrameMap == old(pageFrameMap) && writes == [])
      && (s.Ok? ==>
            && used != null
            && Loaded(used, pageno, contents, old(pageFrameMap), pageFrameMap)
            && (contents.PinOther? ==> used.pageno == old(used.pageno))
            && writes == (if old(used.dirty) then [WritePage(pageno)] else [])
                          + FillReads(pageno, contents))
    }

    /** Pins `pageno`: a hit, a miss served from the free list
        (PinFromFreeList) or a miss served by the clock (PinFromClock). The
        last three postconditions sum PinOutcome up for callers. */
    method PinPage(pageno: PageId, contents: PinMode, order: seq<PageId>)
      returns (s: Status, ghost used: FrameDesc?, ghost passed: nat, ghost writes: seq<DiskOp>)
      requires Valid() && IsEnumeration(order, pageFrameMap)
      modifies this, frames, replPolicy
      ensures Valid() && frames == old(frames) && (used != null ==> used in frames)
      ensures disk == old(disk) + writes && PinOutcome(pageno, contents, order, s, used, passed, writes)
      ensures s.Fail? ==>
        old(pageno !in pageFrameMap && bufferPool == [] &&
            forall f :: f in Candidates(order, pageFrameMap) ==> Pinned(f))
      ensures s.Ok? && (old(pageno in pageFrameMap) || !contents.PinOther?) ==>
        used != null && pageno in pageFrameMap && pageFrameMap[pageno] == used && used.pinCount > 0
      ensures s.Ok? && old(pageno !in pageFrameMap) && !contents.PinOther? ==> used != null && Holds(used, pageno)
    {
      var frameNo: FrameDesc? := if pageno in pageFrameMap then pageFrameMap[pageno] else null;
      if frameNo != null {
        frameNo.pinCount := frameNo.pinCount + 1;
        return Ok, frameNo, 0, [];
      }
      passed := 0;
      if |bufferPool| != 0 {
        used := PinFromFreeList(pageno, contents);
        s, writes := Ok, FillReads(pageno, contents);
      } else {
        s, used, passed, writes := PinFromClock(pageno, contents, order);
      }
    }

    /** A miss with frames on the free list: takes the last one and fills it
        as `contents` says (Fill). */
    method PinFromFreeList(pageno: PageId, contents: PinMode) returns (ghost used: FrameDesc?)
      requires Valid() && pageno !in pageFrameMap && |bufferPool| > 0
      modifies this`bufferPool, this`pageFrameMap, this`disk, frames
      ensures Valid() && frames == old(frames) && used != null && used in frames
      ensures disk == old(disk) + FillReads(pageno, contents)
      ensures FreeListOutcome(pageno, contents, Ok, used, FillReads(pageno, contents))
    {
      var victimFrm := bufferPool[|bufferPool| - 1];
      bufferPool := bufferPool[..|bufferPool| - 1];
      Fill(pageno, contents, victimFrm);
      used := victimFrm;
    }

    /** A miss with an empty free list: takes the clock's victim
        (TakeVictim) and fills it as `contents` says (Fill). */
    method PinFromClock(pageno: PageId, contents: PinMode, order: seq<PageId>)
      returns (s: Status, ghost used: FrameDesc?, ghost passed: nat, ghost writes: seq<DiskOp>)
      requires Valid() && IsEnumeration(order, pageFrameMap) && pageno !in pageFrameMap && bufferPool == []
      modifies this`pageFrameMap, this`disk, frames, replPolicy
      ensures Valid() && frames == old(frames) && (s.Ok? <==> used != null) && (s.Fail? ==> s.error == PoolFull)
      ensures used != null ==> used in frames
      ensures disk == old(disk) + writes && ClockOutcome(pageno, contents, order, s, used, passed, writes)
    {
      var victimFrm: FrameDesc?;
      s, victimFrm, passed := TakeVictim(pageno, order);
      writes := [];
      if victimFrm != null {
        ghost var evicted := if old(victimFrm.dirty) then [WritePage(pageno)] else [];
        Fill(pageno, contents, victimFrm);
        writes := evicted + FillReads(pageno, contents);
        assert disk == old(disk) + evicted + FillReads(pageno, contents) == old(disk) + writes;
      }
      used := victimFrm;
    }

    /** Removes one pin from a mapped, pinned page. The dirty bit becomes
        exactly `dirty`; the reference bit is set when the last pin goes. */
    method UnpinPage(pageno: PageId, dirty: bool) returns (s: Status)
      requires Valid()
      modifies frames
      ensures Valid()
      ensures s.Fail? <==> pageno !in pageFrameMap || old(pageFrameMap[pageno].pinCount) == 0
      ensures s.Fail? ==> s.error == NotPinned && forall f :: f in frames ==> unchanged(f)
      ensures s.Ok? ==>
        var f := pageFrameMap[pageno];
        && f.dirty == dirty
        && f.pinCount == old(f.pinCount) - 1
        && f.refbit == (f.pinCount == 0 || old(f.refbit))
        && f.valid == old(f.valid) && f.pageno == old(f.pageno)
        && forall g :: g in frames && g != f ==> unchanged(g)
    {
      var frameNo: FrameDesc? := if pageno in pageFrameMap then pageFrameMap[pageno] else null;
      if frameNo == null || frameNo.pinCount == 0 {
        return Fail(NotPinned);
      }
      frameNo.dirty := dirty;
      frameNo.pinCount := frameNo.pinCount - 1;
      if frameNo.pinCount == 0 {
        frameNo.refbit := true;
      }
      s := Ok;
    }

    /** Counts the free list plus every page-map key whose frame has no pins,
        visiting the keys in the map's iteration order `order`. */
    method GetNumUnpinned(order: seq<PageId>) returns (n: int)
      requires IsEnumeration(order, pageFrameMap)
      ensures n == |bufferPool| + |UnpinnedKeys()|
    {
      var unpinned := 0;
      if |bufferPool| != 0 {
        unpinned := unpinned + |bufferPool|;
      }
      var m := pageFrameMap;
      var i := 0;
      while i < |order|
        invariant 0 <= i <= |order|
        invariant unpinned == |bufferPool| + UnpinnedCount(order[..i], m)
      {
        var value := m[order[i]];
        UnpinnedCountStep(order, m, i);
        if value.pinCount == 0 {
          unpinned := unpinned + 1;
        }
        i := i + 1;
      }
      assert order[..i] == order;
      UnpinnedTotal(order, m);
      n := unpinned;
    }

    /** Allocates a run of `runSize` pages, whose first id the disk manager
        returns as `firstId`, and pins that page with PIN_MEMCPY. Before
        allocating, it fails when nothing is unpinned, and when the id that
        a fresh PageId holds (INVALID_PAGEID) is mapped and pinned. Past
        those checks the pin always succeeds, since some frame is free or
        unpinned. */
    method NewPage(runSize: int, firstId: PageId, order: seq<PageId>)
      returns (r: Allocation, ghost used: FrameDesc?, ghost passed: nat, ghost writes: seq<DiskOp>)
      requires Valid() && IsEnumeration(order, pageFrameMap)
      modifies this, frames, replPolicy
      ensures Valid() && frames == old(frames)
      ensures old(|bufferPool| + |UnpinnedKeys()| == 0 ||
                  (INVALID_PAGEID in pageFrameMap && pageFrameMap[INVALID_PAGEID].pinCount > 0)) ==>
        && r == AllocFail(if old(|bufferPool| + |UnpinnedKeys()|) == 0 then PoolFull else AlreadyPinned)
        && used == null
        && disk == old(disk) && pageFrameMap == old(pageFrameMap) && bufferPool == old(bufferPool)
        && unchanged(replPolicy) && (forall f :: f in frames ==> unchanged(f))
      ensures old(|bufferPool| + |UnpinnedKeys()| > 0 &&
                  !(INVALID_PAGEID in pageFrameMap && pageFrameMap[INVALID_PAGEID].pinCount > 0)) ==>
        // the run is allocated, then its first page is pinned as pinPage does
        && r == Allocated(firstId) && used != null && used in frames
        && disk == old(disk) + [AllocatePage(runSize, firstId)] + writes
        && PinOutcome(firstId, PinMemCpy, order, Ok, used, passed, writes)
        && firstId in pageFrameMap && pageFrameMap[firstId] == used && used.pinCount > 0
        && (old(firstId !in pageFrameMap) ==> Holds(used, firstId))
    {
      var probe: FrameDesc? := if INVALID_PAGEID in pageFrameMap then pageFrameMap[INVALID_PAGEID] else null;
      var unpinned := GetNumUnpinned(order);
      if unpinned == 0 {
        return AllocFail(PoolFull), null, 0, [];
      } else if probe != null && probe.pinCount > 0 {
        return AllocFail(AlreadyPinned), null, 0, [];
      }
      used, passed, writes := AllocateAndPin(runSize, firstId, order);
      r := Allocated(firstId);
    }

    /** newPage past its checks: records the allocation of the run, then pins
        its first page with PIN_MEMCPY. With some frame free or unpinned, the
        pin finds a frame. */
    method AllocateAndPin(runSize: int, firstId: PageId, order: seq<PageId>)
      returns (ghost used: FrameDesc?, ghost passed: nat, ghost writes: seq<DiskOp>)
      requires Valid() && IsEnumeration(order, pageFrameMap)
      requires |bufferPool| + |UnpinnedKeys()| > 0
      modifies this, frames, replPolicy
      ensures Valid() && frames == old(frames) && used != null && used in frames
      ensures disk == old(disk) + [AllocatePage(runSize, firstId)] + writes
      ensures PinOutcome(firstId, PinMemCpy, order, Ok, used, passed, writes)
      ensures firstId in pageFrameMap && pageFrameMap[firstId] == used && used.pinCount > 0
      ensures old(firstId !in pageFrameMap) ==> Holds(used, firstId)
    {
      ghost var spare: FrameDesc? := null;
      if |bufferPool| == 0 {
        spare := UnpinnedCandidate(order);
      }
      disk := disk + [AllocatePage(runSize, firstId)];
      var s;
      // a failed pin would need every candidate pinned, `spare` included
      s, used, passed, writes := PinPage(firstId, PinMemCpy, order);
    }

    /** A page-map key whose frame has no pins puts an unpinned frame among
        the clock's candidates. */
    lemma UnpinnedCandidate(order: seq<PageId>) returns (f: FrameDesc)
      requires IsEnumeration(order, pageFrameMap)
      requires |UnpinnedKeys()| > 0
      ensures f in Candidates(order, pageFrameMap) && !Pinned(f)
    {
      var k := Member(UnpinnedKeys());
      assert k in pageFrameMap && k in order;
      var i :| 0 <= i < |order| && order[i] == k;
      f := Candidates(order, pageFrameMap)[i];
    }

    /** The number of page-map keys; stale keys that share a frame are each
        counted, so this is at least the number of distinct frames mapped. */
    method GetNumFrames() returns (n: int)
      ensures n == |pageFrameMap|
      ensures |pageFrameMap.Values| <= n
    {
      ValuesAtMostKeys(pageFrameMap);
      n := |pageFrameMap|;
    }

    /** Deallocates `pageno` on disk unless it is mapped to a pinned frame.
        The guard of the map removal asks for a boxed integer, which is never
        a key, so the page map is left as it was. */
    method FreePage(pageno: PageId) returns (s: Status)
      modifies this`pageFrameMap, this`disk
      ensures pageFrameMap == old(pageFrameMap)
      ensures s.Fail? <==> pageno in pageFrameMap && pageFrameMap[pageno].pinCount > 0
      ensures s.Fail? ==> s.error == PagePinned && disk == old(disk)
      ensures s.Ok? ==> disk == old(disk) + [DeallocatePage(pageno)]
    {
      var frameNo: FrameDesc? := if pageno in pageFrameMap then pageFrameMap[pageno] else null;
      if frameNo != null && frameNo.pinCount > 0 {
        return Fail(PagePinned);
      }
      pageFrameMap := if ContainsKey(pageFrameMap, IntKey(pageno)) then pageFrameMap - {pageno} else pageFrameMap;
      disk := disk + [DeallocatePage(pageno)];
      s := Ok;
    }

    /** One step of flushAllFrames: removes `key` from the page map and
        writes its frame when valid and dirty. */
    method FlushEntry(key: PageId)
      requires PoolValid() && key in pageFrameMap
      modifies this`pageFrameMap, this`disk
      ensures PoolValid()
      ensures pageFrameMap == old(pageFrameMap) - {key}
      ensures disk == old(disk) +
        (if old(pageFrameMap[key].valid && pageFrameMap[key].dirty) then [WritePage(key)] else [])
    {
      var value := pageFrameMap[key];
      pageFrameMap := pageFrameMap - {key};
      if value.valid && value.dirty {
        var _ := FlushPage(key, value);
      }
    }

    /** Visits the page map in iteration order `order`, removing each entry
        and writing its frame when valid and dirty. The frames themselves are
        not touched, and none of them returns to the free list. */
    method FlushAllFrames(order: seq<PageId>)
      requires Valid() && IsEnumeration(order, pageFrameMap)
      modifies this`pageFrameMap, this`disk
      ensures Valid()
      ensures pageFrameMap == map[]
      ensures disk == old(disk) + FlushWrites(order, old(DirtyKeys(pageFrameMap)))
    {
      ghost var m0 := pageFrameMap;
      ghost var toWrite := DirtyKeys(pageFrameMap);
      var i := 0;
      while i < |order|
        invariant 0 <= i <= |order|
        invariant pageFrameMap == Without(m0, order[..i])
        invariant PoolValid()
        invariant disk == old(disk) + FlushWrites(order[..i], toWrite)
      {
        DistinctStep(order, m0, i);
        WithoutStep(m0, order, i);
        FlushWritesStep(order, toWrite, i);
        assert order[i] in toWrite <==> pageFrameMap[order[i]].valid && pageFrameMap[order[i]].dirty;
        FlushEntry(order[i]);
        i := i + 1;
      }
      WithoutAll(m0, order);
      assert order[..i] == order;
    }
  }
}

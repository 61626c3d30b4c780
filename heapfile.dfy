/** Heap files: an unordered set of records on data pages, with a directory
    of linked pages that holds, for every data page, its record count and
    its free space. Page contents other than the directory are not modelled:
    what a data page does with a record (accept it, give it a slot, report
    the free space left) arrives as parameters. */
module Heap {
  import opened Global
  import opened Directory

  datatype HeapError =
    | RecordTooLarge   // the record is longer than a data page can hold
    | RecordRejected   // the data page refused the record or the rid
    | PagePinned       // the buffer manager refused to free a pinned page
    | NotPinned        // the buffer manager refused to unpin a page that is not pinned
    | NoEntry          // the directory has no entry for the data page

  datatype Outcome = Done | Failed(error: HeapError)

  /** A record id: a data page and a slot on it. */
  datatype Rid = Rid(pageno: PageId, slotNo: int)

  /** What insertRecord returns: a rid, the data page's null rid passed
      on, or an exception. */
  datatype Insertion = Inserted(rid: Rid) | NoRid | NotInserted(error: HeapError)

  /** What the data page's own insertRecord does with a record. */
  datatype PageInsert =
    | Stored(slotNo: int)   // it takes the record into slot `slotNo`
    | ReturnsNull           // it returns no rid, and the heap file carries on
    | Throws                // it throws, and the exception leaves the heap file

  /** The position of the first page of `order` that is pinned. */
  function FirstPinned(order: seq<PageId>, pins: multiset<PageId>): (r: Option<nat>)
    ensures r.Some? ==> r.value < |order| && order[r.value] in pins
  {
    PinnedFrom(order, 0, pins)
  }

  /** The position of the first pinned page of `order` at or after `i`. */
  function PinnedFrom(order: seq<PageId>, i: nat, pins: multiset<PageId>): (r: Option<nat>)
    requires i <= |order|
    ensures r.Some? ==> i <= r.value < |order| && order[r.value] in pins
    decreases |order| - i
  {
    if i == |order| then None
    else if order[i] in pins then Some(i)
    else PinnedFrom(order, i + 1, pins)
  }

  lemma {:induction false} PinnedFromIsFirst(order: seq<PageId>, i: nat, pins: multiset<PageId>)
    requires i <= |order|
    ensures PinnedFrom(order, i, pins).Some? ==>
      forall j :: i <= j < PinnedFrom(order, i, pins).value ==> order[j] !in pins
    ensures PinnedFrom(order, i, pins).None? ==> forall j :: i <= j < |order| ==> order[j] !in pins
    decreases |order| - i
  {
    if i < |order| {
      PinnedFromIsFirst(order, i + 1, pins);
    }
  }

  lemma {:induction false} PinnedFromAt(order: seq<PageId>, i: nat, j: nat, pins: multiset<PageId>)
    requires i <= j < |order| && order[j] in pins
    requires forall m :: i <= m < j ==> order[m] !in pins
    ensures PinnedFrom(order, i, pins) == Some(j)
    decreases j - i
  {
    if i < j {
      PinnedFromAt(order, i + 1, j, pins);
    }
  }

  lemma {:induction false} PinnedFromNone(order: seq<PageId>, i: nat, pins: multiset<PageId>)
    requires i <= |order|
    requires forall m :: i <= m < |order| ==> order[m] !in pins
    ensures PinnedFrom(order, i, pins).None?
    decreases |order| - i
  {
    if i < |order| {
      PinnedFromNone(order, i + 1, pins);
    }
  }

  /** No page before the first pinned one is pinned; with none, no page is. */
  lemma FirstPinnedIsFirst(order: seq<PageId>, pins: multiset<PageId>)
    ensures FirstPinned(order, pins).Some? ==>
      forall j :: 0 <= j < FirstPinned(order, pins).value ==> order[j] !in pins
    ensures FirstPinned(order, pins).None? ==> forall j :: 0 <= j < |order| ==> order[j] !in pins
  {
    PinnedFromIsFirst(order, 0, pins);
  }

  /** A pinned page with no pinned page before it is the first pinned one. */
  lemma PinnedAt(order: seq<PageId>, j: nat, pins: multiset<PageId>)
    requires j < |order| && order[j] in pins
    requires forall i :: 0 <= i < j ==> order[i] !in pins
    ensures FirstPinned(order, pins) == Some(j)
  {
    PinnedFromAt(order, 0, j, pins);
  }

  /** With no page pinned, there is no first pinned page. */
  lemma NonePinned(order: seq<PageId>, pins: multiset<PageId>)
    requires forall i :: 0 <= i < |order| ==> order[i] !in pins
    ensures FirstPinned(order, pins).None?
  {
    PinnedFromNone(order, 0, pins);
  }

  /** Pinning `b` and then unpinning `a`, which was pinned before. */
  lemma PinSwap(m: multiset<PageId>, a: PageId, b: PageId)
    requires a in m
    ensures m + multiset{b} - multiset{a} == m - multiset{a} + multiset{b}
  {
    assert forall x :: (m + multiset{b} - multiset{a})[x] == (m - multiset{a} + multiset{b})[x];
  }

  /** Pinning `a` and then `b`, and unpinning `a`. */
  lemma PinDrop(m: multiset<PageId>, a: PageId, b: PageId)
    ensures m + multiset{a} + multiset{b} - multiset{a} == m + multiset{b}
  {
    assert forall x :: (m + multiset{a} + multiset{b} - multiset{a})[x] == (m + multiset{b})[x];
  }

  /** Pinning `a` and unpinning it again. */
  lemma PinUnpin(m: multiset<PageId>, a: PageId)
    ensures m + multiset{a} - multiset{a} == m
  {
    assert forall x :: (m + multiset{a} - multiset{a})[x] == m[x];
  }

  /** The first pinned page of two parts. */
  lemma FirstPinnedAppend(a: seq<PageId>, b: seq<PageId>, pins: multiset<PageId>)
    ensures FirstPinned(a + b, pins) ==
      if FirstPinned(a, pins).Some? then FirstPinned(a, pins)
      else match FirstPinned(b, pins)
        case None => None
        case Some(j) => Some(|a| + j)
  {
    FirstPinnedIsFirst(a, pins);
    FirstPinnedIsFirst(b, pins);
    var ra, rb := FirstPinned(a, pins), FirstPinned(b, pins);
    if ra.Some? {
      PinnedAt(a + b, ra.value, pins);
    } else if rb.Some? {
      assert forall i :: |a| <= i < |a| + rb.value ==> (a + b)[i] == b[i - |a|];
      PinnedAt(a + b, |a| + rb.value, pins);
    } else {
      NonePinned(a + b, pins);
    }
  }

  /** A pin on a page outside `order` does not change its first pinned page. */
  lemma FirstPinnedOther(order: seq<PageId>, pins: multiset<PageId>, x: PageId)
    requires x !in order
    ensures FirstPinned(order, pins + multiset{x}) == FirstPinned(order, pins)
  {
    FirstPinnedIsFirst(order, pins);
    var r := FirstPinned(order, pins);
    if r.Some? {
      PinnedAt(order, r.value, pins + multiset{x});
    } else {
      NonePinned(order, pins + multiset{x});
    }
  }

  /** Cutting `a + seg + rest` inside `seg`. */
  lemma SliceInMiddle(order: seq<PageId>, a: seq<PageId>, seg: seq<PageId>, rest: seq<PageId>, s: nat)
    requires order == a + seg + rest && s < |seg|
    ensures order[..|a| + s] == a + seg[..s]
    ensures order[|a| + s] == seg[s]
  {
    assert order[..|a| + s] == (a + seg)[..|a| + s];
  }

  /** The first pinned page of `a + seg + rest` when `a` has none and `seg`
      has one. */
  lemma FirstPinnedStop(order: seq<PageId>, a: seq<PageId>, seg: seq<PageId>, rest: seq<PageId>, pins: multiset<PageId>)
    requires order == a + seg + rest
    requires FirstPinned(a, pins).None? && FirstPinned(seg, pins).Some?
    ensures
      var s := FirstPinned(seg, pins).value;
      && FirstPinned(order, pins) == Some(|a| + s)
      && order[..|a| + s] == a + seg[..s]
      && order[|a| + s] == seg[s]
  {
    var s := FirstPinned(seg, pins).value;
    FirstPinnedAppend(a, seg, pins);
    FirstPinnedAppend(a + seg, rest, pins);
    SliceInMiddle(order, a, seg, rest, s);
  }

  /** An entry after updateDirEntry: `deltaRec` more records and the given
      free count, each cast to a short as the source does. */
  function Recount(e: DirEntry, deltaRec: int, freecnt: int): (r: DirEntry)
    ensures r.pageId == e.pageId
    ensures -0x8000 <= e.recCnt as int + deltaRec < 0x8000 ==> r.recCnt as int == e.recCnt as int + deltaRec
    ensures -0x8000 <= freecnt < 0x8000 ==> r.freeCnt as int == freecnt
  {
    e.(recCnt := ToShort(e.recCnt as int + deltaRec), freeCnt := ToShort(freecnt))
  }

  /** updateDirEntry's rewrite of one entry by `delta` records changes the
      file's total, which getRecCnt returns, by exactly `delta`, unless the
      short count wraps. */
  lemma RecountShifts(es: seq<DirEntry>, pos: nat, delta: int, freecnt: int)
    requires pos < |es| && -0x8000 <= es[pos].recCnt as int + delta < 0x8000
    ensures RecSum(es[pos := Recount(es[pos], delta, freecnt)]) == RecSum(es) + delta
  {
    SetRecSum(es, pos, Recount(es[pos], delta, freecnt));
  }

  /** Removing the entry at index `index` of page `k` takes its record count
      out of the file's total. */
  lemma RemovedTakesCount(dirs: map<PageId, DirPage>, chain: seq<PageId>, k: nat, index: nat)
    requires InDirs(dirs, chain) && Distinct(chain)
    requires k < |chain| && index < |dirs[chain[k]].entries|
    ensures
      var es, pos := Flat(dirs, chain), EntryPos(dirs, chain, k, index);
      pos < |es| && RecSum(es[..pos] + es[pos + 1..]) == RecSum(es) - dirs[chain[k]].entries[index].recCnt as int
  {
    var es, pos := Flat(dirs, chain), EntryPos(dirs, chain, k, index);
    var e := dirs[chain[k]].entries[index];
    SetPlacesEntry(dirs, chain, k, index, e);
    assert pos < |es| && es[pos] == e;
    RemoveRecSum(es, pos);
  }

  /** The inner loop of getRecCnt: one page's record counts added up. */
  method CountRecords(es: seq<DirEntry>) returns (n: int)
    ensures n == RecSum(es)
  {
    n := 0;
    var i := 0;
    while i < |es|
      invariant 0 <= i <= |es| && n == RecSum(es[..i])
    {
      assert es[..i + 1][..i] == es[..i];
      n := n + es[i].recCnt as int;
      i := i + 1;
    }
    assert es[..i] == es;
  }

  /** The inner loop of findDirEntry: the first entry of one page that
      names `pageno`. */
  method SearchEntries(es: seq<DirEntry>, pageno: PageId) returns (r: Option<nat>)
    ensures r == IndexOf(es, pageno)
  {
    var i := 0;
    while i < |es|
      invariant 0 <= i <= |es|
      invariant forall j :: 0 <= j < i ==> es[j].pageId != pageno
    {
      if pageno == es[i].pageId {
        return Some(i);
      }
      i := i + 1;
    }
    return None;
  }

  /** The inner loop of getAvailPage: the first entry of one page whose
      free count is not below `need`. */
  method FitEntries(es: seq<DirEntry>, need: int) returns (r: Option<nat>)
    ensures r == FirstFit(es, need)
  {
    var i := 0;
    while i < |es|
      invariant 0 <= i <= |es|
      invariant forall j :: 0 <= j < i ==> es[j].freeCnt as int < need
    {
      if es[i].freeCnt as int < need {
        i := i + 1;
        continue;
      }
      return Some(i);
    }
    return None;
  }

  /** deleteFile's walk past one more directory page, `seg` being its data
      pages and then the page itself, none of them pinned. */
  lemma WalkPast(pre: seq<PageId>, seg: seq<PageId>, pins: multiset<PageId>, freed0: seq<PageId>, freed1: seq<PageId>)
    requires FirstPinned(pre, pins).None? && FirstPinned(seg, pins).None?
    requires freed1 == freed0 + pre + seg
    ensures FirstPinned(pre + seg, pins).None? && freed1 == freed0 + (pre + seg)
  {
    FirstPinnedAppend(pre, seg, pins);
  }

  /** deleteFile's walk stopping on directory page `dirId`, with entries
      `es`, after the pages `pre`: the page freePage refuses is the first
      pinned one of the whole free order `order`, and `dirId` stays pinned
      when that is one of its data pages. */
  lemma WalkStop(order: seq<PageId>, pre: seq<PageId>, es: seq<DirEntry>, dirId: PageId, rest: seq<PageId>,
                 chain: seq<PageId>, pins0: multiset<PageId>, pins1: multiset<PageId>,
                 freed0: seq<PageId>, freed1: seq<PageId>)
    requires order == pre + (Ids(es) + [dirId]) + rest
    requires dirId in chain && forall i :: 0 <= i < |es| ==> es[i].pageId !in chain
    requires FirstPinned(pre, pins0).None?
    requires
      var seg := Ids(es) + [dirId];
      var first := FirstPinned(seg, pins0);
      && first.Some?
      && freed1 == freed0 + pre + seg[..first.value]
      && pins1 == if first.value < |es| then pins0 + multiset{dirId} else pins0
    ensures
      var first := FirstPinned(order, pins0);
      && first.Some?
      && freed1 == freed0 + order[..first.value]
      && (order[first.value] in chain ==> pins1 == pins0)
      && (order[first.value] !in chain ==> pins1 == pins0 + multiset{dirId})
  {
    var seg := Ids(es) + [dirId];
    var s := FirstPinned(seg, pins0).value;
    FirstPinnedStop(order, pre, seg, rest, pins0);
    assert freed0 + pre + seg[..s] == freed0 + (pre + seg[..s]);
    if s < |es| {
      assert seg[s] == es[s].pageId;
    }
  }

  class HeapFile {
    /** First page of the directory. */
    const headId: PageId
    /** The size of a slot on a data page. */
    const slotSize: nat
    /** The longest record a data page holds. */
    const maxTupSize: nat

    /** The directory pages' contents, by page id. */
    var dirs: map<PageId, DirPage>
    /** The directory pages in list order, from the head. */
    ghost var chain: seq<PageId>
    /** The buffer manager as the heap file sees it: the pins this file holds
        on each page, and the pages it has had freed, in order. */
    var pins: multiset<PageId>
    var freed: seq<PageId>

    ghost predicate Valid()
      reads this`dirs, this`chain
    {
      Wellformed(dirs, chain, headId)
    }

    /** The directory entries, page after page along the list. */
    ghost function Entries(): seq<DirEntry>
      reads this`dirs, this`chain
      requires Valid()
    {
      Flat(dirs, chain)
    }

    /** Creating a new file: a fresh, empty head directory page, pinned by
        newPage and unpinned again. */
    constructor (headId: PageId, slotSize: nat, maxTupSize: nat)
      requires headId != INVALID_PAGEID
      ensures Valid() && Entries() == []
      ensures this.headId == headId && this.slotSize == slotSize && this.maxTupSize == maxTupSize
      ensures chain == [headId] && dirs == map[headId := EMPTY_DIR]
      ensures pins == multiset{} && freed == []
    {
      this.headId := headId;
      this.slotSize := slotSize;
      this.maxTupSize := maxTupSize;
      dirs := map[headId := EMPTY_DIR];
      chain := [headId];
      pins := multiset{};
      freed := [];
      new;
      EmptyWellformed(headId);
    }

    /** pinPage, and newPage, which pins the page it allocates. */
    method Pin(id: PageId)
      modifies this`pins
      ensures pins == old(pins) + multiset{id}
    {
      pins := pins + multiset{id};
    }

    /** unpinPage: refused for a page this file does not hold pinned. */
    method Unpin(id: PageId) returns (o: Outcome)
      modifies this`pins
      ensures id in old(pins) ==> o == Done && pins == old(pins) - multiset{id}
      ensures id !in old(pins) ==> o == Failed(NotPinned) && pins == old(pins)
    {
      if id in pins {
        pins := pins - multiset{id};
        o := Done;
      } else {
        o := Failed(NotPinned);
      }
    }

    /** freePage: refused for a pinned page. */
    method Free(id: PageId) returns (o: Outcome)
      modifies this`freed
      ensures id in pins ==> o == Failed(PagePinned) && freed == old(freed)
      ensures id !in pins ==> o == Done && freed == old(freed) + [id]
    {
      if id in pins {
        o := Failed(PagePinned);
      } else {
        freed := freed + [id];
        o := Done;
      }
    }

    /** deleteFile: walks the list and, on each directory page, frees its
        data pages in order, then unpins and frees the page itself. The first
        page that freePage refuses, being pinned, ends the walk with an
        exception; when that is a data page, the directory page holding its
        entry stays pinned (`held`). Removing the file's library entry is not
        modelled. */
    method DeleteFile() returns (o: Outcome, ghost held: PageId)
      requires Valid()
      modifies this`pins, this`freed
      ensures
        var order := FreeOrder(dirs, chain);
        var first := FirstPinned(order, old(pins));
        && (first.None? ==> o == Done && freed == old(freed) + order && pins == old(pins))
        && (first.Some? ==>
              && o == Failed(PagePinned) && freed == old(freed) + order[..first.value]
              && (order[first.value] in chain ==> pins == old(pins))
              && (order[first.value] !in chain ==> held in chain && pins == old(pins) + multiset{held}))
    {
      var dirId := headId;
      ghost var k := 0;
      held := headId;
      while dirId != INVALID_PAGEID
        invariant k <= |chain| && dirId == if k < |chain| then chain[k] else INVALID_PAGEID
        invariant InDirs(dirs, chain[..k]) && pins == old(pins)
        invariant freed == old(freed) + FreeOrder(dirs, chain[..k])
        invariant FirstPinned(FreeOrder(dirs, chain[..k]), old(pins)).None?
        decreases |chain| - k
      {
        EntryIdsOutside(dirs, chain, headId, k);
        NextStep(dirs, chain, headId, k);
        var nextId;
        o, nextId := FreeListPage(k, old(pins), old(freed), dirId);
        if o.Failed? {
          held := dirId;
          return;
        }
        dirId := nextId;
        k := k + 1;
      }
      assert chain[..k] == chain;
      o := Done;
    }

    /** deleteFile's visit of the `k`-th directory page, after the pages
        before it were freed with nothing pinned among them: either the walk
        goes on to the next page, or it stops as deleteFile states. */
    method FreeListPage(ghost k: nat, ghost pins0: multiset<PageId>, ghost freed0: seq<PageId>, dirId: PageId)
        returns (o: Outcome, nextId: PageId)
      requires InDirs(dirs, chain) && k < |chain| && dirId == chain[k] && InDirs(dirs, chain[..k])
      requires forall i :: 0 <= i < |dirs[dirId].entries| ==> dirs[dirId].entries[i].pageId !in chain
      requires dirs[dirId].next == if k + 1 < |chain| then chain[k + 1] else INVALID_PAGEID
      requires pins == pins0 && freed == freed0 + FreeOrder(dirs, chain[..k])
      requires FirstPinned(FreeOrder(dirs, chain[..k]), pins0).None?
      modifies this`pins, this`freed
      ensures nextId == if k + 1 < |chain| then chain[k + 1] else INVALID_PAGEID
      ensures InDirs(dirs, chain[..k + 1])
      ensures o.Done? ==>
        && pins == pins0 && freed == freed0 + FreeOrder(dirs, chain[..k + 1])
        && FirstPinned(FreeOrder(dirs, chain[..k + 1]), pins0).None?
      ensures o.Failed? ==>
        var order := FreeOrder(dirs, chain);
        var first := FirstPinned(order, pins0);
        && first.Some?
        && o == Failed(PagePinned) && freed == freed0 + order[..first.value]
        && (order[first.value] in chain ==> pins == pins0)
        && (order[first.value] !in chain ==> dirId in chain && pins == pins0 + multiset{dirId})
    {
      var d, page := dirs, dirs[dirId];
      ghost var c := chain;
      FreeOrderStep(d, c, k);
      ghost var pre, seg, order := FreeOrder(d, c[..k]), Ids(page.entries) + [dirId], FreeOrder(d, c);
      o, nextId := FreeDirPage(dirId, page);
      if o.Failed? {
        WalkStop(order, pre, page.entries, dirId, order[|FreeOrder(d, c[..k + 1])|..], c, pins0, pins, freed0, freed);
        return;
      }
      WalkPast(pre, seg, pins0, freed0, freed);
    }

    /** One page of deleteFile's walk: directory page `dirId`, holding
        `page`, is pinned, its data pages are freed (FreeData), and it is
        unpinned and freed; a refusal ends the visit. */
    method FreeDirPage(dirId: PageId, page: DirPage) returns (o: Outcome, nextId: PageId)
      requires forall i :: 0 <= i < |page.entries| ==> page.entries[i].pageId != dirId
      modifies this`pins, this`freed
      ensures nextId == page.next
      ensures
        var seg := Ids(page.entries) + [dirId];
        var first := FirstPinned(seg, old(pins));
        && (first.None? ==> o == Done && freed == old(freed) + seg && pins == old(pins))
        && (first.Some? ==>
              && o == Failed(PagePinned) && freed == old(freed) + seg[..first.value]
              && pins == if first.value < |page.entries| then old(pins) + multiset{dirId} else old(pins))
    {
      ghost var ids := Ids(page.entries);
      Pin(dirId);
      FirstPinnedOther(ids, old(pins), dirId);
      FirstPinnedAppend(ids, [dirId], old(pins));
      assert [dirId][..0] == [];
      assert (ids + [dirId])[..|ids|] == ids;
      o := FreeData(page.entries);
      nextId := page.next;
      if o.Failed? {
        return;
      }
      var u := Unpin(dirId);
      PinUnpin(old(pins), dirId);
      o := Free(dirId);
    }

    /** The inner loop of deleteFile: frees the data pages of `es` in order;
        freePage's refusal of a pinned page ends it. */
    method FreeData(es: seq<DirEntry>) returns (o: Outcome)
      modifies this`freed
      ensures
        var first := FirstPinned(Ids(es), pins);
        && (first.None? ==> o == Done && freed == old(freed) + Ids(es))
        && (first.Some? ==> o == Failed(PagePinned) && freed == old(freed) + Ids(es)[..first.value])
    {
      var i := 0;
      while i < |es|
        invariant 0 <= i <= |es|
        invariant freed == old(freed) + Ids(es)[..i]
        invariant forall j :: 0 <= j < i ==> es[j].pageId !in pins
      {
        o := Free(es[i].pageId);
        if o.Failed? {
          PinnedAt(Ids(es), i, pins);
          return;
        }
        assert Ids(es)[..i + 1] == Ids(es)[..i] + [es[i].pageId];
        i := i + 1;
      }
      assert Ids(es)[..i] == Ids(es);
      NonePinned(Ids(es), pins);
      o := Done;
    }

    /** The number of records in the file: the sum of the directory's
        record counts. Every page pinned on the way is unpinned. */
    method GetRecCnt() returns (n: int)
      requires Walkable(dirs, chain, headId)
      modifies this`pins
      ensures n == RecSum(Flat(dirs, chain))
      ensures pins == old(pins)
    {
      n := 0;
      var d := dirs;
      ghost var c := chain;
      var dirId := headId;
      ghost var k := 0;
      while dirId != INVALID_PAGEID
        invariant k <= |c| && dirId == if k < |c| then c[k] else INVALID_PAGEID
        invariant InDirs(d, c[..k]) && n == RecSum(Flat(d, c[..k]))
        invariant pins == old(pins)
        decreases |c| - k
      {
        var cnt, nextId := CountPage(dirId, d[dirId]);
        NextStep(d, c, headId, k);
        RecSumAppend(Flat(d, c[..k]), d[dirId].entries);
        n := n + cnt;
        dirId := nextId;
        k := k + 1;
      }
      assert c[..k] == c;
    }

    /** findDirEntry: the first directory page, along the list, holding an
        entry for `pageno`, and the index of that entry; the page is left
        pinned. Without an entry the index is -1, the page id is
        INVALID_PAGEID, and no page stays pinned. */
    method FindDirEntry(pageno: PageId) returns (index: int, dirId: PageId, ghost k: nat)
      requires Walkable(dirs, chain, headId)
      modifies this`pins
      ensures Locate(dirs, chain, pageno).Some? ==>
        && k == Locate(dirs, chain, pageno).value.0 && index == Locate(dirs, chain, pageno).value.1
        && k < |chain| && dirId == chain[k] && pins == old(pins) + multiset{dirId}
      ensures Locate(dirs, chain, pageno).None? ==>
        index == -1 && dirId == INVALID_PAGEID && pins == old(pins)
    {
      var d := dirs;
      ghost var c := chain;
      dirId := headId;
      k := 0;
      while dirId != INVALID_PAGEID
        invariant k <= |c| && dirId == if k < |c| then c[k] else INVALID_PAGEID
        invariant Locate(d, c, pageno).None? || Locate(d, c, pageno).value.0 >= k
        invariant pins == old(pins)
        decreases |c| - k
      {
        var found, nextId := ProbePage(dirId, d[dirId], pageno);
        if found.Some? {
          LocateHere(d, c, pageno, k);
          index := found.value;
          return;
        }
        LocatePast(d, c, pageno, k);
        assert nextId == if k + 1 < |c| then c[k + 1] else INVALID_PAGEID by { NextStep(d, c, headId, k); }
        dirId := nextId;
        k := k + 1;
      }
      index := -1;
    }
    /** One page of findDirEntry's walk: directory page `dirId`, holding
        `page`, is pinned and searched for an entry for `pageno`; it stays
        pinned when one is found and is unpinned otherwise. */
    method ProbePage(dirId: PageId, page: DirPage, pageno: PageId) returns (found: Option<nat>, nextId: PageId)
      modifies this`pins
      ensures found == IndexOf(page.entries, pageno) && nextId == page.next
      ensures found.Some? ==> pins == old(pins) + multiset{dirId}
      ensures found.None? ==> pins == old(pins)
    {
      Pin(dirId);
      found := SearchEntries(page.entries, pageno);
      nextId := page.next;
      if found.None? {
        var u := Unpin(dirId);
        PinUnpin(old(pins), dirId);
      }
    }

    /** One page of getRecCnt's walk: directory page `dirId`, holding
        `page`, is pinned, its record counts summed, and unpinned. */
    method CountPage(dirId: PageId, page: DirPage) returns (cnt: int, nextId: PageId)
      modifies this`pins
      ensures cnt == RecSum(page.entries) && nextId == page.next
      ensures pins == old(pins)
    {
      Pin(dirId);
      cnt := CountRecords(page.entries);
      nextId := page.next;
      var u := Unpin(dirId);
      PinUnpin(old(pins), dirId);
    }

    /** One page of getAvailPage's walk: directory page `dirId`, holding
        `page`, is pinned, searched for an entry with `need` free bytes, and
        unpinned. */
    method FitPage(dirId: PageId, page: DirPage, need: int) returns (fit: Option<nat>, nextId: PageId)
      modifies this`pins
      ensures fit == FirstFit(page.entries, need) && nextId == page.next
      ensures pins == old(pins)
    {
      Pin(dirId);
      fit := FitEntries(page.entries, need);
      nextId := page.next;
      var u := Unpin(dirId);
      PinUnpin(old(pins), dirId);
    }

    /** One page of insertPage's walk: directory page `dirId`, holding
        `page`, is pinned and checked for room for one more entry. It stays
        pinned when it has room, or when it is full and the last page (the
        new page is linked after it); otherwise it is unpinned. */
    method RoomPage(dirId: PageId, page: DirPage) returns (room: bool, nextId: PageId)
      modifies this`pins
      ensures room == (|page.entries| < MAX_ENTRIES) && nextId == page.next
      ensures room || nextId == INVALID_PAGEID ==> pins == old(pins) + multiset{dirId}
      ensures !room && nextId != INVALID_PAGEID ==> pins == old(pins)
    {
      Pin(dirId);
      room := |page.entries| < MAX_ENTRIES;
      nextId := page.next;
      if !room && nextId != INVALID_PAGEID {
        var u := Unpin(dirId);
        PinUnpin(old(pins), dirId);
      }
    }

    /** The first part of insertPage: walks the list to the first directory
        page with room for an entry; when every page is full, links a new,
        empty directory page `newDirId` after the last one. The page found
        is left pinned. */
    method FindRoom(newDirId: PageId) returns (dirId: PageId)
      requires Walkable(dirs, chain, headId) && newDirId !in chain && newDirId != INVALID_PAGEID
      modifies this`dirs, this`pins
      ensures FirstRoom(old(dirs), chain).Some? ==>
        && dirId == chain[FirstRoom(old(dirs), chain).value]
        && dirs == old(dirs) && pins == old(pins) + multiset{dirId}
      ensures FirstRoom(old(dirs), chain).None? ==>
        var tail := chain[|chain| - 1];
        && dirId == newDirId
        && dirs == old(dirs)[tail := old(dirs)[tail].(next := newDirId)][newDirId := DirPage([], tail, INVALID_PAGEID)]
        && pins == old(pins) + multiset{newDirId}
    {
      var d := dirs;
      ghost var c := chain;
      dirId := headId;
      ghost var k := 0;
      while true
        invariant k < |c| && dirId == c[k]
        invariant dirs == d && pins == old(pins)
        invariant FirstRoom(d, c).None? || FirstRoom(d, c).value >= k
        decreases |c| - k
      {
        var room, nextId := RoomPage(dirId, d[dirId]);
        if room {
          assert FirstRoom(d, c) == Some(k) by {
            var size := |d[c[k]].entries|;
            assert FirstRoom(d, c).None? || FirstRoom(d, c).value > k ==> size >= MAX_ENTRIES;
          }
          return;
        }
        assert FirstRoom(d, c).None? || FirstRoom(d, c).value > k;
        assert nextId == if k + 1 < |c| then c[k + 1] else INVALID_PAGEID by { NextStep(d, c, headId, k); }
        if nextId == INVALID_PAGEID {
          assert FirstRoom(d, c).None?;
          LinkTail(dirId, newDirId);
          dirId := newDirId;
          return;
        }
        dirId := nextId;
        k := k + 1;
      }
    }

    /** insertPage's new directory page: `newDirId`, pinned by newPage, is
        linked after the last page `tailId`, which is then unpinned. */
    method LinkTail(tailId: PageId, newDirId: PageId)
      requires tailId in dirs && tailId in pins
      modifies this`dirs, this`pins
      ensures dirs == old(dirs)[tailId := old(dirs)[tailId].(next := newDirId)][newDirId := DirPage([], tailId, INVALID_PAGEID)]
      ensures pins == old(pins) - multiset{tailId} + multiset{newDirId}
    {
      Pin(newDirId);
      dirs := dirs[tailId := dirs[tailId].(next := newDirId)][newDirId := DirPage([], tailId, INVALID_PAGEID)];
      var u := Unpin(tailId);
      assert pins == old(pins) - multiset{tailId} + multiset{newDirId} by {
        PinSwap(old(pins), tailId, newDirId);
      }
    }

    /** insertPage: a new data page `dataId` gets an entry with no records and
        `emptyFree` free bytes, on the first directory page with room, or on a
        new directory page `newDirId` linked after the last one. Both ids come
        from the disk allocator. Every page pinned on the way is unpinned. */
    method InsertPage(newDirId: PageId, dataId: PageId, emptyFree: Short) returns (id: PageId)
      requires Valid() && Fresh(dirs, chain, newDirId, dataId)
      modifies this`dirs, this`chain, this`pins
      ensures Valid() && id == dataId && pins == old(pins)
      ensures dirs == InsertDirs(old(dirs), old(chain), newDirId, DirEntry(dataId, 0, emptyFree))
      ensures chain == InsertChain(old(dirs), old(chain), newDirId)
      ensures
        var pos := InsertPos(old(dirs), old(chain));
        pos <= |old(Entries())| &&
        Entries() == old(Entries())[..pos] + [DirEntry(dataId, 0, emptyFree)] + old(Entries())[pos..]
    {
      ghost var d0, c0 := dirs, chain;
      var e := DirEntry(dataId, 0, emptyFree);
      var dirId := FindRoom(newDirId);
      assert dirId in dirs && dirs[dirId := dirs[dirId].(entries := dirs[dirId].entries + [e])] == InsertDirs(d0, c0, newDirId, e) by {
        InsertSteps(d0, c0, newDirId, e, dirId, dirs);
      }
      AddEntry(dirId, e);
      assert pins == old(pins) by { PinUnpin(old(pins), dirId); }
      chain := InsertChain(d0, c0, newDirId);
      id := dataId;
      assert Valid() by { InsertWellformed(d0, c0, headId, newDirId, dataId, e); }
      assert Entries() == Flat(d0, c0)[..InsertPos(d0, c0)] + [e] + Flat(d0, c0)[InsertPos(d0, c0)..] by {
        InsertPlacesEntry(d0, c0, newDirId, e);
      }
    }

    /** The end of insertPage: the new data page, pinned by newPage, gets
        entry `e` on directory page `dirId`; then both are unpinned. */
    method AddEntry(dirId: PageId, e: DirEntry)
      requires dirId in dirs && dirId in pins
      modifies this`dirs, this`pins
      ensures dirs == old(dirs)[dirId := old(dirs)[dirId].(entries := old(dirs)[dirId].entries + [e])]
      ensures pins == old(pins) - multiset{dirId}
    {
      Pin(e.pageId);
      dirs := dirs[dirId := dirs[dirId].(entries := dirs[dirId].entries + [e])];
      var u1 := Unpin(e.pageId);
      PinUnpin(old(pins), e.pageId);
      var u2 := Unpin(dirId);
    }

    /** The loop of getAvailPage: the data page of the first directory entry,
        along the list, with at least `need` free bytes, or None (the source's
        null) when there is none. Every page pinned on the way is unpinned. */
    method ScanForSpace(need: int) returns (freeId: Option<PageId>)
      requires Walkable(dirs, chain, headId)
      modifies this`pins
      ensures pins == old(pins)
      ensures freeId == FitId(Flat(dirs, chain), need)
    {
      var d := dirs;
      ghost var c := chain;
      var dirId := headId;
      ghost var k := 0;
      while dirId != INVALID_PAGEID
        invariant k <= |c| && dirId == if k < |c| then c[k] else INVALID_PAGEID
        invariant pins == old(pins)
        invariant FitAt(d, c, need).None? || FitAt(d, c, need).value.0 >= k
        decreases |c| - k
      {
        var fit, nextId := FitPage(dirId, d[dirId], need);
        assert nextId == if k + 1 < |c| then c[k + 1] else INVALID_PAGEID by { NextStep(d, c, headId, k); }
        if fit.Some? {
          FitHere(d, c, need, k);
          FitAtFlat(d, c, need);
          return Some(d[dirId].entries[fit.value].pageId);
        }
        FitPast(d, c, need, k);
        dirId := nextId;
        k := k + 1;
      }
      FitAtFlat(d, c, need);
      return None;
    }

    /** getAvailPage: the data page of the first directory entry, along the
        list, with at least `reclen` plus one slot of free space; without one,
        the data page insertPage adds. */
    method GetAvailPage(reclen: int, newDirId: PageId, dataId: PageId, emptyFree: Short) returns (freeId: PageId, ghost pos: nat)
      requires Valid() && Fresh(dirs, chain, newDirId, dataId)
      modifies this`dirs, this`chain, this`pins
      ensures Valid() && pins == old(pins)
      ensures pos < |Entries()| && Entries()[pos].pageId == freeId
      ensures
        var fit := FirstFit(old(Entries()), reclen + slotSize);
        && (fit.Some? ==> pos == fit.value)
        && (fit.None? ==> pos == InsertPos(old(dirs), old(chain)))
        && (fit.Some? ==> freeId == old(Entries())[fit.value].pageId && dirs == old(dirs) && chain == old(chain))
        && (fit.None? ==>
              && freeId == dataId
              && dirs == InsertDirs(old(dirs), old(chain), newDirId, DirEntry(dataId, 0, emptyFree))
              && chain == InsertChain(old(dirs), old(chain), newDirId)
              && InsertPos(old(dirs), old(chain)) <= |old(Entries())|
              && Entries() == old(Entries())[..InsertPos(old(dirs), old(chain))] + [DirEntry(dataId, 0, emptyFree)] +
                   old(Entries())[InsertPos(old(dirs), old(chain))..])
    {
      ghost var fit := FirstFit(Entries(), reclen + slotSize);
      var found := ScanForSpace(reclen + slotSize);
      if found.None? {
        ghost var es, ip := Entries(), InsertPos(dirs, chain);
        freeId := InsertPage(newDirId, dataId, emptyFree);
        pos := ip;
        ghost var e := DirEntry(dataId, 0, emptyFree);
        assert |es[..ip] + [e]| == ip + 1;
        assert Entries()[pos] == (es[..ip] + [e])[ip] == e;
      } else {
        freeId := found.value;
        pos := fit.value;
      }
    }

    /** insertRecord: a record of `recLen` bytes longer than maxTupSize is
        refused. Otherwise getAvailPage is asked for `recLen` plus one slot,
        to which it adds a slot of its own, the data page found is pinned,
        the record goes onto it, and its entry gets one record more and the
        page's new free count. The data page's own insertion is a parameter:
        `reply` says what it does with the record, and `freeAfter` is its
        free space afterwards; `newDirId`, `dataId` and `emptyFree` are what
        insertPage would use. `mid` is the directory after getAvailPage and
        `pos` the data page's entry in it. */
    method InsertRecord(recLen: int, newDirId: PageId, dataId: PageId, emptyFree: Short,
                        reply: PageInsert, freeAfter: int)
        returns (r: Insertion, ghost mid: seq<DirEntry>, ghost pos: nat, ghost held: PageId)
      requires Valid() && Fresh(dirs, chain, newDirId, dataId)
      modifies this`dirs, this`chain, this`pins, this`freed
      ensures Valid()
      ensures recLen > maxTupSize ==>
        && r == NotInserted(RecordTooLarge)
        && dirs == old(dirs) && chain == old(chain) && pins == old(pins) && freed == old(freed)
      ensures recLen <= maxTupSize ==>
        var fit := FirstFit(old(Entries()), recLen + slotSize + slotSize);
        && (fit.Some? ==> mid == old(Entries()) && pos == fit.value)
        && (fit.None? ==>
              && pos == InsertPos(old(dirs), old(chain)) && pos <= |old(Entries())|
              && mid == old(Entries())[..pos] + [DirEntry(dataId, 0, emptyFree)] + old(Entries())[pos..])
        && pos < |mid|
        && (reply.Throws? ==>
              && r == NotInserted(RecordRejected) && Entries() == mid
              && pins == old(pins) + multiset{mid[pos].pageId} && freed == old(freed))
        && (!reply.Throws? && mid[pos].recCnt as int + 1 >= 1 ==>
              && (reply.Stored? ==> r == Inserted(Rid(mid[pos].pageId, reply.slotNo)))
              && (reply.ReturnsNull? ==> r == NoRid)
              && Entries() == mid[pos := Recount(mid[pos], 1, freeAfter)]
              && pins == old(pins) && freed == old(freed))
        && (!reply.Throws? && mid[pos].recCnt as int + 1 < 1 ==>
              && r == NotInserted(PagePinned) && Entries() == mid && freed == old(freed)
              && held in chain && pins == old(pins) + multiset{mid[pos].pageId} + multiset{held})
        && ((r.Inserted? || r.NoRid?) && mid[pos].recCnt as int + 1 < 0x8000 ==>
              RecSum(Entries()) == RecSum(old(Entries())) + 1)
    {
      mid, pos, held := [], 0, headId;
      if recLen > maxTupSize {
        return NotInserted(RecordTooLarge), mid, pos, held;
      }
      ghost var before := Entries();
      var page;
      page, pos := GetAvailPage(recLen + slotSize, newDirId, dataId, emptyFree);
      mid := Entries();
      r, held := PlaceRecord(page, reply, freeAfter, mid, pos);
      if (r.Inserted? || r.NoRid?) && mid[pos].recCnt as int + 1 < 0x8000 {
        RecountShifts(mid, pos, 1, freeAfter);
        if FirstFit(before, recLen + slotSize + slotSize).None? {
          InsertRecSum(before, pos, DirEntry(dataId, 0, emptyFree));
        }
      }
    }

    /** The rest of insertRecord, on data page `page`, whose entry is at
        `pos`: the page is pinned; a data page that throws ends the call
        with the pin held; otherwise, whether or not it gave a rid,
        updateDirEntry records one record more, and the page is unpinned.
        A count that would drop below one sends updateDirEntry to
        deletePage, which refuses the page pinned here; the directory page
        stays pinned too (`held`). */
    method PlaceRecord(page: PageId, reply: PageInsert, freeAfter: int, ghost mid: seq<DirEntry>, ghost pos: nat)
        returns (r: Insertion, ghost held: PageId)
      requires Valid() && Entries() == mid && pos < |mid| && mid[pos].pageId == page
      modifies this`dirs, this`pins, this`freed
      ensures Valid()
      ensures reply.Throws? ==>
        r == NotInserted(RecordRejected) && Entries() == mid && pins == old(pins) + multiset{page} && freed == old(freed)
      ensures !reply.Throws? && mid[pos].recCnt as int + 1 >= 1 ==>
        && (reply.Stored? ==> r == Inserted(Rid(page, reply.slotNo)))
        && (reply.ReturnsNull? ==> r == NoRid)
        && Entries() == mid[pos := Recount(mid[pos], 1, freeAfter)]
        && pins == old(pins) && freed == old(freed)
      ensures !reply.Throws? && mid[pos].recCnt as int + 1 < 1 ==>
        && r == NotInserted(PagePinned) && Entries() == mid && freed == old(freed)
        && held in chain && pins == old(pins) + multiset{page} + multiset{held}
    {
      held := headId;
      Pin(page);
      if reply.Throws? {
        return NotInserted(RecordRejected), held;
      }
      LocateAt(dirs, chain, headId, pos);
      var o, k, i := UpdateDirEntry(page, 1, freeAfter);
      if o.Failed? {
        held := chain[k];
        return NotInserted(o.error), held;
      }
      var u := Unpin(page);
      PinUnpin(old(pins), page);
      r := if reply.Stored? then Inserted(Rid(page, reply.slotNo)) else NoRid;
    }

    /** selectRecord: the data page is pinned and its own lookup, which
        `found` stands for, is tried; the handler rethrows its refusal
        without unpinning, so the pin is then kept. */
    method SelectRecord(rid: Rid, found: bool) returns (o: Outcome)
      modifies this`pins
      ensures found ==> o == Done && pins == old(pins)
      ensures !found ==> o == Failed(RecordRejected) && pins == old(pins) + multiset{rid.pageno}
    {
      Pin(rid.pageno);
      if !found {
        return Failed(RecordRejected);
      }
      var u := Unpin(rid.pageno);
      PinUnpin(old(pins), rid.pageno);
      o := Done;
    }

    /** updateRecord: the data page is pinned and its own update, which
        `accepted` stands for, is tried; the page is unpinned whether or not
        that throws. */
    method UpdateRecord(rid: Rid, accepted: bool) returns (o: Outcome)
      modifies this`pins
      ensures pins == old(pins)
      ensures o == if accepted then Done else Failed(RecordRejected)
    {
      Pin(rid.pageno);
      var u := Unpin(rid.pageno);
      PinUnpin(old(pins), rid.pageno);
      o := if accepted then Done else Failed(RecordRejected);
    }

    /** deleteRecord: the data page is pinned, its own deletion (`accepted`)
        is tried, and its entry gets one record fewer and the page's new free
        count `freeAfter`. The handler for IllegalArgumentException unpins the
        data page and rethrows: that covers the data page's refusal and both
        refusals of deletePage, which always meets the page pinned here when
        the last record goes. A data page without an entry ends in the same
        handler: with index -1 and no directory page, updateDirEntry either
        reaches freePage of the pinned data page or unpins INVALID_PAGEID,
        and both refuse with that exception. */
    method DeleteRecord(rid: Rid, accepted: bool, freeAfter: int) returns (o: Outcome, ghost k: nat, ghost i: nat)
      requires Valid()
      modifies this`dirs, this`pins, this`freed
      ensures Valid()
      ensures !accepted ==>
        o == Failed(RecordRejected) && dirs == old(dirs) && pins == old(pins) && freed == old(freed)
      ensures accepted && Locate(old(dirs), chain, rid.pageno).None? ==>
        o == Failed(NoEntry) && dirs == old(dirs) && pins == old(pins) && freed == old(freed)
      ensures accepted && Locate(old(dirs), chain, rid.pageno).Some? ==>
        Locate(old(dirs), chain, rid.pageno) == Some((k, i)) && k < |chain| && i < |old(dirs)[chain[k]].entries|
      ensures accepted && Locate(old(dirs), chain, rid.pageno).Some? && old(dirs)[chain[k]].entries[i].recCnt as int - 1 < 1 ==>
        && o == Failed(PagePinned) && dirs == old(dirs) && freed == old(freed)
        && pins == old(pins) + multiset{chain[k]}
      ensures accepted && Locate(old(dirs), chain, rid.pageno).Some? && old(dirs)[chain[k]].entries[i].recCnt as int - 1 >= 1 ==>
        var e' := Recount(old(dirs)[chain[k]].entries[i], -1, freeAfter);
        && o == Done && pins == old(pins) && freed == old(freed)
        && EntryPos(old(dirs), chain, k, i) < |old(Entries())|
        && old(Entries())[EntryPos(old(dirs), chain, k, i)] == old(dirs)[chain[k]].entries[i]
        && Entries() == old(Entries())[EntryPos(old(dirs), chain, k, i) := e']
    {
      k, i := 0, 0;
      Pin(rid.pageno);
      if !accepted {
        var u := Unpin(rid.pageno);
        PinUnpin(old(pins), rid.pageno);
        return Failed(RecordRejected), k, i;
      }
      o, k, i := UpdateDirEntry(rid.pageno, -1, freeAfter);
      var u := Unpin(rid.pageno);
      if o.Failed? && o != Failed(NoEntry) {
        PinDrop(old(pins), rid.pageno, chain[k]);
      } else {
        PinUnpin(old(pins), rid.pageno);
      }
    }

    /** updateDirEntry: changes the entry of data page `pageno` by `deltaRec`
        records and sets its free count. When the count would drop below one,
        deletePage is called instead, with the directory page still pinned.
        Without an entry the source goes on with index -1; the model stops
        there. `k` and `i` are where findDirEntry found the entry. */
    method UpdateDirEntry(pageno: PageId, deltaRec: int, freecnt: int) returns (o: Outcome, ghost k: nat, ghost i: nat)
      requires Valid()
      modifies this`dirs, this`pins, this`freed
      ensures Valid()
      ensures Locate(old(dirs), chain, pageno).None? ==>
        o == Failed(NoEntry) && dirs == old(dirs) && pins == old(pins) && freed == old(freed)
      ensures Locate(old(dirs), chain, pageno).Some? ==>
        Locate(old(dirs), chain, pageno) == Some((k, i)) && k < |chain| && i < |old(dirs)[chain[k]].entries|
      ensures Locate(old(dirs), chain, pageno).Some? && old(dirs)[chain[k]].entries[i].recCnt as int + deltaRec < 1 ==>
        && dirs == old(dirs) && pins == old(pins) + multiset{chain[k]}
        && (pageno in old(pins) ==> o == Failed(PagePinned) && freed == old(freed))
        && (pageno !in old(pins) ==> o == Failed(NotPinned) && freed == old(freed) + [pageno])
      ensures Locate(old(dirs), chain, pageno).Some? && old(dirs)[chain[k]].entries[i].recCnt as int + deltaRec >= 1 ==>
        var e' := Recount(old(dirs)[chain[k]].entries[i], deltaRec, freecnt);
        && o == Done && pins == old(pins) && freed == old(freed)
        && dirs == old(dirs)[chain[k] := old(dirs)[chain[k]].(entries := old(dirs)[chain[k]].entries[i := e'])]
        && EntryPos(old(dirs), chain, k, i) < |old(Entries())|
        && old(Entries())[EntryPos(old(dirs), chain, k, i)] == old(dirs)[chain[k]].entries[i]
        && Entries() == old(Entries())[EntryPos(old(dirs), chain, k, i) := e']
        && (old(dirs)[chain[k]].entries[i].recCnt as int + deltaRec < 0x8000 ==>
              RecSum(Entries()) == RecSum(old(Entries())) + deltaRec)
    {
      var index, dirId;
      index, dirId, k := FindDirEntry(pageno);
      if index < 0 {
        return Failed(NoEntry), 0, 0;
      }
      i := index;
      var e := dirs[dirId].entries[index];
      if e.recCnt as int + deltaRec < 1 {
        EntryIdsOutside(dirs, chain, headId, k);
        o := DeletePage(pageno);
        return;
      }
      SetEntry(dirId, index, k, Recount(e, deltaRec, freecnt));
      if e.recCnt as int + deltaRec < 0x8000 {
        RecountShifts(old(Entries()), EntryPos(old(dirs), chain, k, index), deltaRec, freecnt);
      }
      o := Done;
    }

    /** The rest of updateDirEntry when the page keeps records: its entry
        is rewritten and the directory page unpinned. */
    method SetEntry(dirId: PageId, index: nat, ghost k: nat, e': DirEntry)
      requires Valid() && k < |chain| && dirId == chain[k] && index < |dirs[dirId].entries|
      requires e'.pageId == dirs[dirId].entries[index].pageId && dirId in pins
      modifies this`dirs, this`pins
      ensures Valid() && pins == old(pins) - multiset{dirId}
      ensures dirs == old(dirs)[dirId := old(dirs)[dirId].(entries := old(dirs)[dirId].entries[index := e'])]
      ensures EntryPos(old(dirs), chain, k, index) < |old(Entries())|
      ensures old(Entries())[EntryPos(old(dirs), chain, k, index)] == old(dirs)[dirId].entries[index]
      ensures Entries() == old(Entries())[EntryPos(old(dirs), chain, k, index) := e']
    {
      SetWellformed(dirs, chain, headId, k, index, e');
      SetPlacesEntry(dirs, chain, k, index, e');
      dirs := dirs[dirId := dirs[dirId].(entries := dirs[dirId].entries[index := e'])];
      var u := Unpin(dirId);
    }

    /** deletePage as far as it runs: the data page is freed, then unpinned.
        freePage refuses a pinned page, and a page it frees is no longer
        pinned, so unpinPage refuses it: either way an exception ends the
        method before its directory part (RemoveEntry). */
    method DeletePage(pageno: PageId) returns (o: Outcome)
      modifies this`pins, this`freed
      ensures pins == old(pins)
      ensures pageno in pins ==> o == Failed(PagePinned) && freed == old(freed)
      ensures pageno !in pins ==> o == Failed(NotPinned) && freed == old(freed) + [pageno]
    {
      o := Free(pageno);
      if o.Done? {
        o := Unpin(pageno);
      }
    }

    /** The directory part of deletePage, on the page `dirId` == chain[k] that
        findDirEntry left pinned: the entry at `index` is compacted away; a
        page other than the head left with that one entry is spliced out of
        the list, unpinned and freed; any other page keeps one entry fewer and
        is unpinned. */
    method RemoveEntry(dirId: PageId, index: nat, ghost k: nat) returns (o: Outcome)
      requires Valid() && k < |chain| && dirId == chain[k] && index < |dirs[dirId].entries|
      requires dirId in pins
      modifies this`dirs, this`chain, this`pins, this`freed
      ensures Valid()
      ensures dirs == RemoveDirs(old(dirs), old(chain), k, index)
      ensures chain == RemoveChain(old(dirs), old(chain), k, index)
      ensures
        var pos := EntryPos(old(dirs), old(chain), k, index);
        pos < |old(Entries())| && Entries() == old(Entries())[..pos] + old(Entries())[pos + 1..]
      ensures RecSum(Entries()) == RecSum(old(Entries())) - old(dirs)[dirId].entries[index].recCnt as int
      ensures pins == old(pins) - multiset{dirId}
      ensures k == 0 || |old(dirs)[dirId].entries| != 1 ==> o == Done && freed == old(freed)
      ensures k > 0 && |old(dirs)[dirId].entries| == 1 ==>
        && (dirId in pins ==> o == Failed(PagePinned) && freed == old(freed))
        && (dirId !in pins ==> o == Done && freed == old(freed) + [dirId])
    {
      ghost var d0, c0 := dirs, chain;
      o := DropEntry(dirId, index, k);
      RemovePlacesEntry(d0, c0, k, index);
      RemovedTakesCount(d0, c0, k, index);
    }

    /** RemoveEntry's choice between splicing the page out and shrinking it. */
    method DropEntry(dirId: PageId, index: nat, ghost k: nat) returns (o: Outcome)
      requires Valid() && k < |chain| && dirId == chain[k] && index < |dirs[dirId].entries|
      requires dirId in pins
      modifies this`dirs, this`chain, this`pins, this`freed
      ensures Valid()
      ensures dirs == RemoveDirs(old(dirs), old(chain), k, index)
      ensures chain == RemoveChain(old(dirs), old(chain), k, index)
      ensures pins == old(pins) - multiset{dirId}
      ensures k == 0 || |old(dirs)[dirId].entries| != 1 ==> o == Done && freed == old(freed)
      ensures k > 0 && |old(dirs)[dirId].entries| == 1 ==>
        && (dirId in pins ==> o == Failed(PagePinned) && freed == old(freed))
        && (dirId !in pins ==> o == Done && freed == old(freed) + [dirId])
    {
      var entryCount := |Compact(dirs[dirId].entries, index)|;
      if dirId != headId && entryCount == 1 {
        o := Splice(dirId, index, k);
      } else {
        assert k == 0 ==> dirId == headId;
        assert dirId == headId ==> k == 0;
        Shrink(dirId, index, k);
        o := Done;
      }
    }

    /** deletePage's directory part when the page is not the head and holds
        one entry: its neighbours are pinned in turn and pointed at each
        other, and the page is unpinned and freed. */
    method Splice(dirId: PageId, index: nat, ghost k: nat) returns (o: Outcome)
      requires Valid() && 0 < k < |chain| && dirId == chain[k]
      requires index < |dirs[dirId].entries| == 1 && dirId in pins
      modifies this`dirs, this`chain, this`pins, this`freed
      ensures Valid()
      ensures dirs == RemoveDirs(old(dirs), old(chain), k, index)
      ensures chain == RemoveChain(old(dirs), old(chain), k, index)
      ensures pins == old(pins) - multiset{dirId}
      ensures dirId in pins ==> o == Failed(PagePinned) && freed == old(freed)
      ensures dirId !in pins ==> o == Done && freed == old(freed) + [dirId]
    {
      Unlink(dirId, index, k);
      var u := Unpin(dirId);
      o := Free(dirId);
    }

    /** The links part of the splice: the page is compacted and its
        neighbours, each pinned and unpinned in turn, are pointed at each
        other. */
    method Unlink(dirId: PageId, index: nat, ghost k: nat)
      requires Valid() && 0 < k < |chain| && dirId == chain[k]
      requires index < |dirs[dirId].entries| == 1
      modifies this`dirs, this`chain, this`pins
      ensures Valid()
      ensures dirs == RemoveDirs(old(dirs), old(chain), k, index)
      ensures chain == RemoveChain(old(dirs), old(chain), k, index)
      ensures pins == old(pins)
    {
      ghost var d0, c0 := dirs, chain;
      Neighbours(d0, c0, headId, k);
      var p := dirs[dirId];
      var prevId := p.prev;
      var nextId := p.next;
      // the page's own update and its neighbours' link updates, collected in `d`
      var d := dirs[dirId := p.(entries := Compact(p.entries, index))];
      if prevId != INVALID_PAGEID {
        Pin(prevId);
        d := d[prevId := d[prevId].(next := nextId)];
        var u := Unpin(prevId);
        PinUnpin(old(pins), prevId);
      }
      if nextId != INVALID_PAGEID {
        Pin(nextId);
        d := d[nextId := d[nextId].(prev := prevId)];
        var u := Unpin(nextId);
        PinUnpin(old(pins), nextId);
      }
      assert d == RemoveDirs(d0, c0, k, index) by { SpliceDirs(d0, c0, headId, k, index); }
      dirs := d;
      chain := c0[..k] + c0[k + 1..];
      assert Valid() by { RemoveWellformed(d0, c0, headId, k, index); }
    }

    /** deletePage's directory part otherwise: the page keeps one entry
        fewer and is unpinned. */
    method Shrink(dirId: PageId, index: nat, ghost k: nat)
      requires Valid() && k < |chain| && dirId == chain[k]
      requires index < |dirs[dirId].entries| && (k == 0 || |dirs[dirId].entries| != 1) && dirId in pins
      modifies this`dirs, this`pins
      ensures Valid()
      ensures dirs == RemoveDirs(old(dirs), chain, k, index)
      ensures chain == RemoveChain(old(dirs), chain, k, index)
      ensures pins == old(pins) - multiset{dirId}
    {
      RemoveWellformed(dirs, chain, headId, k, index);
      var es := Compact(dirs[dirId].entries, index);
      dirs := dirs[dirId := dirs[dirId].(entries := es[..|es| - 1])];
      var u := Unpin(dirId);
    }
  }
}

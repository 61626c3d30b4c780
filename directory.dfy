/** Directory pages of a heap file, as values: each holds entries
    (data page id, record count, free space) and links to its neighbours.
    The functions here state what the heap file's directory walks compute. */
module Directory {
  import opened Global

  /** Java's `short`. */
  newtype Short = x: int | -0x8000 <= x < 0x8000

  /** The `(short)` cast: keeps the low 16 bits, read as two's complement. */
  function ToShort(x: int): (r: Short)
    ensures -0x8000 <= x < 0x8000 ==> r as int == x
    ensures (x - r as int) % 0x10000 == 0
  {
    var low := (x + 0x8000) % 0x10000;
    assert x - (low - 0x8000) == 0x10000 * ((x + 0x8000) / 0x10000);
    (low - 0x8000) as Short
  }

  /** The capacity insertPage allows a directory page. */
  const MAX_ENTRIES: nat := 125

  datatype DirEntry = DirEntry(pageId: PageId, recCnt: Short, freeCnt: Short)

  /** A directory page: its first `entryCnt` entries, and its links. */
  datatype DirPage = DirPage(entries: seq<DirEntry>, prev: PageId, next: PageId)

  /** What a new DirPage holds: no entries and no neighbours. */
  const EMPTY_DIR: DirPage := DirPage([], INVALID_PAGEID, INVALID_PAGEID)

  /** Every page of `chain` has contents in `dirs`. */
  predicate InDirs(dirs: map<PageId, DirPage>, chain: seq<PageId>)
  {
    forall i :: 0 <= i < |chain| ==> chain[i] in dirs
  }

  /** The entries of the pages of `chain`, page after page. */
  function Flat(dirs: map<PageId, DirPage>, chain: seq<PageId>): seq<DirEntry>
    requires InDirs(dirs, chain)
  {
    if chain == [] then [] else Flat(dirs, chain[..|chain| - 1]) + dirs[chain[|chain| - 1]].entries
  }

  /** The sum of the record counts of `es`, as getRecCnt accumulates it. */
  function RecSum(es: seq<DirEntry>): int
  {
    if es == [] then 0 else RecSum(es[..|es| - 1]) + es[|es| - 1].recCnt as int
  }

  lemma {:induction false} RecSumAppend(a: seq<DirEntry>, b: seq<DirEntry>)
    ensures RecSum(a + b) == RecSum(a) + RecSum(b)
    decreases |b|
  {
    if b != [] {
      var b' := b[..|b| - 1];
      assert (a + b)[..|a + b| - 1] == a + b';
      RecSumAppend(a, b');
    } else {
      assert a + b == a;
    }
  }

  /** Flattening distributes over splitting the chain. */
  lemma {:induction false} FlatAppend(dirs: map<PageId, DirPage>, a: seq<PageId>, b: seq<PageId>)
    requires InDirs(dirs, a) && InDirs(dirs, b)
    ensures InDirs(dirs, a + b)
    ensures Flat(dirs, a + b) == Flat(dirs, a) + Flat(dirs, b)
    decreases |b|
  {
    assert InDirs(dirs, a + b) by {
      forall i | 0 <= i < |a + b| ensures (a + b)[i] in dirs {
        if i >= |a| { assert (a + b)[i] == b[i - |a|]; }
      }
    }
    if b == [] {
      assert a + b == a;
    } else {
      var b' := b[..|b| - 1];
      assert (a + b)[..|a + b| - 1] == a + b';
      assert InDirs(dirs, b');
      FlatAppend(dirs, a, b');
    }
  }

  /** The flattened entries of one page. */
  lemma FlatOne(dirs: map<PageId, DirPage>, id: PageId)
    requires id in dirs
    ensures InDirs(dirs, [id]) && Flat(dirs, [id]) == dirs[id].entries
  {
    assert [id][..0] == [];
  }

  /** Flattening a chain does not look at pages outside it. */
  lemma {:induction false} FlatOutside(dirs: map<PageId, DirPage>, chain: seq<PageId>, id: PageId, p: DirPage)
    requires InDirs(dirs, chain) && id !in chain
    ensures InDirs(dirs[id := p], chain)
    ensures Flat(dirs[id := p], chain) == Flat(dirs, chain)
    decreases |chain|
  {
    if chain != [] {
      var init := chain[..|chain| - 1];
      assert id !in init by { assert forall j :: 0 <= j < |init| ==> init[j] == chain[j]; }
      FlatOutside(dirs, init, id, p);
    }
  }

  /** The first entry of `es` with at least `need` free bytes. */
  function FirstFit(es: seq<DirEntry>, need: int): (r: Option<nat>)
    ensures r.Some? ==>
      r.value < |es| && es[r.value].freeCnt as int >= need &&
      forall j :: 0 <= j < r.value ==> es[j].freeCnt as int < need
    ensures r.None? ==> forall j :: 0 <= j < |es| ==> es[j].freeCnt as int < need
  {
    if es == [] then None
    else if es[0].freeCnt as int >= need then Some(0)
    else match FirstFit(es[1..], need)
      case None => None
      case Some(j) => Some(j + 1)
  }

  /** First fit over two parts: the first part's fit, or the second's moved
      past the first part. */
  lemma {:induction false} FirstFitAppend(a: seq<DirEntry>, b: seq<DirEntry>, need: int)
    ensures FirstFit(a, need).Some? ==> FirstFit(a + b, need) == FirstFit(a, need)
    ensures FirstFit(a, need).None? && FirstFit(b, need).None? ==> FirstFit(a + b, need).None?
    ensures FirstFit(a, need).None? && FirstFit(b, need).Some? ==>
      FirstFit(a + b, need) == Some(|a| + FirstFit(b, need).value)
    decreases |a|
  {
    if a == [] {
      assert a + b == b;
    } else {
      assert (a + b)[1..] == a[1..] + b;
      FirstFitAppend(a[1..], b, need);
    }
  }

  /** The first entry of `es` that describes data page `pageno`. */
  function IndexOf(es: seq<DirEntry>, pageno: PageId): (r: Option<nat>)
    ensures r.Some? ==>
      r.value < |es| && es[r.value].pageId == pageno &&
      forall j :: 0 <= j < r.value ==> es[j].pageId != pageno
    ensures r.None? ==> forall j :: 0 <= j < |es| ==> es[j].pageId != pageno
  {
    if es == [] then None
    else if es[0].pageId == pageno then Some(0)
    else match IndexOf(es[1..], pageno)
      case None => None
      case Some(j) => Some(j + 1)
  }

  /** Where findDirEntry stops: the first page of `chain` holding an entry
      for `pageno`, and that entry's index on the page. */
  function Locate(dirs: map<PageId, DirPage>, chain: seq<PageId>, pageno: PageId): (r: Option<(nat, nat)>)
    requires InDirs(dirs, chain)
    ensures r.Some? ==>
      && r.value.0 < |chain|
      && IndexOf(dirs[chain[r.value.0]].entries, pageno) == Some(r.value.1)
      && forall k :: 0 <= k < r.value.0 ==> IndexOf(dirs[chain[k]].entries, pageno).None?
    ensures r.None? ==> forall k :: 0 <= k < |chain| ==> IndexOf(dirs[chain[k]].entries, pageno).None?
  {
    if chain == [] then None
    else match IndexOf(dirs[chain[0]].entries, pageno)
      case Some(i) => Some((0, i))
      case None =>
        assert InDirs(dirs, chain[1..]) by { assert forall k :: 0 <= k < |chain| - 1 ==> chain[1..][k] == chain[k + 1]; }
        match Locate(dirs, chain[1..], pageno)
          case None => None
          case Some(p) => Some((p.0 + 1, p.1))
  }

  /** The first page of `chain` with an entry of at least `need` free
      bytes, and the first such entry on it. */
  function FitAt(dirs: map<PageId, DirPage>, chain: seq<PageId>, need: int): (r: Option<(nat, nat)>)
    requires InDirs(dirs, chain)
    ensures r.Some? ==>
      && r.value.0 < |chain|
      && FirstFit(dirs[chain[r.value.0]].entries, need) == Some(r.value.1)
      && forall k :: 0 <= k < r.value.0 ==> FirstFit(dirs[chain[k]].entries, need).None?
    ensures r.None? ==> forall k :: 0 <= k < |chain| ==> FirstFit(dirs[chain[k]].entries, need).None?
  {
    if chain == [] then None
    else match FirstFit(dirs[chain[0]].entries, need)
      case Some(i) => Some((0, i))
      case None =>
        assert InDirs(dirs, chain[1..]) by { assert forall k :: 0 <= k < |chain| - 1 ==> chain[1..][k] == chain[k + 1]; }
        match FitAt(dirs, chain[1..], need)
          case None => None
          case Some(p) => Some((p.0 + 1, p.1))
  }

  /** The first page of `chain` with room for one more entry. */
  function FirstRoom(dirs: map<PageId, DirPage>, chain: seq<PageId>): (r: Option<nat>)
    requires InDirs(dirs, chain)
    ensures r.Some? ==>
      r.value < |chain| && |dirs[chain[r.value]].entries| < MAX_ENTRIES &&
      forall k :: 0 <= k < r.value ==> |dirs[chain[k]].entries| >= MAX_ENTRIES
    ensures r.None? ==> forall k :: 0 <= k < |chain| ==> |dirs[chain[k]].entries| >= MAX_ENTRIES
  {
    if chain == [] then None
    else if |dirs[chain[0]].entries| < MAX_ENTRIES then Some(0)
    else
      assert InDirs(dirs, chain[1..]) by { assert forall k :: 0 <= k < |chain| - 1 ==> chain[1..][k] == chain[k + 1]; }
      match FirstRoom(dirs, chain[1..])
        case None => None
        case Some(k) => Some(k + 1)
  }

  /** The directory after insertPage adds entry `e`: appended to the first
      page with room, or else on a new page `newDirId` linked after the tail. */
  function InsertDirs(dirs: map<PageId, DirPage>, chain: seq<PageId>, newDirId: PageId, e: DirEntry)
    : map<PageId, DirPage>
    requires InDirs(dirs, chain) && |chain| > 0
  {
    match FirstRoom(dirs, chain)
    case Some(k) =>
      dirs[chain[k] := dirs[chain[k]].(entries := dirs[chain[k]].entries + [e])]
    case None =>
      var tail := chain[|chain| - 1];
      dirs[tail := dirs[tail].(next := newDirId)]
          [newDirId := DirPage([e], tail, INVALID_PAGEID)]
  }

  /** The chain after insertPage: one page longer exactly when every page was full. */
  function InsertChain(dirs: map<PageId, DirPage>, chain: seq<PageId>, newDirId: PageId): seq<PageId>
    requires InDirs(dirs, chain)
  {
    if FirstRoom(dirs, chain).Some? then chain else chain + [newDirId]
  }

  /** Where insertPage puts the new entry among the flattened entries. */
  function InsertPos(dirs: map<PageId, DirPage>, chain: seq<PageId>): nat
    requires InDirs(dirs, chain)
  {
    match FirstRoom(dirs, chain)
    case Some(k) => |Flat(dirs, chain[..k + 1])|
    case None => |Flat(dirs, chain)|
  }

  /** insertPage adds exactly one entry, at InsertPos, and keeps every other
      entry in order; hence it keeps the record total plus the new entry's count. */
  lemma InsertPlacesEntry(dirs: map<PageId, DirPage>, chain: seq<PageId>, newDirId: PageId, e: DirEntry)
    requires InDirs(dirs, chain) && |chain| > 0 && newDirId !in chain
    requires forall i, j :: 0 <= i < j < |chain| ==> chain[i] != chain[j]
    ensures InDirs(InsertDirs(dirs, chain, newDirId, e), InsertChain(dirs, chain, newDirId))
    ensures
      var before := Flat(dirs, chain);
      var pos := InsertPos(dirs, chain);
      && pos <= |before|
      && Flat(InsertDirs(dirs, chain, newDirId, e), InsertChain(dirs, chain, newDirId)) ==
           before[..pos] + [e] + before[pos..]
  {
    match FirstRoom(dirs, chain)
    case Some(k) => {
      var id := chain[k];
      assert InsertDirs(dirs, chain, newDirId, e) == dirs[id := dirs[id].(entries := dirs[id].entries + [e])];
      assert InsertChain(dirs, chain, newDirId) == chain;
      assert InsertPos(dirs, chain) == |Flat(dirs, chain[..k + 1])|;
      InsertOnPage(dirs, chain, k, e);
    }
    case None => {
      var tail := chain[|chain| - 1];
      assert InsertDirs(dirs, chain, newDirId, e) ==
        dirs[tail := dirs[tail].(next := newDirId)][newDirId := DirPage([e], tail, INVALID_PAGEID)];
      assert InsertChain(dirs, chain, newDirId) == chain + [newDirId];
      assert InsertPos(dirs, chain) == |Flat(dirs, chain)|;
      InsertOnNewPage(dirs, chain, newDirId, e);
      var before := Flat(dirs, chain);
      assert before[..|before|] == before && before[|before|..] == [];
    }
  }

  /** The record total grows by exactly the inserted entry's count. */
  lemma InsertRecSum(before: seq<DirEntry>, pos: nat, e: DirEntry)
    requires pos <= |before|
    ensures RecSum(before[..pos] + [e] + before[pos..]) == RecSum(before) + e.recCnt as int
  {
    assert before == before[..pos] + before[pos..];
    RecSumAppend(before[..pos], before[pos..]);
    RecSumAppend(before[..pos] + [e], before[pos..]);
    RecSumAppend(before[..pos], [e]);
    assert RecSum([e]) == e.recCnt as int by { assert [e][..0] == []; }
  }

  /** Appending `e` to page `k` of a chain of distinct pages. */
  lemma InsertOnPage(dirs: map<PageId, DirPage>, chain: seq<PageId>, k: nat, e: DirEntry)
    requires InDirs(dirs, chain) && k < |chain| && Distinct(chain)
    ensures
      var id := chain[k];
      var after := dirs[id := dirs[id].(entries := dirs[id].entries + [e])];
      var before := Flat(dirs, chain);
      var pos := |Flat(dirs, chain[..k + 1])|;
      && InDirs(after, chain)
      && pos <= |before|
      && Flat(after, chain) == before[..pos] + [e] + before[pos..]
  {
    var id := chain[k];
    var es := dirs[id].entries;
    var after := dirs[id := dirs[id].(entries := es + [e])];
    FlatSplit(dirs, after, chain, k);
    FlatSnoc(dirs, chain, k);
    AddMiddle(Flat(dirs, chain[..k]), es, Flat(dirs, chain[k + 1..]), e);
  }

  /** Adding `e` at the end of the middle part of `a + b + c`. */
  lemma AddMiddle<T>(a: seq<T>, b: seq<T>, c: seq<T>, e: T)
    ensures |a + b| <= |a + b + c|
    ensures (a + b + c)[..|a + b|] + [e] + (a + b + c)[|a + b|..] == a + (b + [e]) + c
  {
    var s := a + b + c;
    assert s[..|a + b|] == a + b;
    assert s[|a + b|..] == c;
  }

  /** Starting a new page `newDirId` after the tail, holding only `e`. */
  lemma InsertOnNewPage(dirs: map<PageId, DirPage>, chain: seq<PageId>, newDirId: PageId, e: DirEntry)
    requires InDirs(dirs, chain) && |chain| > 0 && newDirId !in chain
    requires forall i, j :: 0 <= i < j < |chain| ==> chain[i] != chain[j]
    ensures
      var tail := chain[|chain| - 1];
      var after := dirs[tail := dirs[tail].(next := newDirId)][newDirId := DirPage([e], tail, INVALID_PAGEID)];
      && InDirs(after, chain + [newDirId])
      && Flat(after, chain + [newDirId]) == Flat(dirs, chain) + [e]
  {
    var tail := chain[|chain| - 1];
    var init := chain[..|chain| - 1];
    var mid := dirs[tail := dirs[tail].(next := newDirId)];
    var after := mid[newDirId := DirPage([e], tail, INVALID_PAGEID)];
    assert tail !in init by { assert forall j :: 0 <= j < |init| ==> init[j] == chain[j]; }
    assert InDirs(dirs, init);
    FlatOutside(dirs, init, tail, dirs[tail].(next := newDirId));
    assert InDirs(mid, chain);
    assert Flat(mid, chain) == Flat(dirs, chain);
    FlatOutside(mid, chain, newDirId, DirPage([e], tail, INVALID_PAGEID));
    var longer := chain + [newDirId];
    assert longer[..|longer| - 1] == chain;
    assert InDirs(after, longer);
  }

  /** What DirPage.compact(index) is taken to do: entries after `index`
      move one slot left and the count is unchanged, so the last slot still
      holds its old entry. Only the first `|es| - 1` slots are read after a
      compaction. */
  function Compact(es: seq<DirEntry>, index: nat): (r: seq<DirEntry>)
    requires index < |es|
    ensures |r| == |es|
    ensures r[..|es| - 1] == es[..index] + es[index + 1..]
  {
    var r := es[..index] + es[index + 1..] + [es[|es| - 1]];
    assert r[..|es| - 1] == es[..index] + es[index + 1..];
    r
  }

  /** Removing the entry at `index` takes its record count out of the total. */
  lemma RemoveRecSum(es: seq<DirEntry>, index: nat)
    requires index < |es|
    ensures RecSum(es[..index] + es[index + 1..]) == RecSum(es) - es[index].recCnt as int
  {
    var a, x, b := es[..index], [es[index]], es[index + 1..];
    SplitAround(es, index);
    assert RecSum(x) == es[index].recCnt as int by { assert x[..0] == []; }
    RecSumAppend(a + x, b);
    RecSumAppend(a, x);
    RecSumAppend(a, b);
  }

  /** The pages of `chain` form a doubly linked list that ends in
      INVALID_PAGEID at both ends. */
  predicate Linked(dirs: map<PageId, DirPage>, chain: seq<PageId>)
    requires InDirs(dirs, chain)
  {
    && |chain| > 0
    && dirs[chain[0]].prev == INVALID_PAGEID
    && dirs[chain[|chain| - 1]].next == INVALID_PAGEID
    && forall i :: 0 <= i < |chain| - 1 ==> LinkAt(dirs, chain, i)
  }

  /** Page `chain[i]` and the page after it point at each other. */
  predicate LinkAt(dirs: map<PageId, DirPage>, chain: seq<PageId>, i: nat)
    requires InDirs(dirs, chain) && i < |chain| - 1
  {
    dirs[chain[i]].next == chain[i + 1] && dirs[chain[i + 1]].prev == chain[i]
  }

  /** No page id occurs twice in `s`. */
  predicate Distinct(s: seq<PageId>)
  {
    forall i, j :: 0 <= i < j < |s| ==> s[i] != s[j]
  }

  /** Rewriting the entries of a page keeps the links. */
  lemma LinkedEntries(dirs: map<PageId, DirPage>, chain: seq<PageId>, id: PageId, es: seq<DirEntry>)
    requires InDirs(dirs, chain) && Linked(dirs, chain) && id in dirs
    ensures InDirs(dirs[id := dirs[id].(entries := es)], chain)
    ensures Linked(dirs[id := dirs[id].(entries := es)], chain)
  {
    var after := dirs[id := dirs[id].(entries := es)];
    assert forall x :: x in dirs ==> after[x].prev == dirs[x].prev && after[x].next == dirs[x].next;
    forall i | 0 <= i < |chain| - 1
      ensures LinkAt(after, chain, i)
    {
      assert LinkAt(dirs, chain, i);
    }
  }

  /** insertPage keeps the chain a doubly linked list: a new page becomes
      the next of the old tail and points back to it. */
  lemma InsertLinked(dirs: map<PageId, DirPage>, chain: seq<PageId>, newDirId: PageId, e: DirEntry)
    requires InDirs(dirs, chain) && Linked(dirs, chain) && Distinct(chain)
    requires newDirId !in chain && newDirId != INVALID_PAGEID
    ensures InDirs(InsertDirs(dirs, chain, newDirId, e), InsertChain(dirs, chain, newDirId))
    ensures Linked(InsertDirs(dirs, chain, newDirId, e), InsertChain(dirs, chain, newDirId))
    ensures Distinct(InsertChain(dirs, chain, newDirId))
  {
    match FirstRoom(dirs, chain)
    case Some(k) => {
      var id := chain[k];
      assert InsertDirs(dirs, chain, newDirId, e) == dirs[id := dirs[id].(entries := dirs[id].entries + [e])];
      LinkedEntries(dirs, chain, id, dirs[id].entries + [e]);
    }
    case None => {
      var tail := chain[|chain| - 1];
      var after := dirs[tail := dirs[tail].(next := newDirId)][newDirId := DirPage([e], tail, INVALID_PAGEID)];
      assert InsertDirs(dirs, chain, newDirId, e) == after;
      var longer := chain + [newDirId];
      assert InsertChain(dirs, chain, newDirId) == longer;
      assert InDirs(after, longer);
      assert after[longer[0]].prev == INVALID_PAGEID by {
        if |chain| > 1 { assert chain[0] != tail; }
      }
      forall i | 0 <= i < |longer| - 1
        ensures LinkAt(after, longer, i)
      {
        if i < |chain| - 1 {
          assert LinkAt(dirs, chain, i);
          assert chain[i] != tail && chain[i + 1] != newDirId;
        }
      }
    }
  }

  /** The directory after deletePage's directory part removes the entry at
      `index` of page `chain[k]`: the page is compacted; a page other than
      the head that held only that entry is then spliced out of the list
      (its neighbours are pointed at each other); any other page keeps one
      entry fewer. */
  function RemoveDirs(dirs: map<PageId, DirPage>, chain: seq<PageId>, k: nat, index: nat): map<PageId, DirPage>
    requires InDirs(dirs, chain) && k < |chain| && index < |dirs[chain[k]].entries|
  {
    var id := chain[k];
    var p := dirs[id];
    var es := Compact(p.entries, index);
    if k > 0 && |es| == 1 then
      var d1 := dirs[id := p.(entries := es)];
      var d2 := if p.prev != INVALID_PAGEID && p.prev in d1 then d1[p.prev := d1[p.prev].(next := p.next)] else d1;
      if p.next != INVALID_PAGEID && p.next in d2 then d2[p.next := d2[p.next].(prev := p.prev)] else d2
    else
      dirs[id := p.(entries := es[..|es| - 1])]
  }

  /** The chain after deletePage's directory part. */
  function RemoveChain(dirs: map<PageId, DirPage>, chain: seq<PageId>, k: nat, index: nat): seq<PageId>
    requires InDirs(dirs, chain) && k < |chain| && index < |dirs[chain[k]].entries|
  {
    if k > 0 && |dirs[chain[k]].entries| == 1 then chain[..k] + chain[k + 1..] else chain
  }

  /** Splitting a chain of distinct pages at page `k`: the flattened
      entries before, on and after it, for `dirs` and for a `d'` that differs
      from it at most on that page's entries and on the links. */
  lemma FlatSplit(dirs: map<PageId, DirPage>, d': map<PageId, DirPage>, chain: seq<PageId>, k: nat)
    requires InDirs(dirs, chain) && Distinct(chain) && k < |chain| && chain[k] in d'
    requires forall x :: x in dirs && x != chain[k] ==> x in d' && d'[x].entries == dirs[x].entries
    ensures InDirs(d', chain)
    ensures InDirs(dirs, chain[..k]) && InDirs(dirs, chain[k + 1..])
    ensures Flat(dirs, chain) == Flat(dirs, chain[..k]) + dirs[chain[k]].entries + Flat(dirs, chain[k + 1..])
    ensures Flat(d', chain) == Flat(dirs, chain[..k]) + d'[chain[k]].entries + Flat(dirs, chain[k + 1..])
  {
    var id := chain[k];
    var pre := chain[..k];
    var post := chain[k + 1..];
    assert chain == pre + [id] + post;
    assert forall j :: 0 <= j < |pre| ==> pre[j] == chain[j];
    assert forall j :: 0 <= j < |post| ==> post[j] == chain[k + 1 + j];
    assert InDirs(d', chain);
    SameEntries(dirs, d', pre);
    SameEntries(dirs, d', post);
    FlatOne(dirs, id);
    FlatOne(d', id);
    FlatAppend(dirs, pre, [id]);
    FlatAppend(dirs, pre + [id], post);
    FlatAppend(d', pre, [id]);
    FlatAppend(d', pre + [id], post);
  }

  /** deletePage's directory part removes exactly the entry at `index` of
      page `k` from the flattened entries and keeps the list linked; the
      head page is never removed. */
  lemma RemovePlacesEntry(dirs: map<PageId, DirPage>, chain: seq<PageId>, k: nat, index: nat)
    requires InDirs(dirs, chain) && Linked(dirs, chain) && Distinct(chain) && INVALID_PAGEID !in chain
    requires k < |chain| && index < |dirs[chain[k]].entries|
    ensures
      var after := RemoveDirs(dirs, chain, k, index);
      var chain' := RemoveChain(dirs, chain, k, index);
      var before := Flat(dirs, chain);
      var pos := |Flat(dirs, chain[..k])| + index;
      && InDirs(after, chain') && Linked(after, chain') && Distinct(chain')
      && chain'[0] == chain[0]
      && pos < |before|
      && Flat(after, chain') == before[..pos] + before[pos + 1..]
  {
    if k > 0 && |dirs[chain[k]].entries| == 1 {
      RemoveSpliced(dirs, chain, k, index);
    } else {
      RemoveInPlace(dirs, chain, k, index);
    }
  }

  /** The case of deletePage's directory part that unlinks the page: its
      only entry goes with it. */
  lemma RemoveSpliced(dirs: map<PageId, DirPage>, chain: seq<PageId>, k: nat, index: nat)
    requires InDirs(dirs, chain) && Linked(dirs, chain) && Distinct(chain) && INVALID_PAGEID !in chain
    requires 0 < k < |chain| && index < |dirs[chain[k]].entries| == 1
    ensures
      var after := RemoveDirs(dirs, chain, k, index);
      var chain' := RemoveChain(dirs, chain, k, index);
      var before := Flat(dirs, chain);
      var pos := |Flat(dirs, chain[..k])| + index;
      && chain' == chain[..k] + chain[k + 1..]
      && InDirs(after, chain') && Linked(after, chain') && Distinct(chain')
      && chain'[0] == chain[0]
      && pos < |before|
      && Flat(after, chain') == before[..pos] + before[pos + 1..]
  {
    var es := dirs[chain[k]].entries;
    var after := RemoveDirs(dirs, chain, k, index);
    var chain' := chain[..k] + chain[k + 1..];
    assert InDirs(dirs, chain[..k]) && InDirs(dirs, chain[k + 1..]) by { FlatSplit(dirs, dirs, chain, k); }
    var a, c := Flat(dirs, chain[..k]), Flat(dirs, chain[k + 1..]);
    assert Flat(dirs, chain) == a + es + c by { FlatSplit(dirs, dirs, chain, k); }
    assert RemoveChain(dirs, chain, k, index) == chain' && InDirs(after, chain') && Flat(after, chain') == a + c by {
      RemoveSplice(dirs, chain, k, index);
    }
    assert Linked(after, chain') && Distinct(chain') && chain'[0] == chain[0] by {
      RemoveSpliceLinked(dirs, chain, k, index);
    }
    assert (a + es + c)[..|a| + index] + (a + es + c)[|a| + index + 1..] == a + c by {
      CutMiddle(a, es, c, index);
      assert es[..index] + es[index + 1..] == [];
    }
  }

  /** The case of deletePage's directory part that keeps the page: it holds
      one entry fewer. */
  lemma RemoveInPlace(dirs: map<PageId, DirPage>, chain: seq<PageId>, k: nat, index: nat)
    requires InDirs(dirs, chain) && Linked(dirs, chain) && Distinct(chain)
    requires k < |chain| && index < |dirs[chain[k]].entries|
    requires !(k > 0 && |dirs[chain[k]].entries| == 1)
    ensures
      var after := RemoveDirs(dirs, chain, k, index);
      var before := Flat(dirs, chain);
      var pos := |Flat(dirs, chain[..k])| + index;
      && RemoveChain(dirs, chain, k, index) == chain
      && InDirs(after, chain) && Linked(after, chain)
      && pos < |before|
      && Flat(after, chain) == before[..pos] + before[pos + 1..]
  {
    var id := chain[k];
    var es := dirs[id].entries;
    var p := dirs[id].(entries := Compact(es, index)[..|es| - 1]);
    assert RemoveDirs(dirs, chain, k, index) == dirs[id := p];
    assert p.entries == es[..index] + es[index + 1..];
    LinkedEntries(dirs, chain, id, p.entries);
    CutEntry(dirs, chain, k, index);
  }

  /** Taking the entry at `index` off page `chain[k]` takes it out of the
      flattened entries. */
  lemma CutEntry(dirs: map<PageId, DirPage>, chain: seq<PageId>, k: nat, index: nat)
    requires InDirs(dirs, chain) && Distinct(chain)
    requires k < |chain| && index < |dirs[chain[k]].entries|
    ensures
      var es := dirs[chain[k]].entries;
      var after := dirs[chain[k] := dirs[chain[k]].(entries := es[..index] + es[index + 1..])];
      var before := Flat(dirs, chain);
      var pos := |Flat(dirs, chain[..k])| + index;
      && InDirs(after, chain)
      && pos < |before|
      && Flat(after, chain) == before[..pos] + before[pos + 1..]
  {
    var id := chain[k];
    var es := dirs[id].entries;
    var after := dirs[id := dirs[id].(entries := es[..index] + es[index + 1..])];
    FlatSplit(dirs, after, chain, k);
    var a, c := Flat(dirs, chain[..k]), Flat(dirs, chain[k + 1..]);
    CutMiddle(a, es, c, index);
  }

  /** A sequence is its part before `index`, the element there, and the rest. */
  lemma SplitAround<T>(s: seq<T>, index: nat)
    requires index < |s|
    ensures s == s[..index] + [s[index]] + s[index + 1..]
  {
  }

  /** Removing position `index` of the middle part of `a + b + c`. */
  lemma CutMiddle<T>(a: seq<T>, b: seq<T>, c: seq<T>, index: nat)
    requires index < |b|
    ensures |a| + index < |a + b + c|
    ensures (a + b + c)[..|a| + index] + (a + b + c)[|a| + index + 1..] == a + (b[..index] + b[index + 1..]) + c
  {
    var s := a + b + c;
    assert s[..|a| + index] == a + b[..index];
    assert s[|a| + index + 1..] == b[index + 1..] + c;
  }

  /** The splice case of deletePage's directory part: a page other than the
      head that held one entry leaves the chain, and only its entries leave
      the flattened entries. */
  lemma RemoveSplice(dirs: map<PageId, DirPage>, chain: seq<PageId>, k: nat, index: nat)
    requires InDirs(dirs, chain) && Distinct(chain)
    requires 0 < k < |chain| && index < |dirs[chain[k]].entries| == 1
    ensures
      var after := RemoveDirs(dirs, chain, k, index);
      var chain' := chain[..k] + chain[k + 1..];
      && RemoveChain(dirs, chain, k, index) == chain'
      && InDirs(dirs, chain[..k]) && InDirs(dirs, chain[k + 1..])
      && InDirs(after, chain')
      && Flat(after, chain') == Flat(dirs, chain[..k]) + Flat(dirs, chain[k + 1..])
  {
    var id := chain[k];
    var pre := chain[..k];
    var post := chain[k + 1..];
    var after := RemoveDirs(dirs, chain, k, index);
    assert forall x :: x in dirs ==> x in after && (x != id ==> after[x].entries == dirs[x].entries);
    assert forall j :: 0 <= j < |pre| ==> pre[j] == chain[j];
    assert forall j :: 0 <= j < |post| ==> post[j] == chain[k + 1 + j];
    assert InDirs(dirs, pre) && InDirs(dirs, post);
    assert InDirs(after, pre) && InDirs(after, post);
    SameEntries(dirs, after, pre);
    SameEntries(dirs, after, post);
    FlatAppend(after, pre, post);
  }

  /** The splice keeps the remaining pages a doubly linked list. */
  lemma RemoveSpliceLinked(dirs: map<PageId, DirPage>, chain: seq<PageId>, k: nat, index: nat)
    requires InDirs(dirs, chain) && Linked(dirs, chain) && Distinct(chain) && INVALID_PAGEID !in chain
    requires 0 < k < |chain| && index < |dirs[chain[k]].entries| == 1
    ensures
      var after := RemoveDirs(dirs, chain, k, index);
      var chain' := chain[..k] + chain[k + 1..];
      && InDirs(after, chain') && Linked(after, chain') && Distinct(chain') && chain'[0] == chain[0]
  {
    var id := chain[k];
    var p := dirs[id];
    var prev := chain[k - 1];
    var chain' := chain[..k] + chain[k + 1..];
    assert LinkAt(dirs, chain, k - 1);
    assert p.prev == prev;
    var last := k == |chain| - 1;
    assert !last ==> LinkAt(dirs, chain, k) && p.next == chain[k + 1];
    assert last ==> p.next == INVALID_PAGEID;
    var after := RemoveDirs(dirs, chain, k, index);
    assert forall j :: 0 <= j < |chain'| ==> chain'[j] == if j < k then chain[j] else chain[j + 1];
    assert forall x :: x in dirs && x != prev && x != p.next ==> x in after && after[x].prev == dirs[x].prev && after[x].next == dirs[x].next;
    assert after[prev].next == p.next && after[prev].prev == dirs[prev].prev;
    assert !last ==> after[p.next].prev == prev && after[p.next].next == dirs[p.next].next;
    assert InDirs(after, chain');
    forall i | 0 <= i < |chain'| - 1
      ensures LinkAt(after, chain', i)
    {
      if i < k - 1 {
        assert LinkAt(dirs, chain, i);
        assert chain[i] != prev && chain[i] != p.next && chain[i + 1] != p.next;
      } else if i > k - 1 {
        assert LinkAt(dirs, chain, i + 1);
        assert chain[i + 1] != prev && chain[i + 2] != prev && chain[i + 2] != p.next;
      }
    }
    if k > 1 { assert chain[0] != prev && chain[0] != p.next; }
    if !last { assert chain[|chain| - 1] != prev; }
  }

  /** Flattening only reads the entries of the pages on the chain. */
  lemma {:induction false} SameEntries(d: map<PageId, DirPage>, d': map<PageId, DirPage>, chain: seq<PageId>)
    requires InDirs(d, chain) && InDirs(d', chain)
    requires forall i :: 0 <= i < |chain| ==> d'[chain[i]].entries == d[chain[i]].entries
    ensures Flat(d', chain) == Flat(d, chain)
    decreases |chain|
  {
    if chain != [] {
      var init := chain[..|chain| - 1];
      assert forall i :: 0 <= i < |init| ==> init[i] == chain[i];
      SameEntries(d, d', init);
    }
  }

  /** Replacing the entry at `index` of page `chain[k]` replaces it at its
      place in the flattened entries. */
  lemma SetPlacesEntry(dirs: map<PageId, DirPage>, chain: seq<PageId>, k: nat, index: nat, e: DirEntry)
    requires InDirs(dirs, chain) && Distinct(chain)
    requires k < |chain| && index < |dirs[chain[k]].entries|
    ensures
      var id := chain[k];
      var after := dirs[id := dirs[id].(entries := dirs[id].entries[index := e])];
      var pos := |Flat(dirs, chain[..k])| + index;
      && InDirs(after, chain)
      && pos < |Flat(dirs, chain)|
      && Flat(dirs, chain)[pos] == dirs[id].entries[index]
      && Flat(after, chain) == Flat(dirs, chain)[pos := e]
  {
    var id := chain[k];
    var es := dirs[id].entries;
    var after := dirs[id := dirs[id].(entries := es[index := e])];
    FlatSplit(dirs, after, chain, k);
    var a := Flat(dirs, chain[..k]);
    var c := Flat(dirs, chain[k + 1..]);
    assert (a + es + c)[|a| + index := e] == a + es[index := e] + c;
  }

  /** Replacing one entry changes the record total by the difference. */
  lemma SetRecSum(es: seq<DirEntry>, pos: nat, e: DirEntry)
    requires pos < |es|
    ensures RecSum(es[pos := e]) == RecSum(es) - es[pos].recCnt as int + e.recCnt as int
  {
    assert es == es[..pos] + [es[pos]] + es[pos + 1..];
    assert es[pos := e] == es[..pos] + [e] + es[pos + 1..];
    RecSumAppend(es[..pos] + [es[pos]], es[pos + 1..]);
    RecSumAppend(es[..pos], [es[pos]]);
    RecSumAppend(es[..pos] + [e], es[pos + 1..]);
    RecSumAppend(es[..pos], [e]);
    assert RecSum([e]) == e.recCnt as int by { assert [e][..0] == []; }
    assert RecSum([es[pos]]) == es[pos].recCnt as int by { assert [es[pos]][..0] == []; }
  }

  /** The data page ids of `es`, in order. */
  function Ids(es: seq<DirEntry>): (r: seq<PageId>)
    ensures |r| == |es| && forall i :: 0 <= i < |es| ==> r[i] == es[i].pageId
  {
    seq(|es|, i requires 0 <= i < |es| => es[i].pageId)
  }

  /** The order in which deleteFile frees pages: each directory page's data
      pages, then that directory page, along the chain. */
  function FreeOrder(dirs: map<PageId, DirPage>, chain: seq<PageId>): seq<PageId>
    requires InDirs(dirs, chain)
  {
    if chain == [] then []
    else FreeOrder(dirs, chain[..|chain| - 1]) + Ids(dirs[chain[|chain| - 1]].entries) + [chain[|chain| - 1]]
  }

  /** deleteFile frees every data page of the directory and every
      directory page, and nothing else. */
  lemma {:induction false} FreeOrderCovers(dirs: map<PageId, DirPage>, chain: seq<PageId>)
    requires InDirs(dirs, chain)
    ensures forall id :: id in FreeOrder(dirs, chain) <==>
      id in chain || id in Ids(Flat(dirs, chain))
    decreases |chain|
  {
    if chain != [] {
      var init := chain[..|chain| - 1];
      var last := chain[|chain| - 1];
      var es := dirs[last].entries;
      FreeOrderCovers(dirs, init);
      assert chain == init + [last];
      assert Flat(dirs, chain) == Flat(dirs, init) + es;
      IdsAppend(Flat(dirs, init), es);
    }
  }

  lemma IdsAppend(a: seq<DirEntry>, b: seq<DirEntry>)
    ensures Ids(a + b) == Ids(a) + Ids(b)
  {
    assert |Ids(a + b)| == |Ids(a) + Ids(b)|;
    forall i | 0 <= i < |a + b| ensures Ids(a + b)[i] == (Ids(a) + Ids(b))[i] {
      if i >= |a| { assert (a + b)[i] == b[i - |a|]; }
    }
  }

  /** Every directory page holds at most MAX_ENTRIES entries. */
  predicate WithinCapacity(dirs: map<PageId, DirPage>, chain: seq<PageId>)
    requires InDirs(dirs, chain)
  {
    forall k :: 0 <= k < |chain| ==> |dirs[chain[k]].entries| <= MAX_ENTRIES
  }

  /** Each data page has one entry, and no data page is INVALID_PAGEID or a
      directory page. */
  predicate DataIds(es: seq<DirEntry>, chain: seq<PageId>)
  {
    var ids := Ids(es);
    Distinct(ids) && INVALID_PAGEID !in ids && forall i :: 0 <= i < |ids| ==> ids[i] !in chain
  }

  /** The directory of a heap file with head page `headId`: a doubly linked
      list of distinct pages starting at the head, each within capacity,
      whose entries name distinct data pages. */
  predicate Wellformed(dirs: map<PageId, DirPage>, chain: seq<PageId>, headId: PageId)
  {
    && Walkable(dirs, chain, headId)
    && Distinct(chain)
    && WithinCapacity(dirs, chain)
    && DataIds(Flat(dirs, chain), chain)
  }

  /** What a walk along the next links from `headId` relies on: it visits
      the pages of `chain` in order and then stops at INVALID_PAGEID. */
  predicate Walkable(dirs: map<PageId, DirPage>, chain: seq<PageId>, headId: PageId)
  {
    && |chain| > 0 && chain[0] == headId
    && InDirs(dirs, chain) && Linked(dirs, chain)
    && INVALID_PAGEID !in chain
  }

  /** Walking the list: the page after `chain[k]`, or INVALID_PAGEID after
      the last; the prefix of the flattened entries grows by that page's. */
  lemma NextStep(dirs: map<PageId, DirPage>, chain: seq<PageId>, headId: PageId, k: nat)
    requires Walkable(dirs, chain, headId) && k < |chain|
    ensures dirs[chain[k]].next == if k + 1 < |chain| then chain[k + 1] else INVALID_PAGEID
    ensures InDirs(dirs, chain[..k]) && InDirs(dirs, chain[..k + 1])
    ensures Flat(dirs, chain[..k + 1]) == Flat(dirs, chain[..k]) + dirs[chain[k]].entries
  {
    if k + 1 < |chain| { assert LinkAt(dirs, chain, k); }
    FlatSnoc(dirs, chain, k);
  }

  /** The flattened entries of the first `k + 1` pages of `chain`. */
  lemma FlatSnoc(dirs: map<PageId, DirPage>, chain: seq<PageId>, k: nat)
    requires InDirs(dirs, chain) && k < |chain|
    ensures InDirs(dirs, chain[..k]) && InDirs(dirs, chain[..k + 1])
    ensures Flat(dirs, chain[..k + 1]) == Flat(dirs, chain[..k]) + dirs[chain[k]].entries
  {
    assert chain[..k + 1][..k] == chain[..k];
    assert forall j :: 0 <= j < k + 1 ==> chain[..k + 1][j] == chain[j];
  }

  /** The data page of the first entry of `es` with at least `need` free
      bytes: what getAvailPage's scan finds. */
  function FitId(es: seq<DirEntry>, need: int): (r: Option<PageId>)
    ensures r.Some? <==> FirstFit(es, need).Some?
    ensures r.Some? ==> r.value == es[FirstFit(es, need).value].pageId
  {
    match FirstFit(es, need)
    case None => None
    case Some(p) => Some(es[p].pageId)
  }

  /** The scan over two parts finds the first part's page, or else the
      second's. */
  lemma FitIdAppend(a: seq<DirEntry>, b: seq<DirEntry>, need: int)
    ensures FitId(a + b, need) == if FitId(a, need).Some? then FitId(a, need) else FitId(b, need)
  {
    FirstFitAppend(a, b, need);
    if FirstFit(a, need).Some? {
      assert (a + b)[FirstFit(a, need).value] == a[FirstFit(a, need).value];
    } else if FirstFit(b, need).Some? {
      assert (a + b)[|a| + FirstFit(b, need).value] == b[FirstFit(b, need).value];
    }
  }

  /** getAvailPage's scan reaching page `chain[k]` without a fit so far:
      a fit on that page is the first fit of the whole directory. */
  lemma FitOnPage(dirs: map<PageId, DirPage>, chain: seq<PageId>, k: nat, need: int)
    requires InDirs(dirs, chain) && k < |chain|
    requires InDirs(dirs, chain[..k]) && FitId(Flat(dirs, chain[..k]), need).None?
    requires FitId(dirs[chain[k]].entries, need).Some?
    ensures FitId(Flat(dirs, chain), need) == FitId(dirs[chain[k]].entries, need)
  {
    FlatSnoc(dirs, chain, k);
    assert InDirs(dirs, chain[k + 1..]);
    assert chain[..k + 1] + chain[k + 1..] == chain;
    FlatAppend(dirs, chain[..k + 1], chain[k + 1..]);
    FitIdAppend(Flat(dirs, chain[..k]), dirs[chain[k]].entries, need);
    FitIdAppend(Flat(dirs, chain[..k + 1]), Flat(dirs, chain[k + 1..]), need);
  }

  /** ... and without a fit on that page, none up to and including it. */
  lemma NoFitOnPage(dirs: map<PageId, DirPage>, chain: seq<PageId>, k: nat, need: int)
    requires InDirs(dirs, chain) && k < |chain|
    requires InDirs(dirs, chain[..k]) && FitId(Flat(dirs, chain[..k]), need).None?
    requires FitId(dirs[chain[k]].entries, need).None?
    ensures InDirs(dirs, chain[..k + 1]) && FitId(Flat(dirs, chain[..k + 1]), need).None?
  {
    FlatSnoc(dirs, chain, k);
    FitIdAppend(Flat(dirs, chain[..k]), dirs[chain[k]].entries, need);
  }

  /** findDirEntry's walk at page `chain[k]`, with no entry for `pageno`
      on the pages before it: an entry on this page is where Locate stops... */
  lemma LocateHere(dirs: map<PageId, DirPage>, chain: seq<PageId>, pageno: PageId, k: nat)
    requires InDirs(dirs, chain) && k < |chain|
    requires Locate(dirs, chain, pageno).None? || Locate(dirs, chain, pageno).value.0 >= k
    requires IndexOf(dirs[chain[k]].entries, pageno).Some?
    ensures Locate(dirs, chain, pageno) == Some((k, IndexOf(dirs[chain[k]].entries, pageno).value))
  {
    var r, here := Locate(dirs, chain, pageno), IndexOf(dirs[chain[k]].entries, pageno);
    assert r.None? || r.value.0 > k ==> here.None?;
  }

  /** ... and without one, Locate stops beyond this page, if at all. */
  lemma LocatePast(dirs: map<PageId, DirPage>, chain: seq<PageId>, pageno: PageId, k: nat)
    requires InDirs(dirs, chain) && k < |chain|
    requires Locate(dirs, chain, pageno).None? || Locate(dirs, chain, pageno).value.0 >= k
    requires IndexOf(dirs[chain[k]].entries, pageno).None?
    ensures Locate(dirs, chain, pageno).None? || Locate(dirs, chain, pageno).value.0 > k
  {
  }

  /** No page before `k` has a fit, so neither do their entries together. */
  lemma {:induction false} NoFitPrefix(dirs: map<PageId, DirPage>, chain: seq<PageId>, k: nat, need: int)
    requires InDirs(dirs, chain) && k <= |chain|
    requires forall j :: 0 <= j < k ==> FirstFit(dirs[chain[j]].entries, need).None?
    ensures InDirs(dirs, chain[..k]) && FitId(Flat(dirs, chain[..k]), need).None?
  {
    if k > 0 {
      NoFitPrefix(dirs, chain, k - 1, need);
      NoFitOnPage(dirs, chain, k - 1, need);
    } else {
      assert chain[..0] == [];
    }
  }

  /** The first fit of the flattened entries lies on the first page with a
      fit, at that page's first fit. */
  lemma FitAtFlat(dirs: map<PageId, DirPage>, chain: seq<PageId>, need: int)
    requires InDirs(dirs, chain)
    ensures FitId(Flat(dirs, chain), need) ==
      match FitAt(dirs, chain, need)
      case None => None
      case Some(p) => Some(dirs[chain[p.0]].entries[p.1].pageId)
  {
    match FitAt(dirs, chain, need)
    case None =>
      NoFitPrefix(dirs, chain, |chain|, need);
      assert chain[..|chain|] == chain;
    case Some(p) =>
      NoFitPrefix(dirs, chain, p.0, need);
      FitOnPage(dirs, chain, p.0, need);
  }

  /** getAvailPage's walk at page `chain[k]`, with no fit on an earlier
      page: a fit on this page is the first one of the list ... */
  lemma FitHere(dirs: map<PageId, DirPage>, chain: seq<PageId>, need: int, k: nat)
    requires InDirs(dirs, chain) && k < |chain|
    requires FitAt(dirs, chain, need).None? || FitAt(dirs, chain, need).value.0 >= k
    requires FirstFit(dirs[chain[k]].entries, need).Some?
    ensures FitAt(dirs, chain, need) == Some((k, FirstFit(dirs[chain[k]].entries, need).value))
  {
    var r, here := FitAt(dirs, chain, need), FirstFit(dirs[chain[k]].entries, need);
    assert r.None? || r.value.0 > k ==> here.None?;
  }

  /** ... and without one, the first fit lies beyond this page, if anywhere. */
  lemma FitPast(dirs: map<PageId, DirPage>, chain: seq<PageId>, need: int, k: nat)
    requires InDirs(dirs, chain) && k < |chain|
    requires FitAt(dirs, chain, need).None? || FitAt(dirs, chain, need).value.0 >= k
    requires FirstFit(dirs[chain[k]].entries, need).None?
    ensures FitAt(dirs, chain, need).None? || FitAt(dirs, chain, need).value.0 > k
  {
  }

  /** A new heap file's directory: the head page alone, empty. */
  lemma EmptyWellformed(headId: PageId)
    requires headId != INVALID_PAGEID
    ensures Wellformed(map[headId := EMPTY_DIR], [headId], headId)
    ensures Flat(map[headId := EMPTY_DIR], [headId]) == []
  {
    FlatOne(map[headId := EMPTY_DIR], headId);
  }

  /** Page ids that the disk allocator may hand out for insertPage: not
      INVALID_PAGEID, not pages of the directory list, not named by an
      entry, and different. A page spliced out of the list may come back. */
  predicate Fresh(dirs: map<PageId, DirPage>, chain: seq<PageId>, newDirId: PageId, dataId: PageId)
    requires InDirs(dirs, chain)
  {
    && newDirId != INVALID_PAGEID && dataId != INVALID_PAGEID && newDirId != dataId
    && newDirId !in chain && dataId !in chain
    && newDirId !in Ids(Flat(dirs, chain)) && dataId !in Ids(Flat(dirs, chain))
  }

  lemma DistinctInsert(s: seq<PageId>, pos: nat, x: PageId)
    requires Distinct(s) && x !in s && pos <= |s|
    ensures Distinct(s[..pos] + [x] + s[pos..])
  {
    var t := s[..pos] + [x] + s[pos..];
    forall i, j | 0 <= i < j < |t| ensures t[i] != t[j] {
      if i < pos && j > pos { assert t[j] == s[j - 1]; }
      else if i > pos { assert t[i] == s[i - 1] && t[j] == s[j - 1]; }
    }
  }

  lemma DistinctRemove(s: seq<PageId>, pos: nat)
    requires Distinct(s) && pos < |s|
    ensures Distinct(s[..pos] + s[pos + 1..])
  {
    var t := s[..pos] + s[pos + 1..];
    forall i, j | 0 <= i < j < |t| ensures t[i] != t[j] {
      if i < pos && j >= pos { assert t[j] == s[j + 1]; }
      else if i >= pos { assert t[i] == s[i + 1] && t[j] == s[j + 1]; }
    }
  }

  /** The data page ids after inserting `e` at `pos`. */
  lemma IdsInsert(es: seq<DirEntry>, pos: nat, e: DirEntry)
    requires pos <= |es|
    ensures Ids(es[..pos] + [e] + es[pos..]) == Ids(es)[..pos] + [e.pageId] + Ids(es)[pos..]
  {
    IdsAppend(es[..pos], [e]);
    IdsAppend(es[..pos] + [e], es[pos..]);
    assert Ids([e]) == [e.pageId];
    assert Ids(es[..pos]) == Ids(es)[..pos];
    assert Ids(es[pos..]) == Ids(es)[pos..];
  }

  /** The data page ids after removing the entry at `pos`. */
  lemma IdsRemove(es: seq<DirEntry>, pos: nat)
    requires pos < |es|
    ensures Ids(es[..pos] + es[pos + 1..]) == Ids(es)[..pos] + Ids(es)[pos + 1..]
  {
    IdsAppend(es[..pos], es[pos + 1..]);
    assert Ids(es[..pos]) == Ids(es)[..pos];
    assert Ids(es[pos + 1..]) == Ids(es)[pos + 1..];
  }

  /** insertPage keeps the directory well formed when the pages it
      allocates are fresh. */
  lemma InsertWellformed(dirs: map<PageId, DirPage>, chain: seq<PageId>, headId: PageId,
                         newDirId: PageId, dataId: PageId, e: DirEntry)
    requires Wellformed(dirs, chain, headId) && Fresh(dirs, chain, newDirId, dataId) && e.pageId == dataId
    ensures Wellformed(InsertDirs(dirs, chain, newDirId, e), InsertChain(dirs, chain, newDirId), headId)
  {
    var after := InsertDirs(dirs, chain, newDirId, e);
    var chain' := InsertChain(dirs, chain, newDirId);
    InsertLinked(dirs, chain, newDirId, e);
    InsertPlacesEntry(dirs, chain, newDirId, e);
    InsertCapacity(dirs, chain, newDirId, e);
    var before := Flat(dirs, chain);
    var pos := InsertPos(dirs, chain);
    IdsInsert(before, pos, e);
    InsertDataIds(Ids(before), pos, chain, chain', newDirId, dataId);
  }

  lemma InsertDataIds(ids: seq<PageId>, pos: nat, chain: seq<PageId>, chain': seq<PageId>, newDirId: PageId, dataId: PageId)
    requires pos <= |ids| && Distinct(ids) && INVALID_PAGEID !in ids
    requires forall i :: 0 <= i < |ids| ==> ids[i] !in chain
    requires forall x :: x in chain' ==> x in chain || x == newDirId
    requires newDirId !in ids && dataId !in ids && dataId !in chain && dataId != newDirId && dataId != INVALID_PAGEID
    ensures
      var ids' := ids[..pos] + [dataId] + ids[pos..];
      Distinct(ids') && INVALID_PAGEID !in ids' && forall i :: 0 <= i < |ids'| ==> ids'[i] !in chain'
  {
    DistinctInsert(ids, pos, dataId);
    var ids' := ids[..pos] + [dataId] + ids[pos..];
    assert forall x :: x in ids' ==> x in ids || x == dataId;
  }

  lemma InsertCapacity(dirs: map<PageId, DirPage>, chain: seq<PageId>, newDirId: PageId, e: DirEntry)
    requires InDirs(dirs, chain) && |chain| > 0 && Distinct(chain) && newDirId !in chain
    requires WithinCapacity(dirs, chain)
    ensures InDirs(InsertDirs(dirs, chain, newDirId, e), InsertChain(dirs, chain, newDirId))
    ensures WithinCapacity(InsertDirs(dirs, chain, newDirId, e), InsertChain(dirs, chain, newDirId))
  {
    var after := InsertDirs(dirs, chain, newDirId, e);
    var chain' := InsertChain(dirs, chain, newDirId);
    InsertPlacesEntry(dirs, chain, newDirId, e);
    match FirstRoom(dirs, chain)
    case Some(k) => {
      assert after == dirs[chain[k] := dirs[chain[k]].(entries := dirs[chain[k]].entries + [e])];
      assert chain' == chain;
      forall j | 0 <= j < |chain'| ensures |after[chain'[j]].entries| <= MAX_ENTRIES {
        if j != k { assert chain[j] != chain[k]; }
      }
    }
    case None => {
      var tail := chain[|chain| - 1];
      assert after == dirs[tail := dirs[tail].(next := newDirId)][newDirId := DirPage([e], tail, INVALID_PAGEID)];
      assert chain' == chain + [newDirId];
      forall j | 0 <= j < |chain'| ensures |after[chain'[j]].entries| <= MAX_ENTRIES {
        if j < |chain| { assert chain'[j] == chain[j] != newDirId; }
      }
    }
  }

  /** deletePage's directory part keeps the directory well formed. */
  lemma RemoveWellformed(dirs: map<PageId, DirPage>, chain: seq<PageId>, headId: PageId, k: nat, index: nat)
    requires Wellformed(dirs, chain, headId)
    requires k < |chain| && index < |dirs[chain[k]].entries|
    ensures Wellformed(RemoveDirs(dirs, chain, k, index), RemoveChain(dirs, chain, k, index), headId)
  {
    var after := RemoveDirs(dirs, chain, k, index);
    var chain' := RemoveChain(dirs, chain, k, index);
    RemovePlacesEntry(dirs, chain, k, index);
    RemoveCapacity(dirs, chain, k, index);
    RemoveShrinks(dirs, chain, k, index);
    var before := Flat(dirs, chain);
    var pos := |Flat(dirs, chain[..k])| + index;
    IdsRemove(before, pos);
    var ids := Ids(before);
    assert Ids(Flat(after, chain')) == ids[..pos] + ids[pos + 1..];
    RemoveDataIds(ids, pos, chain, chain');
    assert DataIds(Flat(after, chain'), chain');
  }

  lemma RemoveDataIds(ids: seq<PageId>, pos: nat, chain: seq<PageId>, chain': seq<PageId>)
    requires pos < |ids| && Distinct(ids) && INVALID_PAGEID !in ids
    requires forall i :: 0 <= i < |ids| ==> ids[i] !in chain
    requires forall x :: x in chain' ==> x in chain
    ensures
      var ids' := ids[..pos] + ids[pos + 1..];
      Distinct(ids') && INVALID_PAGEID !in ids' && forall i :: 0 <= i < |ids'| ==> ids'[i] !in chain'
  {
    DistinctRemove(ids, pos);
    var ids' := ids[..pos] + ids[pos + 1..];
    assert forall x :: x in ids' ==> x in ids;
  }

  /** No page's entries grow when an entry is removed. */
  lemma RemoveShrinks(dirs: map<PageId, DirPage>, chain: seq<PageId>, k: nat, index: nat)
    requires InDirs(dirs, chain) && k < |chain| && index < |dirs[chain[k]].entries|
    ensures forall x :: x in dirs ==>
      (x in RemoveDirs(dirs, chain, k, index) && |RemoveDirs(dirs, chain, k, index)[x].entries| <= |dirs[x].entries|)
    ensures forall x :: x in RemoveChain(dirs, chain, k, index) ==> x in chain
  {
    var id := chain[k];
    var es := dirs[id].entries;
    if k > 0 && |es| == 1 {
      assert forall x :: x in chain[..k] + chain[k + 1..] ==> x in chain;
    }
  }

  lemma RemoveCapacity(dirs: map<PageId, DirPage>, chain: seq<PageId>, k: nat, index: nat)
    requires InDirs(dirs, chain) && WithinCapacity(dirs, chain)
    requires k < |chain| && index < |dirs[chain[k]].entries|
    requires InDirs(RemoveDirs(dirs, chain, k, index), RemoveChain(dirs, chain, k, index))
    ensures WithinCapacity(RemoveDirs(dirs, chain, k, index), RemoveChain(dirs, chain, k, index))
  {
    var after := RemoveDirs(dirs, chain, k, index);
    var chain' := RemoveChain(dirs, chain, k, index);
    var splice := k > 0 && |dirs[chain[k]].entries| == 1;
    RemoveShrinks(dirs, chain, k, index);
    forall j | 0 <= j < |chain'| ensures |after[chain'[j]].entries| <= MAX_ENTRIES {
      var j' := if splice && j >= k then j + 1 else j;
      assert chain'[j] == chain[j'];
      assert chain[j'] in dirs;
    }
  }

  /** updateDirEntry's rewrite of one entry, keeping its data page id,
      keeps the directory well formed. */
  lemma SetWellformed(dirs: map<PageId, DirPage>, chain: seq<PageId>, headId: PageId, k: nat, index: nat, e: DirEntry)
    requires Wellformed(dirs, chain, headId)
    requires k < |chain| && index < |dirs[chain[k]].entries|
    requires e.pageId == dirs[chain[k]].entries[index].pageId
    ensures
      var id := chain[k];
      Wellformed(dirs[id := dirs[id].(entries := dirs[id].entries[index := e])], chain, headId)
  {
    var id := chain[k];
    var after := dirs[id := dirs[id].(entries := dirs[id].entries[index := e])];
    SetPlacesEntry(dirs, chain, k, index, e);
    LinkedEntries(dirs, chain, id, dirs[id].entries[index := e]);
    var before := Flat(dirs, chain);
    var pos := |Flat(dirs, chain[..k])| + index;
    assert Ids(Flat(after, chain)) == Ids(before) by {
      assert forall i :: 0 <= i < |before| ==> Flat(after, chain)[i].pageId == before[i].pageId;
    }
    forall j | 0 <= j < |chain| ensures |after[chain[j]].entries| <= MAX_ENTRIES {
      if j != k { assert chain[j] != id; }
    }
  }

  /** Where entry `index` of page `chain[k]` sits among the flattened entries. */
  function EntryPos(dirs: map<PageId, DirPage>, chain: seq<PageId>, k: nat, index: nat): nat
    requires InDirs(dirs, chain) && k <= |chain|
  {
    assert InDirs(dirs, chain[..k]) by { assert forall j :: 0 <= j < k ==> chain[..k][j] == chain[j]; }
    |Flat(dirs, chain[..k])| + index
  }

  /** findDirEntry's result in terms of the flattened entries: where it
      stops, the flattened entries name `pageno`; where it finds nothing,
      no entry does. */
  lemma {:induction false} LocateInFlat(dirs: map<PageId, DirPage>, chain: seq<PageId>, pageno: PageId)
    requires InDirs(dirs, chain) && Distinct(chain)
    ensures Locate(dirs, chain, pageno).None? ==> pageno !in Ids(Flat(dirs, chain))
    ensures Locate(dirs, chain, pageno).Some? ==>
      var (k, i) := Locate(dirs, chain, pageno).value;
      && i < |dirs[chain[k]].entries|
      && EntryPos(dirs, chain, k, i) < |Flat(dirs, chain)|
      && Flat(dirs, chain)[EntryPos(dirs, chain, k, i)] == dirs[chain[k]].entries[i]
  {
    match Locate(dirs, chain, pageno)
    case None => NotInFlat(dirs, chain, pageno);
    case Some((k, i)) => SetPlacesEntry(dirs, chain, k, i, dirs[chain[k]].entries[i]);
  }

  lemma {:induction false} NotInFlat(dirs: map<PageId, DirPage>, chain: seq<PageId>, pageno: PageId)
    requires InDirs(dirs, chain)
    requires forall k :: 0 <= k < |chain| ==> IndexOf(dirs[chain[k]].entries, pageno).None?
    ensures pageno !in Ids(Flat(dirs, chain))
    decreases |chain|
  {
    if chain != [] {
      var init := chain[..|chain| - 1];
      assert forall k :: 0 <= k < |init| ==> init[k] == chain[k];
      NotInFlat(dirs, init, pageno);
      IdsAppend(Flat(dirs, init), dirs[chain[|chain| - 1]].entries);
    }
  }

  /** The pages freed while walking the first `k` directory pages come first
      in deleteFile's order. */
  lemma {:induction false} FreeOrderPrefix(dirs: map<PageId, DirPage>, chain: seq<PageId>, k: nat)
    requires InDirs(dirs, chain) && k <= |chain|
    ensures InDirs(dirs, chain[..k])
    ensures FreeOrder(dirs, chain[..k]) <= FreeOrder(dirs, chain)
    decreases |chain| - k
  {
    assert forall j :: 0 <= j < k ==> chain[..k][j] == chain[j];
    if k < |chain| {
      FreeOrderPrefix(dirs, chain, k + 1);
      assert chain[..k + 1][..k] == chain[..k];
    } else {
      assert chain[..k] == chain;
    }
  }

  /** The free order of one more page: that page's data pages, then the page. */
  lemma FreeOrderSnoc(dirs: map<PageId, DirPage>, chain: seq<PageId>, k: nat)
    requires InDirs(dirs, chain) && k < |chain|
    ensures InDirs(dirs, chain[..k]) && InDirs(dirs, chain[..k + 1])
    ensures FreeOrder(dirs, chain[..k + 1]) ==
      FreeOrder(dirs, chain[..k]) + (Ids(dirs[chain[k]].entries) + [chain[k]])
  {
    assert chain[..k + 1][..k] == chain[..k];
    assert forall j :: 0 <= j < k + 1 ==> chain[..k + 1][j] == chain[j];
  }

  /** The free order of the whole list around its `k`-th page: the pages
      before it, that page's data pages and the page, then the rest. */
  lemma FreeOrderStep(dirs: map<PageId, DirPage>, chain: seq<PageId>, k: nat)
    requires InDirs(dirs, chain) && k < |chain|
    ensures InDirs(dirs, chain[..k]) && InDirs(dirs, chain[..k + 1])
    ensures FreeOrder(dirs, chain[..k + 1]) ==
      FreeOrder(dirs, chain[..k]) + (Ids(dirs[chain[k]].entries) + [chain[k]])
    ensures FreeOrder(dirs, chain[..k + 1]) <= FreeOrder(dirs, chain)
    ensures FreeOrder(dirs, chain) ==
      FreeOrder(dirs, chain[..k]) + (Ids(dirs[chain[k]].entries) + [chain[k]]) +
      FreeOrder(dirs, chain)[|FreeOrder(dirs, chain[..k + 1])|..]
  {
    FreeOrderSnoc(dirs, chain, k);
    FreeOrderPrefix(dirs, chain, k + 1);
  }

  /** In a well-formed directory, findDirEntry finds every data page it
      lists, at the entry its position among the flattened entries names. */
  lemma LocateAt(dirs: map<PageId, DirPage>, chain: seq<PageId>, headId: PageId, j: nat)
    requires Wellformed(dirs, chain, headId) && j < |Flat(dirs, chain)|
    ensures Locate(dirs, chain, Flat(dirs, chain)[j].pageId).Some?
    ensures
      var (k, i) := Locate(dirs, chain, Flat(dirs, chain)[j].pageId).value;
      && k < |chain| && i < |dirs[chain[k]].entries|
      && EntryPos(dirs, chain, k, i) == j
      && dirs[chain[k]].entries[i] == Flat(dirs, chain)[j]
  {
    var es := Flat(dirs, chain);
    var pageno := es[j].pageId;
    assert pageno in Ids(es) by { assert Ids(es)[j] == pageno; }
    LocateInFlat(dirs, chain, pageno);
    var (k, i) := Locate(dirs, chain, pageno).value;
    var p := EntryPos(dirs, chain, k, i);
    assert Ids(es)[p] == pageno == Ids(es)[j];
  }

  /** The two parts of insertPage together: the page the walk stops at, or
      the page it links onto the list, receives the entry. */
  lemma InsertSteps(dirs: map<PageId, DirPage>, chain: seq<PageId>, newDirId: PageId, e: DirEntry,
                    dirId: PageId, d1: map<PageId, DirPage>)
    requires InDirs(dirs, chain) && |chain| > 0
    requires FirstRoom(dirs, chain).Some? ==>
      dirId == chain[FirstRoom(dirs, chain).value] && d1 == dirs
    requires FirstRoom(dirs, chain).None? ==>
      dirId == newDirId &&
      d1 == dirs[chain[|chain| - 1] := dirs[chain[|chain| - 1]].(next := newDirId)]
                [newDirId := DirPage([], chain[|chain| - 1], INVALID_PAGEID)]
    ensures dirId in d1
    ensures d1[dirId := d1[dirId].(entries := d1[dirId].entries + [e])] == InsertDirs(dirs, chain, newDirId, e)
  {
    if FirstRoom(dirs, chain).None? {
      assert [] + [e] == [e];
    }
  }

  /** In a well-formed directory no entry of a directory page names a
      directory page. */
  lemma EntryIdsOutside(dirs: map<PageId, DirPage>, chain: seq<PageId>, headId: PageId, k: nat)
    requires Wellformed(dirs, chain, headId) && k < |chain|
    ensures forall i :: 0 <= i < |dirs[chain[k]].entries| ==> dirs[chain[k]].entries[i].pageId !in chain
  {
    var es := dirs[chain[k]].entries;
    FlatSplit(dirs, dirs, chain, k);
    var a := Flat(dirs, chain[..k]);
    forall i | 0 <= i < |es| ensures es[i].pageId !in chain {
      assert Ids(Flat(dirs, chain))[|a| + i] == es[i].pageId;
    }
  }

  /** The neighbours of a page other than the head: its prev link is the
      page before it, its next link the page after it or INVALID_PAGEID
      at the tail, and neither is the page itself. */
  lemma Neighbours(dirs: map<PageId, DirPage>, chain: seq<PageId>, headId: PageId, k: nat)
    requires Walkable(dirs, chain, headId) && Distinct(chain) && 0 < k < |chain|
    ensures var p := dirs[chain[k]];
      && p.prev == chain[k - 1] && p.prev != INVALID_PAGEID && p.prev in dirs && p.prev != chain[k]
      && (p.next == INVALID_PAGEID <==> k == |chain| - 1)
      && (p.next != INVALID_PAGEID ==> p.next == chain[k + 1] && p.next in dirs && p.next != chain[k] && p.next != p.prev)
  {
    assert LinkAt(dirs, chain, k - 1) && chain[k - 1] in chain;
    if k + 1 < |chain| { assert LinkAt(dirs, chain, k) && chain[k + 1] in chain; }
  }

  /** RemoveDirs when it splices page `k` out, written as the three updates
      deletePage makes. */
  lemma SpliceDirs(dirs: map<PageId, DirPage>, chain: seq<PageId>, headId: PageId, k: nat, index: nat)
    requires Walkable(dirs, chain, headId) && Distinct(chain) && 0 < k < |chain|
    requires index < |dirs[chain[k]].entries| == 1
    ensures
      var p := dirs[chain[k]];
      var d1 := dirs[chain[k] := p.(entries := Compact(p.entries, index))];
      p.prev in d1 && (p.next != INVALID_PAGEID ==> p.next in d1)
    ensures
      var p := dirs[chain[k]];
      var d1 := dirs[chain[k] := p.(entries := Compact(p.entries, index))];
      var d2 := d1[p.prev := d1[p.prev].(next := p.next)];
      RemoveDirs(dirs, chain, k, index) ==
        if p.next != INVALID_PAGEID then d2[p.next := d2[p.next].(prev := p.prev)] else d2
  {
    Neighbours(dirs, chain, headId, k);
  }
}

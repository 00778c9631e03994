/** The proxy's object cache of cache.c, one operation at a time: a doubly linked list with a dummy
    head, most recently used first, in which one URL may occur more than once. */
module ProxyCache {
  import opened Sequences

  const MAX_CACHE_SIZE := 1048576
  const MAX_OBJECT_SIZE := 102400

  // ---------- The list as a value ----------

  datatype Entry = Entry(url: string, content: string, size: nat)

  ghost function Total(E: seq<Entry>): nat {
    if E == [] then 0 else Total(E[..|E| - 1]) + E[|E| - 1].size
  }

  lemma {:induction false} TotalConcat(D: seq<Entry>, E: seq<Entry>)
    ensures Total(D + E) == Total(D) + Total(E)
  {
    if E == [] {
      assert D + E == D;
    } else {
      var n := |E| - 1;
      assert (D + E)[..|D| + n] == D + E[..n];
      TotalConcat(D, E[..n]);
    }
  }

  lemma TotalOne(e: Entry)
    ensures Total([e]) == e.size
  {
    assert [e][..0] == [];
  }

  /** The i-th entry is the first for its URL. */
  ghost predicate IsFirst(E: seq<Entry>, i: int) {
    0 <= i < |E| && forall j :: 0 <= j < i ==> E[j].url != E[i].url
  }

  /** Every URL's first entry holds what the map stores for it. */
  ghost predicate Agrees(E: seq<Entry>, store: map<string, string>) {
    forall i :: IsFirst(E, i) ==> E[i].url in store && E[i].content == store[E[i].url]
  }

  ghost function ToFront(E: seq<Entry>, i: int): seq<Entry>
    requires 0 <= i < |E|
  {
    [E[i]] + (E[..i] + E[i + 1..])
  }

  lemma ToFrontAt(E: seq<Entry>, i: int, k: int)
    requires 0 <= i < |E| && 0 <= k < |E|
    ensures |ToFront(E, i)| == |E|
    ensures ToFront(E, i)[k] == E[if k == 0 then i else if k <= i then k - 1 else k]
  {
  }

  /** What is first after the move was first before. */
  lemma FirstBefore(E: seq<Entry>, i: int, k: int)
    requires IsFirst(E, i) && IsFirst(ToFront(E, i), k)
    ensures IsFirst(E, if k == 0 then i else if k <= i then k - 1 else k)
  {
    hide ToFront;
    ToFrontAt(E, i, 0);
    ToFrontAt(E, i, k);
    var k' := if k == 0 then i else if k <= i then k - 1 else k;
    forall j | 0 <= j < k'
      ensures E[j].url != E[k'].url
    {
      if k > 0 {
        ToFrontAt(E, i, if j < i then j + 1 else if j == i then 0 else j);
      }
    }
  }

  /** Moving the first entry of a URL to the front leaves every first entry first. */
  lemma ToFrontAgrees(E: seq<Entry>, i: int, store: map<string, string>)
    requires Agrees(E, store) && IsFirst(E, i)
    ensures Agrees(ToFront(E, i), store) && Total(ToFront(E, i)) == Total(E)
  {
    hide ToFront, Total;
    var E' := ToFront(E, i);
    ToFrontAt(E, i, 0);
    forall k | IsFirst(E', k)
      ensures E'[k].url in store && E'[k].content == store[E'[k].url]
    {
      ToFrontAt(E, i, k);
      FirstBefore(E, i, k);
    }
    ToFrontTotal(E, i);
  }

  lemma TotalMove(D: seq<Entry>, e: seq<Entry>, E: seq<Entry>)
    ensures Total(D + (e + E)) == Total(e + (D + E))
  {
    hide Total;
    TotalConcat(D, e + E);
    TotalConcat(e, E);
    TotalConcat(e, D + E);
    TotalConcat(D, E);
  }

  lemma ToFrontTotal(E: seq<Entry>, i: int)
    requires 0 <= i < |E|
    ensures Total(ToFront(E, i)) == Total(E)
  {
    hide Total;
    assert E == E[..i] + ([E[i]] + E[i + 1..]);
    TotalMove(E[..i], [E[i]], E[i + 1..]);
  }

  /** Dropping entries from the end leaves the other first entries first. */
  lemma PrefixAgrees(E: seq<Entry>, k: nat, store: map<string, string>)
    requires Agrees(E, store) && k <= |E|
    ensures Agrees(E[..k], store)
  {
    forall i | IsFirst(E[..k], i)
      ensures E[..k][i].url in store && E[..k][i].content == store[E[..k][i].url]
    {
      assert forall j :: 0 <= j < i ==> E[..k][j] == E[j];
      assert IsFirst(E, i);
    }
  }

  /** A new entry in front shadows older ones for its URL. */
  lemma ConsAgrees(e: Entry, E: seq<Entry>, store: map<string, string>)
    requires Agrees(E, store)
    ensures Agrees([e] + E, store[e.url := e.content]) && Total([e] + E) == e.size + Total(E)
  {
    hide Total;
    var E', store' := [e] + E, store[e.url := e.content];
    forall i | IsFirst(E', i)
      ensures E'[i].url in store' && E'[i].content == store'[E'[i].url]
    {
      if i > 0 {
        FirstBehind(e, E, i);
      }
    }
    TotalConcat([e], E);
    TotalOne(e);
  }

  lemma FirstBehind(e: Entry, E: seq<Entry>, i: int)
    requires IsFirst([e] + E, i) && i > 0
    ensures IsFirst(E, i - 1) && ([e] + E)[i] == E[i - 1] && e.url != E[i - 1].url
  {
    var E' := [e] + E;
    assert E'[0] == e;
    forall j | 0 <= j < i - 1
      ensures E[j].url != E[i - 1].url
    {
      assert E'[j + 1] == E[j];
    }
  }

  /** k is the number of entries that stay when room for size bytes is made: as many of the most
      recently used as fit. */
  ghost predicate Keeps(E: seq<Entry>, size: nat, k: int) {
    && 0 <= k <= |E|
    && Total(E[..k]) + size <= MAX_CACHE_SIZE
    && forall j :: k < j <= |E| ==> Total(E[..j]) + size > MAX_CACHE_SIZE
  }

  // ---------- The list in memory ----------

  class CacheItem {
    const url: string
    const content: string
    const size: nat
    var prev: CacheItem?
    var next: CacheItem?

    constructor (url: string, content: string, size: nat)
      ensures this.url == url && this.content == content && this.size == size && prev == null && next == null
    {
      this.url, this.content, this.size, prev, next := url, content, size, null, null;
    }

    ghost function AsEntry(): Entry { Entry(url, content, size) }
  }

  /** The i-th node: the dummy head, then the items. */
  ghost function Node(h: CacheItem, items: seq<CacheItem>, i: int): CacheItem
    requires 0 <= i <= |items|
  {
    if i == 0 then h else items[i - 1]
  }

  ghost predicate Linked(h: CacheItem, items: seq<CacheItem>, R: set<CacheItem>, i: int)
    requires 0 <= i < |items|
    reads R`next, R`prev
  {
    var a, b := Node(h, items, i), Node(h, items, i + 1);
    a in R && b in R && a.next == b && b.prev == a
  }

  /** A chain of distinct nodes from the head to the last item. */
  ghost predicate Chain(h: CacheItem, items: seq<CacheItem>, R: set<CacheItem>)
    reads R`next, R`prev
  {
    && Distinct(items) && h !in items && h in R
    && (forall l :: l in items ==> l in R)
    && (forall i :: 0 <= i < |items| ==> Linked(h, items, R, i))
    && Node(h, items, |items|).next == null
  }

  lemma NodesApart(h: CacheItem, items: seq<CacheItem>, i: int, j: int)
    requires Distinct(items) && h !in items
    requires 0 <= i <= |items| && 0 <= j <= |items|
    ensures Node(h, items, i) == Node(h, items, j) <==> i == j
  {
  }

  /** Link an item in after the head. */
  method InsertFront(h: CacheItem, ghost items: seq<CacheItem>, ghost R: set<CacheItem>, item: CacheItem)
    requires Chain(h, items, R) && item in R && item !in items && item != h
    modifies R`next, R`prev
    ensures Chain(h, [item] + items, R)
  {
    assert items != [] ==> Linked(h, items, R, 0);
    label before:
    item.next := h.next;
    item.prev := h;
    if h.next != null {
      h.next.prev := item;
    }
    h.next := item;
    ghost var items' := [item] + items;
    forall k | 0 <= k < |items'|
      ensures Linked(h, items', R, k)
    {
      if k > 0 {
        assert old@before(Linked(h, items, R, k - 1));
        NodesApart(h, items, k - 1, 0);
        NodesApart(h, items, k, 1);
      }
    }
    NodesApart(h, items, |items|, 0);
  }

  /** Detach the i-th item. */
  method Detach(h: CacheItem, ghost items: seq<CacheItem>, ghost R: set<CacheItem>, item: CacheItem, ghost i: nat)
    requires Chain(h, items, R) && i < |items| && items[i] == item
    modifies R`next, R`prev
    ensures Chain(h, items[..i] + items[i + 1..], R)
    ensures item.prev == old(item.prev) == Node(h, items, i)
  {
    assert Linked(h, items, R, i) && (i + 1 < |items| ==> Linked(h, items, R, i + 1));
    label before:
    if item.prev != null {
      item.prev.next := item.next;
    }
    if item.next != null {
      item.next.prev := item.prev;
    }
    ghost var items' := items[..i] + items[i + 1..];
    forall k | 0 <= k < |items'|
      ensures Linked(h, items', R, k)
    {
      DetachedNodes(h, items, i, k);
      assert old@before(Linked(h, items, R, if k <= i then k else k + 1));
    }
    LastNode(h, items, i);
  }

  lemma DetachedNodes(h: CacheItem, items: seq<CacheItem>, i: nat, k: nat)
    requires Distinct(items) && h !in items && i < |items| && k + 1 < |items|
    ensures var items' := items[..i] + items[i + 1..];
            var k', l' := if k <= i then k else k + 1, if k + 1 <= i then k + 1 else k + 2;
            && Node(h, items', k) == Node(h, items, k') && Node(h, items', k + 1) == Node(h, items, l')
            && (Node(h, items, k') == Node(h, items, i) <==> k == i)
            && (i + 2 <= |items| ==> (Node(h, items, l') == Node(h, items, i + 2) <==> k == i))
  {
    var k', l' := if k <= i then k else k + 1, if k + 1 <= i then k + 1 else k + 2;
    NodesApart(h, items, k', i);
    if i + 2 <= |items| {
      NodesApart(h, items, l', i + 2);
    }
  }

  /** The last node once the i-th item is gone. */
  lemma LastNode(h: CacheItem, items: seq<CacheItem>, i: nat)
    requires Distinct(items) && h !in items && i < |items|
    ensures var items' := items[..i] + items[i + 1..];
            Node(h, items', |items'|) == Node(h, items, if i + 1 == |items| then i else |items|)
    ensures Node(h, items, |items|) == Node(h, items, i) <==> i == |items|
  {
    NodesApart(h, items, |items|, i);
  }

  /** Cut the last item off. */
  method CutLast(h: CacheItem, ghost items: seq<CacheItem>, ghost R: set<CacheItem>, item: CacheItem)
    returns (last: CacheItem)
    requires Chain(h, items, R) && items != [] && items[|items| - 1] == item
    modifies R`next
    ensures Chain(h, items[..|items| - 1], R) && last == Node(h, items, |items| - 1)
  {
    ghost var n := |items| - 1;
    assert Linked(h, items, R, n);
    label before:
    last := item.prev;
    last.next := null;
    forall k | 0 <= k < n
      ensures Linked(h, items[..n], R, k)
    {
      assert old@before(Linked(h, items, R, k));
      NodesApart(h, items, k, n);
    }
  }

  ghost function EntriesOf(items: seq<CacheItem>): (E: seq<Entry>)
    ensures |E| == |items| && forall k :: 0 <= k < |items| ==> E[k] == items[k].AsEntry()
  {
    seq(|items|, k requires 0 <= k < |items| => items[k].AsEntry())
  }

  lemma EntriesCons(item: CacheItem, items: seq<CacheItem>)
    ensures EntriesOf([item] + items) == [item.AsEntry()] + EntriesOf(items)
  {
  }

  lemma EntriesToFront(items: seq<CacheItem>, i: int)
    requires 0 <= i < |items|
    ensures EntriesOf([items[i]] + (items[..i] + items[i + 1..])) == ToFront(EntriesOf(items), i)
  {
  }

  class Cache {
    const head: CacheItem
    var tail: CacheItem
    var totalSize: nat

    /** The items from the head on, every node ever linked, and what was last stored for each URL. */
    ghost var items: seq<CacheItem>
    ghost var repr: set<CacheItem>
    ghost var store: map<string, string>

    ghost predicate Valid()
      reads this, repr
    {
      && Chain(head, items, repr) && tail == Node(head, items, |items|)
      && totalSize == Total(Entries()) <= MAX_CACHE_SIZE
      && Agrees(Entries(), store)
    }

    /** The contents of the list, most recently used first. */
    ghost function Entries(): seq<Entry>
      reads this`items
    {
      EntriesOf(items)
    }

    /** initCache. */
    constructor ()
      ensures Valid() && Entries() == [] && store == map[] && fresh(repr)
    {
      head := new CacheItem("", "", 0);
      tail := head;
      totalSize := 0;
      items, repr, store := [], {head}, map[];
    }

    /** moveToFront. */
    method MoveToFront(item: CacheItem, ghost i: nat)
      requires Valid() && i < |items| && items[i] == item && IsFirst(Entries(), i)
      modifies `tail, `items, repr`next, repr`prev
      ensures Valid() && Entries() == ToFront(old(Entries()), i)
    {
      hide Total, Agrees, ToFront, EntriesOf;
      assert Linked(head, items, repr, 0);
      NodesApart(head, items, i + 1, 1);
      EntriesToFront(items, i);
      ToFrontAgrees(Entries(), i, store);
      if item == head.next {
        assert items == [item] + (items[..i] + items[i + 1..]);
        return;
      }
      ghost var rest := items[..i] + items[i + 1..];
      LastNode(head, items, i);
      NodesApart(head, items, i + 1, |items|);
      Detach(head, items, repr, item, i);
      if item == tail {
        tail := item.prev;
      }
      Attach(rest, item);
      items := [item] + rest;
    }

    /** The second half of moveToFront: put a detached item back behind the head. */
    method Attach(ghost rest: seq<CacheItem>, item: CacheItem)
      requires Chain(head, rest, repr) && tail == Node(head, rest, |rest|)
      requires item in repr && item !in rest && item != head
      modifies `tail, repr`next, repr`prev
      ensures Chain(head, [item] + rest, repr) && tail == Node(head, [item] + rest, |rest| + 1)
    {
      NodesApart(head, rest, |rest|, 0);
      InsertFront(head, rest, repr, item);
      if tail == head {
        tail := item;
      }
    }

    /** findCacheItem: null stands for NULL.  A hit has the content that was last stored for the URL. */
    method Find(url: string) returns (item: CacheItem?)
      requires Valid()
      modifies `tail, `items, repr`next, repr`prev
      ensures Valid()
      ensures item == null <==> forall e :: e in old(Entries()) ==> e.url != url
      ensures item == null ==> Entries() == old(Entries())
      ensures item != null ==> item.url == url && url in store && item.content == store[url]
      ensures item != null ==>
                var E := old(Entries());
                exists i :: IsFirst(E, i) && E[i] == item.AsEntry() && Entries() == ToFront(E, i)
    {
      hide Total, ToFront;
      assert items != [] ==> Linked(head, items, repr, 0);
      item := head.next;
      ghost var i := 0;
      while item != null
        invariant 0 <= i <= |items|
        invariant if i == |items| then item == null else item == items[i]
        invariant forall j :: 0 <= j < i ==> items[j].url != url
        invariant unchanged(this) && unchanged(repr)
        decreases |items| - i
      {
        if item.url == url {
          assert IsFirst(Entries(), i);
          MoveToFront(item, i);
          return item;
        }
        assert i + 1 < |items| ==> Linked(head, items, repr, i + 1);
        item := item.next;
        i := i + 1;
      }
      return null;
    }

    /** removeOldestCacheItem. */
    method RemoveOldest()
      requires Valid()
      modifies `tail, `items, `totalSize, repr`next
      ensures Valid()
      ensures Entries() == if old(Entries()) == [] then [] else old(Entries())[..|old(Entries())| - 1]
    {
      hide Agrees;
      if tail == head {
        NodesApart(head, items, |items|, 0);
        return;
      }
      var oldest := tail;
      ghost var n := |items| - 1;
      PrefixAgrees(Entries(), n, store);
      assert EntriesOf(items[..n]) == Entries()[..n];
      tail := CutLast(head, items, repr, oldest);
      items := items[..n];
      totalSize := totalSize - oldest.size;
    }

    /** addCacheItem: an object that is too big is refused; otherwise the longest most recently used
        part of the list that leaves room stays, behind the new entry. */
    method Add(url: string, content: string, size: nat) returns (accepted: bool)
      requires Valid()
      modifies this, repr
      ensures Valid() && fresh(repr - old(repr))
      ensures accepted <==> size <= MAX_OBJECT_SIZE
      ensures !accepted ==> Entries() == old(Entries()) && store == old(store)
      ensures accepted ==> store == old(store)[url := content]
      ensures accepted ==>
                var E := old(Entries());
                exists k :: Keeps(E, size, k) && Entries() == [Entry(url, content, size)] + E[..k]
                            && Total(E[..k]) + size <= MAX_CACHE_SIZE
                            && (k < |E| ==> Total(E[..k + 1]) + size > MAX_CACHE_SIZE)
    {
      hide Agrees, Total;
      if size > MAX_OBJECT_SIZE {
        return false;
      }
      ghost var E := Entries();
      MakeRoom(size);
      ghost var k := |items|;
      assert Keeps(E, size, k);
      Insert(url, content, size);
      return true;
    }

    /** The eviction loop of addCacheItem. */
    method MakeRoom(size: nat)
      requires Valid() && size <= MAX_CACHE_SIZE
      modifies `tail, `items, `totalSize, repr`next
      ensures Valid() && totalSize + size <= MAX_CACHE_SIZE
      ensures Keeps(old(Entries()), size, |items|) && Entries() == old(Entries())[..|items|]
      ensures |items| < |old(Entries())| ==> Total(old(Entries())[..|items| + 1]) + size > MAX_CACHE_SIZE
    {
      hide Agrees, Total;
      ghost var E := Entries();
      assert E[..|E|] == E;
      while totalSize + size > MAX_CACHE_SIZE
        invariant Valid() && |items| <= |E| && Entries() == E[..|items|]
        invariant forall j :: |items| < j <= |E| ==> Total(E[..j]) + size > MAX_CACHE_SIZE
        decreases |items|
      {
        EmptyTotal(Entries());
        assert E[..|items|][..|items| - 1] == E[..|items| - 1];
        RemoveOldest();
      }
    }

    lemma EmptyTotal(E: seq<Entry>)
      ensures E == [] ==> Total(E) == 0
    {
    }

    /** The rest of addCacheItem: a new item in front. */
    method Insert(url: string, content: string, size: nat)
      requires Valid() && totalSize + size <= MAX_CACHE_SIZE
      modifies this, repr
      ensures Valid() && fresh(repr - old(repr))
      ensures store == old(store)[url := content]
      ensures Entries() == [Entry(url, content, size)] + old(Entries())
    {
      hide Agrees, Total, EntriesOf, Linked;
      var newItem := new CacheItem(url, content, size);
      ConsAgrees(newItem.AsEntry(), Entries(), store);
      ChainIn(head, items, repr, repr + {newItem});
      FrontIsEmpty();
      repr := repr + {newItem};
      if head.next == null {
        tail := newItem;
      }
      InsertFront(head, items, repr, newItem);
      EntriesCons(newItem, items);
      items := [newItem] + items;
      totalSize := totalSize + size;
      store := store[url := content];
    }

    lemma FrontIsEmpty()
      requires Valid()
      ensures head.next == null <==> items == []
    {
      assert items != [] ==> Linked(head, items, repr, 0);
    }
  }

  // ---------- Whole runs ----------

  datatype Request = Get(url: string) | Put(url: string, content: string, size: nat)

  datatype Reply = Miss | Hit(content: string) | Done

  /** A cache that never forgets: the content of the last accepted add for each URL. */
  ghost function Stored(requests: seq<Request>): map<string, string> {
    if requests == [] then map[] else
    var before := Stored(requests[..|requests| - 1]);
    match requests[|requests| - 1]
    case Get(_) => before
    case Put(url, content, size) => if size <= MAX_OBJECT_SIZE then before[url := content] else before
  }

  /** The reply may be a miss, but it is never stale. */
  ghost predicate Faithful(request: Request, before: map<string, string>, reply: Reply) {
    match request
    case Get(url) => reply == Miss || (url in before && reply == Hit(before[url]))
    case Put(_, _, _) => reply == Done
  }

  // ---------- What is kept ----------

  /** The index of the first entry for the URL, or |L|. */
  ghost function FirstAt(L: seq<Entry>, url: string): (i: nat)
    ensures i <= |L| && (i < |L| ==> IsFirst(L, i) && L[i].url == url)
    ensures forall j :: 0 <= j < i ==> L[j].url != url
  {
    if L == [] || L[0].url == url then 0 else
      var i := FirstAt(L[1..], url);
      assert forall j :: 0 < j < |L| ==> L[j] == L[1..][j - 1];
      i + 1
  }

  lemma FirstAtIs(L: seq<Entry>, url: string, i: nat)
    requires i < |L| && L[i].url == url && forall j :: 0 <= j < i ==> L[j].url != url
    ensures FirstAt(L, url) == i
  {
  }

  /** The sizes of the first entry for the URL and of all entries in front of it. */
  ghost function Depth(L: seq<Entry>, url: string): nat
    requires FirstAt(L, url) < |L|
  {
    Total(L[..FirstAt(L, url) + 1])
  }

  ghost predicate Within(L: seq<Entry>, url: string) {
    FirstAt(L, url) < |L| && Depth(L, url) <= MAX_CACHE_SIZE
  }

  /** One request to a list that never drops an entry: a new one goes in front, and so does the first
      one for a URL that is asked for, if it lies within the size of the cache. */
  ghost function Touched(L: seq<Entry>, request: Request): seq<Entry> {
    match request
    case Get(url) => if Within(L, url) then ToFront(L, FirstAt(L, url)) else L
    case Put(url, content, size) => if size <= MAX_OBJECT_SIZE then [Entry(url, content, size)] + L else L
  }

  ghost function Stack(requests: seq<Request>): seq<Entry> {
    if requests == [] then [] else Touched(Stack(requests[..|requests| - 1]), requests[|requests| - 1])
  }

  lemma StackNext(requests: seq<Request>, k: nat)
    requires k < |requests|
    ensures Stack(requests[..k + 1]) == Touched(Stack(requests[..k]), requests[k])
  {
    assert requests[..k + 1][..k] == requests[..k];
  }

  /** E is as much of the front of L as the cache has room for. */
  ghost predicate FrontOf(E: seq<Entry>, L: seq<Entry>) {
    && |E| <= |L| && E == L[..|E|] && Total(E) <= MAX_CACHE_SIZE
    && (|E| < |L| ==> Total(L[..|E| + 1]) > MAX_CACHE_SIZE)
  }

  lemma {:induction false} TotalGrows(L: seq<Entry>, i: nat, j: nat)
    requires i <= j <= |L|
    ensures Total(L[..i]) <= Total(L[..j])
  {
    if i < j {
      assert L[..j][..j - 1] == L[..j - 1];
      TotalGrows(L, i, j - 1);
    }
  }

  lemma InFront(E: seq<Entry>, L: seq<Entry>, url: string)
    requires FrontOf(E, L)
    ensures Within(L, url) <==> FirstAt(L, url) < |E|
  {
    hide Total, FirstAt;
    var i := FirstAt(L, url);
    if i < |E| {
      TotalGrows(L, i + 1, |E|);
    } else if i < |L| {
      TotalGrows(L, |E| + 1, i + 1);
    }
  }

  /** The cache has an entry for the URL exactly when the first one on the list lies within its size. */
  lemma FrontHits(E: seq<Entry>, L: seq<Entry>, url: string)
    requires FrontOf(E, L)
    ensures (exists e :: e in E && e.url == url) <==> Within(L, url)
    ensures Within(L, url) ==> FirstAt(L, url) < |E| && FirstAt(E, url) == FirstAt(L, url)
  {
    hide Total, Depth, Within;
    InFront(E, L, url);
    var i := FirstAt(L, url);
    if i < |E| {
      assert E[i] == L[i];
      FirstAtIs(E, url, i);
    }
  }

  lemma FrontAfterGet(E: seq<Entry>, L: seq<Entry>, url: string)
    requires FrontOf(E, L) && Within(L, url)
    ensures FirstAt(L, url) < |E| && FrontOf(ToFront(E, FirstAt(L, url)), Touched(L, Get(url)))
  {
    hide Total, ToFront, FirstAt;
    InFront(E, L, url);
    var i, n := FirstAt(L, url), |E|;
    PrefixToFront(L, i, n);
    if n < |L| {
      PrefixToFront(L, i, n + 1);
    }
  }

  lemma PrefixToFront(L: seq<Entry>, i: nat, n: nat)
    requires i < n <= |L|
    ensures |ToFront(L, i)| == |L| && |ToFront(L[..n], i)| == n
    ensures ToFront(L[..n], i) == ToFront(L, i)[..n] && Total(ToFront(L, i)[..n]) == Total(L[..n])
  {
    hide Total;
    ToFrontTotal(L[..n], i);
    assert ToFront(L[..n], i) == ToFront(L, i)[..n];
  }

  lemma FrontAfterPut(E: seq<Entry>, L: seq<Entry>, e: Entry, k: int)
    requires FrontOf(E, L) && Keeps(E, e.size, k)
    ensures FrontOf([e] + E[..k], [e] + L)
  {
    hide Total;
    TotalOne(e);
    TotalConcat([e], E[..k]);
    assert ([e] + L)[..k + 1] == [e] + E[..k];
    if k < |L| {
      assert ([e] + L)[..k + 2] == [e] + L[..k + 1];
      TotalConcat([e], L[..k + 1]);
      assert k < |E| ==> E[..k + 1] == L[..k + 1];
    }
  }

  /** What a request puts or moves in front of the first entry for the URL. */
  ghost function Charge(L: seq<Entry>, request: Request, url: string): nat {
    match request
    case Get(other) =>
      if Within(L, other) && FirstAt(L, url) < FirstAt(L, other) then L[FirstAt(L, other)].size else 0
    case Put(_, _, size) => if size <= MAX_OBJECT_SIZE then size else 0
  }

  /** A request for another URL, or a refused one, leaves the first entry for this URL the first, behind
      exactly what it puts or moves in front; asking for the URL itself brings its entry to the front. */
  lemma DepthStep(L: seq<Entry>, request: Request, url: string)
    requires FirstAt(L, url) < |L|
    requires request.Put? && request.url == url ==> request.size > MAX_OBJECT_SIZE
    ensures var L' := Touched(L, request);
            && FirstAt(L', url) < |L'| && L'[FirstAt(L', url)] == L[FirstAt(L, url)]
            && Depth(L', url) <= Depth(L, url) + Charge(L, request, url)
            && (request.url != url ==> Depth(L', url) == Depth(L, url) + Charge(L, request, url))
  {
    match request
    case Get(other) =>
      if Within(L, other) {
        DepthMove(L, FirstAt(L, other), url);
      }
    case Put(other, content, size) =>
      if size <= MAX_OBJECT_SIZE {
        DepthCons(Entry(other, content, size), L, url);
      }
  }

  lemma DepthCons(e: Entry, L: seq<Entry>, url: string)
    requires FirstAt(L, url) < |L| && e.url != url
    ensures FirstAt([e] + L, url) == FirstAt(L, url) + 1 && Depth([e] + L, url) == Depth(L, url) + e.size
  {
    hide Total, FirstAt;
    var p := FirstAt(L, url);
    FirstAtIs([e] + L, url, p + 1);
    assert ([e] + L)[..p + 2] == [e] + L[..p + 1];
    TotalConcat([e], L[..p + 1]);
    TotalOne(e);
  }

  lemma DepthMove(L: seq<Entry>, i: nat, url: string)
    requires FirstAt(L, url) < |L| && IsFirst(L, i)
    ensures var L', p := ToFront(L, i), FirstAt(L, url);
            && FirstAt(L', url) == (if i == p then 0 else if i < p then p else p + 1)
            && L'[FirstAt(L', url)] == L[p]
            && Depth(L', url) == (if i == p then L[p].size else Depth(L, url) + if i < p then 0 else L[i].size)
            && L[p].size <= Depth(L, url)
  {
    hide Total, FirstAt, ToFront;
    var L', p := ToFront(L, i), FirstAt(L, url);
    var p' := if i == p then 0 else if i < p then p else p + 1;
    forall k | 0 <= k <= p'
      ensures k < |L'| && L'[k] == L[if k == 0 then i else if k <= i then k - 1 else k]
    {
      ToFrontAt(L, i, k);
    }
    FirstAtIs(L', url, p');
    MovedTotals(L, i, p);
  }

  lemma MovedTotals(L: seq<Entry>, i: nat, p: nat)
    requires i < |L| && p < |L|
    ensures var L' := ToFront(L, i);
            && Total(L'[..1]) == L[i].size
            && (i < p ==> Total(L'[..p + 1]) == Total(L[..p + 1]))
            && (i > p ==> Total(L'[..p + 2]) == L[i].size + Total(L[..p + 1]))
            && L[p].size <= Total(L[..p + 1])
  {
    hide Total;
    var L' := ToFront(L, i);
    assert L[..p + 1] == L[..p] + [L[p]];
    TotalConcat(L[..p], [L[p]]);
    TotalOne(L[p]);
    TotalOne(L[i]);
    assert L'[..1] == [L[i]];
    if i < p {
      assert L'[..p + 1] == ToFront(L[..p + 1], i);
      ToFrontTotal(L[..p + 1], i);
    } else if i > p {
      assert L'[..p + 2] == [L[i]] + L[..p + 1];
      TotalConcat([L[i]], L[..p + 1]);
    }
  }

  /** What requests j to k - 1 put or move in front of the first entry for the URL. */
  ghost function Charges(requests: seq<Request>, j: nat, k: nat, url: string): nat
    requires j <= k <= |requests|
  {
    if j == k then 0 else
      Charges(requests, j, k - 1, url) + Charge(Stack(requests[..k - 1]), requests[k - 1], url)
  }

  /** The charges alone decide whether an object is found. */
  lemma FoundWhileItFits(requests: seq<Request>, j: nat, k: nat)
    requires j < k < |requests| && requests[j].Put? && requests[j].size <= MAX_OBJECT_SIZE
    requires forall m :: j < m < k ==> requests[m].url != requests[j].url
    ensures Within(Stack(requests[..k]), requests[j].url) <==>
            requests[j].size + Charges(requests, j + 1, k, requests[j].url) <= MAX_CACHE_SIZE
  {
    Retained(requests, j, k);
  }

  /** An accepted add is the first entry for its URL until the next one, at a depth of its size and what
      has come in front of it since, less what a hit of its own has undone. */
  lemma {:induction false} Retained(requests: seq<Request>, j: nat, k: nat)
    requires j < k <= |requests| && requests[j].Put? && requests[j].size <= MAX_OBJECT_SIZE
    requires forall m :: j < m < k && requests[m].Put? && requests[m].url == requests[j].url ==>
                           requests[m].size > MAX_OBJECT_SIZE
    ensures var L, url, size := Stack(requests[..k]), requests[j].url, requests[j].size;
            && FirstAt(L, url) < |L| && L[FirstAt(L, url)] == Entry(url, requests[j].content, size)
            && Depth(L, url) <= size + Charges(requests, j + 1, k, url)
            && ((forall m :: j < m < k ==> requests[m].url != url) ==>
                  Depth(L, url) == size + Charges(requests, j + 1, k, url))
  {
    hide Touched, Stack, FirstAt, Charge, Total, Depth;
    StackNext(requests, k - 1);
    if k == j + 1 {
      NewestFirst(Stack(requests[..j]), requests[j]);
    } else {
      Retained(requests, j, k - 1);
      DepthStep(Stack(requests[..k - 1]), requests[k - 1], requests[j].url);
    }
  }

  lemma NewestFirst(L: seq<Entry>, request: Request)
    requires request.Put? && request.size <= MAX_OBJECT_SIZE
    ensures var L' := Touched(L, request);
            && FirstAt(L', request.url) < |L'| && Depth(L', request.url) == request.size
            && L'[FirstAt(L', request.url)] == Entry(request.url, request.content, request.size)
  {
    var e := Entry(request.url, request.content, request.size);
    FirstAtIs([e] + L, request.url, 0);
    assert ([e] + L)[..1] == [e];
    TotalOne(e);
  }

  lemma StackNone(requests: seq<Request>, E: seq<Entry>)
    requires requests == [] && Agrees(E, map[])
    ensures E == [] && FrontOf(E, Stack(requests))
  {
    if E != [] {
      assert IsFirst(E, 0);
    }
  }

  lemma StoredNone(requests: seq<Request>)
    requires requests == []
    ensures Stored(requests) == map[]
  {
  }

  /** One request more, and the replies that are faithful to it. */
  lemma StoredNext(requests: seq<Request>, k: nat)
    requires k < |requests|
    ensures match requests[k]
            case Get(url) =>
              var S := Stored(requests[..k]);
              && Stored(requests[..k + 1]) == S
              && Faithful(requests[k], S, Miss)
              && forall c :: url in S && c == S[url] ==> Faithful(requests[k], S, Hit(c))
            case Put(url, content, size) =>
              var S := Stored(requests[..k]);
              && Stored(requests[..k + 1]) == (if size <= MAX_OBJECT_SIZE then S[url := content] else S)
              && Faithful(requests[k], S, Done)
  {
    assert requests[..k + 1][..k] == requests[..k];
  }

  /** A get hits exactly when the first entry for its URL, with all that has come in front of it, is
      within the size of the cache; and what it then returns is the content stored last. */
  method Serve(cache: Cache, requests: seq<Request>) returns (replies: seq<Reply>)
    requires cache.Valid() && cache.store == map[]
    modifies cache, cache.repr
    ensures cache.Valid() && |replies| == |requests|
    ensures forall k :: 0 <= k < |requests| ==> Faithful(requests[k], Stored(requests[..k]), replies[k])
    ensures forall k :: 0 <= k < |requests| && requests[k].Get? ==>
                          (replies[k].Hit? <==> Within(Stack(requests[..k]), requests[k].url))
    ensures forall k :: 0 <= k < |requests| && replies[k].Hit? ==>
                          && requests[k].Get? && requests[k].url in Stored(requests[..k])
                          && replies[k].content == Stored(requests[..k])[requests[k].url]
    ensures FrontOf(cache.Entries(), Stack(requests))
  {
    hide Cache.Valid, Faithful, Stored, Stack, Touched, Within, FrontOf, FirstAt, Keeps, ToFront, Agrees;
    replies := [];
    StoredNone(requests[..0]);
    EmptyAtFirst(cache, requests[..0]);
    for k := 0 to |requests|
      invariant cache.Valid() && cache.store == Stored(requests[..k]) && |replies| == k
      invariant fresh(cache.repr - old(cache.repr))
      invariant forall j :: 0 <= j < k ==> Faithful(requests[j], Stored(requests[..j]), replies[j])
      invariant forall j :: 0 <= j < k && requests[j].Get? ==>
                              (replies[j].Hit? <==> Within(Stack(requests[..j]), requests[j].url))
      invariant FrontOf(cache.Entries(), Stack(requests[..k]))
    {
      StoredNext(requests, k);
      StackNext(requests, k);
      ghost var E, L := cache.Entries(), Stack(requests[..k]);
      match requests[k] {
        case Get(url) =>
          var item := cache.Find(url);
          GetStep(E, L, url, cache.Entries(), item != null);
          replies := replies + [if item == null then Miss else Hit(item.content)];
        case Put(url, content, size) =>
          var accepted := cache.Add(url, content, size);
          PutStep(E, L, url, content, size, cache.Entries());
          replies := replies + [Done];
      }
    }
    assert requests[..|requests|] == requests;
    HitsMean(requests, replies);
  }

  lemma HitsMean(requests: seq<Request>, replies: seq<Reply>)
    requires |replies| == |requests|
    requires forall k :: 0 <= k < |requests| ==> Faithful(requests[k], Stored(requests[..k]), replies[k])
    ensures forall k :: 0 <= k < |requests| && replies[k].Hit? ==>
                          && requests[k].Get? && requests[k].url in Stored(requests[..k])
                          && replies[k].content == Stored(requests[..k])[requests[k].url]
  {
    hide Stored;
  }

  /** A URL has the content of its last accepted add. */
  lemma {:induction false} StoredMeans(requests: seq<Request>, url: string)
    ensures url in Stored(requests) <==> exists k :: LastAccepted(requests, url, k)
    ensures forall k :: LastAccepted(requests, url, k) ==>
                          url in Stored(requests) && Stored(requests)[url] == requests[k].content
  {
    if requests != [] {
      var n := |requests| - 1;
      if requests[n].Put? && requests[n].url == url && requests[n].size <= MAX_OBJECT_SIZE {
        assert LastAccepted(requests, url, n);
      } else {
        StoredMeans(requests[..n], url);
        assert forall k :: LastAccepted(requests, url, k) <==> LastAccepted(requests[..n], url, k);
      }
    }
  }

  ghost predicate LastAccepted(requests: seq<Request>, url: string, k: int) {
    && 0 <= k < |requests| && requests[k].Put? && requests[k].url == url && requests[k].size <= MAX_OBJECT_SIZE
    && forall j :: k < j < |requests| && requests[j].Put? && requests[j].url == url ==>
                     requests[j].size > MAX_OBJECT_SIZE
  }

  /** A URL is within reach exactly when its first entry and those in front of it fit together. */
  lemma WithinMeans(L: seq<Entry>, url: string)
    ensures Within(L, url) <==>
            exists i :: 0 <= i < |L| && L[i].url == url && (forall j :: 0 <= j < i ==> L[j].url != url)
                        && Total(L[..i + 1]) <= MAX_CACHE_SIZE
  {
    var i := FirstAt(L, url);
  }

  lemma EmptyAtFirst(cache: Cache, requests: seq<Request>)
    requires cache.Valid() && cache.store == map[] && requests == []
    ensures FrontOf(cache.Entries(), Stack(requests))
  {
    StackNone(requests, cache.Entries());
  }

  lemma GetStep(E: seq<Entry>, L: seq<Entry>, url: string, E': seq<Entry>, hit: bool)
    requires FrontOf(E, L) && (!hit <==> forall e :: e in E ==> e.url != url)
    requires if hit then exists i :: IsFirst(E, i) && E[i].url == url && E' == ToFront(E, i) else E' == E
    ensures (hit <==> Within(L, url)) && FrontOf(E', Touched(L, Get(url)))
  {
    hide FrontOf, Within, ToFront, FirstAt;
    FrontHits(E, L, url);
    if hit {
      var i :| IsFirst(E, i) && E[i].url == url && E' == ToFront(E, i);
      FirstAtIs(E, url, i);
      FrontAfterGet(E, L, url);
    }
  }

  lemma PutStep(E: seq<Entry>, L: seq<Entry>, url: string, content: string, size: nat, E': seq<Entry>)
    requires FrontOf(E, L)
    requires size > MAX_OBJECT_SIZE ==> E' == E
    requires size <= MAX_OBJECT_SIZE ==> exists k :: Keeps(E, size, k) && E' == [Entry(url, content, size)] + E[..k]
    ensures FrontOf(E', Touched(L, Put(url, content, size)))
  {
    hide FrontOf, Total;
    if size <= MAX_OBJECT_SIZE {
      var k :| Keeps(E, size, k) && E' == [Entry(url, content, size)] + E[..k];
      FrontAfterPut(E, L, Entry(url, content, size), k);
    }
  }

  lemma ChainIn(h: CacheItem, items: seq<CacheItem>, R: set<CacheItem>, R': set<CacheItem>)
    requires Chain(h, items, R) && R <= R'
    ensures Chain(h, items, R')
  {
    forall i | 0 <= i < |items|
      ensures Linked(h, items, R', i)
    {
      assert Linked(h, items, R, i);
    }
  }
}

/** The blink driver: a singly linked list whose nodes are the cells of a fixed array. A cell is free when its
    location is zero. Pointers are cell indices, and NULL is -1. */
module BlinkPool {
  import opened BlinkList

  const NULL := -1
  const BLANK := Entry(0, 0, 0, 0, 0, 0, 0)

  datatype Node = Node(entry: Entry, next: int)

  ghost predicate Used(pool: seq<Node>, c: int)
    requires 0 <= c < |pool|
  {
    pool[c].entry.location != 0
  }

  ghost function Next(nodes: seq<int>, i: int): int
    requires -1 <= i < |nodes|
  {
    if i + 1 < |nodes| then nodes[i + 1] else NULL
  }

  ghost predicate InPool(nodes: seq<int>) {
    forall i :: 0 <= i < |nodes| ==> 0 <= nodes[i] < POOL_SIZE
  }

  ghost predicate Linked(pool: seq<Node>, head: int, nodes: seq<int>)
    requires |pool| == POOL_SIZE && InPool(nodes)
  {
    head == Next(nodes, -1) && forall i :: 0 <= i < |nodes| ==> pool[nodes[i]].next == Next(nodes, i)
  }

  ghost predicate Distinct(nodes: seq<int>) {
    forall i, j :: 0 <= i < j < |nodes| ==> nodes[i] != nodes[j]
  }

  ghost predicate Covers(pool: seq<Node>, nodes: seq<int>)
    requires |pool| == POOL_SIZE
  {
    forall c :: 0 <= c < POOL_SIZE ==> (Used(pool, c) <==> c in nodes)
  }

  ghost predicate Typed(pool: seq<Node>) {
    forall c :: 0 <= c < |pool| ==> Words(pool[c].entry) && pool[c].entry.location < POOL_SIZE
  }

  /** From the head on, the next pointers run through `nodes`, which are distinct and exactly the used cells. */
  ghost predicate Chain(pool: seq<Node>, head: int, nodes: seq<int>) {
    && |pool| == POOL_SIZE && InPool(nodes) && Linked(pool, head, nodes)
    && Distinct(nodes) && Covers(pool, nodes) && Typed(pool)
  }

  /** The entries along the list. */
  ghost function Entries(pool: seq<Node>, nodes: seq<int>): (r: seq<Entry>)
    requires forall i :: 0 <= i < |nodes| ==> 0 <= nodes[i] < |pool|
    ensures |r| == |nodes|
  {
    seq(|nodes|, i requires 0 <= i < |nodes| => pool[nodes[i]].entry)
  }

  class Driver {
    const blinkArray: array<Node>
    var listHead: int
    ghost var nodes: seq<int>

    ghost const Repr: set<object> := {this, blinkArray}

    ghost predicate Valid()
      reads Repr
    {
      blinkArray.Length == POOL_SIZE && Chain(blinkArray[..], listHead, nodes)
    }

    ghost function List(): seq<Entry>
      requires Valid()
      reads Repr
    {
      Entries(blinkArray[..], nodes)
    }

    constructor ()
      ensures Valid() && fresh(Repr) && List() == []
    {
      blinkArray := new Node[POOL_SIZE](_ => Node(BLANK, NULL));
      listHead := NULL;
      nodes := [];
    }

    /** The lowest free cell. */
    method Malloc() returns (cell: int)
      requires blinkArray.Length == POOL_SIZE
      ensures cell == NULL ==> forall c :: 0 <= c < POOL_SIZE ==> Used(blinkArray[..], c)
      ensures cell != NULL ==> 0 <= cell < POOL_SIZE && !Used(blinkArray[..], cell)
      ensures cell != NULL ==> forall c :: 0 <= c < cell ==> Used(blinkArray[..], c)
    {
      var i := 0;
      while i < POOL_SIZE
        invariant 0 <= i <= POOL_SIZE
        invariant forall c :: 0 <= c < i ==> Used(blinkArray[..], c)
      {
        if blinkArray[i].entry.location == 0 {
          return i;
        }
        i := i + 1;
      }
      return NULL;
    }

    /** The first node on the list at the location given by the low 16 bits of `arg`. */
    method FindHelper(arg: int) returns (cell: int)
      requires Valid() && arg >= 0
      ensures var i := IndexAt(List(), arg % WORD);
        if i < |nodes| then cell == nodes[i] && 0 <= cell < POOL_SIZE else cell == NULL
    {
      hide Covers, Typed, Distinct, IndexAt;
      var ax := arg % WORD;
      cell := listHead;
      ghost var i := 0;
      while cell != NULL
        invariant 0 <= i <= |nodes| && cell == Next(nodes, i - 1)
        invariant i <= IndexAt(List(), ax)
        decreases |nodes| - i
      {
        assert List()[i] == blinkArray[cell].entry;
        if ax == blinkArray[cell].entry.location {
          return;
        }
        cell := blinkArray[cell].next;
        i := i + 1;
      }
    }

    /** A location on the screen other than zero keeps the pool and the list in agreement. Location zero is accepted
        as well, and then the new node is on the list although its cell counts as free. */
    method IoctlAdd(user: Entry) returns (r: int)
      requires Valid() && Words(user)
      modifies Repr
      ensures r == -1 || r == 0
      ensures r == -1 <==> user.location >= POOL_SIZE || |old(nodes)| == POOL_SIZE
      ensures r == -1 ==> Valid() && List() == old(List())
      ensures r == 0 ==> (Valid() <==> user.location != 0)
      ensures r == 0 && user.location != 0 ==> List() == AddList(old(List()), user)
      ensures r == 0 && user.location != 0 ==> FreeFrom(blinkArray[..], 0) + 1 == old(FreeFrom(blinkArray[..], 0))
      ensures r == 0 ==> 0 <= listHead < blinkArray.Length
      ensures r == 0 ==> blinkArray[..] == old(blinkArray[..])[listHead := Node(Started(user), old(listHead))]
    {
      FullWhenAllUsed(blinkArray[..], listHead, nodes);
      r := Prepend(user);
      if r == 0 && user.location != 0 {
        FullWhenAllUsed(blinkArray[..], listHead, nodes);
      }
    }

    method Prepend(user: Entry) returns (r: int)
      requires Valid() && Words(user)
      modifies Repr
      ensures r == -1 || r == 0
      ensures r == -1 <==> user.location >= POOL_SIZE || |old(nodes)| == POOL_SIZE
      ensures r == -1 ==> Valid() && List() == old(List())
      ensures r == 0 ==> (Valid() <==> user.location != 0)
      ensures r == 0 && user.location != 0 ==> List() == AddList(old(List()), user)
      ensures r == 0 ==> 0 <= listHead < blinkArray.Length
      ensures r == 0 ==> blinkArray[..] == old(blinkArray[..])[listHead := Node(Started(user), old(listHead))]
    {
      if user.location >= POOL_SIZE {
        return -1;
      }
      var entry := user.(status := 1);
      entry := entry.(countdown := entry.onLength);
      var cell := Malloc();
      FullWhenAllUsed(blinkArray[..], listHead, nodes);
      if cell == NULL {
        return -1;
      }
      hide Chain;
      AddKeepsChain(blinkArray[..], listHead, nodes, user, cell);
      blinkArray[cell] := Node(entry, NULL);
      blinkArray[cell] := blinkArray[cell].(next := listHead);
      assert blinkArray[..] == old(blinkArray[..])[cell := Node(Started(user), old(listHead))];
      listHead := cell;
      nodes := [cell] + nodes;
      return 0;
    }

    method Free(cell: int)
      requires blinkArray.Length == POOL_SIZE && 0 <= cell < POOL_SIZE
      modifies blinkArray
      ensures blinkArray[..] == old(blinkArray[..])[cell := Node(BLANK, NULL)]
    {
      blinkArray[cell] := Node(BLANK, NULL);
    }

    /** Takes the first node at the location off the list and frees its cell, and no other. */
    method IoctlRemove(arg: int) returns (r: int)
      requires Valid() && arg >= 0
      modifies Repr
      ensures Valid()
      ensures List() == RemoveList(old(List()), arg % WORD)
      ensures r == if IndexAt(old(List()), arg % WORD) < |old(nodes)| then 0 else -1
      ensures r == -1 || r == 0
      ensures r == 0 <==> exists i :: IsFirst(old(List()), arg % WORD, i)
      ensures forall i | IsFirst(old(List()), arg % WORD, i) :: List() == old(List())[..i] + old(List())[i + 1..]
      ensures r == -1 ==> blinkArray[..] == old(blinkArray[..]) && listHead == old(listHead)
      ensures FreeFrom(blinkArray[..], 0) == old(FreeFrom(blinkArray[..], 0)) + if r == 0 then 1 else 0
    {
      FirstIsIndex(List(), arg % WORD);
      RemoveMeaning(List(), arg % WORD);
      FullWhenAllUsed(blinkArray[..], listHead, nodes);
      r := Unlink(arg);
      FullWhenAllUsed(blinkArray[..], listHead, nodes);
    }

    method Unlink(arg: int) returns (r: int)
      requires Valid() && arg >= 0
      modifies Repr
      ensures Valid()
      ensures List() == RemoveList(old(List()), arg % WORD)
      ensures r == if IndexAt(old(List()), arg % WORD) < |old(nodes)| then 0 else -1
      ensures r == -1 ==> blinkArray[..] == old(blinkArray[..]) && listHead == old(listHead)
    {
      var cell := FindHelper(arg);
      if cell == NULL {
        return -1;
      }
      ghost var k := IndexAt(List(), arg % WORD);
      // the pointer that refers to the node: the list head, or the next field of `prev`
      var prev := NULL;
      ghost var i := 0;
      while (if prev == NULL then listHead else blinkArray[prev].next) != cell
        invariant 0 <= i <= k < |nodes|
        invariant prev == if i == 0 then NULL else nodes[i - 1]
        decreases k - i
      {
        prev := if prev == NULL then listHead else blinkArray[prev].next;
        i := i + 1;
      }
      assert i == k;
      RemoveKeepsChain(blinkArray[..], listHead, nodes, k);
      var next := blinkArray[cell].next;
      if prev == NULL {
        listHead := next;
      } else {
        blinkArray[prev] := blinkArray[prev].(next := next);
      }
      Free(cell);
      nodes := nodes[..k] + nodes[k + 1..];
      return 0;
    }

    /** Copies out the first node at the location. */
    method IoctlFind(location: int) returns (r: int, found: Node)
      requires Valid() && IsWord(location)
      ensures var i := IndexAt(List(), location);
        r == (if i < |nodes| then 0 else -1) && (i < |nodes| ==> found == blinkArray[nodes[i]])
    {
      hide Chain, IndexAt;
      assert location % WORD == location;
      var cell := FindHelper(location);
      if cell == NULL {
        return -1, Node(BLANK, NULL);
      }
      return 0, blinkArray[cell];
    }

    /** The upper half of `arg` is the source location, the lower half the target. */
    method IoctlSync(arg: int) returns (r: int)
      requires Valid() && 0 <= arg < WORD * WORD
      modifies blinkArray
      ensures Valid()
      ensures List() == SyncList(old(List()), arg / WORD, arg % WORD)
      ensures var list := old(List());
        r == if IndexAt(list, arg / WORD) < |nodes| && IndexAt(list, arg % WORD) < |nodes| then 0 else -1
    {
      hide IndexAt, Synced, Chain;
      assert (arg / WORD) % WORD == arg / WORD;
      var source := FindHelper(arg / WORD);
      if source == NULL {
        return -1;
      }
      var target := FindHelper(arg % WORD);
      if target == NULL {
        return -1;
      }
      SyncKeepsChain(blinkArray[..], listHead, nodes, arg / WORD, arg % WORD);
      CopyTiming(source, target);
      return 0;
    }

    method CopyTiming(source: int, target: int)
      requires 0 <= source < blinkArray.Length && 0 <= target < blinkArray.Length
      modifies blinkArray
      ensures blinkArray[..] == old(blinkArray[..])[target :=
        old(blinkArray[target]).(entry := Synced(old(blinkArray[source]).entry, old(blinkArray[target]).entry))]
    {
      var from := blinkArray[source].entry;
      blinkArray[target] := blinkArray[target].(entry := blinkArray[target].entry.(onLength := from.onLength));
      blinkArray[target] := blinkArray[target].(entry := blinkArray[target].entry.(offLength := from.offLength));
      blinkArray[target] := blinkArray[target].(entry := blinkArray[target].entry.(countdown := from.countdown));
      blinkArray[target] := blinkArray[target].(entry := blinkArray[target].entry.(status := from.status));
    }

    /** Every node on the list ticks once. */
    method RtcTasklet()
      requires Valid()
      modifies blinkArray
      ensures Valid()
      ensures List() == TickList(old(List()))
    {
      hide Covers, Typed, TickEntry, Words;
      ghost var before := blinkArray[..];
      var cell := listHead;
      ghost var i := 0;
      while cell != NULL
        invariant 0 <= i <= |nodes| && cell == Next(nodes, i - 1)
        invariant TickedTo(before, blinkArray[..], nodes, i)
        decreases |nodes| - i
      {
        TickCell(cell);
        assert TickedTo(before, blinkArray[..], nodes, i + 1);
        cell := blinkArray[cell].next;
        i := i + 1;
      }
      TickKeepsChain(before, blinkArray[..], listHead, nodes);
    }

    /** A request to the driver, or a timer tick. */
    method Perform(op: Op)
      requires Valid() && Proper(op)
      modifies Repr
      ensures Valid() && List() == Apply(old(List()), op)
    {
      hide IndexAt, SyncList, RemoveList, TickList, Chain;
      match op
      case Add(e) =>
        hide Words;
        var _ := IoctlAdd(e);
      case Remove(l) =>
        assert l % WORD == l;
        var _ := IoctlRemove(l);
      case Sync(s, t) =>
        assert (s * WORD + t) / WORD == s && (s * WORD + t) % WORD == t;
        var _ := IoctlSync(s * WORD + t);
      case Tick =>
        RtcTasklet();
    }

    /** Over every run of adds at nonzero locations, removes, syncs and ticks the chain of cells stays whole, and its
        entries are those of the list that runs alongside. */
    method PerformAll(ops: seq<Op>)
      requires Valid() && forall i :: 0 <= i < |ops| ==> Proper(ops[i])
      modifies Repr
      ensures Valid() && List() == Run(old(List()), ops)
    {
      hide Apply, Chain;
      var i := 0;
      while i < |ops|
        invariant 0 <= i <= |ops| && Valid() && List() == Run(old(List()), ops[..i])
      {
        assert ops[..i + 1][..i] == ops[..i];
        Perform(ops[i]);
        i := i + 1;
      }
      assert ops[..|ops|] == ops;
    }

    /** The body of the tasklet's loop. */
    method TickCell(cell: int)
      requires 0 <= cell < blinkArray.Length
      modifies blinkArray
      ensures blinkArray[..] == old(blinkArray[..])[cell := TickNode(old(blinkArray[cell]))]
    {
      var e := blinkArray[cell].entry;
      var c := Decrement(e.countdown);
      blinkArray[cell] := blinkArray[cell].(entry := e.(countdown := c));
      if !Positive(c) {
        var length := if e.status % 2 == 1 then e.offLength else e.onLength;
        blinkArray[cell] := blinkArray[cell].(entry := blinkArray[cell].entry.(countdown := length));
        blinkArray[cell] := blinkArray[cell].(entry := blinkArray[cell].entry.(status := Flip(e.status)));
      }
    }
  }

  // ----- the pool against the list -----

  function TickNode(n: Node): Node {
    n.(entry := TickEntry(n.entry))
  }

  /** The first `n` nodes of the list have ticked; the others, and the free cells, have not changed. */
  ghost predicate TickedTo(before: seq<Node>, after: seq<Node>, nodes: seq<int>, n: nat) {
    && |before| == |after| == POOL_SIZE && InPool(nodes)
    && (forall i :: 0 <= i < |nodes| ==>
          after[nodes[i]] == if i < n then TickNode(before[nodes[i]]) else before[nodes[i]])
    && (forall c :: 0 <= c < POOL_SIZE ==> after[c] == before[c] || after[c] == TickNode(before[c]))
  }

  lemma TickKeepsFields(e: Entry)
    requires Words(e)
    ensures Words(TickEntry(e)) && TickEntry(e).location == e.location
  {
  }

  lemma TickKeepsChain(pool: seq<Node>, r: seq<Node>, head: int, nodes: seq<int>)
    requires Chain(pool, head, nodes) && TickedTo(pool, r, nodes, |nodes|)
    ensures Chain(r, head, nodes)
    ensures Entries(r, nodes) == TickList(Entries(pool, nodes))
  {
    hide TickEntry, Words;
    forall c | 0 <= c < POOL_SIZE
      ensures r[c].next == pool[c].next && r[c].entry.location == pool[c].entry.location && Words(r[c].entry)
    {
      TickKeepsFields(pool[c].entry);
    }
    assert Linked(r, head, nodes);
    assert Covers(r, nodes) by {
      assert forall c :: 0 <= c < POOL_SIZE ==> (Used(r, c) <==> Used(pool, c));
    }
    assert Typed(r);
  }

  /** Changing an entry but not its location keeps the list. */
  lemma UpdateKeepsChain(pool: seq<Node>, head: int, nodes: seq<int>, j: nat, e: Entry)
    requires Chain(pool, head, nodes) && j < |nodes| && Words(e)
    requires e.location == pool[nodes[j]].entry.location
    ensures var r := pool[nodes[j] := pool[nodes[j]].(entry := e)];
      Chain(r, head, nodes) && Entries(r, nodes) == Entries(pool, nodes)[j := e]
  {
    var r := pool[nodes[j] := pool[nodes[j]].(entry := e)];
    assert Linked(r, head, nodes);
    assert Covers(r, nodes) by {
      assert forall c :: 0 <= c < POOL_SIZE ==> (Used(r, c) <==> Used(pool, c));
    }
    hide Linked, Covers;
    assert Typed(r);
    assert forall i :: 0 <= i < |nodes| && i != j ==> nodes[i] != nodes[j];
  }

  lemma SyncKeepsChain(pool: seq<Node>, head: int, nodes: seq<int>, source: int, target: int)
    requires Chain(pool, head, nodes)
    requires var list := Entries(pool, nodes); IndexAt(list, source) < |list| && IndexAt(list, target) < |list|
    ensures var list := Entries(pool, nodes); var s, t := nodes[IndexAt(list, source)], nodes[IndexAt(list, target)];
      && 0 <= s < POOL_SIZE && 0 <= t < POOL_SIZE
      && var r := pool[t := pool[t].(entry := Synced(pool[s].entry, pool[t].entry))];
      && Chain(r, head, nodes) && Entries(r, nodes) == SyncList(list, source, target)
  {
    hide IndexAt, Linked, Covers, Distinct;
    var list := Entries(pool, nodes);
    var i, j := IndexAt(list, source), IndexAt(list, target);
    UpdateKeepsChain(pool, head, nodes, j, Synced(list[i], list[j]));
  }

  lemma AddCovers(pool: seq<Node>, nodes: seq<int>, cell: int, node: Node)
    requires |pool| == POOL_SIZE && Covers(pool, nodes) && 0 <= cell < POOL_SIZE && !Used(pool, cell)
    ensures cell !in nodes
    ensures Covers(pool[cell := node], [cell] + nodes) <==> node.entry.location != 0
  {
    var r, longer := pool[cell := node], [cell] + nodes;
    assert forall c :: c in longer <==> c == cell || c in nodes;
    assert Used(r, cell) <==> node.entry.location != 0;
    assert forall c :: 0 <= c < POOL_SIZE && c != cell ==> (Used(r, c) <==> Used(pool, c));
  }

  lemma AddLinked(pool: seq<Node>, head: int, nodes: seq<int>, cell: int, node: Node)
    requires |pool| == POOL_SIZE && InPool(nodes) && Linked(pool, head, nodes)
    requires 0 <= cell < POOL_SIZE && cell !in nodes && node.next == head
    ensures InPool([cell] + nodes) && Linked(pool[cell := node], cell, [cell] + nodes)
    ensures Entries(pool[cell := node], [cell] + nodes) == [node.entry] + Entries(pool, nodes)
  {
    var r, longer := pool[cell := node], [cell] + nodes;
    forall i | 0 <= i < |longer| ensures r[longer[i]].next == Next(longer, i) {
      assert i > 0 ==> longer[i] == nodes[i - 1] && nodes[i - 1] in nodes;
    }
  }

  lemma AddKeepsChain(pool: seq<Node>, head: int, nodes: seq<int>, user: Entry, cell: int)
    requires Chain(pool, head, nodes) && Words(user) && user.location < POOL_SIZE
    requires 0 <= cell < POOL_SIZE && !Used(pool, cell) && |nodes| < POOL_SIZE
    ensures var r := pool[cell := Node(Started(user), head)];
      && (Chain(r, cell, [cell] + nodes) <==> user.location != 0)
      && (user.location != 0 ==> Entries(r, [cell] + nodes) == AddList(Entries(pool, nodes), user))
  {
    var node := Node(Started(user), head);
    AddCovers(pool, nodes, cell, node);
    AddLinked(pool, head, nodes, cell, node);
    assert Distinct([cell] + nodes) by {
      hide Linked, Covers, Typed;
      assert forall i :: 0 <= i < |nodes| ==> nodes[i] in nodes;
    }
    assert Typed(pool[cell := node]);
    hide Linked, Covers, Typed, Distinct;
  }

  lemma RemoveCovers(pool: seq<Node>, r: seq<Node>, nodes: seq<int>, k: nat)
    requires |pool| == |r| == POOL_SIZE && Covers(pool, nodes) && Distinct(nodes) && InPool(nodes) && k < |nodes|
    requires forall c :: 0 <= c < POOL_SIZE ==> r[c].entry == if c == nodes[k] then BLANK else pool[c].entry
    ensures Covers(r, nodes[..k] + nodes[k + 1..])
  {
    var shorter, cell := nodes[..k] + nodes[k + 1..], nodes[k];
    forall c | 0 <= c < POOL_SIZE ensures Used(r, c) <==> c in shorter {
      assert Used(r, c) <==> c != cell && Used(pool, c);
      if c in nodes && c != cell {
        var i :| 0 <= i < |nodes| && nodes[i] == c;
        assert shorter[if i < k then i else i - 1] == c;
      }
    }
  }

  lemma RemoveShortens(nodes: seq<int>, k: nat)
    requires Distinct(nodes) && InPool(nodes) && k < |nodes|
    ensures var shorter := nodes[..k] + nodes[k + 1..];
      && InPool(shorter) && Distinct(shorter)
      && forall i :: 0 <= i < |shorter| ==>
        && shorter[i] == (if i < k then nodes[i] else nodes[i + 1])
        && shorter[i] != nodes[k]
        && (k > 0 ==> (shorter[i] == nodes[k - 1] <==> i == k - 1))
  {
  }

  /** Every node but the `k`-th keeps its entry, and its link unless it points to the `k`-th. */
  ghost predicate Bypassed(pool: seq<Node>, r: seq<Node>, nodes: seq<int>, k: nat)
    requires |pool| == |r| == POOL_SIZE && InPool(nodes) && k < |nodes|
  {
    forall c :: 0 <= c < POOL_SIZE && c != nodes[k] ==>
      && r[c].entry == pool[c].entry
      && r[c].next == if k > 0 && c == nodes[k - 1] then pool[nodes[k]].next else pool[c].next
  }

  lemma RemoveEntries(pool: seq<Node>, r: seq<Node>, nodes: seq<int>, k: nat)
    requires |pool| == |r| == POOL_SIZE && Distinct(nodes) && InPool(nodes)
    requires k < |nodes| && Bypassed(pool, r, nodes, k)
    ensures var shorter := nodes[..k] + nodes[k + 1..];
      InPool(shorter) && Entries(r, shorter) == Entries(pool, nodes)[..k] + Entries(pool, nodes)[k + 1..]
  {
    RemoveShortens(nodes, k);
    hide Distinct;
    var shorter := nodes[..k] + nodes[k + 1..];
    forall i | 0 <= i < |shorter|
      ensures Entries(r, shorter)[i] == pool[if i < k then nodes[i] else nodes[i + 1]].entry
    {
      assert shorter[i] != nodes[k];
    }
  }

  lemma RemoveLinked(pool: seq<Node>, r: seq<Node>, head: int, nodes: seq<int>, k: nat)
    requires |pool| == |r| == POOL_SIZE && Distinct(nodes) && InPool(nodes)
    requires k < |nodes| && Bypassed(pool, r, nodes, k)
    requires Linked(pool, head, nodes)
    ensures var shorter := nodes[..k] + nodes[k + 1..];
      InPool(shorter) && Linked(r, if k == 0 then pool[nodes[k]].next else head, shorter)
  {
    RemoveShortens(nodes, k);
    hide Distinct;
    var shorter := nodes[..k] + nodes[k + 1..];
    forall i | 0 <= i < |shorter| ensures r[shorter[i]].next == Next(shorter, i) {
      var c := shorter[i];
      assert c != nodes[k];
      assert r[c].next == if k > 0 && c == nodes[k - 1] then pool[nodes[k]].next else pool[c].next;
      hide Bypassed;
    }
  }

  lemma RemoveKeepsChain(pool: seq<Node>, head: int, nodes: seq<int>, k: nat)
    requires Chain(pool, head, nodes) && k < |nodes|
    ensures var shorter := nodes[..k] + nodes[k + 1..]; var cell := nodes[k];
      var linked := if k == 0 then pool else pool[nodes[k - 1] := pool[nodes[k - 1]].(next := pool[cell].next)];
      var r := linked[cell := Node(BLANK, NULL)];
      && Chain(r, if k == 0 then pool[cell].next else head, shorter)
      && Entries(r, shorter) == Entries(pool, nodes)[..k] + Entries(pool, nodes)[k + 1..]
  {
    var cell := nodes[k];
    assert k > 0 ==> nodes[k - 1] != cell;
    var linked := if k == 0 then pool else pool[nodes[k - 1] := pool[nodes[k - 1]].(next := pool[cell].next)];
    var r := linked[cell := Node(BLANK, NULL)];
    assert Typed(r);
    RemoveCovers(pool, r, nodes, k);
    assert Bypassed(pool, r, nodes, k);
    RemoveShortens(nodes, k);
    RemoveLinked(pool, r, head, nodes, k);
    RemoveEntries(pool, r, nodes, k);
    hide Linked, Covers, Typed, Distinct, Bypassed;
  }

  ghost function Cells(nodes: seq<int>): set<int> {
    set c | c in nodes
  }

  lemma {:induction false} DistinctCells(nodes: seq<int>)
    requires Distinct(nodes)
    ensures |Cells(nodes)| == |nodes|
  {
    if nodes != [] {
      var n := |nodes| - 1;
      DistinctCells(nodes[..n]);
      assert Cells(nodes) == Cells(nodes[..n]) + {nodes[n]};
    }
  }

  /** The cells of the pool from `n` on that are free. */
  ghost function FreeFrom(pool: seq<Node>, n: nat): nat
    requires n <= |pool|
    decreases |pool| - n
  {
    if n == |pool| then 0 else FreeFrom(pool, n + 1) + if Used(pool, n) then 0 else 1
  }

  lemma {:induction false} UsedFrom(pool: seq<Node>, n: nat, used: set<int>)
    requires n <= |pool| && forall c :: c in used <==> n <= c < |pool| && Used(pool, c)
    ensures |used| + FreeFrom(pool, n) == |pool| - n
    ensures FreeFrom(pool, n) == 0 <==> forall c :: n <= c < |pool| ==> Used(pool, c)
    decreases |pool| - n
  {
    if n < |pool| {
      UsedFrom(pool, n + 1, used - {n});
      assert Used(pool, n) ==> used == (used - {n}) + {n};
    } else {
      assert forall c :: c !in used;
    }
  }

  /** Nodes and free cells together are the 2000 cells; in particular the pool is full exactly when the list has 2000
      nodes. */
  lemma FullWhenAllUsed(pool: seq<Node>, head: int, nodes: seq<int>)
    requires Chain(pool, head, nodes)
    ensures |nodes| + FreeFrom(pool, 0) == POOL_SIZE
    ensures |nodes| == POOL_SIZE <==> forall c :: 0 <= c < POOL_SIZE ==> Used(pool, c)
  {
    DistinctCells(nodes);
    assert forall c :: c in Cells(nodes) <==> 0 <= c < POOL_SIZE && Used(pool, c) by {
      assert forall c :: c in nodes ==> 0 <= c < POOL_SIZE;
    }
    UsedFrom(pool, 0, Cells(nodes));
  }

  /** Location zero: the next allocation hands out the same cell again, and its node then points to itself. */
  lemma ZeroLocationLoops(pool: seq<Node>, head: int, nodes: seq<int>, first: Entry, second: Entry, cell: int)
    requires Chain(pool, head, nodes) && Words(first) && first.location == 0
    requires 0 <= cell < POOL_SIZE && !Used(pool, cell) && forall c :: 0 <= c < cell ==> Used(pool, c)
    ensures var once := pool[cell := Node(Started(first), head)];
      && !Used(once, cell) && (forall c :: 0 <= c < cell ==> Used(once, c))
      && once[cell := Node(Started(second), cell)][cell].next == cell
  {
    var once := pool[cell := Node(Started(first), head)];
    assert forall c :: 0 <= c < cell ==> once[c] == pool[c] && Used(pool, c);
  }
}

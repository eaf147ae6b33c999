/** The blinking characters of the fish program: a linked list threaded through a fixed pool of
    slots, in which location 0 marks a free slot, and a countdown per node. */
module Blink {
  import opened Prelude
  import opened Division

  const POOL := 2000     // slots, and cells of the text screen
  const NIL := -1        // the null pointer; other pointers are slot numbers

  datatype Timer = Timer(onLength: int, offLength: int, countdown: int, status: int)
  datatype Node = Node(location: int, onChar: byte, offChar: byte, timer: Timer, next: int)

  // ---------- one timer ----------

  /** A 16-bit field read as a signed number is positive. */
  predicate Positive16(w: int) { 0 < w < 0x8000 }

  /** The low half of a register. */
  function Low16(w: int): int { w % 0x10000 }

  function Decremented(w: int): int { if w == 0 then 0xFFFF else w - 1 }

  function TickTimer(t: Timer): Timer {
    var c := Decremented(t.countdown);
    if Positive16(c) then t.(countdown := c)
    else if t.status == 1 then t.(countdown := t.offLength, status := 0)
    else t.(countdown := t.onLength, status := 1)
  }

  /** The timer of a node as it is added: on, with the whole on-time to go. */
  function Fresh(a: int, b: int): Timer { Timer(a, b, a, 1) }

  function Ticks(a: int, b: int, k: nat): Timer {
    if k == 0 then Fresh(a, b) else TickTimer(Ticks(a, b, k - 1))
  }

  /** How many ticks a 16-bit length lasts: 0 and the numbers that are negative after the first tick are
      over at once. */
  function Lasts(length: int): (n: int)
    ensures n >= 1
  {
    if 1 <= length <= 0x8000 then length else 1
  }

  /** The phase of a timer in closed form, for all 16-bit lengths. */
  lemma {:induction false} PhaseClosedForm(a: int, b: int, k: nat)
    requires 0 <= a < 0x10000 && 0 <= b < 0x10000
    ensures var t, n, r := Ticks(a, b, k), Lasts(a), k % (Lasts(a) + Lasts(b));
            && (t.status == 1 <==> r < n) && (t.status == 0 || t.status == 1)
            && t.countdown == (if r < n then a - r else b - (r - n))
            && t.onLength == a && t.offLength == b
  {
    var period := Lasts(a) + Lasts(b);
    if k == 0 {
      DivideBack(0, period, 0, 0);
    } else {
      PhaseClosedForm(a, b, k - 1);
      NextRemainder(k - 1, period);
      Quotient(k - 1, period);
    }
  }

  // ---------- the list in the pool ----------

  ghost predicate Slot(s: int) { 0 <= s < POOL }

  function NextOf(list: seq<int>, i: nat): int { if i + 1 < |list| then list[i + 1] else NIL }

  ghost predicate LinkAt(p: seq<Node>, list: seq<int>, i: nat) {
    i < |list| && Slot(list[i]) && list[i] < |p| && p[list[i]].next == NextOf(list, i)
  }

  /** `list` is the chain of slots from `head` through the next fields. */
  ghost predicate Linked(p: seq<Node>, head: int, list: seq<int>)
    requires |p| == POOL
  {
    && (forall i :: 0 <= i < |list| ==> Slot(list[i]))
    && head == (if list == [] then NIL else list[0])
    && (forall i :: 0 <= i < |list| ==> LinkAt(p, list, i))
  }

  ghost predicate Distinct(list: seq<int>) {
    forall i, j :: 0 <= i < j < |list| ==> list[i] != list[j]
  }

  /** The allocated slots are exactly the listed ones. */
  ghost predicate Allocated(p: seq<Node>, list: seq<int>)
    requires |p| == POOL
  {
    forall s :: 0 <= s < POOL ==> (s in list <==> p[s].location != 0)
  }

  /** Each listed node's timer has run undisturbed for its age. */
  ghost predicate InPhase(p: seq<Node>, list: seq<int>, age: map<int, nat>)
    requires |p| == POOL
  {
    forall s :: s in list ==>
      Slot(s) && s in age && 0 <= p[s].location < POOL
      && p[s].timer == Ticks(p[s].timer.onLength, p[s].timer.offLength, age[s])
  }

  ghost predicate GoodList(p: seq<Node>, head: int, list: seq<int>, age: map<int, nat>)
    requires |p| == POOL
  {
    Linked(p, head, list) && Distinct(list) && Allocated(p, list) && InPhase(p, list, age)
  }

  lemma PushKeepsGoodList(p: seq<Node>, head: int, list: seq<int>, age: map<int, nat>, s: int, n: Node)
    requires |p| == POOL && GoodList(p, head, list, age) && Slot(s) && p[s].location == 0
    requires n.next == head && 0 <= n.location < POOL && n.timer == Fresh(n.timer.onLength, n.timer.offLength)
    ensures n.location != 0 ==> GoodList(p[s := n], s, [s] + list, age[s := 0])
    ensures n.location == 0 ==> !Allocated(p[s := n], [s] + list)
  {
    assert s !in list;
    assert ([s] + list)[0] == s;
    if n.location != 0 {
      var p', l' := p[s := n], [s] + list;
      forall i | 0 <= i < |l'| ensures LinkAt(p', l', i) {
        if i > 0 { assert LinkAt(p, list, i - 1); }
      }
      assert n.timer == Ticks(n.timer.onLength, n.timer.offLength, 0);
    } else {
      assert s in [s] + list;
    }
  }

  function Without(list: seq<int>, i: nat): seq<int>
    requires i < |list|
  {
    list[..i] + list[i + 1..]
  }

  const FREE := Node(0, NUL, NUL, Timer(0, 0, 0, 0), NIL)

  lemma WithoutMembers(list: seq<int>, i: nat)
    requires i < |list| && Distinct(list)
    ensures Distinct(Without(list, i))
    ensures forall s :: s in Without(list, i) <==> s in list && s != list[i]
  {
    var l := Without(list, i);
    forall s ensures s in l <==> s in list && s != list[i] {
      if s in list && s != list[i] {
        var j :| 0 <= j < |list| && list[j] == s;
        assert l[if j < i then j else j - 1] == s;
      }
    }
  }

  /** The pool after unlinking the i-th listed slot and freeing it. */
  ghost predicate Unlinked(p: seq<Node>, list: seq<int>, i: nat, p': seq<Node>)
    requires |p| == |p'| == POOL && i < |list| && Slot(list[i])
  {
    forall s :: Slot(s) ==>
      p'[s] == if s == list[i] then FREE
               else if i > 0 && s == list[i - 1] then p[s].(next := p[list[i]].next) else p[s]
  }

  lemma LinksAfterRemove(p: seq<Node>, head: int, list: seq<int>, i: nat, p': seq<Node>, head': int)
    requires |p| == |p'| == POOL && Linked(p, head, list) && Distinct(list) && i < |list| && Unlinked(p, list, i, p')
    requires head' == if i == 0 then p[list[i]].next else head
    ensures Linked(p', head', Without(list, i))
  {
    var l := Without(list, i);
    assert LinkAt(p, list, i);
    forall j | 0 <= j < |l| ensures LinkAt(p', l, j) {
      var k := if j < i then j else j + 1;
      assert l[j] == list[k] && LinkAt(p, list, k);
      assert i > 0 && k != i - 1 ==> list[k] != list[i - 1];
    }
  }

  lemma RemoveKeepsGoodList(p: seq<Node>, head: int, list: seq<int>, age: map<int, nat>, i: nat, p': seq<Node>,
                            head': int)
    requires |p| == |p'| == POOL && GoodList(p, head, list, age) && i < |list| && Unlinked(p, list, i, p')
    requires head' == if i == 0 then p[list[i]].next else head
    ensures GoodList(p', head', Without(list, i), age)
  {
    LinksAfterRemove(p, head, list, i, p', head');
    WithoutMembers(list, i);
  }

  /** The listed nodes up to the i-th have ticked, no other slot has changed. */
  ghost predicate Ticked(p: seq<Node>, p': seq<Node>, list: seq<int>, i: nat)
    requires |p| == |p'| == POOL && i <= |list|
  {
    forall s :: Slot(s) ==> p'[s] == if s in list[..i] then p[s].(timer := TickTimer(p[s].timer)) else p[s]
  }

  lemma TickedOneMore(p: seq<Node>, p': seq<Node>, p'': seq<Node>, list: seq<int>, i: nat)
    requires |p| == |p'| == |p''| == POOL && i < |list| && Distinct(list) && Slot(list[i])
    requires Ticked(p, p', list, i)
    requires p'' == p'[list[i] := p'[list[i]].(timer := TickTimer(p'[list[i]].timer))]
    ensures p'[list[i]] == p[list[i]] && Ticked(p, p'', list, i + 1)
  {
    assert list[..i + 1] == list[..i] + [list[i]];
    assert list[i] !in list[..i];
  }

  /** A tick of every listed node, nothing else touched. */
  lemma TickKeepsGoodList(p: seq<Node>, head: int, list: seq<int>, age: map<int, nat>, p': seq<Node>)
    requires |p| == |p'| == POOL && GoodList(p, head, list, age)
    requires Ticked(p, p', list, |list|)
    ensures GoodList(p', head, list, Older(age))
  {
    assert list[..|list|] == list;
    forall i | 0 <= i < |list| ensures LinkAt(p', list, i) {
      assert LinkAt(p, list, i);
    }
    forall s | s in list
      ensures p'[s].timer == Ticks(p'[s].timer.onLength, p'[s].timer.offLength, Older(age)[s])
    {
      assert Slot(s) && p[s].timer == Ticks(p[s].timer.onLength, p[s].timer.offLength, age[s]);
    }
  }

  function Older(age: map<int, nat>): map<int, nat> { map s | s in age :: age[s] + 1 }

  /** Handing one listed node another's timer, and with it its age. */
  lemma SyncKeepsGoodList(p: seq<Node>, head: int, list: seq<int>, age: map<int, nat>, from: int, to: int)
    requires |p| == POOL && GoodList(p, head, list, age) && from in list && to in list && Slot(to) && Slot(from)
    ensures from in age
    ensures GoodList(p[to := p[to].(timer := p[from].timer)], head, list, age[to := age[from]])
  {
    var p' := p[to := p[to].(timer := p[from].timer)];
    forall i | 0 <= i < |list| ensures LinkAt(p', list, i) {
      assert LinkAt(p, list, i);
    }
  }

  // ---------- when the pool is full ----------

  /** The first n slot numbers. */
  ghost function Below(n: nat): (r: set<int>)
    ensures |r| == n && forall i :: i in r <==> 0 <= i < n
  {
    if n == 0 then {} else Below(n - 1) + {n - 1}
  }

  ghost function Members(list: seq<int>): set<int> { set s | s in list }

  lemma {:induction false} DistinctSize(list: seq<int>)
    requires Distinct(list)
    ensures |Members(list)| == |list|
  {
    if list != [] {
      var init, last := list[..|list| - 1], list[|list| - 1];
      DistinctSize(init);
      assert Members(list) == Members(init) + {last};
    }
  }

  lemma SameSize(a: set<int>, b: set<int>)
    requires a <= b
    ensures |a| <= |b| && (|a| == |b| <==> a == b)
  {
    assert b == a + (b - a);
    assert |b| == |a| + |b - a|;
  }

  /** Is there no slot left to allocate? */
  ghost predicate Full(p: seq<Node>)
    requires |p| == POOL
  {
    forall s :: Slot(s) ==> p[s].location != 0
  }

  lemma ListedSlots(p: seq<Node>, head: int, list: seq<int>)
    requires |p| == POOL && Linked(p, head, list) && Distinct(list)
    ensures Members(list) <= Below(POOL)
    ensures |list| <= POOL && (|list| == POOL <==> Members(list) == Below(POOL))
  {
    forall s | s in Members(list) ensures s in Below(POOL) {
      var i :| 0 <= i < |list| && list[i] == s;
      assert Slot(list[i]);
    }
    DistinctSize(list);
    SameSize(Members(list), Below(POOL));
  }

  lemma FullMeansAllListed(p: seq<Node>, list: seq<int>)
    requires |p| == POOL && Allocated(p, list) && Members(list) <= Below(POOL)
    ensures Full(p) <==> Members(list) == Below(POOL)
  {
    if Full(p) {
      forall s | s in Below(POOL) ensures s in Members(list) { assert Slot(s); }
    }
    if Members(list) == Below(POOL) {
      forall s | Slot(s) ensures p[s].location != 0 { assert s in Members(list); }
    }
  }

  /** No slot is free exactly when as many nodes are listed as there are slots. */
  lemma FullIffAllListed(p: seq<Node>, head: int, list: seq<int>, age: map<int, nat>)
    requires |p| == POOL && GoodList(p, head, list, age)
    ensures |list| <= 2000
    ensures Full(p) <==> |list| == 2000
  {
    ListedSlots(p, head, list);
    FullMeansAllListed(p, list);
  }

  /** The i-th listed node is the first one at that location. */
  ghost predicate FirstAt(p: seq<Node>, list: seq<int>, i: nat, location: int)
    requires |p| == POOL
  {
    && i < |list| && Slot(list[i]) && p[list[i]].location == location
    && forall j :: 0 <= j < i ==> Slot(list[j]) && p[list[j]].location != location
  }

  ghost predicate NoneAt(p: seq<Node>, list: seq<int>, location: int)
    requires |p| == POOL
  {
    forall s :: s in list && Slot(s) ==> p[s].location != location
  }

  // ---------- what stands on the screen ----------

  function Face(n: Node): byte { if n.timer.status == 1 then n.onChar else n.offChar }

  /** Every listed node's cell shows its current character. */
  ghost predicate AllShown(p: seq<Node>, list: seq<int>, video: seq<byte>)
    requires |p| == |video| == POOL
  {
    forall s :: s in list ==> Slot(s) && 0 <= p[s].location < POOL && video[p[s].location] == Face(p[s])
  }

  ghost predicate OneNodePerCell(p: seq<Node>, list: seq<int>)
    requires |p| == POOL
  {
    forall s, u :: s in list && u in list && Slot(s) && Slot(u) && s != u ==> p[s].location != p[u].location
  }

  /** Freeing a listed slot takes its character off no other cell. */
  lemma RemoveKeepsShown(p: seq<Node>, list: seq<int>, i: nat, p': seq<Node>, video: seq<byte>)
    requires |p| == |p'| == |video| == POOL && i < |list| && Slot(list[i]) && Distinct(list)
    requires Unlinked(p, list, i, p') && AllShown(p, list, video) && OneNodePerCell(p, list)
    ensures AllShown(p', Without(list, i), video) && OneNodePerCell(p', Without(list, i))
  {
    WithoutMembers(list, i);
    forall s | s in Without(list, i) && Slot(s)
      ensures p'[s].(next := NIL) == p[s].(next := NIL)
    {
    }
  }

  /** Ticking one listed node and redrawing its cell leaves all other cells right. */
  lemma OneTickKeepsShown(p: seq<Node>, list: seq<int>, video: seq<byte>, p': seq<Node>, video': seq<byte>, s: int)
    requires |p| == |p'| == |video| == |video'| == POOL && s in list && Slot(s)
    requires AllShown(p, list, video) && OneNodePerCell(p, list)
    requires p' == p[s := p[s].(timer := TickTimer(p[s].timer))]
    requires video' == video[p[s].location := Face(p'[s])]
    ensures AllShown(p', list, video') && OneNodePerCell(p', list)
  {
  }

  // ---------- the functions of blink.S and fish.c ----------

  class Blinker {
    const pool: array<Node>
    const video: array<byte>
    var head: int
    ghost var list: seq<int>
    ghost var age: map<int, nat>   // ticks since a listed node was added; a synced node takes over its source's

    ghost predicate Valid()
      reads this, pool
    {
      pool.Length == video.Length == POOL && GoodList(pool[..], head, list, age)
    }

    ghost predicate Shown()
      reads this, pool, video
      requires Valid()
    {
      AllShown(pool[..], list, video[..]) && OneNodePerCell(pool[..], list)
    }

    constructor ()
      ensures Valid() && Shown() && list == [] && fresh(pool) && fresh(video)
      ensures forall s :: Slot(s) ==> pool[s] == FREE
    {
      pool := new Node[POOL](_ => FREE);
      video := new byte[POOL](_ => SPACE);
      head, list, age := NIL, [], map[];
    }

    /** A listed node shows its on character exactly in the first part of its period, counted by its
        age, whatever has happened to other nodes since. */
    lemma PhaseOfListedNode(s: int)
      requires Valid() && s in list && Slot(s)
      requires 0 <= pool[s].timer.onLength < 0x10000 && 0 <= pool[s].timer.offLength < 0x10000
      ensures s in age
      ensures var on, off := Lasts(pool[s].timer.onLength), Lasts(pool[s].timer.offLength);
              && 0 <= pool[s].location < POOL
              && var c := if age[s] % (on + off) < on then pool[s].onChar else pool[s].offChar;
                 Face(pool[s]) == c && (Shown() ==> video[pool[s].location] == c)
    {
      assert pool[..][s] == pool[s];
      PhaseClosedForm(pool[s].timer.onLength, pool[s].timer.offLength, age[s]);
    }

    /** The first free slot of the pool. */
    method Malloc() returns (s: int)
      requires Valid()
      ensures s == NIL ==> Full(pool[..])
      ensures s != NIL ==> Slot(s) && pool[s].location == 0 && forall j :: 0 <= j < s ==> pool[j].location != 0
    {
      var i := 0;
      while i < POOL
        invariant 0 <= i <= POOL && forall j :: 0 <= j < i ==> pool[j].location != 0
      {
        if pool[i].location == 0 { return i; }
        i := i + 1;
      }
      return NIL;
    }

    /** `mp1_ioctl_add`.  `user` is the caller's structure; its countdown, status and next fields
        are not used.  The list survives exactly if the location is not the free mark. */
    method Add(user: Node) returns (r: int)
      requires Valid() && 0 <= user.location < 0x10000
      modifies this, pool, video
      ensures r == -1 <==> user.location >= 2000 || Full(old(pool[..]))
      ensures r == -1 || r == 0
      ensures r == -1 ==> Valid() && list == old(list) && pool[..] == old(pool[..]) && video[..] == old(video[..])
      ensures r == 0 ==> (Valid() <==> user.location != 0)
      ensures r == 0 && user.location != 0 ==>
                && list == [head] + old(list) && age == old(age)[head := 0]
                && Slot(head) && old(pool[..])[head].location == 0
                && (forall j :: 0 <= j < head ==> old(pool[..])[j].location != 0)
                && pool[..] == old(pool[..])[head := Node(user.location, user.onChar, user.offChar,
                                                          Fresh(user.timer.onLength, user.timer.offLength), old(head))]
                && video[..] == old(video[..])[user.location := user.onChar]
      ensures r == 0 && user.location != 0 && old(Shown()) ==>
                (Shown() <==> NoneAt(old(pool[..]), old(list), user.location))
    {
      if user.location >= POOL { return -1; }
      var node := user.(timer := user.timer.(status := 1, countdown := user.timer.onLength));
      var s := Malloc();
      if s == NIL { return -1; }
      ghost var p, oldHead, oldList, oldAge := pool[..], head, list, age;
      node := node.(next := head);
      pool[s] := node;
      head := s;
      list, age := [s] + list, age[s := 0];
      video[user.location] := user.onChar;
      PushKeepsGoodList(p, oldHead, oldList, oldAge, s, node);
      assert pool[..] == p[s := node];
      return 0;
    }

    /** `mp1_find_helper`: the first listed node at the location in the argument's low half. */
    method FindHelper(location: int) returns (s: int, ghost i: nat)
      requires Valid()
      ensures s == NIL ==> NoneAt(pool[..], list, location % 0x10000)
      ensures s != NIL ==> FirstAt(pool[..], list, i, location % 0x10000) && list[i] == s
    {
      s, i := head, 0;
      while s != NIL
        invariant i <= |list| && s == (if i < |list| then list[i] else NIL)
        invariant forall j :: 0 <= j < i ==> Slot(list[j]) && pool[list[j]].location != Low16(location)
        decreases |list| - i
      {
        assert LinkAt(pool[..], list, i);
        if pool[s].location == Low16(location) { return; }
        s := pool[s].next;
        i := i + 1;
      }
    }

    /** The walk from the head pointer to the pointer that points at slot s (NIL: the head itself). */
    method FindPrevious(s: int, ghost i: nat) returns (prev: int)
      requires Valid() && i < |list| && list[i] == s
      ensures prev == if i == 0 then NIL else list[i - 1]
    {
      prev := NIL;
      var at := head;
      ghost var k := 0;
      while at != s
        invariant 0 <= k <= i && at == list[k] && prev == (if k == 0 then NIL else list[k - 1])
        decreases i - k
      {
        assert LinkAt(pool[..], list, k);
        prev := at;
        at := pool[at].next;
        k := k + 1;
      }
    }

    /** `mp1_ioctl_remove`: unlinks the first node at the location in the argument's low
        half and frees its slot. */
    method Remove(location: int) returns (r: int, ghost i: nat)
      requires Valid()
      modifies this, pool
      ensures Valid() && (old(Shown()) ==> Shown())
      ensures r == if NoneAt(old(pool[..]), old(list), location % 0x10000) then -1 else 0
      ensures r == -1 ==> list == old(list) && pool[..] == old(pool[..])
      ensures r == 0 ==>
                && FirstAt(old(pool[..]), old(list), i, location % 0x10000)
                && list == Without(old(list), i) && age == old(age)
                && pool[old(list)[i]] == FREE
                && forall s :: Slot(s) && s != old(list)[i] ==> pool[s].(next := NIL) == old(pool[s]).(next := NIL)
    {
      var s;
      s, i := FindHelper(location);
      if s == NIL { return -1, i; }
      assert s in list;
      Unlink(s, i);
      return 0, i;
    }

    /** The pointer update of remove, and mp1_free. */
    method Unlink(s: int, ghost i: nat)
      requires Valid() && i < |list| && list[i] == s && Slot(s)
      modifies this`head, this`list, pool
      ensures Valid() && list == Without(old(list), i) && (old(Shown()) ==> Shown())
      ensures pool[s] == FREE
      ensures forall u :: Slot(u) && u != s ==> pool[u].(next := NIL) == old(pool[u]).(next := NIL)
    {
      ghost var p, oldHead := pool[..], head;
      var prev := FindPrevious(s, i);
      var next := pool[s].next;
      if prev == NIL {
        head := next;
      } else {
        pool[prev] := pool[prev].(next := next);
      }
      pool[s] := FREE;
      assert Unlinked(p, list, i, pool[..]);
      RemoveKeepsGoodList(p, oldHead, list, age, i, pool[..], head);
      if AllShown(p, list, video[..]) && OneNodePerCell(p, list) {
        RemoveKeepsShown(p, list, i, pool[..], video[..]);
      }
      list := Without(list, i);
    }

    /** `mp1_ioctl_find`: a copy of the first node at that location. */
    method Find(location: int) returns (r: int, copy: Node, ghost i: nat)
      requires Valid() && 0 <= location < 0x10000
      ensures r == if NoneAt(pool[..], list, location) then -1 else 0
      ensures r == 0 ==> FirstAt(pool[..], list, i, location) && copy == pool[list[i]]
    {
      var s;
      s, i := FindHelper(location);
      if s == NIL { return -1, FREE, i; }
      assert s in list;
      return 0, pool[s], i;
    }

    /** The b-th listed node takes over the timer of the a-th, and its off character is drawn. */
    method TakeOver(f: int, t: int, ghost a: nat, ghost b: nat)
      requires Valid() && a < |list| && b < |list| && f == list[a] && t == list[b] && Slot(f) && Slot(t)
      modifies this`age, pool, video
      ensures Valid()
      ensures pool[..] == old(pool[..])[t := old(pool[t]).(timer := old(pool[f]).timer)]
      ensures f in old(age) && age == old(age)[t := old(age)[f]]
      ensures 0 <= pool[t].location < POOL && video[..] == old(video[..])[pool[t].location := pool[t].offChar]
      ensures old(Shown()) ==> (Shown() <==> pool[t].timer.status != 1 || pool[t].onChar == pool[t].offChar)
    {
      assert f in list && t in list;
      ghost var p, v := pool[..], video[..];
      SyncKeepsGoodList(p, head, list, age, f, t);
      age := age[t := age[f]];
      pool[t] := pool[t].(timer := pool[f].timer);
      assert pool[..] == p[t := p[t].(timer := p[f].timer)];
      video[pool[t].location] := pool[t].offChar;
    }

    /** `mp1_ioctl_sync`, its argument's halves apart: the node at `to` takes over timer and phase of
        the node at `from`.  The code means to display the new face, but its conditional move tests
        the wrong flag and the off character always appears. */
    method Sync(from: int, to: int) returns (r: int, ghost a: nat, ghost b: nat)
      requires Valid() && 0 <= from < 0x10000 && 0 <= to < 0x10000
      modifies this, pool, video
      ensures Valid()
      ensures r == if NoneAt(old(pool[..]), list, from) || NoneAt(old(pool[..]), list, to) then -1 else 0
      ensures r == -1 ==> pool[..] == old(pool[..]) && video[..] == old(video[..])
      ensures r == -1 ==> list == old(list) && age == old(age)
      ensures r == 0 ==>
                && list == old(list) && FirstAt(old(pool[..]), list, a, from) && FirstAt(old(pool[..]), list, b, to)
                && pool[..] == old(pool[..])[list[b] := old(pool[list[b]]).(timer := old(pool[list[a]]).timer)]
                && list[a] in old(age) && age == old(age)[list[b] := old(age)[list[a]]]
                && 0 <= to < POOL && video[..] == old(video[..])[to := pool[list[b]].offChar]
      ensures r == 0 && old(Shown()) ==>
                (Shown() <==> pool[list[b]].timer.status != 1 || pool[list[b]].onChar == pool[list[b]].offChar)
    {
      var f, t;
      f, a := FindHelper(from);
      b := 0;
      if f == NIL { return -1, a, b; }
      t, b := FindHelper(to);
      if t == NIL { return -1, a, b; }
      TakeOver(f, t, a, b);
      return 0, a, b;
    }

    /** The smallest case: a node that is on, synchronised with itself, stays as it is but stands on
        the screen with its off character. */
    static method SyncShowsWrongFace() returns (b: Blinker, before: seq<byte>)
      ensures fresh(b) && b.Valid() && |before| == POOL
      ensures AllShown(b.pool[..], b.list, before) && !AllShown(b.pool[..], b.list, b.video[..])
    {
      b := new Blinker();
      assert Slot(0) && b.pool[..][0].location == 0;
      var r := b.Add(Node(1, 65, 66, Timer(1, 1, 0, 0), NIL));
      assert b.list == [b.head] && b.pool[..][b.head].location == 1;
      before := b.video[..];
      ghost var i, j;
      r, i, j := b.Sync(1, 1);
    }

    /** The screen is right as far as the list goes; ages are of no interest. */
    ghost predicate CellsRight()
      reads this, pool, video
    {
      pool.Length == video.Length == POOL && AllShown(pool[..], list, video[..]) && OneNodePerCell(pool[..], list)
    }

    /** `mp1_rtc_tasklet`: one clock tick for every listed node, in list order. */
    method Tick()
      requires Valid()
      modifies this`age, pool, video
      ensures Valid() && age == Older(old(age))
      ensures Ticked(old(pool[..]), pool[..], list, |list|)
      ensures old(Shown()) ==> Shown()
    {
      ghost var p := pool[..];
      TickNodes();
      TickKeepsGoodList(p, head, list, age, pool[..]);
      age := Older(age);
    }

    /** The loop of the tasklet. */
    method TickNodes()
      requires Valid()
      modifies pool, video
      ensures Ticked(old(pool[..]), pool[..], list, |list|)
      ensures old(CellsRight()) ==> CellsRight()
    {
      ghost var p := pool[..];
      var s := head;
      ghost var i := 0;
      while s != NIL
        invariant 0 <= i <= |list| && s == (if i < |list| then list[i] else NIL)
        invariant Ticked(p, pool[..], list, i)
        invariant old(CellsRight()) ==> CellsRight()
        decreases |list| - i
      {
        TickListed(p, s, i);
        s := pool[s].next;
        i := i + 1;
      }
    }

    /** One turn of the tasklet's loop: the i-th listed node ticks. */
    method TickListed(ghost p: seq<Node>, s: int, ghost i: nat)
      requires |p| == pool.Length == video.Length == POOL && Linked(p, head, list) && Distinct(list)
      requires i < |list| && s == list[i] && Slot(s) && Ticked(p, pool[..], list, i) && 0 <= p[s].location < POOL
      modifies pool, video
      ensures Ticked(p, pool[..], list, i + 1) && pool[s].next == NextOf(list, i)
      ensures old(CellsRight()) ==> CellsRight()
    {
      assert LinkAt(p, list, i) && s in list;
      ghost var p', v' := pool[..], video[..];
      assert p'[s] == p[s] by { TickedOneMore(p, p', p'[s := p'[s].(timer := TickTimer(p'[s].timer))], list, i); }
      TickNode(s);
      TickedOneMore(p, p', pool[..], list, i);
      if AllShown(p', list, v') && OneNodePerCell(p', list) {
        OneTickKeepsShown(p', list, v', pool[..], video[..], s);
      }
    }

    /** The body of the tasklet's loop, for one node. */
    method TickNode(s: int)
      requires pool.Length == video.Length == POOL && Slot(s) && 0 <= pool[s].location < POOL
      modifies pool, video
      ensures pool[..] == old(pool[..])[s := old(pool[s]).(timer := TickTimer(old(pool[s]).timer))]
      ensures video[..] == old(video[..]) || video[..] == old(video[..])[pool[s].location := Face(pool[s])]
      ensures old(video[pool[s].location]) == old(Face(pool[s])) ==>
                video[..] == old(video[..])[pool[s].location := Face(pool[s])]
    {
      var t := pool[s].timer;
      pool[s] := pool[s].(timer := t.(countdown := Decremented(t.countdown)));
      if Positive16(pool[s].timer.countdown) { return; }
      if t.status == 1 {
        video[pool[s].location] := pool[s].offChar;
        pool[s] := pool[s].(timer := pool[s].timer.(countdown := t.offLength, status := 0));
      } else {
        video[pool[s].location] := pool[s].onChar;
        pool[s] := pool[s].(timer := pool[s].timer.(countdown := t.onLength, status := 1));
      }
    }
  }
}

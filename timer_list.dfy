/** The ascending timer list of timer/lst_timer.h: an intrusive doubly linked
    list of util_timer objects kept in ascending order of `expire`.

    The heap of util_timer objects is an arena `nodes` from timer ids to the
    objects' fields; `prev` and `next` are ids. The ghost sequence `order`
    lists the ids from head to tail. The operations are stated against pure
    functions on the sequence of entries the list holds (`View`), and the
    properties the list promises (ascending order, where a timer lands,
    which timers a tick evicts) are lemmas about those functions. */
module TimerList {
  import opened Common

  type TimerId = nat

  /** What one util_timer contributes to the list: its identity, its expiry
      time and the connection handle its callback is given (user_data). */
  datatype Entry = Entry(id: TimerId, expire: int, client: int)

  predicate Sorted(v: seq<Entry>)
  {
    forall i, j :: 0 <= i < j < |v| ==> v[i].expire <= v[j].expire
  }

  /** Length of the longest prefix of `v` whose entries expire no later than `x`. */
  function PrefixAtMost(v: seq<Entry>, x: int): (k: nat)
    ensures k <= |v|
    ensures forall j :: 0 <= j < k ==> v[j].expire <= x
    ensures k < |v| ==> x < v[k].expire
  {
    if v == [] || x < v[0].expire then 0 else 1 + PrefixAtMost(v[1..], x)
  }

  /** Where the private add_timer(timer, lst_head) splices a timer with expiry
      `x` when lst_head is v[start]: before the first later entry that expires
      strictly after `x`, or at the end. */
  function InsertPos(v: seq<Entry>, start: nat, x: int): (k: nat)
    requires start < |v|
    ensures start < k <= |v|
    ensures forall j :: start < j < k ==> v[j].expire <= x
    ensures k < |v| ==> x < v[k].expire
    decreases |v| - start
  {
    if start + 1 == |v| then |v|
    else if x < v[start + 1].expire then start + 1
    else InsertPos(v, start + 1, x)
  }

  /** The private add_timer(timer, lst_head) with lst_head at index `start`:
      the walk starts after lst_head, so lst_head and the timers before it
      keep their places. */
  function InsertAfter(v: seq<Entry>, start: nat, e: Entry): (r: seq<Entry>)
    requires start < |v|
    ensures |r| == |v| + 1 && r[..start + 1] == v[..start + 1]
  {
    var k := InsertPos(v, start, e.expire);
    v[..k] + [e] + v[k..]
  }

  /** The public add_timer(timer): the timer becomes the head of an empty
      list or when it expires before the head; otherwise the head stays. */
  function Insert(v: seq<Entry>, e: Entry): (r: seq<Entry>)
    ensures |r| == |v| + 1
    ensures v == [] || e.expire < v[0].expire ==> r[0] == e
    ensures v != [] && v[0].expire <= e.expire ==> r[0] == v[0]
  {
    if v == [] then [e]
    else if e.expire < v[0].expire then [e] + v
    else InsertAfter(v, 0, e)
  }

  /** del_timer on the entry at index `i`. */
  function Remove(v: seq<Entry>, i: nat): (r: seq<Entry>)
    requires i < |v|
    ensures |r| == |v| - 1
    ensures forall j :: 0 <= j < i ==> r[j] == v[j]
    ensures forall j :: i <= j < |r| ==> r[j] == v[j + 1]
  {
    v[..i] + v[i + 1..]
  }

  /** adjust_timer on the entry at index `i`, whose expiry has been changed:
      the timer only ever moves towards the tail, so the timers before it
      keep their places, and it stays put while it expires before its
      successor. */
  function Adjust(v: seq<Entry>, i: nat): (r: seq<Entry>)
    requires i < |v|
    ensures |r| == |v| && r[..i] == v[..i]
    ensures i + 1 == |v| || v[i].expire < v[i + 1].expire ==> r == v
  {
    if i + 1 == |v| || v[i].expire < v[i + 1].expire then v
    else InsertAfter(Remove(v, i), i, v[i])
  }

  /** The state a caller of adjust_timer leaves when it refreshes a deadline:
      the list was in order and the entry at `i` has only had its expiry
      raised, so it is still no earlier than any entry before it. */
  predicate RaisedAt(v: seq<Entry>, i: nat)
    requires i < |v|
  {
    Sorted(Remove(v, i)) && forall j :: 0 <= j < i ==> v[j].expire <= v[i].expire
  }

  // ---------------------------------------------------------------------
  // Properties of the list operations.

  /** Wherever add_timer is called, it puts the new entry before the first
      entry that expires strictly later than it, so a timer goes after the
      entries with an equal expiry; lst_head plays no part in the result. */
  lemma {:induction false} InsertSplicesBeforeFirstLater(v: seq<Entry>, e: Entry)
    ensures Insert(v, e) == v[..PrefixAtMost(v, e.expire)] + [e] + v[PrefixAtMost(v, e.expire)..]
  {
    if v != [] && e.expire >= v[0].expire {
      InsertPosIsPrefix(v, 0, e.expire);
    }
  }

  lemma {:induction false} InsertPosIsPrefix(v: seq<Entry>, start: nat, x: int)
    requires start < |v|
    requires forall j :: 0 <= j <= start ==> v[j].expire <= x
    ensures InsertPos(v, start, x) == PrefixAtMost(v, x)
    decreases |v| - start
  {
    PrefixAtMostExact(v, x, InsertPos(v, start, x));
  }

  /** The prefix length is pinned down by its two defining facts. */
  lemma {:induction false} PrefixAtMostExact(v: seq<Entry>, x: int, k: nat)
    requires k <= |v|
    requires forall j :: 0 <= j < k ==> v[j].expire <= x
    requires k < |v| ==> x < v[k].expire
    ensures PrefixAtMost(v, x) == k
  {
    if k > 0 {
      PrefixAtMostExact(v[1..], x, k - 1);
    }
  }

  /** add_timer keeps the list in ascending order and adds exactly one entry. */
  lemma InsertKeepsSorted(v: seq<Entry>, e: Entry)
    requires Sorted(v)
    ensures Sorted(Insert(v, e))
    ensures multiset(Insert(v, e)) == multiset(v) + multiset{e}
  {
    InsertSplicesBeforeFirstLater(v, e);
    var k := PrefixAtMost(v, e.expire);
    var r := Insert(v, e);
    assert r == v[..k] + [e] + v[k..];
    SplicedSorted(v, k, e);
  }

  /** Putting `e` between a prefix that expires no later than it and a suffix
      that expires later keeps a sorted sequence sorted. */
  lemma SplicedSorted(v: seq<Entry>, k: nat, e: Entry)
    requires k <= |v| && Sorted(v)
    requires forall j :: 0 <= j < k ==> v[j].expire <= e.expire
    requires k < |v| ==> e.expire < v[k].expire
    ensures Sorted(v[..k] + [e] + v[k..])
    ensures multiset(v[..k] + [e] + v[k..]) == multiset(v) + multiset{e}
  {
    var r := v[..k] + [e] + v[k..];
    forall i, j | 0 <= i < j < |r| ensures r[i].expire <= r[j].expire {
      if i == k {
        assert r[j] == v[j - 1];
        assert e.expire < v[k].expire <= v[j - 1].expire;
      } else if j == k {
        assert r[i] == v[i];
      } else {
        assert r[i] == (if i < k then v[i] else v[i - 1]);
        assert r[j] == (if j < k then v[j] else v[j - 1]);
      }
    }
    SplicedMultiset(v, k, e);
  }

  lemma SplicedMultiset<T>(v: seq<T>, k: nat, e: T)
    requires k <= |v|
    ensures multiset(v[..k] + [e] + v[k..]) == multiset(v) + multiset{e}
  {
    assert v == v[..k] + v[k..];
  }

  /** The private add_timer(timer, lst_head) leaves the list in order when the
      new entry expires no earlier than lst_head and everything before it. */
  lemma InsertAfterKeepsSorted(v: seq<Entry>, start: nat, e: Entry)
    requires start < |v| && Sorted(v)
    requires forall j :: 0 <= j <= start ==> v[j].expire <= e.expire
    ensures Sorted(InsertAfter(v, start, e))
    ensures multiset(InsertAfter(v, start, e)) == multiset(v) + multiset{e}
  {
    var k := InsertPos(v, start, e.expire);
    SplicedSorted(v, k, e);
  }

  /** del_timer keeps the others in their relative order, so the list stays sorted. */
  lemma RemoveKeepsSorted(v: seq<Entry>, i: nat)
    requires i < |v| && Sorted(v)
    ensures Sorted(Remove(v, i))
    ensures multiset(Remove(v, i)) + multiset{v[i]} == multiset(v)
  {
    assert v == v[..i] + [v[i]] + v[i + 1..];
  }

  /** adjust_timer moves the timer and changes nothing else: the same entries
      remain, and after a raise of the timer's expiry the list is in order again. */
  lemma AdjustKeepsEntriesAndOrder(v: seq<Entry>, i: nat)
    requires i < |v|
    ensures multiset(Adjust(v, i)) == multiset(v)
    ensures RaisedAt(v, i) ==> Sorted(Adjust(v, i))
  {
    var w := Remove(v, i);
    RemoveMultiset(v, i);
    if i + 1 == |v| || v[i].expire < v[i + 1].expire {
      if RaisedAt(v, i) {
        StaysInPlaceSorted(v, i);
      }
    } else {
      var k := InsertPos(w, i, v[i].expire);
      SplicedMultiset(w, k, v[i]);
      if RaisedAt(v, i) {
        forall j | 0 <= j <= i ensures w[j].expire <= v[i].expire {
          if j < i { assert w[j] == v[j]; } else { assert w[i] == v[i + 1]; }
        }
        InsertAfterKeepsSorted(w, i, v[i]);
      }
    }
  }

  /** When the adjusted entry expires no earlier than its successor,
      adjust_timer removes it and re-inserts it from the successor on. */
  lemma AdjustReinserts(v: seq<Entry>, i: nat)
    requires i + 1 < |v| && v[i + 1].expire <= v[i].expire
    ensures Adjust(v, i) == InsertAfter(Remove(v, i), i, v[i])
  {
  }

  lemma RemoveMultiset(v: seq<Entry>, i: nat)
    requires i < |v|
    ensures multiset(Remove(v, i)) + multiset{v[i]} == multiset(v)
  {
    assert v == v[..i] + [v[i]] + v[i + 1..];
  }

  /** A raised entry that still expires before its successor leaves the list sorted. */
  lemma StaysInPlaceSorted(v: seq<Entry>, i: nat)
    requires i < |v| && RaisedAt(v, i)
    requires i + 1 == |v| || v[i].expire < v[i + 1].expire
    ensures Sorted(v)
  {
    var w := Remove(v, i);
    forall a, b | 0 <= a < b < |v| ensures v[a].expire <= v[b].expire {
      if a != i && b != i {
        assert v[a] == w[if a < i then a else a - 1];
        assert v[b] == w[if b < i then b else b - 1];
      } else if a == i {
        assert v[i + 1] == w[i];
        assert b == i + 1 || v[b] == w[b - 1];
      }
    }
  }

  /** tick(cur) evicts exactly the longest prefix whose expiry has passed; in
      a sorted list every entry left behind expires after `cur`, and what is
      left is still sorted. */
  lemma TickLeavesLaterEntries(v: seq<Entry>, cur: int)
    requires Sorted(v)
    ensures Sorted(v[PrefixAtMost(v, cur)..])
    ensures forall j :: PrefixAtMost(v, cur) <= j < |v| ==> cur < v[j].expire
  {
    var k := PrefixAtMost(v, cur);
    if k < |v| {
      forall j | k <= j < |v| ensures cur < v[j].expire {
        assert v[k].expire <= v[j].expire;
      }
    }
  }

  // ---------------------------------------------------------------------
  // The arena of util_timer objects.

  /** The fields of one util_timer. */
  datatype TimerNode = TimerNode(expire: int, client: int, prev: Option<TimerId>, next: Option<TimerId>)

  function EntryOf(id: TimerId, n: TimerNode): Entry
  {
    Entry(id, n.expire, n.client)
  }

  /** The expiry and user_data of every allocated timer. */
  function Payload(nodes: map<TimerId, TimerNode>): map<TimerId, (int, int)>
  {
    map id | id in nodes :: (nodes[id].expire, nodes[id].client)
  }

  /** The timers the entries stand for. */
  function Ids(v: seq<Entry>): set<TimerId>
  {
    set e | e in v :: e.id
  }

  /** The user_data of each entry, in list order. */
  function Clients(v: seq<Entry>): (r: seq<int>)
    ensures |r| == |v| && forall k :: 0 <= k < |v| ==> r[k] == v[k].client
  {
    seq(|v|, k requires 0 <= k < |v| => v[k].client)
  }

  /** Indices `i` and `j` of `order` hold different timers. */
  ghost predicate Apart(order: seq<TimerId>, i: int, j: int)
  {
    0 <= i < |order| && 0 <= j < |order| && order[i] != order[j]
  }

  /** No timer is listed twice. */
  ghost predicate NoDup(order: seq<TimerId>)
  {
    forall i, j :: 0 <= i < j < |order| ==> Apart(order, i, j)
  }

  /** The node at index `i` of `order` links back to its predecessor and on to
      its successor (NULL at either end). */
  ghost predicate LinkOk(order: seq<TimerId>, nodes: map<TimerId, TimerNode>, i: int)
  {
    0 <= i < |order| && order[i] in nodes &&
    nodes[order[i]].prev == (if i == 0 then None else Some(order[i - 1])) &&
    nodes[order[i]].next == (if i + 1 == |order| then None else Some(order[i + 1]))
  }

  /** `order` lists the ids from head to tail, each once, and the prev/next
      fields of those nodes, head and (for a non-empty list) tail follow it.
      After tick empties the list, tail is left pointing at a deleted timer,
      as in the C++ code, so tail is unconstrained when the list is empty. */
  ghost predicate WellLinked(order: seq<TimerId>, nodes: map<TimerId, TimerNode>,
                             head: Option<TimerId>, tail: Option<TimerId>)
  {
    (forall i :: 0 <= i < |order| ==> order[i] in nodes) &&
    NoDup(order) &&
    head == (if order == [] then None else Some(order[0])) &&
    (order != [] ==> tail == Some(order[|order| - 1])) &&
    (forall i :: 0 <= i < |order| ==> LinkOk(order, nodes, i))
  }

  ghost function ViewOf(order: seq<TimerId>, nodes: map<TimerId, TimerNode>): (v: seq<Entry>)
    requires forall i :: 0 <= i < |order| ==> order[i] in nodes
    ensures |v| == |order|
  {
    seq(|order|, i requires 0 <= i < |order| => EntryOf(order[i], nodes[order[i]]))
  }

  /** Index of `id` in `order`. */
  ghost function Pos(order: seq<TimerId>, id: TimerId): (i: nat)
    requires id in order
    ensures i < |order| && order[i] == id
  {
    if order[0] == id then 0 else 1 + Pos(order[1..], id)
  }

  lemma Distinct(order: seq<TimerId>, a: nat, b: nat)
    requires NoDup(order) && a < |order| && b < |order| && a != b
    ensures order[a] != order[b]
  {
    if a < b { assert Apart(order, a, b); } else { assert Apart(order, b, a); }
  }

  lemma PosOfDistinct(order: seq<TimerId>, i: nat)
    requires NoDup(order) && i < |order|
    ensures Pos(order, order[i]) == i
  {
    if i > 0 {
      Distinct(order, 0, i);
      var r := order[1..];
      forall a, b | 0 <= a < b < |r| ensures Apart(r, a, b) {
        Distinct(order, a + 1, b + 1);
      }
      PosOfDistinct(r, i - 1);
    }
  }

  /** The links of the node at index `i`. */
  lemma LinkedAt(order: seq<TimerId>, nodes: map<TimerId, TimerNode>, head: Option<TimerId>, tail: Option<TimerId>, i: nat)
    requires WellLinked(order, nodes, head, tail) && i < |order|
    ensures order[i] in nodes
    ensures nodes[order[i]].prev == (if i == 0 then None else Some(order[i - 1]))
    ensures nodes[order[i]].next == (if i + 1 == |order| then None else Some(order[i + 1]))
  {
    assert LinkOk(order, nodes, i);
  }

  /** The node at index `i` is the head exactly when `i` is 0 and the tail
      exactly when it is last; its links name its neighbours. */
  lemma EndsOf(order: seq<TimerId>, nodes: map<TimerId, TimerNode>, head: Option<TimerId>, tail: Option<TimerId>, i: nat)
    requires WellLinked(order, nodes, head, tail) && i < |order|
    ensures head == Some(order[i]) <==> i == 0
    ensures tail == Some(order[i]) <==> i + 1 == |order|
    ensures order[i] in nodes
    ensures nodes[order[i]].prev == Before(order, i) && nodes[order[i]].next == From(order, i + 1)
  {
    LinkedAt(order, nodes, head, tail, i);
    if i != 0 { Distinct(order, 0, i); }
    if i + 1 != |order| { Distinct(order, i, |order| - 1); }
  }

  /** Changing nodes' fields other than the links keeps the list well linked. */
  lemma LinksUnchanged(order: seq<TimerId>, nodes: map<TimerId, TimerNode>, nodes2: map<TimerId, TimerNode>,
                       head: Option<TimerId>, tail: Option<TimerId>)
    requires WellLinked(order, nodes, head, tail)
    requires forall i :: 0 <= i < |order| ==>
               order[i] in nodes2 && nodes2[order[i]].prev == nodes[order[i]].prev && nodes2[order[i]].next == nodes[order[i]].next
    ensures WellLinked(order, nodes2, head, tail)
  {
    forall i | 0 <= i < |order| ensures LinkOk(order, nodes2, i) {
      assert LinkOk(order, nodes, i);
    }
  }

  /** Changing or deleting a node outside the list leaves the list and its view alone. */
  lemma OutsideChange(o: seq<TimerId>, m: map<TimerId, TimerNode>, m2: map<TimerId, TimerNode>,
                      head: Option<TimerId>, tail: Option<TimerId>, t: TimerId)
    requires WellLinked(o, m, head, tail) && t !in o
    requires forall id :: id in m && id != t ==> id in m2 && m2[id] == m[id]
    ensures WellLinked(o, m2, head, tail)
    ensures ViewOf(o, m2) == ViewOf(o, m)
  {
    assert forall i :: 0 <= i < |o| ==> o[i] != t && o[i] in m;
    LinksUnchanged(o, m, m2, head, tail);
  }

  lemma PayloadRemove(m: map<TimerId, TimerNode>, t: TimerId)
    ensures Payload(m - {t}) == Payload(m) - {t}
  {
  }

  // ---------------------------------------------------------------------
  // The pointer updates of add_timer, adjust_timer, del_timer and tick.

  /** The node before index `k` of `order`, if any. */
  function Before(order: seq<TimerId>, k: nat): Option<TimerId>
    requires k <= |order|
  {
    if k == 0 then None else Some(order[k - 1])
  }

  /** The node at index `k` of `order`, or none when `k` is the end. */
  function From(order: seq<TimerId>, k: nat): Option<TimerId>
    requires k <= |order|
  {
    if k == |order| then None else Some(order[k])
  }

  predicate InArena(nodes: map<TimerId, TimerNode>, p: Option<TimerId>)
  {
    p.Some? ==> p.value in nodes
  }

  /** The pointer updates that put `t` between `p` and `n`: p->next = t,
      n->prev = t, t->prev = p, t->next = n (each only where `p` or `n` is not NULL). */
  function Link(nodes: map<TimerId, TimerNode>, p: Option<TimerId>, t: TimerId, n: Option<TimerId>): (m: map<TimerId, TimerNode>)
    requires t in nodes && InArena(nodes, p) && InArena(nodes, n)
    ensures m.Keys == nodes.Keys && Payload(m) == Payload(nodes)
  {
    var m1 := if p.Some? then nodes[p.value := nodes[p.value].(next := Some(t))] else nodes;
    var m2 := if n.Some? then m1[n.value := m1[n.value].(prev := Some(t))] else m1;
    m2[t := m2[t].(prev := p, next := n)]
  }

  /** The pointer updates that close the gap between `p` and `n`:
      p->next = n and n->prev = p (each only where it is not NULL). */
  function Join(nodes: map<TimerId, TimerNode>, p: Option<TimerId>, n: Option<TimerId>): (m: map<TimerId, TimerNode>)
    requires InArena(nodes, p) && InArena(nodes, n)
    ensures m.Keys == nodes.Keys && Payload(m) == Payload(nodes)
  {
    var m1 := if p.Some? then nodes[p.value := nodes[p.value].(next := n)] else nodes;
    if n.Some? then m1[n.value := m1[n.value].(prev := p)] else m1
  }

  /** Linking `t` in at index `k` of a well-linked list yields a well-linked
      list with `t` at index `k`, and its entry spliced into the view there. */
  lemma LinkInto(order: seq<TimerId>, nodes: map<TimerId, TimerNode>, head: Option<TimerId>, tail: Option<TimerId>,
                 k: nat, t: TimerId,
                 order2: seq<TimerId>, nodes2: map<TimerId, TimerNode>, head2: Option<TimerId>, tail2: Option<TimerId>)
    requires WellLinked(order, nodes, head, tail)
    requires k <= |order| && t in nodes && t !in order
    requires order2 == order[..k] + [t] + order[k..]
    requires nodes2 == Link(nodes, Before(order, k), t, From(order, k))
    requires head2 == (if k == 0 then Some(t) else head)
    requires tail2 == (if k == |order| then Some(t) else tail)
    ensures WellLinked(order2, nodes2, head2, tail2)
    ensures ViewOf(order2, nodes2) == ViewOf(order, nodes)[..k] + [EntryOf(t, nodes[t])] + ViewOf(order, nodes)[k..]
    ensures nodes2.Keys == nodes.Keys && Payload(nodes2) == Payload(nodes)
  {
    if k > 0 { LinkedAt(order, nodes, head, tail, k - 1); }
    if k < |order| { LinkedAt(order, nodes, head, tail, k); }
    forall i | 0 <= i < |order| && i != k - 1 && i != k
      ensures order[i] in nodes2 && nodes2[order[i]] == nodes[order[i]]
    {
      assert order[i] != t;
      if k > 0 { Distinct(order, i, k - 1); }
      if k < |order| { Distinct(order, i, k); }
    }
    if k > 0 && k < |order| { Distinct(order, k - 1, k); }
    if order != [] { LinkedAt(order, nodes, head, tail, 0); }
    InsertLinked(order, nodes, nodes2, head, tail, head2, tail2, k, t);
    ViewAfterInsert(order, nodes, nodes2, k, t);
  }

  /** Joining the neighbours of index `i` of a well-linked list yields a
      well-linked list without it, and its entry removed from the view. */
  lemma JoinAround(order: seq<TimerId>, nodes: map<TimerId, TimerNode>, head: Option<TimerId>, tail: Option<TimerId>,
                   i: nat,
                   order2: seq<TimerId>, nodes2: map<TimerId, TimerNode>, head2: Option<TimerId>, tail2: Option<TimerId>)
    requires WellLinked(order, nodes, head, tail) && i < |order|
    requires order2 == order[..i] + order[i + 1..]
    requires nodes2 == Join(nodes, Before(order, i), From(order, i + 1))
    requires head2 == (if i == 0 then From(order, 1) else head)
    requires 0 < i && i + 1 == |order| ==> tail2 == Some(order[i - 1])
    requires i + 1 < |order| ==> tail2 == tail
    ensures order[i] !in order2
    ensures WellLinked(order2, nodes2, head2, tail2)
    ensures ViewOf(order2, nodes2) == Remove(ViewOf(order, nodes), i)
    ensures nodes2.Keys == nodes.Keys && Payload(nodes2) == Payload(nodes)
  {
    if i > 0 { LinkedAt(order, nodes, head, tail, i - 1); }
    if i + 1 < |order| { LinkedAt(order, nodes, head, tail, i + 1); }
    forall j | 0 <= j < |order| && j != i - 1 && j != i && j != i + 1
      ensures order[j] in nodes2 && nodes2[order[j]] == nodes[order[j]]
    {
      if i > 0 { Distinct(order, j, i - 1); }
      if i + 1 < |order| { Distinct(order, j, i + 1); }
    }
    if i > 0 && i + 1 < |order| { Distinct(order, i - 1, i + 1); }
    forall j | 0 <= j < |order2| ensures order2[j] != order[i] {
      if j < i { assert order2[j] == order[j]; Distinct(order, j, i); }
      else { assert order2[j] == order[j + 1]; Distinct(order, j + 1, i); }
    }
    LinkedAt(order, nodes, head, tail, 0);
    RemoveLinked(order, nodes, nodes2, head, tail, head2, tail2, i);
    ViewAfterRemove(order, nodes, nodes2, i);
  }

  /** Joining the neighbours of index `i` while its node stays allocated
      (with its own links possibly reset), as adjust_timer does. */
  lemma JoinKeep(order: seq<TimerId>, nodes: map<TimerId, TimerNode>, head: Option<TimerId>, tail: Option<TimerId>,
                 i: nat,
                 order2: seq<TimerId>, nodes2: map<TimerId, TimerNode>, head2: Option<TimerId>, tail2: Option<TimerId>)
    requires WellLinked(order, nodes, head, tail) && i + 1 < |order|
    requires order2 == order[..i] + order[i + 1..]
    requires InArena(nodes, Before(order, i)) && InArena(nodes, From(order, i + 1))
    requires var j := Join(nodes, Before(order, i), From(order, i + 1));
      nodes2 == j || nodes2 == j[order[i] := j[order[i]].(next := None)]
    requires head2 == (if i == 0 then From(order, 1) else head)
    requires tail2 == tail
    ensures order[i] in nodes2 && order[i] !in order2
    ensures WellLinked(order2, nodes2, head2, tail2)
    ensures ViewOf(order2, nodes2) == Remove(ViewOf(order, nodes), i)
    ensures nodes2.Keys == nodes.Keys && Payload(nodes2) == Payload(nodes)
  {
    var m := Join(nodes, Before(order, i), From(order, i + 1));
    JoinAround(order, nodes, head, tail, i, order2, m, head2, tail2);
    if nodes2 != m {
      OutsideChange(order2, m, nodes2, head2, tail2, order[i]);
      assert Payload(nodes2) == Payload(m);
    }
  }

  /** Joining the neighbours of index `i` and deleting its node, as
      del_timer and tick do. */
  lemma JoinDelete(order: seq<TimerId>, nodes: map<TimerId, TimerNode>, head: Option<TimerId>, tail: Option<TimerId>,
                   i: nat,
                   order2: seq<TimerId>, nodes2: map<TimerId, TimerNode>, head2: Option<TimerId>, tail2: Option<TimerId>)
    requires WellLinked(order, nodes, head, tail) && i < |order|
    requires order2 == order[..i] + order[i + 1..]
    requires InArena(nodes, Before(order, i)) && InArena(nodes, From(order, i + 1))
    requires nodes2 == Join(nodes, Before(order, i), From(order, i + 1)) - {order[i]}
    requires head2 == (if i == 0 then From(order, 1) else head)
    requires 0 < i && i + 1 == |order| ==> tail2 == Some(order[i - 1])
    requires i + 1 < |order| ==> tail2 == tail
    ensures WellLinked(order2, nodes2, head2, tail2)
    ensures ViewOf(order2, nodes2) == Remove(ViewOf(order, nodes), i)
    ensures nodes2.Keys == nodes.Keys - {order[i]} && Payload(nodes2) == Payload(nodes) - {order[i]}
  {
    var m := Join(nodes, Before(order, i), From(order, i + 1));
    JoinAround(order, nodes, head, tail, i, order2, m, head2, tail2);
    OutsideChange(order2, m, nodes2, head2, tail2, order[i]);
    PayloadRemove(m, order[i]);
  }

  /** Splicing `t` in at index `k`: the neighbours' facing links point at `t`,
      `t` points at them, and every other listed node is untouched. */
  lemma InsertLinked(order: seq<TimerId>, nodes: map<TimerId, TimerNode>, nodes2: map<TimerId, TimerNode>,
                     head: Option<TimerId>, tail: Option<TimerId>, head2: Option<TimerId>, tail2: Option<TimerId>,
                     k: nat, t: TimerId)
    requires WellLinked(order, nodes, head, tail)
    requires k <= |order| && t !in order && t in nodes2
    requires forall i :: 0 <= i < |order| && i != k - 1 && i != k ==> order[i] in nodes2 && nodes2[order[i]] == nodes[order[i]]
    requires 0 < k ==> order[k - 1] in nodes2 && nodes2[order[k - 1]].prev == nodes[order[k - 1]].prev
                       && nodes2[order[k - 1]].next == Some(t)
    requires k < |order| ==> order[k] in nodes2 && nodes2[order[k]].next == nodes[order[k]].next
                             && nodes2[order[k]].prev == Some(t)
    requires nodes2[t].prev == (if k == 0 then None else Some(order[k - 1]))
    requires nodes2[t].next == (if k == |order| then None else Some(order[k]))
    requires head2 == (if k == 0 then Some(t) else head)
    requires tail2 == (if k == |order| then Some(t) else tail)
    ensures WellLinked(order[..k] + [t] + order[k..], nodes2, head2, tail2)
  {
    var o := order[..k] + [t] + order[k..];
    forall i, j | 0 <= i < j < |o| ensures Apart(o, i, j) {
      if i < k && j < k { assert o[i] == order[i] && o[j] == order[j]; Distinct(order, i, j); }
      else if i < k && j > k { assert o[i] == order[i] && o[j] == order[j - 1]; Distinct(order, i, j - 1); }
      else if i > k { assert o[i] == order[i - 1] && o[j] == order[j - 1]; Distinct(order, i - 1, j - 1); }
      else if i < k { assert o[i] == order[i]; }
      else { assert o[j] == order[j - 1]; }
    }
    forall i | 0 <= i < |o| ensures o[i] in nodes2 {
      if i < k { assert o[i] == order[i]; } else if i > k { assert o[i] == order[i - 1]; }
    }
    forall i | 0 <= i < |o| ensures LinkOk(o, nodes2, i) {
      InsertLinkAt(order, nodes, nodes2, head, tail, k, t, o, i);
    }
    if k == 0 { assert o[0] == t; } else { assert o[0] == order[0]; }
    if k == |order| { assert o[|o| - 1] == t; } else { assert o[|o| - 1] == order[|order| - 1]; }
  }

  lemma InsertLinkAt(order: seq<TimerId>, nodes: map<TimerId, TimerNode>, nodes2: map<TimerId, TimerNode>,
                     head: Option<TimerId>, tail: Option<TimerId>, k: nat, t: TimerId, o: seq<TimerId>, i: nat)
    requires WellLinked(order, nodes, head, tail)
    requires k <= |order| && t !in order && t in nodes2
    requires forall i :: 0 <= i < |order| && i != k - 1 && i != k ==> order[i] in nodes2 && nodes2[order[i]] == nodes[order[i]]
    requires 0 < k ==> order[k - 1] in nodes2 && nodes2[order[k - 1]].prev == nodes[order[k - 1]].prev
                       && nodes2[order[k - 1]].next == Some(t)
    requires k < |order| ==> order[k] in nodes2 && nodes2[order[k]].next == nodes[order[k]].next
                             && nodes2[order[k]].prev == Some(t)
    requires nodes2[t].prev == (if k == 0 then None else Some(order[k - 1]))
    requires nodes2[t].next == (if k == |order| then None else Some(order[k]))
    requires o == order[..k] + [t] + order[k..] && i <= |order|
    ensures LinkOk(o, nodes2, i)
  {
    if i < k {
      LinkedAt(order, nodes, head, tail, i);
      assert o[i] == order[i];
      if i > 0 { assert o[i - 1] == order[i - 1]; }
      if i + 1 < k { assert o[i + 1] == order[i + 1]; } else { assert o[i + 1] == t; }
    } else if i > k {
      LinkedAt(order, nodes, head, tail, i - 1);
      assert o[i] == order[i - 1];
      if i - 1 > k { assert o[i - 1] == order[i - 2]; } else { assert o[i - 1] == t; }
      if i < |order| { assert o[i + 1] == order[i]; }
    } else {
      assert o[k] == t;
      if k > 0 { assert o[k - 1] == order[k - 1]; }
      if k < |order| { assert o[k + 1] == order[k]; }
    }
  }

  /** Unlinking the node at index `i`: its neighbours are joined and every
      other listed node is untouched. */
  lemma RemoveLinked(order: seq<TimerId>, nodes: map<TimerId, TimerNode>, nodes2: map<TimerId, TimerNode>,
                     head: Option<TimerId>, tail: Option<TimerId>, head2: Option<TimerId>, tail2: Option<TimerId>,
                     i: nat)
    requires WellLinked(order, nodes, head, tail)
    requires i < |order|
    requires forall j :: 0 <= j < |order| && j != i - 1 && j != i && j != i + 1 ==> order[j] in nodes2 && nodes2[order[j]] == nodes[order[j]]
    requires 0 < i ==> order[i - 1] in nodes2 && nodes2[order[i - 1]].prev == nodes[order[i - 1]].prev
                       && nodes2[order[i - 1]].next == (if i + 1 < |order| then Some(order[i + 1]) else None)
    requires i + 1 < |order| ==> order[i + 1] in nodes2 && nodes2[order[i + 1]].next == nodes[order[i + 1]].next
                                 && nodes2[order[i + 1]].prev == (if 0 < i then Some(order[i - 1]) else None)
    requires head2 == (if i == 0 then (if |order| > 1 then Some(order[1]) else None) else head)
    requires 0 < i && i + 1 == |order| ==> tail2 == Some(order[i - 1])
    requires i + 1 < |order| ==> tail2 == tail
    ensures WellLinked(order[..i] + order[i + 1..], nodes2, head2, tail2)
  {
    var o := order[..i] + order[i + 1..];
    assert |o| == |order| - 1;
    assert forall j :: 0 <= j < i ==> o[j] == order[j];
    assert forall j :: i <= j < |o| ==> o[j] == order[j + 1];
    forall a, b | 0 <= a < b < |o| ensures Apart(o, a, b) {
      var a' := if a < i then a else a + 1;
      var b' := if b < i then b else b + 1;
      assert o[a] == order[a'] && o[b] == order[b'];
      Distinct(order, a', b');
    }
    forall j | 0 <= j < |o| ensures LinkOk(o, nodes2, j) {
      RemoveLinkAt(order, nodes, nodes2, head, tail, i, o, j);
    }
    if i == 0 && |order| > 1 { assert o[0] == order[1]; }
    if i > 0 { assert o[0] == order[0]; }
    if o != [] { assert o[|o| - 1] == (if i + 1 == |order| then order[i - 1] else order[|order| - 1]); }
  }

  lemma RemoveLinkAt(order: seq<TimerId>, nodes: map<TimerId, TimerNode>, nodes2: map<TimerId, TimerNode>,
                     head: Option<TimerId>, tail: Option<TimerId>, i: nat, o: seq<TimerId>, j: nat)
    requires WellLinked(order, nodes, head, tail)
    requires i < |order|
    requires forall j :: 0 <= j < |order| && j != i - 1 && j != i && j != i + 1 ==> order[j] in nodes2 && nodes2[order[j]] == nodes[order[j]]
    requires 0 < i ==> order[i - 1] in nodes2 && nodes2[order[i - 1]].prev == nodes[order[i - 1]].prev
                       && nodes2[order[i - 1]].next == (if i + 1 < |order| then Some(order[i + 1]) else None)
    requires i + 1 < |order| ==> order[i + 1] in nodes2 && nodes2[order[i + 1]].next == nodes[order[i + 1]].next
                                 && nodes2[order[i + 1]].prev == (if 0 < i then Some(order[i - 1]) else None)
    requires o == order[..i] + order[i + 1..] && j + 1 < |order|
    ensures LinkOk(o, nodes2, j)
  {
    if j < i {
      LinkedAt(order, nodes, head, tail, j);
      assert o[j] == order[j];
      if j > 0 { assert o[j - 1] == order[j - 1]; }
      if j + 1 < i { assert o[j + 1] == order[j + 1]; }
      if j + 1 == i && j + 1 < |o| { assert o[j + 1] == order[j + 2]; }
    } else {
      LinkedAt(order, nodes, head, tail, j + 1);
      assert o[j] == order[j + 1];
      if j > i { assert o[j - 1] == order[j]; }
      if j == i && j > 0 { assert o[j - 1] == order[j - 1]; }
      if j + 1 < |o| { assert o[j + 1] == order[j + 2]; }
    }
  }

  /** Splicing `t` into `order` at index `k` splices its entry into the view. */
  lemma ViewAfterInsert(order: seq<TimerId>, nodes: map<TimerId, TimerNode>, nodes2: map<TimerId, TimerNode>,
                        k: nat, t: TimerId)
    requires k <= |order| && t in nodes && t in nodes2
    requires forall i :: 0 <= i < |order| ==> order[i] in nodes && order[i] in nodes2
    requires Payload(nodes2) == Payload(nodes)
    ensures var o := order[..k] + [t] + order[k..];
      (forall i :: 0 <= i < |o| ==> o[i] in nodes2) &&
      ViewOf(o, nodes2) == ViewOf(order, nodes)[..k] + [EntryOf(t, nodes[t])] + ViewOf(order, nodes)[k..]
  {
    var o := order[..k] + [t] + order[k..];
    assert forall id :: id in nodes ==> Payload(nodes)[id] == (nodes[id].expire, nodes[id].client);
    assert forall i :: 0 <= i < |o| ==> o[i] == (if i < k then order[i] else if i == k then t else order[i - 1]);
    assert forall id :: id in nodes2 && id in nodes ==> EntryOf(id, nodes2[id]) == EntryOf(id, nodes[id]) by {
      forall id | id in nodes2 && id in nodes ensures EntryOf(id, nodes2[id]) == EntryOf(id, nodes[id]) {
        assert Payload(nodes2)[id] == Payload(nodes)[id];
      }
    }
  }

  /** Unlinking index `i` from `order` removes its entry from the view. */
  lemma ViewAfterRemove(order: seq<TimerId>, nodes: map<TimerId, TimerNode>, nodes2: map<TimerId, TimerNode>, i: nat)
    requires i < |order|
    requires forall j :: 0 <= j < |order| ==> order[j] in nodes
    requires nodes2.Keys == nodes.Keys && Payload(nodes2) == Payload(nodes)
    ensures var o := order[..i] + order[i + 1..];
      (forall j :: 0 <= j < |o| ==> o[j] in nodes2) &&
      ViewOf(o, nodes2) == Remove(ViewOf(order, nodes), i)
  {
    var o := order[..i] + order[i + 1..];
    assert forall j :: 0 <= j < |o| ==> o[j] == (if j < i then order[j] else order[j + 1]);
    assert forall id :: id in nodes2 ==> EntryOf(id, nodes2[id]) == EntryOf(id, nodes[id]) by {
      forall id | id in nodes2 ensures EntryOf(id, nodes2[id]) == EntryOf(id, nodes[id]) {
        assert Payload(nodes2)[id] == Payload(nodes)[id];
      }
    }
  }

  /** sort_timer_lst together with the util_timer objects it links. */
  class SortTimerList {
    var head: Option<TimerId>
    var tail: Option<TimerId>
    /** Every util_timer object that has been allocated and not deleted. */
    var nodes: map<TimerId, TimerNode>
    /** The user_data handed to cb_func by tick, in call order. */
    var fired: seq<int>
    /** Ids below this have been handed out by NewTimer. */
    var nextId: nat
    ghost var order: seq<TimerId>

    ghost predicate Valid()
      reads this
    {
      WellLinked(order, nodes, head, tail) &&
      forall id :: id in nodes ==> id < nextId
    }

    /** The entries from head to tail. */
    ghost function View(): (v: seq<Entry>)
      reads this
      requires Valid()
      ensures |v| == |order|
    {
      ViewOf(order, nodes)
    }

    /** A util_timer that is not in the list and whose prev and next are NULL,
        as its constructor leaves them. */
    ghost predicate Detached(id: TimerId)
      reads this
    {
      id in nodes && id !in order && nodes[id].prev == None && nodes[id].next == None
    }

    /** sort_timer_lst(): head and tail NULL. */
    constructor ()
      ensures Valid() && View() == [] && nodes == map[] && fired == []
    {
      head, tail := None, None;
      nodes, fired, nextId := map[], [], 0;
      order := [];
    }

    /** `new util_timer` followed by the caller's assignments of expire and
        user_data: a fresh node with NULL links, outside the list. */
    method NewTimer(expire: int, client: int) returns (id: TimerId)
      requires Valid()
      modifies this
      ensures Valid() && Detached(id) && id !in old(nodes)
      ensures nodes == old(nodes)[id := TimerNode(expire, client, None, None)]
      ensures order == old(order) && head == old(head) && tail == old(tail) && fired == old(fired)
      ensures View() == old(View())
    {
      id := nextId;
      assert id !in order by {
        assert forall i :: 0 <= i < |order| ==> order[i] in nodes;
      }
      OutsideChange(order, nodes, nodes[id := TimerNode(expire, client, None, None)], head, tail, id);
      nodes := nodes[id := TimerNode(expire, client, None, None)];
      nextId := nextId + 1;
    }

    /** The caller's new deadline for a timer (`timer->expire = ...`), which
        precedes adjust_timer. */
    method SetExpire(id: TimerId, expire: int)
      requires Valid() && id in nodes
      modifies this
      ensures Valid()
      ensures nodes == old(nodes)[id := old(nodes)[id].(expire := expire)]
      ensures order == old(order) && head == old(head) && tail == old(tail) && fired == old(fired)
      ensures id in order ==> View() == old(View())[Pos(order, id) := Entry(id, expire, nodes[id].client)]
      ensures id !in order ==> View() == old(View())
    {
      nodes := nodes[id := nodes[id].(expire := expire)];
      LinksUnchanged(order, old(nodes), nodes, head, tail);
      if id in order {
        ghost var i := Pos(order, id);
        forall k | 0 <= k < |order| && k != i ensures order[k] != id {
          Distinct(order, k, i);
        }
      } else {
        OutsideChange(order, old(nodes), nodes, head, tail, id);
      }
    }

    /** The walk of the private add_timer(timer, lst_head): from lst_head,
        step to the next node while it does not expire strictly after `x`.
        Returns the node the timer goes after and its successor (NULL at the
        tail); together they mark the splice point InsertPos. */
    method FindPrev(x: int, lstHead: TimerId) returns (prev: TimerId, tmp: Option<TimerId>)
      requires Valid() && lstHead in order
      ensures prev in order && Pos(order, prev) + 1 == InsertPos(View(), Pos(order, lstHead), x)
      ensures tmp == From(order, Pos(order, prev) + 1)
    {
      ghost var v := View();
      ghost var start := Pos(order, lstHead);
      prev := lstHead;
      LinkedAt(order, nodes, head, tail, start);
      tmp := nodes[prev].next;
      ghost var j := start;
      while tmp.Some?
        invariant start <= j < |order| && prev == order[j]
        invariant tmp == From(order, j + 1)
        invariant InsertPos(v, start, x) == InsertPos(v, j, x)
        decreases |order| - j
      {
        assert v[j + 1] == EntryOf(order[j + 1], nodes[order[j + 1]]);
        if x < nodes[tmp.value].expire {
          break;
        }
        prev := tmp.value;
        j := j + 1;
        LinkedAt(order, nodes, head, tail, j);
        tmp := nodes[prev].next;
      }
      PosOfDistinct(order, j);
    }

    /** The private add_timer(timer, lst_head): splice the timer in after the
        node FindPrev stops at, before the first node expiring strictly after
        it, or append it as the new tail. */
    method AddTimerAfter(timer: TimerId, lstHead: TimerId)
      requires Valid() && timer in nodes && timer !in order && lstHead in order
      modifies this
      ensures Valid()
      ensures View() == InsertAfter(old(View()), Pos(old(order), lstHead), EntryOf(timer, old(nodes)[timer]))
      ensures nodes.Keys == old(nodes).Keys && Payload(nodes) == Payload(old(nodes))
      ensures head == old(head) && fired == old(fired)
    {
      ghost var ord, ns, tl := order, nodes, tail;
      var prev, tmp := FindPrev(nodes[timer].expire, lstHead);
      ghost var k := Pos(order, prev) + 1;
      if tmp.Some? {
        // prev->next = timer; timer->next = tmp; tmp->prev = timer; timer->prev = prev
        nodes := Link(nodes, Some(prev), timer, tmp);
      } else {
        // prev->next = timer; timer->prev = prev; timer->next = NULL; tail = timer
        nodes := Link(nodes, Some(prev), timer, None);
        tail := Some(timer);
      }
      order := ord[..k] + [timer] + ord[k..];
      LinkInto(ord, ns, head, tl, k, timer, order, nodes, head, tail);
    }

    /** add_timer(timer): a NULL timer is ignored; into an empty list it becomes
        head and tail; a timer expiring strictly before the head becomes the
        new head; otherwise the private add_timer walks from the head. */
    method AddTimer(timer: Option<TimerId>)
      requires Valid()
      requires timer.Some? ==> Detached(timer.value)
      modifies this
      ensures Valid()
      ensures timer.None? ==> View() == old(View()) && nodes == old(nodes)
      ensures timer.Some? ==> View() == Insert(old(View()), EntryOf(timer.value, old(nodes)[timer.value]))
      ensures nodes.Keys == old(nodes).Keys && Payload(nodes) == Payload(old(nodes))
      ensures fired == old(fired)
      ensures Sorted(old(View())) ==> Sorted(View())
    {
      if timer.None? {
        return;
      }
      var t := timer.value;
      ghost var v := View();
      ghost var e := EntryOf(t, nodes[t]);
      if Sorted(v) {
        InsertKeepsSorted(v, e);
      }
      if head.None? {
        PushFront(t);
        return;
      }
      var h := head.value;
      LinkedAt(order, nodes, head, tail, 0);
      assert v[0] == EntryOf(h, nodes[h]);
      if nodes[t].expire < nodes[h].expire {
        PushFront(t);
        return;
      }
      assert Pos(order, h) == 0;
      AddTimerAfter(t, h);
    }

    /** The first two cases of add_timer: into an empty list, head = tail =
        timer; before the head, timer->next = head, head->prev = timer and
        head = timer. */
    method PushFront(t: TimerId)
      requires Valid() && Detached(t)
      requires head.Some? ==> head.value in nodes && nodes[t].expire < nodes[head.value].expire
      modifies this
      ensures Valid()
      ensures View() == [EntryOf(t, old(nodes)[t])] + old(View())
      ensures nodes.Keys == old(nodes).Keys && Payload(nodes) == Payload(old(nodes))
      ensures fired == old(fired)
    {
      ghost var ord, ns, hd, tl := order, nodes, head, tail;
      ghost var v := View();
      if head.None? {
        nodes := Link(nodes, None, t, None);
        head, tail := Some(t), Some(t);
      } else {
        nodes := Link(nodes, None, t, head);
        head := Some(t);
      }
      order := [t] + ord;
      assert ord == [] <==> hd.None?;
      assert order == ord[..0] + [t] + ord[0..];
      LinkInto(ord, ns, hd, tl, 0, t, order, nodes, head, tail);
      assert v[..0] + [EntryOf(t, ns[t])] + v[0..] == [EntryOf(t, ns[t])] + v;
    }

    /** adjust_timer(timer), called after the timer's expiry changed: nothing
        happens for a NULL timer, for the tail, or while the timer still
        expires before its successor; otherwise the timer is unlinked and
        re-inserted by walking forward from its old successor. */
    method AdjustTimer(timer: Option<TimerId>)
      requires Valid()
      requires timer.Some? ==> timer.value in order
      modifies this
      ensures Valid()
      ensures timer.None? ==> View() == old(View())
      ensures timer.Some? ==> View() == Adjust(old(View()), Pos(old(order), timer.value))
      ensures nodes.Keys == old(nodes).Keys && Payload(nodes) == Payload(old(nodes))
      ensures fired == old(fired)
      ensures timer.Some? && RaisedAt(old(View()), Pos(old(order), timer.value)) ==> Sorted(View())
    {
      if timer.None? {
        return;
      }
      var t := timer.value;
      ghost var v := View();
      ghost var i := Pos(order, t);
      AdjustKeepsEntriesAndOrder(v, i);
      LinkedAt(order, nodes, head, tail, i);
      var tmp := nodes[t].next;
      if tmp.Some? {
        assert v[i + 1] == EntryOf(tmp.value, nodes[tmp.value]);
      }
      if tmp.None? || nodes[t].expire < nodes[tmp.value].expire {
        return;
      }
      Reinsert(t, i);
      AdjustReinserts(v, i);
    }

    /** adjust_timer's work for a timer at index `i` that expires no earlier
        than its successor: unlink it, then add_timer(timer, old successor). */
    method Reinsert(t: TimerId, ghost i: nat)
      requires Valid() && i + 1 < |order| && order[i] == t
      requires View()[i + 1].expire <= View()[i].expire
      modifies this
      ensures Valid()
      ensures View() == InsertAfter(Remove(old(View()), i), i, old(View())[i])
      ensures nodes.Keys == old(nodes).Keys && Payload(nodes) == Payload(old(nodes))
      ensures fired == old(fired)
    {
      ghost var v := View();
      LinkedAt(order, nodes, head, tail, i);
      var n := nodes[t].next.value;
      Unlink(t, i);
      assert order[i] == n;
      PosOfDistinct(order, i);
      assert Payload(nodes)[t] == Payload(old(nodes))[t];
      assert EntryOf(t, nodes[t]) == v[i];
      AddTimerAfter(t, n);
    }

    /** The unlinking step of adjust_timer for a timer that is not the tail:
        at the head, head = head->next, head->prev = NULL and timer->next = NULL;
        elsewhere timer->prev->next = timer->next and timer->next->prev =
        timer->prev. The timer keeps its expiry and user_data. */
    method Unlink(t: TimerId, ghost i: nat)
      requires Valid() && i + 1 < |order| && order[i] == t
      modifies this
      ensures Valid() && t in nodes && t !in order
      ensures order == old(order)[..i] + old(order)[i + 1..]
      ensures View() == Remove(old(View()), i)
      ensures nodes.Keys == old(nodes).Keys && Payload(nodes) == Payload(old(nodes))
      ensures fired == old(fired)
    {
      ghost var ord, ns, hd, tl := order, nodes, head, tail;
      EndsOf(order, nodes, head, tail, i);
      var tmp := nodes[t].next;
      var m := Join(nodes, nodes[t].prev, tmp);
      if head == Some(t) {
        // head = head->next; head->prev = NULL; timer->next = NULL
        head := tmp;
        m := m[t := m[t].(next := None)];
      }
      nodes := m;
      order := ord[..i] + ord[i + 1..];
      JoinKeep(ord, ns, hd, tl, i, order, nodes, head, tail);
    }

    /** del_timer(timer): unlink and delete the timer, updating head and tail
        in the only-node, head, tail and interior cases. */
    method DelTimer(timer: Option<TimerId>)
      requires Valid()
      requires timer.Some? ==> timer.value in order
      modifies this
      ensures Valid()
      ensures timer.None? ==> View() == old(View()) && nodes == old(nodes)
      ensures timer.Some? ==> View() == Remove(old(View()), Pos(old(order), timer.value))
      ensures timer.Some? ==> Payload(nodes) == Payload(old(nodes)) - {timer.value}
      ensures fired == old(fired)
      ensures Sorted(old(View())) ==> Sorted(View())
    {
      if timer.None? {
        return;
      }
      var t := timer.value;
      ghost var v := View();
      ghost var ord, ns, hd0, tl0 := order, nodes, head, tail;
      ghost var i := Pos(order, t);
      if Sorted(v) {
        RemoveKeepsSorted(v, i);
      }
      EndsOf(order, nodes, head, tail, i);
      var p, n := nodes[t].prev, nodes[t].next;
      var hd, tl := head, tail;
      if head == timer && tail == timer {
        // delete timer; head = NULL; tail = NULL
        hd, tl := None, None;
      } else if head == timer {
        // head = head->next; head->prev = NULL; delete timer
        hd := n;
      } else if tail == timer {
        // tail = tail->prev; tail->next = NULL; delete timer
        tl := p;
      }
      // otherwise: timer->prev->next = timer->next; timer->next->prev = timer->prev; delete timer
      nodes := Join(nodes, p, n) - {t};
      head, tail := hd, tl;
      order := ord[..i] + ord[i + 1..];
      JoinDelete(ord, ns, hd0, tl0, i, order, nodes, head, tail);
    }

    /** tick() at time `cur`: from the head, while the head's expiry is not
        after `cur`, run its callback, make its successor the head (with
        prev = NULL) and delete it. */
    method Tick(cur: int)
      requires Valid()
      modifies this
      ensures Valid()
      ensures View() == old(View())[PrefixAtMost(old(View()), cur)..]
      ensures fired == old(fired) + Clients(old(View())[..PrefixAtMost(old(View()), cur)])
      ensures Payload(nodes) == Payload(old(nodes)) - Ids(old(View())[..PrefixAtMost(old(View()), cur)])
      ensures Sorted(old(View())) ==> Sorted(View()) && forall j :: 0 <= j < |View()| ==> cur < View()[j].expire
    {
      ghost var v := View();
      var ns: map<TimerId, TimerNode>, hd: Option<TimerId>, fd: seq<int> := nodes, head, fired;
      ghost var ord: seq<TimerId> := order;
      ghost var c: nat := 0;
      assert v[..0] == [];
      while hd.Some?
        invariant TickInv(v, cur, c, nodes, fired, ord, ns, hd, tail, fd)
        modifies {}
        decreases |ord|
      {
        var t := hd.value;
        LinkedAt(ord, ns, hd, tail, 0);
        if cur < ns[t].expire {
          break;
        }
        // cb_func(tmp->user_data); head = tmp->next; if (head) head->prev = NULL; delete tmp
        TickEvicts(v, cur, c, nodes, fired, ord, ns, hd, tail, fd);
        fd := fd + [ns[t].client];
        hd := ns[t].next;
        ns := Join(ns, None, hd) - {t};
        ord := ord[1..];
        c := c + 1;
      }
      ghost var nodes0, fired0 := nodes, fired;
      assert forall id :: id in ns ==> id < nextId;
      head, nodes, fired := hd, ns, fd;
      order := ord;
      TickStops(v, cur, c, nodes0, fired0, order, nodes, head, tail, fired);
    }
  }

  /** The loop invariant of tick after `c` evictions from the list whose
      view was `v`, arena `nodes0` and callback log `fired0`. */
  ghost predicate TickInv(v: seq<Entry>, cur: int, c: int, nodes0: map<TimerId, TimerNode>, fired0: seq<int>,
                          ord: seq<TimerId>, ns: map<TimerId, TimerNode>, hd: Option<TimerId>, tl: Option<TimerId>,
                          fd: seq<int>)
  {
    WellLinked(ord, ns, hd, tl) && ns.Keys <= nodes0.Keys &&
    0 <= c <= |v| && ViewOf(ord, ns) == v[c..] &&
    (forall j :: 0 <= j < c ==> v[j].expire <= cur) &&
    fd == fired0 + Clients(v[..c]) &&
    Payload(ns) == Payload(nodes0) - Ids(v[..c])
  }

  /** One round of tick's loop: the head expires by `cur`, so it is reported and deleted. */
  lemma TickEvicts(v: seq<Entry>, cur: int, c: int, nodes0: map<TimerId, TimerNode>, fired0: seq<int>,
                   ord: seq<TimerId>, ns: map<TimerId, TimerNode>, hd: Option<TimerId>, tl: Option<TimerId>,
                   fd: seq<int>)
    requires TickInv(v, cur, c, nodes0, fired0, ord, ns, hd, tl, fd)
    requires hd.Some? && hd.value in ns && ns[hd.value].expire <= cur
    ensures var t := hd.value;
      InArena(ns, ns[t].next) &&
      TickInv(v, cur, c + 1, nodes0, fired0, ord[1..], Join(ns, None, ns[t].next) - {t}, ns[t].next, tl,
              fd + [ns[t].client])
  {
    var t := hd.value;
    LinkedAt(ord, ns, hd, tl, 0);
    assert ViewOf(ord, ns)[0] == v[c];
    TickStep(v, c);
    assert ord[..0] + ord[1..] == ord[1..];
    JoinDelete(ord, ns, hd, tl, 0, ord[1..], Join(ns, None, ns[t].next) - {t}, ns[t].next, tl);
    assert Remove(v[c..], 0) == v[c + 1..];
  }

  /** When tick's loop stops, exactly the entries expiring by `cur` are gone,
      and from a sorted list every entry left expires after `cur`. */
  lemma TickStops(v: seq<Entry>, cur: int, c: int, nodes0: map<TimerId, TimerNode>, fired0: seq<int>,
                  ord: seq<TimerId>, ns: map<TimerId, TimerNode>, hd: Option<TimerId>, tl: Option<TimerId>,
                  fd: seq<int>)
    requires TickInv(v, cur, c, nodes0, fired0, ord, ns, hd, tl, fd)
    requires hd.Some? ==> hd.value in ns && cur < ns[hd.value].expire
    ensures WellLinked(ord, ns, hd, tl) && ns.Keys <= nodes0.Keys
    ensures ViewOf(ord, ns) == v[PrefixAtMost(v, cur)..]
    ensures fd == fired0 + Clients(v[..PrefixAtMost(v, cur)])
    ensures Payload(ns) == Payload(nodes0) - Ids(v[..PrefixAtMost(v, cur)])
    ensures Sorted(v) ==> Sorted(ViewOf(ord, ns)) && forall j :: 0 <= j < |ord| ==> cur < ViewOf(ord, ns)[j].expire
  {
    if hd.Some? {
      LinkedAt(ord, ns, hd, tl, 0);
      assert ViewOf(ord, ns)[0] == v[c];
    }
    PrefixAtMostExact(v, cur, c);
    if Sorted(v) {
      TickLeavesLaterEntries(v, cur);
    }
  }

  /** One eviction of tick, on the views: the prefix grows by one entry. */
  lemma TickStep(v: seq<Entry>, c: nat)
    requires c < |v|
    ensures v[..c + 1] == v[..c] + [v[c]]
    ensures Clients(v[..c + 1]) == Clients(v[..c]) + [v[c].client]
    ensures Ids(v[..c + 1]) == Ids(v[..c]) + {v[c].id}
    ensures v[c + 1..] == v[c..][1..]
  {
    assert v[..c + 1] == v[..c] + [v[c]];
  }
}

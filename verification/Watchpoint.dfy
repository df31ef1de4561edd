/** The pool of 32 watchpoints, its active and free lists, and the numbering that the debugger commands
    w and d rely on (nemu/src/monitor/sdb/watchpoint.c:18-75, nemu/src/monitor/sdb/sdb.c:122-159). */
module Watchpoint {
  import opened Options

  const NR_WP: nat := 32
  const NULL: int := -1

  /** A linked list starting at `start` visits exactly `list`. */
  ghost predicate Links(next: seq<int>, start: int, list: seq<int>) {
    && (forall k :: 0 <= k < |list| ==> 0 <= list[k] < |next|)
    && start == At(list, 0)
    && (forall k {:trigger next[list[k]]} :: 0 <= k < |list| ==> next[list[k]] == At(list, k + 1))
  }

  /** Node k of a list, NULL past its end. */
  function At(list: seq<int>, k: nat): int { if k < |list| then list[k] else NULL }

  /** No node occurs twice. */
  ghost predicate Distinct(list: seq<int>) {
    forall j, k :: 0 <= j < k < |list| ==> list[j] != list[k]
  }

  /** Two lists without a common node that together hold every node of the pool. */
  ghost predicate Partition(used: seq<int>, avail: seq<int>, n: nat) {
    && Distinct(used) && Distinct(avail)
    && (forall j, k :: 0 <= j < |used| && 0 <= k < |avail| ==> used[j] != avail[k])
    && (forall i :: 0 <= i < n ==> i in used || i in avail)
  }

  /** Numbers decrease along the list and are positive. */
  ghost predicate Decreasing(cnt: seq<int>, list: seq<int>) {
    && (forall k :: 0 <= k < |list| ==> 0 <= list[k] < |cnt| && cnt[list[k]] >= 1)
    && (forall j, k :: 0 <= j < k < |list| ==> cnt[list[j]] > cnt[list[k]])
  }

  function Without(list: seq<int>, k: nat): seq<int>
    requires k < |list|
  {
    list[..k] + list[k + 1..]
  }

  // ----- relinking -----

  /** Changing a node that is not in a list leaves the list alone. */
  lemma LinksElsewhere(next: seq<int>, start: int, list: seq<int>, x: int, v: int)
    requires Links(next, start, list) && x !in list && 0 <= x < |next|
    ensures Links(next[x := v], start, list)
  {}

  /** Pushing a node in front. */
  lemma LinksPush(next: seq<int>, start: int, list: seq<int>, x: int)
    requires Links(next, start, list) && x !in list && 0 <= x < |next|
    ensures Links(next[x := start], x, [x] + list)
  {
    var n2, l2 := next[x := start], [x] + list;
    forall k | 0 <= k < |l2| ensures n2[l2[k]] == At(l2, k + 1) {
      if k > 0 {
        assert l2[k] == list[k - 1] && next[list[k - 1]] == At(list, k);
      }
    }
  }

  /** Dropping the first node. */
  lemma LinksPop(next: seq<int>, start: int, list: seq<int>)
    requires Links(next, start, list) && list != []
    ensures Links(next, next[start], list[1..])
  {
    var l2 := list[1..];
    assert next[list[0]] == At(list, 1);
    forall k | 0 <= k < |l2| ensures next[l2[k]] == At(l2, k + 1) {
      assert l2[k] == list[k + 1] && next[list[k + 1]] == At(list, k + 2);
    }
  }

  /** Unlinking a later node. */
  lemma LinksUnlink(next: seq<int>, start: int, list: seq<int>, k: nat)
    requires Links(next, start, list) && Distinct(list) && 1 <= k < |list|
    ensures Links(next[list[k - 1] := next[list[k]]], start, Without(list, k))
  {
    var n2, l2 := next[list[k - 1] := next[list[k]]], Without(list, k);
    forall j | 0 <= j < |l2| ensures n2[l2[j]] == At(l2, j + 1) {
      var i := if j < k then j else j + 1;
      assert l2[j] == list[i] && next[list[i]] == At(list, i + 1);
      if j == k - 1 { assert next[list[k]] == At(list, k + 1); }
    }
  }

  lemma WithoutDistinct(list: seq<int>, k: nat)
    requires Distinct(list) && k < |list|
    ensures Distinct(Without(list, k)) && list[k] !in Without(list, k)
    ensures forall x :: x in list && x != list[k] ==> x in Without(list, k)
  {
    var l2 := Without(list, k);
    forall x | x in list && x != list[k] ensures x in l2 {
      var j :| 0 <= j < |list| && list[j] == x;
      assert l2[if j < k then j else j - 1] == x;
    }
  }

  /** Moving node k of the active list to the front of the free list. */
  lemma PartitionFree(used: seq<int>, avail: seq<int>, k: nat, n: nat)
    requires Partition(used, avail, n) && k < |used|
    ensures Partition(Without(used, k), [used[k]] + avail, n)
  {
    WithoutDistinct(used, k);
    var u2, a2 := Without(used, k), [used[k]] + avail;
    forall i | 0 <= i < n ensures i in u2 || i in a2 {
      if i in avail {
        var j :| 0 <= j < |avail| && avail[j] == i;
        assert a2[j + 1] == i;
      } else if i == used[k] {
        assert a2[0] == i;
      }
    }
    forall i, j | 0 <= i < |u2| && 0 <= j < |a2| ensures u2[i] != a2[j] {
      assert u2[i] == used[if i < k then i else i + 1];
    }
  }

  lemma PartitionNew(used: seq<int>, avail: seq<int>, n: nat)
    requires Partition(used, avail, n) && avail != []
    ensures Partition([avail[0]] + used, avail[1..], n)
  {
    var u2, a2 := [avail[0]] + used, avail[1..];
    forall i | 0 <= i < n ensures i in u2 || i in a2 {
      if i in used {
        var j :| 0 <= j < |used| && used[j] == i;
        assert u2[j + 1] == i;
      } else {
        var j :| 0 <= j < |avail| && avail[j] == i;
        if j == 0 { assert u2[0] == i; } else { assert a2[j - 1] == i; }
      }
    }
  }

  ghost function Nodes(list: seq<int>): set<int> { set k | 0 <= k < |list| :: list[k] }

  lemma {:induction false} DistinctCount(list: seq<int>)
    requires Distinct(list)
    ensures |Nodes(list)| == |list|
  {
    if list != [] {
      var n := |list| - 1;
      DistinctCount(list[..n]);
      assert Nodes(list) == Nodes(list[..n]) + {list[n]};
    }
  }

  /** The numbers below n. */
  ghost function Below(n: nat): (r: set<int>)
    ensures |r| == n && forall i: int {:trigger i in r} :: i in r <==> 0 <= i < n
  {
    if n == 0 then {} else Below(n - 1) + {n - 1}
  }

  ghost predicate InRange(list: seq<int>, n: nat) { forall k :: 0 <= k < |list| ==> 0 <= list[k] < n }

  /** Active and free watchpoints add up to the pool, so adding one fails only when all are active. */
  lemma PoolIsConserved(used: seq<int>, avail: seq<int>, n: nat)
    requires InRange(used, n) && InRange(avail, n) && Partition(used, avail, n)
    ensures |used| + |avail| == n
  {
    DistinctCount(used);
    DistinctCount(avail);
    AllNodes(used, avail, n);
  }

  lemma AllNodes(used: seq<int>, avail: seq<int>, n: nat)
    requires InRange(used, n) && InRange(avail, n) && Partition(used, avail, n)
    ensures Nodes(used) + Nodes(avail) == Below(n)
    ensures Nodes(used) !! Nodes(avail)
  {
    forall i | 0 <= i < n ensures i in Nodes(used) + Nodes(avail) {
      if i in used {
        var k :| 0 <= k < |used| && used[k] == i;
        assert i in Nodes(used);
      } else {
        var k :| 0 <= k < |avail| && avail[k] == i;
        assert i in Nodes(avail);
      }
    }
  }

  lemma DecreasingWithout(cnt: seq<int>, list: seq<int>, k: nat)
    requires Decreasing(cnt, list) && k < |list|
    ensures Decreasing(cnt, Without(list, k))
  {
    var l2 := Without(list, k);
    forall i, j | 0 <= i < j < |l2| ensures cnt[l2[i]] > cnt[l2[j]] {
      assert l2[i] == list[if i < k then i else i + 1] && l2[j] == list[if j < k then j else j + 1];
    }
  }

  /** The number after the newest one. */
  function NextNumber(cnt: seq<int>, list: seq<int>): int {
    if list != [] && 0 <= list[0] < |cnt| then cnt[list[0]] + 1 else 1
  }

  lemma DecreasingPush(cnt: seq<int>, list: seq<int>, x: int)
    requires Decreasing(cnt, list) && x !in list && 0 <= x < |cnt|
    ensures Decreasing(cnt[x := NextNumber(cnt, list)], [x] + list)
  {
    var c2, l2 := cnt[x := NextNumber(cnt, list)], [x] + list;
    forall j, k | 0 <= j < k < |l2| ensures c2[l2[j]] > c2[l2[k]] {
      assert l2[k] == list[k - 1];
      if j > 0 { assert l2[j] == list[j - 1]; }
    }
  }

  /** A number names at most one watchpoint. */
  lemma NumberIsUnique(cnt: seq<int>, list: seq<int>, j: nat, k: nat)
    requires Decreasing(cnt, list) && j < |list| && k < |list| && cnt[list[j]] == cnt[list[k]]
    ensures j == k
  {}

  // ----- the commands on the list of active numbers -----

  datatype Command = W | D(num: int)

  /** w puts the next number in front; None stands for the abort when the pool is exhausted. d takes a number out. */
  function Play(cmds: seq<Command>): Option<seq<int>> {
    if cmds == [] then Some([])
    else
      var c := cmds[|cmds| - 1];
      match Play(cmds[..|cmds| - 1])
      case None => None
      case Some(list) => if c == W && |list| >= NR_WP then None else Some(Performed(c, list))
  }

  function Performed(c: Command, list: seq<int>): seq<int> {
    match c
    case W => [if list == [] then 1 else list[0] + 1] + list
    case D(num) => Remove(list, num)
  }

  function Remove(list: seq<int>, n: int): seq<int> {
    if list == [] then [] else if list[0] == n then list[1..] else [list[0]] + Remove(list[1..], n)
  }

  function Numbers(cnt: seq<int>, list: seq<int>): (r: seq<int>)
    requires forall k :: 0 <= k < |list| ==> 0 <= list[k] < |cnt|
    ensures |r| == |list| && forall k {:trigger r[k]} :: 0 <= k < |r| ==> r[k] == cnt[list[k]]
  {
    if list == [] then [] else [cnt[list[0]]] + Numbers(cnt, list[1..])
  }

  lemma {:induction false} RemoveAt(list: seq<int>, k: nat)
    requires k < |list| && forall i :: 0 <= i < k ==> list[i] != list[k]
    ensures Remove(list, list[k]) == Without(list, k)
  {
    if k > 0 {
      var t := list[1..];
      RemoveAt(t, k - 1);
      TailWithout(list, k);
    } else {
      assert Without(list, 0) == list[1..];
    }
  }

  lemma TailWithout(list: seq<int>, k: nat)
    requires 0 < k < |list|
    ensures Without(list, k) == [list[0]] + Without(list[1..], k - 1)
  {
    var t := list[1..];
    assert list[..k] == [list[0]] + t[..k - 1];
    assert list[k + 1..] == t[k..];
  }

  lemma {:induction false} RemoveNothing(list: seq<int>, n: int)
    requires n !in list
    ensures Remove(list, n) == list
  {
    if list != [] { RemoveNothing(list[1..], n); }
  }

  lemma NumbersPush(cnt: seq<int>, list: seq<int>, x: int, v: int)
    requires Decreasing(cnt, list) && x !in list && 0 <= x < |cnt|
    ensures Numbers(cnt[x := v], [x] + list) == [v] + Numbers(cnt, list)
  {
    var l2 := [x] + list;
    forall k | 0 <= k < |l2| ensures cnt[x := v][l2[k]] == ([v] + Numbers(cnt, list))[k] {
      if k > 0 { assert l2[k] == list[k - 1]; }
    }
  }

  lemma WithoutAt(list: seq<int>, k: nat, i: nat)
    requires k < |list| && i < |list| - 1
    ensures |Without(list, k)| == |list| - 1 && Without(list, k)[i] == list[if i < k then i else i + 1]
  {}

  lemma NumbersOfWithout(cnt: seq<int>, list: seq<int>, k: nat)
    requires Decreasing(cnt, list) && k < |list|
    ensures Decreasing(cnt, Without(list, k)) && Numbers(cnt, Without(list, k)) == Without(Numbers(cnt, list), k)
  {
    DecreasingWithout(cnt, list, k);
    forall i | 0 <= i < |list| - 1 ensures Numbers(cnt, Without(list, k))[i] == Without(Numbers(cnt, list), k)[i] {
      WithoutAt(list, k, i);
      WithoutAt(Numbers(cnt, list), k, i);
    }
  }

  lemma NumbersWithout(cnt: seq<int>, list: seq<int>, k: nat)
    requires Decreasing(cnt, list) && k < |list|
    ensures Decreasing(cnt, Without(list, k))
            && Numbers(cnt, Without(list, k)) == Remove(Numbers(cnt, list), cnt[list[k]])
  {
    NumbersOfWithout(cnt, list, k);
    RemoveAt(Numbers(cnt, list), k);
  }

  /** Numbers stay positive and strictly decreasing. */
  ghost predicate Descending(list: seq<int>) {
    && (forall k :: 0 <= k < |list| ==> list[k] >= 1)
    && (forall j, k :: 0 <= j < k < |list| ==> list[j] > list[k])
  }

  lemma {:induction false} RemoveDescends(list: seq<int>, n: int)
    requires Descending(list)
    ensures Descending(Remove(list, n)) && forall x :: x in Remove(list, n) ==> x in list
  {
    if list != [] {
      RemoveDescends(list[1..], n);
      if list[0] != n {
        var r := Remove(list[1..], n);
        forall k | 0 <= k < |r| ensures list[0] > r[k] { assert r[k] in r; }
      }
    }
  }

  lemma {:induction false} PlayDescends(cmds: seq<Command>)
    requires Play(cmds).Some?
    ensures Descending(Play(cmds).value) && |Play(cmds).value| <= NR_WP
  {
    if cmds != [] {
      var n := |cmds| - 1;
      PlayDescends(cmds[..n]);
      var list := Play(cmds[..n]).value;
      if cmds[n].D? { RemoveDescends(list, cmds[n].num); RemoveShrinks(list, cmds[n].num); }
    }
  }

  lemma {:induction false} RemoveShrinks(list: seq<int>, n: int)
    ensures |Remove(list, n)| <= |list|
  {
    if list != [] { RemoveShrinks(list[1..], n); }
  }

  class Pool {
    const no: array<int>
    const next: array<int>
    const cnt: array<int>
    var head: int
    var free: int
    ghost var used: seq<int>
    ghost var avail: seq<int>

    ghost predicate Shape() {
      && no.Length == next.Length == cnt.Length == NR_WP
      && no != next && no != cnt && next != cnt
    }

    /** Both lists are acyclic, disjoint and together hold all nodes. */
    ghost predicate Lists()
      reads this, no, next
    {
      && Shape()
      && (forall i :: 0 <= i < NR_WP ==> no[i] == i)
      && Links(next[..], head, used) && Links(next[..], free, avail)
      && Partition(used, avail, NR_WP)
    }

    ghost predicate Valid()
      reads this, no, next, cnt
    {
      Lists() && Decreasing(cnt[..], used)
    }

    /** init_wp_pool */
    constructor ()
      ensures Valid() && used == [] && Contents() == [] && fresh(no) && fresh(next) && fresh(cnt)
    {
      no := new int[NR_WP];
      next := new int[NR_WP];
      cnt := new int[NR_WP](i => 0);
      new;
      for i := 0 to NR_WP
        invariant forall j :: 0 <= j < i ==> no[j] == j && next[j] == if j == NR_WP - 1 then NULL else j + 1
      {
        no[i] := i;
        next[i] := if i == NR_WP - 1 then NULL else i + 1;
      }
      head := NULL;
      free := 0;
      used := [];
      avail := seq(NR_WP, i => i);
      forall i | 0 <= i < NR_WP ensures i in avail { assert avail[i] == i; }
    }

    /** None when all are in use, where the program aborts. */
    method NewWp() returns (ok: bool)
      requires Lists()
      modifies this, next
      ensures Lists()
      ensures ok <==> old(avail) != []
      ensures !ok ==> used == old(used) && avail == old(avail)
      ensures ok ==> used == [old(avail)[0]] + old(used) && avail == old(avail)[1..] && head == used[0]
      ensures ok ==> next[head] == At(old(used), 0)
    {
      if free == NULL {
        return false;
      }
      ghost var links := next[..];
      LinksPop(links, free, avail);
      PartitionNew(used, avail, NR_WP);
      assert free !in used && free !in avail[1..];
      LinksElsewhere(links, links[free], avail[1..], free, head);
      LinksPush(links, head, used, free);
      var tmp := next[free];
      next[free] := head;
      assert next[..] == links[free := head];
      head := free;
      free := tmp;
      used, avail := [avail[0]] + used, avail[1..];
      ok := true;
    }

    /** cmd_w: the new watchpoint takes the number after the newest one. */
    method Add() returns (ok: bool, number: int)
      requires Valid()
      modifies this, next, cnt
      ensures Valid()
      ensures ok <==> old(avail) != []
      ensures !ok ==> used == old(used) && avail == old(avail)
      ensures ok ==> used == [old(avail)[0]] + old(used) && number == NextNumber(old(cnt[..]), old(used))
      ensures ok ==> cnt[..] == old(cnt[..])[used[0] := number]
      ensures ok ==> Numbers(cnt[..], used) == [number] + old(Numbers(cnt[..], used))
    {
      ghost var number0 := NextNumber(cnt[..], used);
      ok := NewWp();
      number := 0;
      if ok {
        assert head !in old(used);
        DecreasingPush(cnt[..], old(used), head);
        number := if next[head] == NULL then 1 else cnt[next[head]] + 1;
        assert number == number0;
        NumbersPush(cnt[..], old(used), head, number);
        cnt[head] := number;
        assert cnt[..] == old(cnt[..])[head := number];
      }
    }

    /** free_wp: a node of the active list moves to the free list; any other node is left where it is. */
    method FreeWp(wp: int) returns (ghost k: int)
      requires Lists() && 0 <= wp < NR_WP
      modifies this, next
      ensures Lists()
      ensures wp in old(used) ==> 0 <= k < |old(used)| && old(used)[k] == wp
      ensures wp in old(used) ==> used == Without(old(used), k) && avail == [wp] + old(avail)
      ensures wp !in old(used) ==> used == old(used) && avail == old(avail)
    {
      k := -1;
      if head == NULL {
        return;
      }
      if no[wp] == no[head] {
        k := 0;
        MoveToFree(0, wp, wp);
        return;
      }
      var tmp := head;
      ghost var j := 0;
      while next[tmp] != NULL
        invariant 0 <= j < |used| && tmp == used[j]
        invariant forall i :: 0 <= i <= j ==> used[i] != wp
        decreases |used| - j
      {
        assert next[used[j]] == At(used, j + 1);
        if no[wp] == no[next[tmp]] {
          k := j + 1;
          MoveToFree(j + 1, tmp, wp);
          return;
        }
        tmp := next[tmp];
        j := j + 1;
      }
      assert next[used[j]] == At(used, j + 1);
    }

    /** Node k of the active list, whose predecessor is prev, is unlinked. */
    method Unlink(ghost k: nat, prev: int, wp: int)
      requires Lists() && k < |used| && used[k] == wp && (k > 0 ==> prev == used[k - 1]) && (k == 0 <==> wp == head)
      modifies this`head, next
      ensures Links(next[..], head, Without(used, k)) && Links(next[..], free, avail)
    {
      ghost var links := next[..];
      if wp == head {
        LinksPop(links, head, used);
        assert used[1..] == Without(used, 0);
        head := next[wp];
      } else {
        LinksUnlink(links, head, used, k);
        LinksElsewhere(links, free, avail, prev, next[wp]);
        next[prev] := next[wp];
        assert next[..] == links[prev := links[wp]];
      }
    }

    /** and pushed on the free list. */
    method MoveToFree(ghost k: nat, prev: int, wp: int)
      requires Lists() && k < |used| && used[k] == wp && (k > 0 ==> prev == used[k - 1]) && (k == 0 <==> wp == head)
      modifies this, next
      ensures Lists() && used == Without(old(used), k) && avail == [wp] + old(avail)
    {
      PartitionFree(used, avail, k, NR_WP);
      WithoutDistinct(used, k);
      Unlink(k, prev, wp);
      ghost var links := next[..];
      LinksElsewhere(links, head, Without(used, k), wp, free);
      LinksPush(links, free, avail, wp);
      next[wp] := free;
      assert next[..] == links[wp := free];
      free := wp;
      used, avail := Without(used, k), [wp] + avail;
    }

    /** cmd_d: deletes the watchpoint with this number, if there is one, and no other. */
    method Delete(num: int) returns (found: bool, ghost k: int)
      requires Valid()
      modifies this, next
      ensures Valid()
      ensures found <==> exists j :: 0 <= j < |old(used)| && cnt[old(used)[j]] == num
      ensures found ==> 0 <= k < |old(used)| && cnt[old(used)[k]] == num
      ensures found ==> used == Without(old(used), k) && avail == [old(used)[k]] + old(avail)
      ensures !found ==> used == old(used) && avail == old(avail)
    {
      k := -1;
      var tmp := head;
      if tmp == NULL {
        return false, k;
      }
      if num > cnt[tmp] {
        assert forall j :: 0 <= j < |used| ==> cnt[used[j]] <= cnt[used[0]];
        return false, k;
      }
      ghost var j := 0;
      while tmp != NULL
        invariant 0 <= j <= |used| && tmp == At(used, j)
        invariant forall i :: 0 <= i < j ==> cnt[used[i]] != num
        decreases |used| - j
      {
        assert j < |used| && tmp == used[j] && next[used[j]] == At(used, j + 1);
        if cnt[tmp] == num {
          ghost var u := used;
          k := FreeWp(tmp);
          assert k == j;
          DecreasingWithout(cnt[..], u, j);
          return true, k;
        }
        tmp := next[tmp];
        j := j + 1;
      }
      assert j == |used|;
      return false, k;
    }

    /** Walking the active list, as `info w` does. */
    method Active() returns (numbers: seq<int>)
      requires Valid()
      ensures numbers == Contents()
    {
      numbers := [];
      var tmp := head;
      ghost var j := 0;
      while tmp != NULL
        invariant 0 <= j <= |used| && tmp == At(used, j)
        invariant numbers == Numbers(cnt[..], used[..j])
        decreases |used| - j
      {
        assert j < |used| && tmp == used[j] && next[used[j]] == At(used, j + 1);
        assert used[..j + 1] == used[..j] + [used[j]];
        numbers := numbers + [cnt[tmp]];
        tmp := next[tmp];
        j := j + 1;
      }
      assert j == |used| && used[..j] == used;
    }

    /** The active numbers, newest first. */
    ghost function Contents(): seq<int>
      requires Valid()
      reads this, no, next, cnt
    {
      Numbers(cnt[..], used)
    }

    method PerformW() returns (ok: bool)
      requires Valid()
      modifies this, next, cnt
      ensures Valid()
      ensures ok <==> |old(Contents())| < NR_WP
      ensures ok ==> Contents() == Performed(W, old(Contents()))
    {
      PoolIsConserved(used, avail, NR_WP);
      var number;
      ok, number := Add();
    }

    method PerformD(num: int)
      requires Valid()
      modifies this, next
      ensures Valid()
      ensures Contents() == Performed(D(num), old(Contents()))
    {
      ghost var u := used;
      var found;
      ghost var k;
      found, k := Delete(num);
      if found {
        NumbersWithout(cnt[..], u, k);
      } else {
        RemoveNothing(Numbers(cnt[..], u), num);
      }
    }

    /** One command, as the abstract list performs it; false when the program aborts. */
    method Perform(c: Command) returns (ok: bool)
      requires Valid()
      modifies this, next, cnt
      ensures Valid()
      ensures !ok <==> c == W && |old(Contents())| >= NR_WP
      ensures ok ==> Contents() == Performed(c, old(Contents()))
    {
      if c == W {
        ok := PerformW();
      } else {
        PerformD(c.num);
        ok := true;
      }
    }
  }

  /** A whole session: after any commands the active numbers are those of the abstract list. */
  method Session(cmds: seq<Command>) returns (numbers: Option<seq<int>>)
    ensures numbers == Play(cmds)
  {
    var pool := new Pool();
    var i := 0;
    ghost var list := pool.Contents();
    assert cmds[..0] == [];
    while i < |cmds|
      invariant 0 <= i <= |cmds| && pool.Valid()
      invariant fresh(pool) && fresh(pool.no) && fresh(pool.next) && fresh(pool.cnt)
      invariant Play(cmds[..i]) == Some(list) && pool.Contents() == list
    {
      PlayStep(cmds, i, list);
      var ok := pool.Perform(cmds[i]);
      if !ok {
        PlayStops(cmds, i + 1);
        return None;
      }
      list := Performed(cmds[i], list);
      i := i + 1;
    }
    assert cmds[..i] == cmds;
    var active := pool.Active();
    numbers := Some(active);
  }

  lemma PlayStep(cmds: seq<Command>, i: nat, list: seq<int>)
    requires i < |cmds| && Play(cmds[..i]) == Some(list)
    ensures Play(cmds[..i + 1]) == if cmds[i] == W && |list| >= NR_WP then None else Some(Performed(cmds[i], list))
  {
    assert cmds[..i + 1][..i] == cmds[..i];
  }

  lemma {:induction false} PlayStops(cmds: seq<Command>, i: nat)
    requires i <= |cmds| && Play(cmds[..i]) == None
    ensures Play(cmds) == None
    decreases |cmds|
  {
    if i == |cmds| {
      assert cmds[..i] == cmds;
    } else {
      var n := |cmds| - 1;
      assert cmds[..n][..i] == cmds[..i];
      PlayStops(cmds[..n], i);
    }
  }
}

/** The set-associative cache simulator with random replacement (npc/tools/cachesim/cachesim.cpp:20-91). */
module CacheSim {
  import opened Bits
  import opened Options

  type Addr = a: nat | a < 0x1_0000_0000

  datatype Line = Line(index: nat, tag: nat)

  /** (addr >> OFFSET_WIDTH) & ((1 << SET_WIDTH) - 1) */
  function MaskedShift(offset: nat, setWidth: nat, a: Addr): nat {
    Bitwise(AndOp, Shr(a, offset), Pow2(setWidth) - 1, 32)
  }

  function FindSet(offset: nat, setWidth: nat, a: Addr): (s: nat)
    ensures setWidth <= 32 ==> s == Low(Shr(a, offset), setWidth) && s < Pow2(setWidth)
  {
    MaskIsLow(offset, setWidth, a);
    MaskedShift(offset, setWidth, a)
  }

  function FindTag(offset: nat, setWidth: nat, a: Addr): nat {
    Shr(a, offset + setWidth)
  }

  function LineOf(offset: nat, setWidth: nat, a: Addr): Line {
    Line(FindSet(offset, setWidth, a), FindTag(offset, setWidth, a))
  }

  lemma MaskIsLow(offset: nat, setWidth: nat, a: Addr)
    ensures setWidth <= 32 ==> MaskedShift(offset, setWidth, a) == Low(Shr(a, offset), setWidth) < Pow2(setWidth)
  {
    if setWidth <= 32 {
      Pow2At32();
      ShrShrinks(a, offset);
      AndLow(Shr(a, offset), setWidth, 32);
      ShrLow(Shr(a, offset), setWidth);
    }
  }

  /** Set and tag together identify a memory block of 2^offset bytes, and nothing less. */
  lemma LineIsBlock(offset: nat, setWidth: nat, a: Addr, b: Addr)
    requires setWidth <= 32
    ensures LineOf(offset, setWidth, a) == LineOf(offset, setWidth, b) <==> Shr(a, offset) == Shr(b, offset)
  {
    ShrShr(a, offset, setWidth);
    ShrShr(b, offset, setWidth);
    ShrLow(Shr(a, offset), setWidth);
    ShrLow(Shr(b, offset), setWidth);
  }

  // ----- what a trace touches -----

  ghost function Lines(offset: nat, setWidth: nat, trace: seq<Addr>): set<Line> {
    set k | 0 <= k < |trace| :: LineOf(offset, setWidth, trace[k])
  }

  lemma LinesGrow(offset: nat, setWidth: nat, trace: seq<Addr>, a: Addr)
    ensures Lines(offset, setWidth, trace + [a]) == Lines(offset, setWidth, trace) + {LineOf(offset, setWidth, a)}
  {
    var t2 := trace + [a];
    forall x | x in Lines(offset, setWidth, trace) ensures x in Lines(offset, setWidth, t2) {
      var k :| 0 <= k < |trace| && x == LineOf(offset, setWidth, trace[k]);
      assert t2[k] == trace[k];
    }
    assert t2[|trace|] == a;
  }

  /** The tags seen in one set. */
  ghost function TagsIn(lines: set<Line>, index: nat): set<nat> {
    set x | x in lines && x.index == index :: x.tag
  }

  lemma TagsGrow(lines: set<Line>, x: Line, index: nat)
    ensures TagsIn(lines + {x}, index) == TagsIn(lines, index) + (if x.index == index then {x.tag} else {})
  {
    var l2 := lines + {x};
    forall t | t in TagsIn(lines, index) ensures t in TagsIn(l2, index) {
      var y :| y in lines && y.index == index && y.tag == t;
      assert y in l2;
    }
    if x.index == index { assert x in l2; }
  }

  /** No set sees more distinct tags than it has ways. */
  ghost predicate Fits(lines: set<Line>, sets: nat, ways: nat) {
    forall s {:trigger TagsIn(lines, s)} :: 0 <= s < sets ==> |TagsIn(lines, s)| <= ways
  }

  lemma FitsShrinks(lines: set<Line>, x: Line, sets: nat, ways: nat)
    requires Fits(lines + {x}, sets, ways)
    ensures Fits(lines, sets, ways)
  {
    forall s {:trigger TagsIn(lines, s)} | 0 <= s < sets ensures |TagsIn(lines, s)| <= ways {
      TagsGrow(lines, x, s);
      SubsetSize(TagsIn(lines, s), TagsIn(lines + {x}, s));
    }
  }

  lemma {:induction false} SubsetSize(a: set<nat>, b: set<nat>)
    requires a <= b
    ensures |a| <= |b|
    decreases |a|
  {
    if a != {} {
      var x :| x in a;
      SubsetSize(a - {x}, b - {x});
    }
  }

  lemma {:induction false} DistinctSize(tags: seq<nat>, seen: set<nat>)
    requires forall i, j :: 0 <= i < j < |tags| ==> tags[i] != tags[j]
    requires forall i :: 0 <= i < |tags| ==> tags[i] in seen
    ensures |tags| <= |seen|
  {
    if tags != [] {
      var n := |tags| - 1;
      DistinctSize(tags[..n], seen - {tags[n]});
    }
  }

  // ----- one set: what each way holds -----

  /** Valid ways form a prefix, hold different tags, and every tag held was seen. */
  ghost predicate RowOk(row: seq<Option<nat>>, seen: set<nat>) {
    && (forall i, j :: 0 <= i < j < |row| && row[j].Some? ==> row[i].Some? && row[i] != row[j])
    && (forall i :: 0 <= i < |row| && row[i].Some? ==> row[i].value in seen)
  }

  /** A set that never saw more tags than it has ways still holds them all. */
  ghost predicate RowRetains(row: seq<Option<nat>>, seen: set<nat>) {
    |seen| <= |row| ==> forall t :: t in seen ==> Some(t) in row
  }

  /** The way the simulator fills: the first invalid one, or any if there is none. */
  ghost predicate Victim(row: seq<Option<nat>>, w: int) {
    && 0 <= w < |row|
    && (row[w].Some? ==> forall i :: 0 <= i < |row| ==> row[i].Some?)
    && (forall i :: 0 <= i < w ==> row[i].Some?)
  }

  lemma FullRow(row: seq<Option<nat>>, seen: set<nat>)
    requires RowOk(row, seen) && forall i :: 0 <= i < |row| ==> row[i].Some?
    ensures |row| <= |seen|
  {
    var tags := seq(|row|, i requires 0 <= i < |row| => row[i].value);
    DistinctSize(tags, seen);
  }

  lemma InsertOk(row: seq<Option<nat>>, seen: set<nat>, t: nat, w: int)
    requires RowOk(row, seen) && Some(t) !in row
    requires Victim(row, w) || (0 <= w < |row| && forall i :: 0 <= i < |row| ==> row[i].Some?)
    ensures RowOk(row[w := Some(t)], seen + {t})
  {}

  lemma InsertRetains(row: seq<Option<nat>>, seen: set<nat>, t: nat, w: int)
    requires RowOk(row, seen) && RowRetains(row, seen) && Some(t) !in row
    requires Victim(row, w) || (0 <= w < |row| && forall i :: 0 <= i < |row| ==> row[i].Some?)
    ensures RowRetains(row[w := Some(t)], seen + {t})
  {
    var row2 := row[w := Some(t)];
    if |seen + {t}| <= |row| {
      SubsetSize(seen, seen + {t});
      assert t !in seen;
      if row[w].Some? { FullRow(row, seen); }
      assert row[w] == None;
      forall x | x in seen + {t} ensures Some(x) in row2 {
        if x == t {
          assert row2[w] == Some(t);
        } else {
          var i :| 0 <= i < |row| && row[i] == Some(x);
          assert row2[i] == Some(x);
        }
      }
    }
  }

  /** The counting argument: a miss on a line seen before needs a set with too many tags. */
  lemma CountStep(lines: set<Line>, x: Line, sets: nat, ways: nat, misses: nat, hit: bool, row: seq<Option<nat>>)
    requires misses >= |lines| && (Fits(lines, sets, ways) ==> misses == |lines|)
    requires x.index < sets && |row| == ways
    requires RowOk(row, TagsIn(lines, x.index)) && RowRetains(row, TagsIn(lines, x.index))
    requires hit <==> Some(x.tag) in row
    ensures hit ==> x in lines
    ensures var m := misses + (if hit then 0 else 1);
            m >= |lines + {x}| && (Fits(lines + {x}, sets, ways) ==> m == |lines + {x}|)
  {
    if hit {
      assert x.tag in TagsIn(lines, x.index);
      assert x in lines;
      assert lines + {x} == lines;
    } else if Fits(lines + {x}, sets, ways) {
      FitsShrinks(lines, x, sets, ways);
      assert x in lines ==> x.tag in TagsIn(lines, x.index);
      assert |TagsIn(lines, x.index)| <= ways;
      assert x !in lines;
    }
  }

  /** One set before and after an access to line x. */
  lemma RowStep(lines: set<Line>, x: Line, s: nat, row: seq<Option<nat>>, row2: seq<Option<nat>>, w: int)
    requires RowOk(row, TagsIn(lines, s)) && RowRetains(row, TagsIn(lines, s))
    requires if x.index != s || Some(x.tag) in row then row2 == row
             else (&& 0 <= w < |row| && row2 == row[w := Some(x.tag)]
                   && (Victim(row, w) || forall i :: 0 <= i < |row| ==> row[i].Some?))
    ensures RowOk(row2, TagsIn(lines + {x}, s)) && RowRetains(row2, TagsIn(lines + {x}, s))
  {
    TagsGrow(lines, x, s);
    if x.index == s {
      if Some(x.tag) in row {
        assert x.tag in TagsIn(lines, s);
        assert TagsIn(lines + {x}, s) == TagsIn(lines, s);
      } else {
        InsertOk(row, TagsIn(lines, s), x.tag, w);
        InsertRetains(row, TagsIn(lines, s), x.tag, w);
      }
    }
  }

  class Cache {
    const offset: nat
    const setWidth: nat
    const ways: nat
    const valids: array2<bool>
    const tags: array2<nat>
    var accesses: nat
    var hits: nat
    var misses: nat
    ghost var trace: seq<Addr>

    ghost predicate Shape() {
      && setWidth <= 32 && ways >= 1
      && valids.Length0 == tags.Length0 == Pow2(setWidth) && valids.Length1 == tags.Length1 == ways
      && (valids as object) != tags
    }

    ghost function Seen(): set<Line>
      reads this`trace
    {
      Lines(offset, setWidth, trace)
    }

    /** What the ways of set s hold. */
    ghost function Row(s: int): seq<Option<nat>>
      reads valids, tags
      requires Shape() && 0 <= s < Pow2(setWidth)
    {
      Prefix(s, ways)
    }

    ghost function Prefix(s: int, n: nat): (row: seq<Option<nat>>)
      reads valids, tags
      requires Shape() && 0 <= s < Pow2(setWidth) && n <= ways
      ensures |row| == n
      ensures forall i {:trigger row[i]} :: 0 <= i < n ==> row[i] == if valids[s, i] then Some(tags[s, i]) else None
    {
      if n == 0 then [] else Prefix(s, n - 1) + [if valids[s, n - 1] then Some(tags[s, n - 1]) else None]
    }

    ghost predicate SetOk(s: int)
      reads this`trace, valids, tags
      requires Shape() && 0 <= s < Pow2(setWidth)
    {
      RowOk(Row(s), TagsIn(Seen(), s)) && RowRetains(Row(s), TagsIn(Seen(), s))
    }

    ghost predicate Valid()
      reads this, valids, tags
    {
      && Shape()
      && (forall s {:trigger SetOk(s)} :: 0 <= s < Pow2(setWidth) ==> SetOk(s))
      && accesses == hits + misses == |trace|
      && misses >= |Seen()|
      && (Fits(Seen(), Pow2(setWidth), ways) ==> misses == |Seen()|)
    }

    constructor (offset: nat, setWidth: nat, wayWidth: nat)
      requires setWidth <= 32
      ensures Valid() && fresh(valids) && fresh(tags) && trace == [] && ways == Pow2(wayWidth)
      ensures this.offset == offset && this.setWidth == setWidth
    {
      this.offset := offset;
      this.setWidth := setWidth;
      this.ways := Pow2(wayWidth);
      valids := new bool[Pow2(setWidth), Pow2(wayWidth)]((i, j) => false);
      tags := new nat[Pow2(setWidth), Pow2(wayWidth)]((i, j) => 0);
      accesses, hits, misses := 0, 0, 0;
      trace := [];
      new;
      forall s | 0 <= s < Pow2(this.setWidth) ensures SetOk(s) {
        assert TagsIn(Seen(), s) == {};
      }
    }

    method Lookup(s: nat, t: nat) returns (hit: bool)
      requires Shape() && s < Pow2(setWidth)
      ensures hit <==> Some(t) in Row(s)
    {
      hit := false;
      var i := 0;
      while i < ways
        invariant 0 <= i <= ways
        invariant forall k :: 0 <= k < i ==> Row(s)[k] != Some(t)
      {
        if valids[s, i] && tags[s, i] == t {
          assert Row(s)[i] == Some(t);
          return true;
        }
        i := i + 1;
      }
    }

    /** One way of one set changes. */
    method Put(s: nat, w: nat, t: nat)
      requires Shape() && s < Pow2(setWidth) && w < ways
      modifies valids, tags
      ensures Shape() && Row(s) == old(Row(s))[w := Some(t)]
      ensures forall s2 {:trigger Row(s2)} :: 0 <= s2 < Pow2(setWidth) && s2 != s ==> Row(s2) == old(Row(s2))
    {
      valids[s, w] := true;
      tags[s, w] := t;
      forall s2 {:trigger Row(s2)} | 0 <= s2 < Pow2(setWidth) && s2 != s ensures Row(s2) == old(Row(s2)) {
        assert forall k :: 0 <= k < ways ==> Row(s2)[k] == old(Row(s2))[k];
      }
      assert forall k :: 0 <= k < ways ==> Row(s)[k] == old(Row(s))[w := Some(t)][k];
    }

    method Insert(s: nat, t: nat) returns (ghost w: int)
      requires Shape() && s < Pow2(setWidth)
      modifies valids, tags
      ensures Shape()
      ensures 0 <= w < ways && (Victim(old(Row(s)), w) || forall i :: 0 <= i < ways ==> old(Row(s))[i].Some?)
      ensures Row(s) == old(Row(s))[w := Some(t)]
      ensures forall s2 {:trigger Row(s2)} :: 0 <= s2 < Pow2(setWidth) && s2 != s ==> Row(s2) == old(Row(s2))
    {
      var i := 0;
      while i < ways
        invariant 0 <= i < ways
        invariant forall k :: 0 <= k < i ==> Row(s)[k].Some?
      {
        if !valids[s, i] {
          Put(s, i, t);
          w := i;
          return;
        } else if i == ways - 1 {
          var way: nat :| way < ways;
          Put(s, way, t);
          w := way;
          return;
        }
        i := i + 1;
      }
    }

    /** The search and, on a miss, the replacement. */
    method Touch(s: nat, t: nat) returns (hit: bool, ghost w: int)
      requires Shape() && s < Pow2(setWidth)
      modifies valids, tags
      ensures hit <==> Some(t) in old(Row(s))
      ensures hit ==> Row(s) == old(Row(s))
      ensures !hit ==> 0 <= w < ways && Row(s) == old(Row(s))[w := Some(t)]
      ensures !hit ==> Victim(old(Row(s)), w) || forall i :: 0 <= i < ways ==> old(Row(s))[i].Some?
      ensures forall s2 {:trigger Row(s2)} :: 0 <= s2 < Pow2(setWidth) && s2 != s ==> Row(s2) == old(Row(s2))
    {
      hit := Lookup(s, t);
      w := -1;
      if !hit {
        w := Insert(s, t);
      }
    }

    method Record(pc: Addr, hit: bool)
      modifies this
      ensures trace == old(trace) + [pc] && accesses == old(accesses) + 1
      ensures hits == old(hits) + (if hit then 1 else 0) && misses == old(misses) + (if hit then 0 else 1)
    {
      accesses := accesses + 1;
      if hit { hits := hits + 1; } else { misses := misses + 1; }
      trace := trace + [pc];
    }

    /** One access of the trace: a hit exactly if the line is in its set, and then it was accessed before. */
    method Access(pc: Addr) returns (hit: bool)
      requires Valid()
      modifies this, valids, tags
      ensures Valid()
      ensures trace == old(trace) + [pc]
      ensures hit <==> Some(FindTag(offset, setWidth, pc)) in old(Row(FindSet(offset, setWidth, pc)))
      ensures hit ==> LineOf(offset, setWidth, pc) in Lines(offset, setWidth, old(trace))
      ensures hits == old(hits) + (if hit then 1 else 0)
    {
      var s, t := FindSet(offset, setWidth, pc), FindTag(offset, setWidth, pc);
      ghost var x, lines, n := Line(s, t), Seen(), Pow2(setWidth);
      assert SetOk(s);
      ghost var w;
      hit, w := Touch(s, t);
      CountStep(lines, x, n, ways, misses, hit, old(Row(s)));
      Record(pc, hit);
      LinesGrow(offset, setWidth, old(trace), pc);
      forall s2 {:trigger SetOk(s2)} | 0 <= s2 < n ensures SetOk(s2) {
        assert old(SetOk(s2));
        RowStep(lines, x, s2, old(Row(s2)), Row(s2), w);
      }
    }
  }

  /** The whole program on a trace, for every choice of victims: misses are at least the lines touched,
      and exactly those when no set is asked for more tags than it has ways. */
  method Simulate(offset: nat, setWidth: nat, wayWidth: nat, pcs: seq<Addr>) returns (hits: nat, misses: nat)
    requires setWidth <= 32
    ensures hits + misses == |pcs|
    ensures misses >= |Lines(offset, setWidth, pcs)|
    ensures Fits(Lines(offset, setWidth, pcs), Pow2(setWidth), Pow2(wayWidth)) ==>
            misses == |Lines(offset, setWidth, pcs)|
  {
    var cache := new Cache(offset, setWidth, wayWidth);
    var i := 0;
    while i < |pcs|
      invariant 0 <= i <= |pcs| && cache.Valid() && cache.trace == pcs[..i]
      invariant fresh(cache) && fresh(cache.valids) && fresh(cache.tags)
    {
      var _ := cache.Access(pcs[i]);
      i := i + 1;
    }
    assert pcs[..i] == pcs;
    hits, misses := cache.hits, cache.misses;
  }
}

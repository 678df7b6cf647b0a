/** The common ancestor of two fluid contexts (handc/runtime/fluid.c:67-134): the pairs of one
    list are marked by the low bit of their size words, the other list is climbed to a mark. */
module Fluids {

  /** A heap pointer to a pair, or anything else. */
  datatype Value = Pair(at: nat) | Other(id: int, isVector: bool)

  datatype Cell = Cell(size: nat, car: Value, cdr: Value)

  type Cells = map<nat, Cell>

  /** The rest of a list from position i. */
  function ValueAt(ch: seq<nat>, tail: Value, i: nat): Value {
    if i < |ch| then Pair(ch[i]) else tail
  }

  /** x is the list of the pairs ch, without repetition, ending in something that is no pair. */
  ghost predicate IsList(cells: Cells, x: Value, ch: seq<nat>, tail: Value) {
    && tail.Other? && x == ValueAt(ch, tail, 0)
    && (forall i: nat | i < |ch| :: ch[i] in cells && cells[ch[i]].cdr == ValueAt(ch, tail, i + 1))
    && (forall i: nat, k: nat | i < k < |ch| :: ch[i] != ch[k])
  }

  /** Pairs have an even size, so that the low bit can mark them. */
  ghost predicate Unmarked(cells: Cells, ch: seq<nat>) {
    forall a | a in ch && a in cells :: cells[a].size % 2 == 0
  }

  function IsVector(v: Value): bool { v.Other? && v.isVector }

  /** The cars of the first n pairs that are not vectors, in order. */
  function Cars(cells: Cells, ch: seq<nat>, n: nat): seq<Value>
    requires n <= |ch| && forall i: nat | i < |ch| :: ch[i] in cells
  {
    if n == 0 then []
    else Cars(cells, ch, n - 1) + if IsVector(cells[ch[n - 1]].car) then [] else [cells[ch[n - 1]].car]
  }

  /** The values are the cars at the positions js, which are those before n whose car is no vector, in order. */
  ghost predicate Picks(cells: Cells, ch: seq<nat>, n: nat, js: seq<nat>, vs: seq<Value>)
    requires n <= |ch| && forall i: nat | i < |ch| :: ch[i] in cells
  {
    && |js| == |vs| && (forall j: nat, k: nat | j < k < |js| :: js[j] < js[k])
    && (forall j: nat | j < |js| :: js[j] < n && vs[j] == cells[ch[js[j]]].car)
    && (forall i: nat | i < n :: i in js <==> !(cells[ch[i]].car.Other? && cells[ch[i]].car.isVector))
  }

  lemma {:induction false} CarsArePicked(cells: Cells, ch: seq<nat>, n: nat) returns (js: seq<nat>)
    requires n <= |ch| && forall i: nat | i < |ch| :: ch[i] in cells
    ensures Picks(cells, ch, n, js, Cars(cells, ch, n))
  {
    hide Picks, Cars;
    if n == 0 {
      js := [];
      PickNone(cells, ch);
      NoCars(cells, ch);
    } else {
      var was := Cars(cells, ch, n - 1);
      js := CarsArePicked(cells, ch, n - 1);
      PickNext(cells, ch, n, js, was);
      MoreCars(cells, ch, n - 1);
      assert was + [] == was;
      if !IsVector(cells[ch[n - 1]].car) { js := js + [n - 1]; }
    }
  }

  lemma PickNone(cells: Cells, ch: seq<nat>)
    requires forall i: nat | i < |ch| :: ch[i] in cells
    ensures Picks(cells, ch, 0, [], [])
  {
  }

  lemma PickNext(cells: Cells, ch: seq<nat>, n: nat, js: seq<nat>, vs: seq<Value>)
    requires 0 < n <= |ch| && forall i: nat | i < |ch| :: ch[i] in cells
    requires Picks(cells, ch, n - 1, js, vs)
    ensures var car := cells[ch[n - 1]].car;
      if IsVector(car) then Picks(cells, ch, n, js, vs) else Picks(cells, ch, n, js + [n - 1], vs + [car])
  {
    var car := cells[ch[n - 1]].car;
    assert forall j: nat | j < |js| :: js[j] in js && js[j] < n - 1;
    if !IsVector(car) {
      var next := js + [n - 1];
      assert forall i: nat :: i in next <==> i in js || i == n - 1;
    }
  }

  /** Position i of the list `to` is the first that is also a pair of `from`, or its end. */
  ghost predicate FirstShared(from: seq<nat>, to: seq<nat>, i: nat) {
    && i <= |to| && (forall k: nat | k < i :: to[k] !in from) && (i < |to| ==> to[i] in from)
  }

  /** From the first shared pair on, both lists are the same: it heads their longest common tail. */
  lemma SharedTail(cells: Cells, x: Value, from: seq<nat>, fromTail: Value, y: Value, to: seq<nat>, toTail: Value, i: nat, k: nat)
    requires IsList(cells, x, from, fromTail) && IsList(cells, y, to, toTail)
    requires i < |to| && k < |from| && to[i] == from[k]
    ensures to[i..] == from[k..] && toTail == fromTail
    decreases |to| - i
  {
    hide IsList;
    NextOf(cells, x, from, fromTail, k);
    NextOf(cells, y, to, toTail, i);
    if i + 1 < |to| {
      SharedTail(cells, x, from, fromTail, y, to, toTail, i + 1, k + 1);
    }
    assert to[i..] == [to[i]] + to[i + 1..] && from[k..] == [from[k]] + from[k + 1..];
  }

  lemma NextOf(cells: Cells, x: Value, ch: seq<nat>, tail: Value, i: nat)
    requires IsList(cells, x, ch, tail) && i < |ch|
    ensures ch[i] in cells && cells[ch[i]].cdr == ValueAt(ch, tail, i + 1) && tail.Other?
  {
  }

  /** No common tail is longer: one that starts at any shared pair is part of it. */
  lemma LongestTail(from: seq<nat>, to: seq<nat>, i: nat, n: nat, k: nat)
    requires FirstShared(from, to, i) && n < |to| && k < |from| && to[n..] == from[k..]
    ensures i <= n
  {
    assert to[n] == to[n..][0] == from[k..][0] == from[k];
  }

  class PairHeap {
    var cells: Cells

    /** find_common_ancestor; the descriptor is the common cell and the cars up to it. */
    method FindCommonAncestor(from: Value, to: Value, ghost fc: seq<nat>, ghost fTail: Value, ghost tc: seq<nat>, ghost tTail: Value)
        returns (v: seq<Value>, ghost i: nat)
      requires IsList(cells, from, fc, fTail) && IsList(cells, to, tc, tTail) && Unmarked(cells, fc) && Unmarked(cells, tc)
      modifies this
      ensures cells == old(cells)
      ensures FirstShared(fc, tc, i) && v == [ValueAt(tc, tTail, i)] + Cars(cells, tc, i)
      ensures v != [] && exists js: seq<nat> :: Picks(cells, tc, i, js, v[1..])
    {
      hide Cars, Marked, Unmarked;
      if from == to {
        NoCars(cells, tc);
        ghost var js := CarsArePicked(cells, tc, 0);
        assert [from][1..] == [];
        return [from], 0;
      }
      ghost var cells0 := cells;
      Mark(from, fc, fTail);
      var t, n;
      t, n, i := Climb(to, fc, tc, tTail, cells0);
      Unmark(from, fc, fTail, cells0);
      v := Describe(to, t, tc, tTail, i);
      assert |v| == n;
      ghost var js := CarsArePicked(cells, tc, i);
      assert v[1..] == Cars(cells, tc, i);
    }

    /** The second loop: up the list to a marked pair or the end, counting the slots needed. */
    method Climb(to: Value, ghost fc: seq<nat>, ghost tc: seq<nat>, ghost tTail: Value, ghost cells0: Cells)
        returns (t: Value, n: nat, ghost i: nat)
      requires IsList(cells0, to, tc, tTail) && Unmarked(cells0, tc) && Marked(cells0, cells, fc)
      ensures FirstShared(fc, tc, i) && t == ValueAt(tc, tTail, i) && n == 1 + |Cars(cells0, tc, i)|
    {
      hide Cars, Marked, Unmarked;
      t, n, i := to, 1, 0;
      NoCars(cells0, tc);
      while t.Pair?
        invariant i <= |tc| && t == ValueAt(tc, tTail, i)
        invariant forall k: nat | k < i :: tc[k] !in fc
        invariant n == 1 + |Cars(cells0, tc, i)|
        decreases |tc| - i
      {
        MarkSeen(cells0, cells, fc, tc, i);
        if cells[t.at].size % 2 == 1 {
          break;
        }
        MoreCars(cells0, tc, i);
        if !IsVector(cells[t.at].car) {
          n := n + 1;
        }
        t := cells[t.at].cdr;
        i := i + 1;
      }
    }

    /** The ancestor descriptor. */
    method Describe(to: Value, t: Value, ghost tc: seq<nat>, ghost tTail: Value, ghost i: nat) returns (v: seq<Value>)
      requires IsList(cells, to, tc, tTail) && i <= |tc| && t == ValueAt(tc, tTail, i)
      ensures v == [t] + Cars(cells, tc, i)
    {
      hide Cars;
      NoCars(cells, tc);
      v := [t];
      var k := to;
      ghost var j: nat := 0;
      while k != t
        invariant j <= i && k == ValueAt(tc, tTail, j) && v == [t] + Cars(cells, tc, j)
        decreases i - j
      {
        NotYet(cells, to, tc, tTail, i, j);
        MoreCars(cells, tc, j);
        if !IsVector(cells[k.at].car) {
          v := v + [cells[k.at].car];
        }
        k := cells[k.at].cdr;
        j := j + 1;
      }
      NotYet(cells, to, tc, tTail, i, j);
    }

    /** The first loop: the size of every pair of the list goes up by one. */
    method Mark(from: Value, ghost fc: seq<nat>, ghost fTail: Value)
      requires IsList(cells, from, fc, fTail)
      modifies this
      ensures Marked(old(cells), cells, fc)
    {
      ghost var cells0 := cells;
      var f := from;
      ghost var i: nat := 0;
      while f.Pair?
        invariant i <= |fc| && f == ValueAt(fc, fTail, i) && Marked(cells0, cells, fc[..i])
        decreases |fc| - i
      {
        MarkStep(cells0, cells, fc, i);
        cells := cells[f.at := cells[f.at].(size := cells[f.at].size + 1)];
        f := cells[f.at].cdr;
        i := i + 1;
      }
      assert fc[..i] == fc;
    }

    /** The third loop: the sizes go down again. */
    method Unmark(from: Value, ghost fc: seq<nat>, ghost fTail: Value, ghost cells0: Cells)
      requires IsList(cells0, from, fc, fTail) && Marked(cells0, cells, fc)
      modifies this
      ensures cells == cells0
    {
      var f := from;
      ghost var i: nat := 0;
      assert fc[0..] == fc;
      while f.Pair?
        invariant i <= |fc| && f == ValueAt(fc, fTail, i) && Marked(cells0, cells, fc[i..])
        decreases |fc| - i
      {
        UnmarkStep(cells0, cells, fc, i);
        cells := cells[f.at := cells[f.at].(size := cells[f.at].size - 1)];
        f := cells[f.at].cdr;
        i := i + 1;
      }
      assert fc[i..] == [];
    }
  }

  /** Exactly these pairs are marked, and nothing else differs. */
  ghost predicate Marked(cells0: Cells, cells: Cells, marks: seq<nat>) {
    && cells.Keys == cells0.Keys
    && forall a | a in cells0 :: cells[a] == if a in marks then cells0[a].(size := cells0[a].size + 1) else cells0[a]
  }

  lemma MarkStep(cells0: Cells, cells: Cells, fc: seq<nat>, i: nat)
    requires i < |fc| && Marked(cells0, cells, fc[..i]) && fc[i] in cells0 && forall k: nat, l: nat | k < l < |fc| :: fc[k] != fc[l]
    ensures fc[i] in cells && cells[fc[i]] == cells0[fc[i]]
    ensures Marked(cells0, cells[fc[i] := cells[fc[i]].(size := cells[fc[i]].size + 1)], fc[..i + 1])
  {
    assert fc[..i + 1] == fc[..i] + [fc[i]];
    assert forall k: nat | k < i :: fc[..i][k] != fc[i];
  }

  lemma UnmarkStep(cells0: Cells, cells: Cells, fc: seq<nat>, i: nat)
    requires i < |fc| && Marked(cells0, cells, fc[i..]) && fc[i] in cells0 && forall k: nat, l: nat | k < l < |fc| :: fc[k] != fc[l]
    ensures fc[i] in cells && cells[fc[i]].size > 0 && cells[fc[i]].cdr == cells0[fc[i]].cdr
    ensures Marked(cells0, cells[fc[i] := cells[fc[i]].(size := cells[fc[i]].size - 1)], fc[i + 1..])
  {
    assert fc[i..] == [fc[i]] + fc[i + 1..];
    var rest := fc[i + 1..];
    assert forall k: nat | k < |rest| :: rest[k] == fc[i + 1 + k] != fc[i];
  }

  /** A pair of `to` is marked exactly if it is a pair of `from`. */
  lemma MarkSeen(cells0: Cells, cells: Cells, fc: seq<nat>, tc: seq<nat>, i: nat)
    requires Marked(cells0, cells, fc) && i <= |tc| && Unmarked(cells0, tc)
    requires i < |tc| ==> tc[i] in cells0
    ensures i < |tc| ==> tc[i] in cells && (cells[tc[i]].size % 2 == 1 <==> tc[i] in fc)
    ensures i < |tc| ==> cells[tc[i]].car == cells0[tc[i]].car && cells[tc[i]].cdr == cells0[tc[i]].cdr
  {
    if i < |tc| { assert tc[i] in tc; }
  }

  /** Two positions of a list are different, so that the second climb ends where the first did. */
  lemma NotYet(cells: Cells, to: Value, tc: seq<nat>, tTail: Value, i: nat, j: nat)
    requires IsList(cells, to, tc, tTail) && j <= i <= |tc|
    ensures ValueAt(tc, tTail, j) == ValueAt(tc, tTail, i) <==> j == i
    ensures j < i ==> tc[j] in cells && cells[tc[j]].cdr == ValueAt(tc, tTail, j + 1)
  {
  }

  lemma NoCars(cells: Cells, tc: seq<nat>)
    requires forall i: nat | i < |tc| :: tc[i] in cells
    ensures Cars(cells, tc, 0) == []
  {
  }

  lemma MoreCars(cells: Cells, tc: seq<nat>, i: nat)
    requires i < |tc| && forall k: nat | k < |tc| :: tc[k] in cells
    ensures Cars(cells, tc, i + 1) == Cars(cells, tc, i) + if IsVector(cells[tc[i]].car) then [] else [cells[tc[i]].car]
  {
  }

  /** A value, a vector and the common cell: the descriptor leaves out the vector. */
  method SkipsVector(h: PairHeap) returns (v: seq<Value>)
    requires h.cells == map[
      1 := Cell(8, Other(5, false), Pair(2)), 2 := Cell(8, Other(6, true), Pair(3)), 3 := Cell(8, Other(7, false), Other(0, false))]
    modifies h
    ensures v == [Pair(3), Other(5, false)] && h.cells == old(h.cells)
  {
    var nil := Other(0, false);
    assert IsList(h.cells, Pair(3), [3], nil) && IsList(h.cells, Pair(1), [1, 2, 3], nil);
    ghost var i;
    v, i := h.FindCommonAncestor(Pair(3), Pair(1), [3], nil, [1, 2, 3], nil);
    assert [1, 2, 3][0] == 1 && [1, 2, 3][1] == 2 && [1, 2, 3][2] == 3;
    assert i == 2;
    MoreCars(h.cells, [1, 2, 3], 0);
    MoreCars(h.cells, [1, 2, 3], 1);
    NoCars(h.cells, [1, 2, 3]);
  }
}

/** Finite sums of reals, and sums grouped by a module index.

    Every running total of the optimizer is stated here as a sum over a vector, so that a
    change of one or two entries of the vector is a change of one or two terms of the sum. */
module Sums {

  function Sum(xs: seq<real>): real
  {
    if xs == [] then 0.0 else Sum(xs[..|xs| - 1]) + xs[|xs| - 1]
  }

  lemma {:induction false} SumAppend(xs: seq<real>, x: real)
    ensures Sum(xs + [x]) == Sum(xs) + x
  {
    assert (xs + [x])[..|xs|] == xs;
  }

  /** Changing one entry changes the sum by the difference of that entry. */
  lemma {:induction false} SumOne(xs: seq<real>, ys: seq<real>, a: nat)
    requires |xs| == |ys| && a < |xs|
    requires forall k :: 0 <= k < |xs| && k != a ==> xs[k] == ys[k]
    ensures Sum(ys) == Sum(xs) - xs[a] + ys[a]
  {
    var n := |xs| - 1;
    if a == n {
      assert xs[..n] == ys[..n];
    } else {
      SumOne(xs[..n], ys[..n], a);
    }
  }

  /** Changing two entries, as every move between two modules does. */
  lemma {:induction false} SumTwo(xs: seq<real>, ys: seq<real>, a: nat, b: nat)
    requires |xs| == |ys| && a < |xs| && b < |xs| && a != b
    requires forall k :: 0 <= k < |xs| && k != a && k != b ==> xs[k] == ys[k]
    ensures Sum(ys) == Sum(xs) - xs[a] - xs[b] + ys[a] + ys[b]
  {
    var zs := xs[a := ys[a]];
    SumOne(xs, zs, a);
    SumOne(zs, ys, b);
  }

  lemma {:induction false} SumPlus(xs: seq<real>, ys: seq<real>, zs: seq<real>)
    requires |xs| == |ys| == |zs|
    requires forall k :: 0 <= k < |xs| ==> zs[k] == xs[k] + ys[k]
    ensures Sum(zs) == Sum(xs) + Sum(ys)
  {
    if xs != [] {
      var n := |xs| - 1;
      SumPlus(xs[..n], ys[..n], zs[..n]);
    }
  }

  lemma {:induction false} SumZero(xs: seq<real>)
    requires forall k :: 0 <= k < |xs| ==> xs[k] == 0.0
    ensures Sum(xs) == 0.0
  {
    if xs != [] { SumZero(xs[..|xs| - 1]); }
  }

  function Scaled(a: real, x: real): real
  {
    a * x
  }

  lemma {:induction false} ScaledSum(a: real, x: real, y: real)
    ensures Scaled(a, x + y) == Scaled(a, x) + Scaled(a, y) && Scaled(a, 0.0) == 0.0
  {
    assert a * (x + y) == a * x + a * y;
  }

  /** The part of the weights that sits on the nodes of one module. */
  function Members(w: seq<real>, index: seq<nat>, m: nat): real
    requires |w| == |index|
  {
    if w == [] then 0.0
    else
      var n := |w| - 1;
      Members(w[..n], index[..n], m) + (if index[n] == m then w[n] else 0.0)
  }

  function MembersAll(w: seq<real>, index: seq<nat>, numModules: nat): (r: seq<real>)
    requires |w| == |index|
    ensures |r| == numModules
    ensures forall m :: 0 <= m < numModules ==> r[m] == Members(w, index, m)
  {
    seq(numModules, (m: nat) => Members(w, index, m))
  }

  /** The module of a node after two rounds of grouping. */
  function Compose(index: seq<nat>, outer: seq<nat>): (r: seq<nat>)
    requires forall i :: 0 <= i < |index| ==> index[i] < |outer|
    ensures |r| == |index|
    ensures forall i :: 0 <= i < |index| ==> r[i] == outer[index[i]]
  {
    seq(|index|, i requires 0 <= i < |index| => outer[index[i]])
  }

  /** Both put the same nodes together, whatever the numbers of the modules. */
  ghost predicate SameGrouping(a: seq<nat>, b: seq<nat>)
  {
    |a| == |b| && forall i, j :: 0 <= i < |a| && 0 <= j < |a| ==> (a[i] == a[j] <==> b[i] == b[j])
  }

  lemma {:induction false} ComposeAssociates(index: seq<nat>, middle: seq<nat>, outer: seq<nat>)
    requires forall i :: 0 <= i < |index| ==> index[i] < |middle|
    requires forall i :: 0 <= i < |middle| ==> middle[i] < |outer|
    ensures Compose(Compose(index, middle), outer) == Compose(index, Compose(middle, outer))
  {
    assert |Compose(Compose(index, middle), outer)| == |Compose(index, Compose(middle, outer))|;
  }

  lemma {:induction false} MembersPlus(xs: seq<real>, ys: seq<real>, zs: seq<real>, index: seq<nat>, m: nat)
    requires |xs| == |ys| == |zs| == |index|
    requires forall i :: 0 <= i < |xs| ==> zs[i] == xs[i] + ys[i]
    ensures Members(zs, index, m) == Members(xs, index, m) + Members(ys, index, m)
  {
    if xs != [] {
      var n := |xs| - 1;
      MembersPlus(xs[..n], ys[..n], zs[..n], index[..n], m);
    }
  }

  /** Grouping twice is grouping once by the composed index. */
  lemma {:induction false} MembersCompose(w: seq<real>, index: seq<nat>, outer: seq<nat>, s: nat)
    requires |w| == |index|
    requires forall i :: 0 <= i < |index| ==> index[i] < |outer|
    ensures Members(MembersAll(w, index, |outer|), outer, s) == Members(w, Compose(index, outer), s)
  {
    var all := MembersAll(w, index, |outer|);
    if w == [] {
      MembersZero(all, outer, s);
    } else {
      var n := |w| - 1;
      var before := MembersAll(w[..n], index[..n], |outer|);
      MembersCompose(w[..n], index[..n], outer, s);
      assert Compose(index, outer)[..n] == Compose(index[..n], outer);
      MembersOne(before, all, outer, s, index[n]);
    }
  }

  lemma {:induction false} MembersZero(w: seq<real>, index: seq<nat>, m: nat)
    requires |w| == |index|
    requires forall i :: 0 <= i < |w| && index[i] == m ==> w[i] == 0.0
    ensures Members(w, index, m) == 0.0
  {
    if w != [] { MembersZero(w[..|w| - 1], index[..|w| - 1], m); }
  }

  lemma {:induction false} MembersOne(v: seq<real>, w: seq<real>, index: seq<nat>, m: nat, a: nat)
    requires |v| == |w| == |index| && a < |v|
    requires forall i :: 0 <= i < |v| && i != a ==> v[i] == w[i]
    ensures Members(w, index, m) == Members(v, index, m) + (if index[a] == m then w[a] - v[a] else 0.0)
  {
    var n := |v| - 1;
    if a == n {
      assert v[..n] == w[..n];
    } else {
      MembersOne(v[..n], w[..n], index[..n], m, a);
    }
  }

  /** Moving node a from one module to another. */
  lemma {:induction false} MembersMove(w: seq<real>, index: seq<nat>, a: nat, to: nat, m: nat)
    requires |w| == |index| && a < |w|
    ensures Members(w, index[a := to], m)
         == Members(w, index, m) - (if index[a] == m then w[a] else 0.0) + (if to == m then w[a] else 0.0)
  {
    var n := |w| - 1;
    if a == n {
      assert index[a := to][..n] == index[..n];
    } else {
      assert index[a := to][..n] == index[..n][a := to];
      MembersMove(w[..n], index[..n], a, to, m);
    }
  }

  /** Only the members matter, not what their module is called. */
  lemma {:induction false} MembersRelabel(w: seq<real>, index: seq<nat>, m: nat, other: seq<nat>, m': nat)
    requires |w| == |index| == |other|
    requires forall i :: 0 <= i < |index| ==> (index[i] == m <==> other[i] == m')
    ensures Members(w, index, m) == Members(w, other, m')
  {
    if w != [] {
      var n := |w| - 1;
      MembersRelabel(w[..n], index[..n], m, other[..n], m');
    }
  }

  lemma {:induction false} MembersAtLeast(w: seq<real>, index: seq<nat>, m: nat)
    requires |w| == |index| && forall i :: 0 <= i < |w| ==> w[i] >= 0.0
    ensures Members(w, index, m) >= 0.0
    ensures forall i :: 0 <= i < |w| && index[i] == m ==> Members(w, index, m) >= w[i]
  {
    if w != [] {
      var n := |w| - 1;
      MembersAtLeast(w[..n], index[..n], m);
      forall i | 0 <= i < |w| && index[i] == m ensures Members(w, index, m) >= w[i] {
        if i < n { assert w[..n][i] == w[i] && index[..n][i] == index[i]; }
      }
    }
  }

  /** Only the members' weights matter. */
  lemma {:induction false} MembersAgree(v: seq<real>, w: seq<real>, index: seq<nat>, m: nat)
    requires |v| == |w| == |index|
    requires forall i :: 0 <= i < |index| && index[i] == m ==> v[i] == w[i]
    ensures Members(v, index, m) == Members(w, index, m)
  {
    if v != [] {
      var n := |v| - 1;
      MembersAgree(v[..n], w[..n], index[..n], m);
    }
  }

  /** A module without members carries nothing; a module with one member carries its weight. */
  lemma {:induction false} MembersSingle(w: seq<real>, index: seq<nat>, a: nat)
    requires |w| == |index| && a < |w|
    requires forall i :: 0 <= i < |w| && i != a ==> index[i] != index[a]
    ensures Members(w, index, index[a]) == w[a]
  {
    var n := |w| - 1;
    if a == n {
      MembersZero(w[..n], index[..n], index[a]);
    } else {
      MembersSingle(w[..n], index[..n], a);
    }
  }

  /** The modules together carry every weight exactly once. */
  lemma {:induction false} MembersTotal(w: seq<real>, index: seq<nat>, numModules: nat)
    requires |w| == |index|
    requires forall i :: 0 <= i < |index| ==> index[i] < numModules
    ensures Sum(MembersAll(w, index, numModules)) == Sum(w)
  {
    var all := MembersAll(w, index, numModules);
    if w == [] {
      SumZero(all);
    } else {
      var n := |w| - 1;
      MembersTotal(w[..n], index[..n], numModules);
      SumOne(MembersAll(w[..n], index[..n], numModules), all, index[n]);
    }
  }

  /** Number of nodes of one module. */
  function Count(index: seq<nat>, m: nat): nat
  {
    if index == [] then 0
    else Count(index[..|index| - 1], m) + (if index[|index| - 1] == m then 1 else 0)
  }

  lemma {:induction false} CountMove(index: seq<nat>, a: nat, to: nat, m: nat)
    requires a < |index|
    ensures Count(index[a := to], m)
         == Count(index, m) - (if index[a] == m then 1 else 0) + (if to == m then 1 else 0)
  {
    var n := |index| - 1;
    if a == n {
      assert index[a := to][..n] == index[..n];
    } else {
      assert index[a := to][..n] == index[..n][a := to];
      CountMove(index[..n], a, to, m);
    }
  }

  lemma {:induction false} CountZero(index: seq<nat>, m: nat)
    ensures Count(index, m) == 0 <==> m !in index
  {
    if index != [] {
      var n := |index| - 1;
      CountZero(index[..n], m);
      assert index == index[..n] + [index[n]];
    }
  }

  /** A module of one node has no second member. */
  lemma {:induction false} CountOne(index: seq<nat>, a: nat, b: nat)
    requires a < |index| && b < |index| && a != b && index[a] == index[b]
    ensures Count(index, index[a]) >= 2
  {
    var n := |index| - 1;
    if a == n {
      CountZero(index[..n], index[a]);
      assert index[..n][b] == index[a];
    } else if b == n {
      CountZero(index[..n], index[a]);
      assert index[..n][a] == index[a];
    } else {
      CountOne(index[..n], a, b);
    }
  }

  lemma {:induction false} CountDistinct(index: seq<nat>, a: nat)
    requires a < |index|
    requires forall i :: 0 <= i < |index| && i != a ==> index[i] != index[a]
    ensures Count(index, index[a]) == 1
  {
    var n := |index| - 1;
    if a == n {
      CountZero(index[..n], index[a]);
    } else {
      CountDistinct(index[..n], a);
    }
  }

  lemma {:induction false} CountSame(index: seq<nat>, other: seq<nat>, m: nat)
    requires |index| == |other|
    requires forall i :: 0 <= i < |index| ==> (index[i] == m <==> other[i] == m)
    ensures Count(index, m) == Count(other, m)
  {
    if index != [] {
      var n := |index| - 1;
      CountSame(index[..n], other[..n], m);
    }
  }

  /** Number of zero entries: the empty modules of a membership vector. */
  function NumZeros(members: seq<nat>): nat
  {
    if members == [] then 0
    else NumZeros(members[..|members| - 1]) + (if members[|members| - 1] == 0 then 1 else 0)
  }

  lemma {:induction false} NumZerosUpdate(members: seq<nat>, a: nat, v: nat)
    requires a < |members|
    ensures NumZeros(members[a := v])
         == NumZeros(members) - (if members[a] == 0 then 1 else 0) + (if v == 0 then 1 else 0)
  {
    var n := |members| - 1;
    if a == n {
      assert members[a := v][..n] == members[..n];
    } else {
      assert members[a := v][..n] == members[..n][a := v];
      NumZerosUpdate(members[..n], a, v);
    }
  }

  lemma {:induction false} NumZerosBound(members: seq<nat>, a: nat)
    requires a < |members|
    ensures NumZeros(members) <= |members|
    ensures members[a] == 0 ==> NumZeros(members) >= 1
    ensures members[a] > 0 ==> NumZeros(members) < |members|
  {
    var n := |members| - 1;
    if a == n {
      if n > 0 { NumZerosBound(members[..n], 0); }
    } else {
      NumZerosBound(members[..n], a);
    }
  }
}

/** Counting finite sets: classes by a label, and vectors whose components lie in given sets. */
module Counting {
  import opened Words
  import opened ModArith

  lemma SubsetSize<A>(a: set<A>, b: set<A>)
    requires a <= b
    ensures |a| <= |b|
  {
    assert b == a + (b - a);
  }

  // ---------- classes ----------

  ghost function Class<A(!new), B>(s: set<A>, inClass: (A, B) -> bool, w: B): set<A> {
    set a | a in s && inClass(a, w)
  }

  ghost predicate Covered<A(!new), B(!new)>(s: set<A>, p: set<B>, inClass: (A, B) -> bool) {
    forall a :: a in s ==> exists w :: w in p && inClass(a, w)
  }

  ghost predicate Small<A(!new), B(!new)>(s: set<A>, p: set<B>, inClass: (A, B) -> bool, m: nat) {
    forall w :: w in p ==> |Class(s, inClass, w)| <= m
  }

  /** If every element belongs to some class and no class has more than m elements, there are at
      most m elements a class. */
  lemma {:induction false} ClassesBound<A(!new), B(!new)>(s: set<A>, p: set<B>, inClass: (A, B) -> bool, m: nat)
    requires Covered(s, p, inClass) && Small(s, p, inClass, m)
    ensures |s| <= |p| * m
    decreases p
  {
    hide Covered, Small, Class;
    if p == {} {
      NoClasses(s, inClass);
    } else {
      var w :| w in p;
      var t := Class(s, inClass, w);
      WithoutClass(s, p, inClass, w, m);
      ClassesBound(s - t, p - {w}, inClass, m);
      MulSub(|p|, 1, m);
    }
  }

  lemma NoClasses<A(!new), B(!new)>(s: set<A>, inClass: (A, B) -> bool)
    requires Covered(s, {}, inClass)
    ensures s == {}
  {
  }

  lemma WithoutClass<A(!new), B(!new)>(s: set<A>, p: set<B>, inClass: (A, B) -> bool, w: B, m: nat)
    requires Covered(s, p, inClass) && Small(s, p, inClass, m) && w in p
    ensures var t := Class(s, inClass, w);
            && |t| <= m && |s| == |t| + |s - t|
            && Covered(s - t, p - {w}, inClass) && Small(s - t, p - {w}, inClass, m)
  {
    var t := Class(s, inClass, w);
    forall a | a in s - t ensures exists v :: v in p - {w} && inClass(a, v) {
      var v :| v in p && inClass(a, v);
      assert v in p - {w};
    }
    forall v | v in p - {w} ensures |Class(s - t, inClass, v)| <= m {
      SubsetSize(Class(s - t, inClass, v), Class(s, inClass, v));
    }
    assert s == t + (s - t);
  }

  // ---------- vectors ----------

  /** The product of all set sizes. */
  ghost function Combinations<A>(choices: seq<set<A>>): nat {
    if |choices| == 0 then 1
    else Combinations(choices[..|choices| - 1]) * |choices[|choices| - 1]|
  }

  ghost predicate Chosen<A>(v: seq<A>, choices: seq<set<A>>) {
    |v| == |choices| && forall k :: 0 <= k < |v| ==> v[k] in choices[k]
  }

  /** The vectors without their last component. */
  ghost function Heads<A>(s: set<seq<A>>): set<seq<A>> {
    set v | v in s && |v| > 0 :: v[..|v| - 1]
  }

  predicate Ends<A(==)>(v: seq<A>, x: A) {
    |v| > 0 && v[|v| - 1] == x
  }

  ghost predicate EndsIn<A>(v: seq<A>, last: set<A>) {
    |v| > 0 && v[|v| - 1] in last
  }

  lemma {:induction false} HeadsSize<A>(s: set<seq<A>>, x: A)
    requires forall v :: v in s ==> Ends(v, x)
    ensures |Heads(s)| == |s|
  {
    if s == {} {
      assert Heads(s) == {};
    } else {
      var v :| v in s;
      HeadsSize(s - {v}, x);
      HeadsOne(s - {v}, v, x);
      assert s == s - {v} + {v};
    }
  }

  lemma HeadsOne<A>(s: set<seq<A>>, v: seq<A>, x: A)
    requires Ends(v, x) && v !in s && forall u :: u in s ==> Ends(u, x)
    ensures Heads(s + {v}) == Heads(s) + {v[..|v| - 1]} && v[..|v| - 1] !in Heads(s)
  {
    assert v == v[..|v| - 1] + [x];
    forall u | u in s ensures u[..|u| - 1] != v[..|v| - 1] {
      assert u == u[..|u| - 1] + [x];
    }
  }

  /** There are at most as many vectors as combinations of their components. */
  lemma {:induction false} VectorsBound<A>(s: set<seq<A>>, choices: seq<set<A>>)
    requires forall v :: v in s ==> Chosen(v, choices)
    ensures |s| <= Combinations(choices)
    decreases |choices|, 0
  {
    if |choices| == 0 {
      forall v | v in s ensures v == [] {
        assert Chosen(v, choices);
      }
      SubsetSize(s, {[]});
    } else {
      LastBound(s, choices, choices[|choices| - 1]);
    }
  }

  /** The same for the vectors that end in one of the given components. */
  lemma {:induction false} LastBound<A>(s: set<seq<A>>, choices: seq<set<A>>, last: set<A>)
    requires |choices| > 0
    requires forall v :: v in s ==> Chosen(v, choices) && EndsIn(v, last)
    ensures |s| <= Combinations(choices[..|choices| - 1]) * |last|
    decreases |choices| - 1, 1, last
  {
    hide Combinations, Chosen, Heads;
    var init := choices[..|choices| - 1];
    if last == {} {
      assert s == {};
    } else {
      var x :| x in last;
      var t := EndingIn(s, choices, x);
      HeadsSize(t, x);
      VectorsBound(Heads(t), init);
      LastBound(s - t, choices, last - {x});
      assert s == t + (s - t);
      MulSub(|last|, 1, Combinations(init));
    }
  }

  lemma EndingIn<A>(s: set<seq<A>>, choices: seq<set<A>>, x: A) returns (t: set<seq<A>>)
    requires |choices| > 0 && forall v :: v in s ==> Chosen(v, choices)
    ensures t <= s && forall v :: v in t ==> Ends(v, x)
    ensures forall v :: v in s - t ==> !Ends(v, x)
    ensures forall u :: u in Heads(t) ==> Chosen(u, choices[..|choices| - 1])
  {
    t := set v | v in s && Ends(v, x);
    forall u | u in Heads(t) ensures Chosen(u, choices[..|choices| - 1]) {
      var v :| v in t && |v| > 0 && u == v[..|v| - 1];
      assert Chosen(v, choices);
    }
  }

  // ---------- all vectors over an alphabet ----------

  /** The m words from lo on. */
  function WordsFrom(lo: nat, m: nat): (s: set<u32>)
    requires lo + m <= TWO32
    ensures |s| == m && forall x: u32 :: x in s <==> lo <= x < lo + m
  {
    if m == 0 then {} else WordsFrom(lo, m - 1) + {lo + m - 1}
  }

  /** Every vector of s with one component appended. */
  ghost function Appended<A(!new)>(s: set<seq<A>>, x: A): set<seq<A>> {
    set v | v in s :: v + [x]
  }

  ghost function AppendedAll<A(!new)>(s: set<seq<A>>, alphabet: set<A>): set<seq<A>> {
    set v, x | v in s && x in alphabet :: v + [x]
  }

  lemma AppendedSize<A(!new)>(s: set<seq<A>>, x: A)
    ensures |Appended(s, x)| == |s|
  {
    var t := Appended(s, x);
    HeadsSize(t, x);
    forall v | v in s ensures v in Heads(t) {
      assert v + [x] in t && (v + [x])[..|v + [x]| - 1] == v;
    }
    forall u | u in Heads(t) ensures u in s {
      var w :| w in t && |w| > 0 && u == w[..|w| - 1];
      var v :| v in s && w == v + [x];
      assert u == v;
    }
    assert Heads(t) == s;
  }

  lemma {:induction false} AppendedAllSize<A(!new)>(s: set<seq<A>>, alphabet: set<A>)
    ensures |AppendedAll(s, alphabet)| == |s| * |alphabet|
    decreases alphabet
  {
    if alphabet == {} {
      assert AppendedAll(s, alphabet) == {};
    } else {
      var x :| x in alphabet;
      AppendedAllSize(s, alphabet - {x});
      AppendedSize(s, x);
      AppendedSplit(s, alphabet, x);
      hide AppendedAll, Appended;
      MulSub(|alphabet|, 1, |s|);
    }
  }

  lemma AppendedSplit<A(!new)>(s: set<seq<A>>, alphabet: set<A>, x: A)
    requires x in alphabet
    ensures |AppendedAll(s, alphabet)| == |AppendedAll(s, alphabet - {x})| + |Appended(s, x)|
  {
    var rest, one := AppendedAll(s, alphabet - {x}), Appended(s, x);
    forall w | w in AppendedAll(s, alphabet) ensures w in rest || w in one {
      var v, y :| v in s && y in alphabet && w == v + [y];
      if y == x {
        assert w in one;
      } else {
        assert y in alphabet - {x};
      }
    }
    forall w | w in rest ensures w in AppendedAll(s, alphabet) && w !in one {
      var v, y :| v in s && y in alphabet - {x} && w == v + [y];
      assert w[|w| - 1] == y;
      forall u | u in s ensures w != u + [x] {
        assert (u + [x])[|u + [x]| - 1] == x;
      }
    }
    assert AppendedAll(s, alphabet) == rest + one;
  }

  /** All vectors of a length over an alphabet. */
  ghost function Vectors<A(!new)>(alphabet: set<A>, len: nat): set<seq<A>> {
    if len == 0 then {[]} else AppendedAll(Vectors(alphabet, len - 1), alphabet)
  }

  lemma {:induction false} VectorsSize<A(!new)>(alphabet: set<A>, len: nat)
    ensures |Vectors(alphabet, len)| == Pow(|alphabet|, len)
  {
    hide AppendedAll;
    if len > 0 {
      VectorsSize(alphabet, len - 1);
      AppendedAllSize(Vectors(alphabet, len - 1), alphabet);
    }
  }

  /** They are exactly the vectors of that length with components in the alphabet. */
  lemma {:induction false} VectorsAll<A(!new)>(alphabet: set<A>, len: nat, v: seq<A>)
    ensures v in Vectors(alphabet, len) <==> |v| == len && forall k :: 0 <= k < |v| ==> v[k] in alphabet
    decreases len
  {
    if len > 0 {
      if |v| > 0 {
        var u, x := v[..|v| - 1], v[|v| - 1];
        VectorsAll(alphabet, len - 1, u);
        assert v == u + [x];
        if v in Vectors(alphabet, len) {
          var u', x' :| u' in Vectors(alphabet, len - 1) && x' in alphabet && v == u' + [x'];
          assert u' == u && x' == x;
        }
      }
    }
  }

  /** With classes named by the bit patterns of one length, and at most m elements in each. */
  lemma PatternBound<A(!new)>(s: set<A>, n: nat, inClass: (A, seq<bool>) -> bool, m: nat)
    requires forall a :: a in s ==> exists w :: |w| == n && inClass(a, w)
    requires forall w :: |w| == n ==> |Class(s, inClass, w)| <= m
    ensures |s| <= Pow(2, n) * m
  {
    hide Class, Vectors, Pow;
    var bits := {false, true};
    var p := Vectors(bits, n);
    forall a | a in s ensures exists w :: w in p && inClass(a, w) {
      var w :| |w| == n && inClass(a, w);
      forall k | 0 <= k < |w| ensures w[k] in bits {
        assert w[k] == false || w[k] == true;
      }
      VectorsAll(bits, n, w);
    }
    forall w | w in p ensures |Class(s, inClass, w)| <= m {
      VectorsAll(bits, n, w);
    }
    ClassesBound(s, p, inClass, m);
    VectorsSize(bits, n);
  }
}

/** Loops over lines, stated once for any per-line function: collecting
    what each line yields, keeping the lines that pass a test, and building
    a map in which later lines overwrite earlier ones. */
module Seqs {
  import opened Wrappers

  lemma TakeOneMore<T>(s: seq<T>, i: nat)
    requires i < |s|
    ensures s[..i + 1] == s[..i] + [s[i]]
  {
  }

  lemma TakeAll<T>(s: seq<T>)
    ensures s[..|s|] == s
  {
  }

  lemma Around<T>(s: seq<T>, i: nat)
    requires i < |s|
    ensures s == s[..i] + ([s[i]] + s[i + 1..])
  {
  }

  /** Zero or one element. */
  function OptionSeq<T>(o: Option<T>): (r: seq<T>)
    ensures |r| <= 1
  {
    match o
    case Some(v) => [v]
    case None => []
  }

  // ---------------------------------------------------------------------
  // Collecting what each element yields

  /** The values `f` yields for the elements of `s`, in order. */
  function FilterMap<A, B>(s: seq<A>, f: A -> Option<B>): (r: seq<B>)
    ensures |r| <= |s|
  {
    if s == [] then [] else OptionSeq(f(s[0])) + FilterMap(s[1..], f)
  }

  lemma {:induction false} FilterMapAppend<A, B>(a: seq<A>, b: seq<A>, f: A -> Option<B>)
    ensures FilterMap(a + b, f) == FilterMap(a, f) + FilterMap(b, f)
  {
    if a == [] {
      assert a + b == b;
    } else {
      assert (a + b)[1..] == a[1..] + b;
      FilterMapAppend(a[1..], b, f);
    }
  }

  lemma FilterMapOne<A, B>(x: A, f: A -> Option<B>)
    ensures FilterMap([x], f) == OptionSeq(f(x))
  {
    assert FilterMap([x], f) == OptionSeq(f(x)) + FilterMap([x][1..], f);
    assert [x][1..] == [];
  }

  lemma FilterMapSnoc<A, B>(a: seq<A>, x: A, f: A -> Option<B>)
    ensures FilterMap(a + [x], f) == FilterMap(a, f) + OptionSeq(f(x))
  {
    FilterMapAppend(a, [x], f);
    FilterMapOne(x, f);
  }

  /** Inserting an element that yields `v` before a last element that
      yields nothing adds `v` at the end. */
  lemma FilterMapBeforeLast<A, B>(init: seq<A>, x: A, y: A, f: A -> Option<B>, v: B)
    requires f(x) == Some(v) && f(y) == None
    ensures FilterMap(init + [x] + [y], f) == FilterMap(init + [y], f) + [v]
  {
    FilterMapSnoc(init + [x], y, f);
    FilterMapSnoc(init, x, f);
    FilterMapSnoc(init, y, f);
  }

  /** Elements that yield nothing collect nothing. */
  lemma {:induction false} FilterMapNone<A, B>(s: seq<A>, f: A -> Option<B>)
    requires forall k :: 0 <= k < |s| ==> f(s[k]).None?
    ensures FilterMap(s, f) == []
  {
    if s != [] {
      FilterMapNone(s[1..], f);
    }
  }

  /** Element `i` contributes its value, if any, between the values of the
      elements before it and those after it. */
  lemma FilterMapAt<A, B>(s: seq<A>, i: nat, f: A -> Option<B>)
    requires i < |s|
    ensures FilterMap(s, f) == FilterMap(s[..i], f) + OptionSeq(f(s[i])) + FilterMap(s[i + 1..], f)
  {
    Around(s, i);
    FilterMapAppend(s[..i], [s[i]] + s[i + 1..], f);
    FilterMapAppend([s[i]], s[i + 1..], f);
    FilterMapOne(s[i], f);
  }

  /** When only element `i` yields a value, that value is all that is
      collected. */
  lemma FilterMapOnly<A, B>(s: seq<A>, i: nat, f: A -> Option<B>, v: B)
    requires i < |s| && f(s[i]) == Some(v)
    requires forall k :: 0 <= k < |s| && k != i ==> f(s[k]).None?
    ensures FilterMap(s, f) == [v]
  {
    FilterMapAt(s, i, f);
    var before := s[..i];
    var after := s[i + 1..];
    forall k | 0 <= k < |before| ensures f(before[k]).None? {
      assert before[k] == s[k];
    }
    forall k | 0 <= k < |after| ensures f(after[k]).None? {
      assert after[k] == s[k + i + 1];
    }
    FilterMapNone(before, f);
    FilterMapNone(after, f);
  }

  /** A value is collected exactly when some element yields it. */
  lemma {:induction false} FilterMapMembers<A, B>(s: seq<A>, f: A -> Option<B>, v: B)
    ensures v in FilterMap(s, f) <==> exists i :: 0 <= i < |s| && f(s[i]) == Some(v)
  {
    if s != [] {
      FilterMapMembers(s[1..], f, v);
      if v in FilterMap(s, f) && v !in OptionSeq(f(s[0])) {
        var i :| 0 <= i < |s[1..]| && f(s[1..][i]) == Some(v);
        assert s[i + 1] == s[1..][i];
      }
      if i :| 0 <= i < |s| && f(s[i]) == Some(v) {
        if i > 0 {
          assert s[1..][i - 1] == s[i];
        }
      }
    }
  }

  // ---------------------------------------------------------------------
  // Keeping the elements that pass a test

  /** The elements of `s` that satisfy `p`, in order. */
  function Filter<A>(s: seq<A>, p: A -> bool): (r: seq<A>)
    ensures |r| <= |s|
    ensures forall k :: 0 <= k < |r| ==> p(r[k])
  {
    if s == [] then [] else (if p(s[0]) then [s[0]] else []) + Filter(s[1..], p)
  }

  lemma {:induction false} FilterAppend<A>(a: seq<A>, b: seq<A>, p: A -> bool)
    ensures Filter(a + b, p) == Filter(a, p) + Filter(b, p)
  {
    if a == [] {
      assert a + b == b;
    } else {
      assert (a + b)[1..] == a[1..] + b;
      FilterAppend(a[1..], b, p);
    }
  }

  lemma FilterOne<A>(x: A, p: A -> bool)
    ensures Filter([x], p) == if p(x) then [x] else []
  {
    assert Filter([x], p) == (if p(x) then [x] else []) + Filter([x][1..], p);
    assert [x][1..] == [];
  }

  /** An element is kept exactly when it is in `s` and satisfies `p`. */
  lemma {:induction false} FilterMembers<A>(s: seq<A>, p: A -> bool)
    ensures forall x :: x in Filter(s, p) <==> x in s && p(x)
  {
    if s != [] {
      FilterMembers(s[1..], p);
      assert forall x :: x in s <==> x == s[0] || x in s[1..];
    }
  }

  /** When every element passes, all are kept. */
  lemma {:induction false} FilterAll<A>(s: seq<A>, p: A -> bool)
    requires forall k :: 0 <= k < |s| ==> p(s[k])
    ensures Filter(s, p) == s
  {
    if s != [] {
      FilterAll(s[1..], p);
    }
  }

  /** Filtering the elements before collecting is filtering the collected
      values, when the two tests agree on every element that yields one. */
  lemma {:induction false} FilterMapOfFilter<A, B>(s: seq<A>, p: A -> bool, f: A -> Option<B>, q: B -> bool)
    requires forall x :: f(x).Some? ==> (p(x) <==> q(f(x).value))
    ensures FilterMap(Filter(s, p), f) == Filter(FilterMap(s, f), q)
  {
    if s != [] {
      FilterMapOfFilter(s[1..], p, f, q);
      var here := if p(s[0]) then [s[0]] else [];
      FilterMapAppend(here, Filter(s[1..], p), f);
      var mine := OptionSeq(f(s[0]));
      FilterAppend(mine, FilterMap(s[1..], f), q);
      if p(s[0]) {
        assert FilterMap(here, f) == mine + FilterMap(here[1..], f);
        assert here[1..] == [];
      }
      if mine != [] {
        assert Filter(mine, q) == (if q(mine[0]) then [mine[0]] else []) + Filter(mine[1..], q);
        assert mine[1..] == [];
      }
    }
  }

  // ---------------------------------------------------------------------
  // Building a map, later elements overwriting earlier ones

  /** The map after assigning one yielded pair, if any. */
  function Put<K(==), V>(m: map<K, V>, o: Option<(K, V)>): (r: map<K, V>)
    ensures o.Some? ==> o.value.0 in r && r[o.value.0] == o.value.1
    ensures forall k :: k in m && (o.None? || k != o.value.0) ==> k in r && r[k] == m[k]
    ensures forall k :: k in r ==> k in m || (o.Some? && k == o.value.0)
  {
    match o
    case Some(kv) => m[kv.0 := kv.1]
    case None => m
  }

  /** The map that assigning every yielded pair in order produces. */
  function AssignAll<A, K(==), V>(s: seq<A>, f: A -> Option<(K, V)>): map<K, V> {
    if s == [] then map[] else Put(AssignAll(s[..|s| - 1], f), f(s[|s| - 1]))
  }

  lemma AssignAllSnoc<A, K, V>(a: seq<A>, x: A, f: A -> Option<(K, V)>)
    ensures AssignAll(a + [x], f) == Put(AssignAll(a, f), f(x))
  {
    assert (a + [x])[..|a|] == a;
  }

  predicate Assigns<A, K(==), V>(f: A -> Option<(K, V)>, x: A, k: K) {
    f(x).Some? && f(x).value.0 == k
  }

  /** A key is in the map exactly when some element assigns it. */
  lemma {:induction false} AssignAllDomain<A, K, V>(s: seq<A>, f: A -> Option<(K, V)>, k: K)
    ensures k in AssignAll(s, f) <==> exists i :: 0 <= i < |s| && Assigns(f, s[i], k)
  {
    if s != [] {
      var init := s[..|s| - 1];
      AssignAllDomain(init, f, k);
      if k in AssignAll(init, f) {
        var i :| 0 <= i < |init| && Assigns(f, init[i], k);
        assert s[i] == init[i];
      }
      if i :| 0 <= i < |s| && Assigns(f, s[i], k) {
        if i < |s| - 1 {
          assert init[i] == s[i];
        }
      }
    }
  }

  /** The last element that assigns a key decides its value. */
  lemma {:induction false} AssignAllLastWins<A, K, V>(s: seq<A>, f: A -> Option<(K, V)>, i: nat)
    requires i < |s| && f(s[i]).Some?
    requires forall j :: i < j < |s| ==> !Assigns(f, s[j], f(s[i]).value.0)
    ensures f(s[i]).value.0 in AssignAll(s, f)
    ensures AssignAll(s, f)[f(s[i]).value.0] == f(s[i]).value.1
  {
    var init := s[..|s| - 1];
    if i < |s| - 1 {
      forall j | i < j < |init| ensures !Assigns(f, init[j], f(s[i]).value.0) {
        assert init[j] == s[j];
      }
      assert init[i] == s[i];
      AssignAllLastWins(init, f, i);
      assert !Assigns(f, s[|s| - 1], f(s[i]).value.0);
    }
  }
}

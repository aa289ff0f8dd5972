/** Values shared by the pools, the registry and the coroutine service. */
module Common {

  /** A value or its absence; None stands for a C# null reference. */
  datatype Option<+T> = None | Some(value: T)

  /** int.MaxValue: the ceiling that stands for "unbounded". */
  const IntMax: int := 0x7fff_ffff

  /** A C# int. */
  type Int32 = x: int | -0x8000_0000 <= x <= IntMax

  /** string.IsNullOrEmpty: a null or empty key or tag is "no key" / "no tag". */
  predicate IsNullOrEmpty(s: Option<string>)
  {
    s.None? || s.value == ""
  }

  /** A lifecycle hook fired on a pooled instance (IPoolable.OnRequestedFromPool / OnReturnedToPool). */
  datatype Hook<T> = Requested(instance: T) | Returned(instance: T)

  /** No element of `s` occurs twice. */
  predicate Distinct<T(==)>(s: seq<T>)
  {
    forall i, j :: 0 <= i < j < |s| ==> s[i] != s[j]
  }

  /**
   * The non-null results, in call order, of calls number `from` .. `from + n - 1`
   * to a creation capability (a factory, an Instantiate) that yields None on failure.
   */
  function Successes<T>(make: nat -> Option<T>, from: nat, n: nat): (r: seq<T>)
    ensures |r| <= n
    ensures (forall k :: from <= k < from + n ==> make(k).Some?) ==> |r| == n
  {
    if n == 0 then []
    else
      var earlier := Successes(make, from, n - 1);
      match make(from + n - 1)
      case None => earlier
      case Some(x) => earlier + [x]
  }

  /** How many of calls number `from` .. `from + n - 1` to a creation capability succeed. */
  function Hits(ok: nat -> bool, from: nat, n: nat): (r: nat)
    ensures r <= n
    ensures (forall k :: from <= k < from + n ==> ok(k)) ==> r == n
    ensures (forall k :: from <= k < from + n ==> !ok(k)) ==> r == 0
  {
    if n == 0 then 0 else Hits(ok, from, n - 1) + (if ok(from + n - 1) then 1 else 0)
  }

  /** Every success is the answer of one of the calls it covers. */
  lemma {:induction false} SuccessesAreAnswers<T>(make: nat -> Option<T>, from: nat, n: nat)
    ensures forall x :: x in Successes(make, from, n) ==> exists k :: from <= k < from + n && make(k) == Some(x)
  {
    if n > 0 {
      SuccessesAreAnswers(make, from, n - 1);
    }
  }

  /** One more call: its result joins the successes when it is not None. */
  lemma SuccessesNext<T>(make: nat -> Option<T>, from: nat, n: nat)
    ensures Successes(make, from, n + 1) ==
      Successes(make, from, n) + (if make(from + n).Some? then [make(from + n).value] else [])
  {
  }

  /**
   * List<T>.Remove: drops the first occurrence of `x`, if any, and keeps the order of the rest.
   */
  function RemoveFirst<T(==)>(s: seq<T>, x: T): (r: seq<T>)
    ensures x in s ==> |r| == |s| - 1
    ensures x !in s ==> r == s
    ensures forall y :: y in r ==> y in s
  {
    if s == [] then []
    else if s[0] == x then
      assert s == [s[0]] + s[1..];
      s[1..]
    else
      assert s == [s[0]] + s[1..];
      [s[0]] + RemoveFirst(s[1..], x)
  }

  /** Removing from a list without repetitions leaves none and takes `x` out entirely. */
  lemma {:induction false} RemoveFirstDistinct<T>(s: seq<T>, x: T)
    requires Distinct(s)
    ensures Distinct(RemoveFirst(s, x)) && x !in RemoveFirst(s, x)
    ensures forall y :: y in RemoveFirst(s, x) <==> y in s && y != x
  {
    if s != [] {
      assert s == [s[0]] + s[1..];
      assert Distinct(s[1..]);
      assert s[0] !in s[1..];
      if s[0] != x {
        RemoveFirstDistinct(s[1..], x);
      }
    }
  }

  /** RemoveFirstDistinct, for a list that may have repetitions. */
  lemma RemoveFirstDistinctIf<T>(s: seq<T>, x: T)
    ensures Distinct(s) ==> Distinct(RemoveFirst(s, x)) && x !in RemoveFirst(s, x)
  {
    if Distinct(s) {
      RemoveFirstDistinct(s, x);
    }
  }

  /** The elements of a list, as a set. */
  function Elems<T>(s: seq<T>): set<T>
  {
    set x | x in s
  }

  /** A list without repetitions has as many elements as its set of elements. */
  lemma {:induction false} DistinctCard<T>(s: seq<T>)
    requires Distinct(s)
    ensures |Elems(s)| == |s|
  {
    if s != [] {
      var init := s[..|s| - 1];
      assert Distinct(init);
      DistinctCard(init);
      ElemsPrefix(s, |s|);
      assert s[..|s|] == s;
      assert s[|s| - 1] !in init;
    }
  }

  /** The elements of a prefix grow by one element per step. */
  lemma ElemsPrefix<T>(s: seq<T>, i: nat)
    requires 0 < i <= |s|
    ensures Elems(s[..i]) == Elems(s[..i - 1]) + {s[i - 1]}
  {
    assert s[..i] == s[..i - 1] + [s[i - 1]];
  }

  /** Removing keys one more at a time. */
  lemma MinusOneMore<K, V>(m: map<K, V>, e: set<K>, c: K)
    ensures (m - e) - {c} == m - (e + {c})
  {
  }

  /** A non-empty sequence is its front followed by its last element. */
  lemma FrontLast<T>(s: seq<T>)
    requires s != []
    ensures s == s[..|s| - 1] + [s[|s| - 1]]
  {
  }

  /** The next prefix ends in the next element and starts with the current prefix. */
  lemma PrefixNext<T>(s: seq<T>, i: nat)
    requires i < |s|
    ensures s[..i + 1][..i] == s[..i] && s[..i + 1][i] == s[i]
  {
  }

  /** Updating a union updates its right-hand side. */
  lemma UnionUpdate<K, V>(r: map<K, V>, m: map<K, V>, a: map<K, V>, b: map<K, V>, b': map<K, V>, k: K, v: V)
    requires m == a + b && r == m[k := v] && b' == b[k := v]
    ensures r == a + b'
  {
  }

  /** A subset is no larger than its superset. */
  lemma {:induction false} SubsetCard<T>(a: set<T>, b: set<T>)
    requires a <= b
    ensures |a| <= |b|
    decreases |a|
  {
    if a != {} {
      var x :| x in a;
      SubsetCard(a - {x}, b - {x});
    }
  }

  /**
   * Copies a set into a list (the snapshot `foreach` builds from a HashSet or a
   * dictionary); the order is whatever the enumeration yields.
   */
  method Snapshot<T(==)>(s: set<T>) returns (r: seq<T>)
    ensures Distinct(r)
    ensures forall x :: x in r <==> x in s
    ensures |r| == |s|
  {
    r := [];
    var rest := s;
    while rest != {}
      invariant rest <= s
      invariant forall x :: x in r <==> x in s && x !in rest
      invariant Distinct(r)
      invariant |r| + |rest| == |s|
      decreases rest
    {
      var x :| x in rest;
      r := r + [x];
      rest := rest - {x};
    }
  }
}

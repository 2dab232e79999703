/**
 * The sequence operations behind the list of connected sockets: how often
 * a socket occurs in it, and the list with every occurrence of one socket
 * filtered out (what a `close` notification does to it).
 */
module Registry {

  /** The number of occurrences of x in s. */
  function Count<T(==)>(s: seq<T>, x: T): (r: nat)
    ensures r <= |s|
    ensures r == 0 <==> x !in s
  {
    if s == [] then 0
    else Count(s[..|s| - 1], x) + (if s[|s| - 1] == x then 1 else 0)
  }

  /** s with every element equal to x left out, the rest in their order. */
  function Without<T(==)>(s: seq<T>, x: T): (r: seq<T>)
    ensures |r| <= |s|
    ensures x !in r
    ensures forall y :: y in r ==> y in s
  {
    if s == [] then []
    else Without(s[..|s| - 1], x) + (if s[|s| - 1] == x then [] else [s[|s| - 1]])
  }

  /** n copies of m, in a row. */
  function Copies<T>(m: T, n: nat): (r: seq<T>)
    ensures |r| == n
    ensures forall i :: 0 <= i < n ==> r[i] == m
  {
    if n == 0 then [] else Copies(m, n - 1) + [m]
  }

  /** No element occurs twice. */
  ghost predicate Distinct<T(!new)>(s: seq<T>)
  {
    forall x :: Count(s, x) <= 1
  }

  lemma CopiesSnoc<T>(m: T, n: nat)
    ensures Copies(m, n) + [m] == Copies(m, n + 1)
  {
  }

  /** Appending c adds exactly one occurrence of c and none of anything else. */
  lemma CountSnoc<T>(s: seq<T>, c: T, y: T)
    ensures Count(s + [c], y) == Count(s, y) + (if y == c then 1 else 0)
  {
  }

  /** Filtering out x keeps every occurrence of every other element. */
  lemma {:induction false} WithoutKeepsOthers<T>(s: seq<T>, x: T, y: T)
    requires y != x
    ensures Count(Without(s, x), y) == Count(s, y)
  {
    if s != [] {
      var init, last := s[..|s| - 1], s[|s| - 1];
      WithoutKeepsOthers(init, x, y);
      assert Count(s, y) == Count(init, y) + (if last == y then 1 else 0);
      if last == x {
        assert Without(s, x) == Without(init, x);
      } else {
        assert Without(s, x) == Without(init, x) + [last];
        CountSnoc(Without(init, x), last, y);
      }
    }
  }

  /** Filtering out an absent element changes nothing. */
  lemma {:induction false} WithoutAbsent<T>(s: seq<T>, x: T)
    requires x !in s
    ensures Without(s, x) == s
  {
    if s != [] {
      WithoutAbsent(s[..|s| - 1], x);
      assert s[..|s| - 1] + [s[|s| - 1]] == s;
    }
  }

  /** Closing the same socket twice is the same as closing it once. */
  lemma WithoutIdempotent<T>(s: seq<T>, x: T)
    ensures Without(Without(s, x), x) == Without(s, x)
  {
    WithoutAbsent(Without(s, x), x);
  }

  /**
   * Filtering distributes over concatenation: the survivors of an earlier
   * part still come before the survivors of a later part.
   */
  lemma {:induction false} WithoutConcat<T>(a: seq<T>, b: seq<T>, x: T)
    ensures Without(a + b, x) == Without(a, x) + Without(b, x)
  {
    if b == [] {
      assert a + b == a;
    } else {
      var b', last := b[..|b| - 1], b[|b| - 1];
      WithoutConcat(a, b', x);
      assert (a + b)[..|a + b| - 1] == a + b';
      assert (a + b)[|a + b| - 1] == last;
    }
  }

  /** Connecting a socket and closing it again leaves the others as they were. */
  lemma ConnectThenClose<T>(s: seq<T>, c: T)
    ensures Without(s + [c], c) == Without(s, c)
  {
  }

  /** In a list without repetitions, an element occurs once or not at all. */
  lemma CountDistinct<T(!new)>(s: seq<T>, x: T)
    requires Distinct(s)
    ensures Count(s, x) == if x in s then 1 else 0
  {
  }

  /** Appending an absent socket keeps the list free of repetitions. */
  lemma DistinctSnoc<T(!new)>(s: seq<T>, c: T)
    requires Distinct(s) && c !in s
    ensures Distinct(s + [c])
  {
  }

  /** Filtering keeps the list free of repetitions. */
  lemma DistinctWithout<T(!new)>(s: seq<T>, x: T)
    requires Distinct(s)
    ensures Distinct(Without(s, x))
  {
    forall y ensures Count(Without(s, x), y) <= 1 {
      if y != x {
        WithoutKeepsOthers(s, x, y);
      }
    }
  }
}

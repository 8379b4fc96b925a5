/** One entry put into a sequence, or taken out of it; and the sequence the other way round. */
module Sequences {

  datatype Option<+T> = None | Some(value: T)

  /** `t` is `s` with `x` put in at index `q`. */
  ghost predicate Inserted<T>(s: seq<T>, t: seq<T>, q: int, x: T) {
    && 0 <= q <= |s| && |t| == |s| + 1 && t[q] == x
    && (forall m {:trigger t[m]} :: 0 <= m < q ==> t[m] == s[m])
    && (forall m {:trigger t[m]} :: q < m < |t| ==> t[m] == s[m - 1])
  }

  /** `t` is `s` without its entry at index `q`. */
  ghost predicate Removed<T>(s: seq<T>, t: seq<T>, q: int) {
    && 0 <= q < |s| && |t| == |s| - 1
    && (forall m {:trigger t[m]} :: 0 <= m < q ==> t[m] == s[m])
    && (forall m {:trigger t[m]} :: q <= m < |t| ==> t[m] == s[m + 1])
  }

  lemma Insertion<T>(s: seq<T>, q: nat, x: T) returns (t: seq<T>)
    requires q <= |s|
    ensures Inserted(s, t, q, x)
  {
    t := s[..q] + [x] + s[q..];
  }

  lemma Removal<T>(s: seq<T>, q: nat) returns (t: seq<T>)
    requires q < |s|
    ensures Removed(s, t, q)
  {
    t := s[..q] + s[q + 1..];
  }

  ghost function Without<T>(s: seq<T>, p: nat): (t: seq<T>)
    requires p < |s|
    ensures Removed(s, t, p)
  {
    assert Removed(s, s[..p] + s[p + 1..], p);
    var t :| Removed(s, t, p);
    t
  }

  lemma RemovedIsWithout<T>(s: seq<T>, t: seq<T>, p: nat)
    requires Removed(s, t, p)
    ensures t == Without(s, p)
  {
    var u := Without(s, p);
    forall m | 0 <= m < |t| ensures t[m] == u[m] {
    }
  }

  lemma WithoutSlices<T>(s: seq<T>, p: nat)
    requires p < |s|
    ensures var t := Without(s, p); t[..p] == s[..p] && t[p..] == s[p + 1..] && t == s[..p] + s[p + 1..]
  {
  }

  lemma WithoutMiddle<T>(a: seq<T>, x: T, b: seq<T>)
    ensures Without(a + [x] + b, |a|) == a + b
  {
    RemovedIsWithout(a + [x] + b, a + b, |a|);
  }

  function Reversed<T>(s: seq<T>): (t: seq<T>)
    ensures |t| == |s| && forall i {:trigger t[i]} :: 0 <= i < |t| ==> t[i] == s[|s| - 1 - i]
  {
    seq(|s|, i requires 0 <= i < |s| => s[|s| - 1 - i])
  }

  lemma ReversedHead<T>(s: seq<T>)
    requires s != []
    ensures Reversed(s) == Reversed(s[1..]) + [s[0]]
  {
  }

  lemma ReversedEnd<T>(s: seq<T>, x: T)
    ensures Reversed(s + [x]) == [x] + Reversed(s)
  {
  }

  lemma ReversedAppend<T>(s: seq<T>, u: seq<T>)
    ensures Reversed(s + u) == Reversed(u) + Reversed(s)
  {
  }

  lemma ReversedTwice<T>(s: seq<T>)
    ensures Reversed(Reversed(s)) == s
  {
  }

  lemma Associative<T>(a: seq<T>, b: seq<T>, c: seq<T>)
    ensures (a + b) + c == a + (b + c)
  {
  }

  lemma SliceOfRest<T>(s: seq<T>, a: nat, n: nat)
    requires a + n <= |s|
    ensures s[a..][..n] == s[a..a + n] && s[a..][n..] == s[a + n..]
  {
  }

  lemma SliceHead<T>(s: seq<T>, a: nat, b: nat)
    requires a < b <= |s|
    ensures s[a..b] == [s[a]] + s[a + 1..b]
  {
  }

  lemma Halves<T>(s: seq<T>, a: nat)
    requires a <= |s|
    ensures s == s[..a] + s[a..]
  {
  }
}

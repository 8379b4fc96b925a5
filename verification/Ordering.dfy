/** The (score, member) order in which a sorted set keeps its elements. */
module Ordering {

  datatype Element = Element(member: string, score: real)

  /** Go's `<` on strings: lexicographic, a proper prefix comes first. */
  predicate StringLess(a: string, b: string) {
    if b == "" then false
    else if a == "" then true
    else a[0] < b[0] || (a[0] == b[0] && StringLess(a[1..], b[1..]))
  }

  predicate Before(a: Element, b: Element) {
    a.score < b.score || (a.score == b.score && StringLess(a.member, b.member))
  }

  predicate Sorted(s: seq<Element>) {
    forall i, j :: 0 <= i < j < |s| ==> Before(s[i], s[j])
  }

  function Contents(s: seq<Element>): set<Element> {
    set e | e in s
  }

  lemma {:induction false} StringLessTransitive(a: string, b: string, c: string)
    requires StringLess(a, b) && StringLess(b, c)
    ensures StringLess(a, c)
  {
    if a != "" && a[0] == b[0] == c[0] {
      StringLessTransitive(a[1..], b[1..], c[1..]);
    }
  }

  lemma {:induction false} StringLessAsymmetric(a: string, b: string)
    requires StringLess(a, b)
    ensures !StringLess(b, a)
  {
    if a != "" && a[0] == b[0] {
      StringLessAsymmetric(a[1..], b[1..]);
    }
  }

  lemma {:induction false} StringLessTotal(a: string, b: string)
    requires a != b
    ensures StringLess(a, b) || StringLess(b, a)
  {
    if a != "" && b != "" && a[0] == b[0] {
      assert a == [a[0]] + a[1..] && b == [b[0]] + b[1..];
      StringLessTotal(a[1..], b[1..]);
    }
  }

  lemma BeforeTransitive(a: Element, b: Element, c: Element)
    requires Before(a, b) && Before(b, c)
    ensures Before(a, c)
  {
    if a.score == b.score == c.score {
      StringLessTransitive(a.member, b.member, c.member);
    }
  }

  lemma BeforeAsymmetric(a: Element, b: Element)
    requires Before(a, b)
    ensures !Before(b, a) && a != b
  {
    if a.score == b.score {
      StringLessAsymmetric(a.member, b.member);
    }
  }

  lemma BeforeTotal(a: Element, b: Element)
    requires a != b
    ensures Before(a, b) || Before(b, a)
  {
    if a.score == b.score {
      StringLessTotal(a.member, b.member);
    }
  }

  lemma SortedDistinct(s: seq<Element>, i: nat, j: nat)
    requires Sorted(s) && i < |s| && j < |s| && s[i] == s[j]
    ensures i == j
  {
    if i < j {
      BeforeAsymmetric(s[i], s[j]);
    } else if j < i {
      BeforeAsymmetric(s[j], s[i]);
    }
  }

  lemma SortedDistinct'(s: seq<Element>, i: nat, j: nat)
    requires Sorted(s) && i < |s| && j < |s| && i != j
    ensures s[i] != s[j]
  {
    if s[i] == s[j] {
      SortedDistinct(s, i, j);
    }
  }

  /** A strictly sorted sequence is determined by the elements it holds. */
  lemma {:induction false} SortedUnique(s: seq<Element>, t: seq<Element>)
    requires Sorted(s) && Sorted(t) && Contents(s) == Contents(t)
    ensures s == t
  {
    if s == [] {
      HeadInContents(t);
    } else {
      assert s[0] in Contents(s);
      var j :| 0 <= j < |t| && t[j] == s[0];
      assert t[0] in Contents(t);
      var i :| 0 <= i < |s| && s[i] == t[0];
      if j > 0 {
        BeforeAsymmetric(t[0], t[j]);
        assert false;
      }
      forall e ensures e in Contents(s[1..]) <==> e in Contents(t[1..]) {
        TailContents(s, e);
        TailContents(t, e);
      }
      SortedUnique(s[1..], t[1..]);
      assert s == [s[0]] + s[1..] && t == [t[0]] + t[1..];
    }
  }

  lemma HeadInContents(s: seq<Element>)
    ensures s != [] ==> s[0] in Contents(s)
  {
  }

  lemma TailContents(s: seq<Element>, e: Element)
    requires Sorted(s) && s != []
    ensures e in Contents(s[1..]) <==> e in Contents(s) && e != s[0]
  {
    if e in s[1..] {
      var k :| 0 <= k < |s[1..]| && s[1..][k] == e;
      assert s[k + 1] == e;
      BeforeAsymmetric(s[0], s[k + 1]);
    }
  }

  /* ---- What the order is ---- */

  /** The two agree up to index `k`. */
  ghost predicate AgreeTo(a: string, b: string, k: nat) {
    k <= |a| && k <= |b| && forall i {:trigger a[i]} {:trigger b[i]} :: 0 <= i < k ==> a[i] == b[i]
  }

  /** Where they part, `a` has ended and `b` has not, or has the smaller character. */
  ghost predicate PartsBelow(a: string, b: string, k: nat) {
    AgreeTo(a, b, k) && k < |b| && (k == |a| || (k < |a| && a[k] < b[k]))
  }

  lemma PartsCons(a: string, b: string, k: nat)
    requires a != "" && b != "" && a[0] == b[0]
    ensures PartsBelow(a[1..], b[1..], k) <==> PartsBelow(a, b, k + 1)
  {
    var c, d := a[1..], b[1..];
    if PartsBelow(c, d, k) {
      forall i {:trigger a[i]} | 0 <= i < k + 1 ensures a[i] == b[i] {
        assert i > 0 ==> a[i] == c[i - 1] && b[i] == d[i - 1];
      }
    }
    if PartsBelow(a, b, k + 1) {
      forall i {:trigger c[i]} | 0 <= i < k ensures c[i] == d[i] {
        assert c[i] == a[i + 1] && d[i] == b[i + 1];
      }
    }
  }

  /** A string comes before another if and only if it is a proper prefix of it, or has the smaller character where the two first differ. */
  lemma {:induction false} LessMeans(a: string, b: string)
    ensures StringLess(a, b) <==> exists k: nat :: PartsBelow(a, b, k)
  {
    if a == "" || b == "" || a[0] != b[0] {
      assert StringLess(a, b) ==> PartsBelow(a, b, 0);
      assert forall k: nat :: PartsBelow(a, b, k) ==> k == 0;
    } else {
      LessMeans(a[1..], b[1..]);
      if StringLess(a, b) {
        var k: nat :| PartsBelow(a[1..], b[1..], k);
        PartsCons(a, b, k);
      }
      if k: nat :| PartsBelow(a, b, k) {
        PartsCons(a, b, k - 1);
      }
    }
  }

  /** In a sorted list scores do not fall, and members of one score stand in the order of their characters. */
  lemma SortedMeans(s: seq<Element>, i: nat, j: nat)
    requires Sorted(s) && i < j < |s|
    ensures s[i].score <= s[j].score
    ensures s[i].score == s[j].score ==> exists k: nat :: PartsBelow(s[i].member, s[j].member, k)
  {
    assert Before(s[i], s[j]);
    LessMeans(s[i].member, s[j].member);
  }
}

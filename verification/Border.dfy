/** datastruct/sortedset/border.go: the two ends of a range of scores or of members. */
module Borders {
  import opened Ordering

  datatype Inf = NegativeInf | Finite | PositiveInf

  datatype Border =
    | ScoreBorder(inf: Inf, score: real, exclude: bool)
    | LexBorder(inf: Inf, member: string, exclude: bool)
  {
    /** As an upper end: is `e` within it? */
    predicate Greater(e: Element) {
      if inf.NegativeInf? then false
      else if inf.PositiveInf? then true
      else if ScoreBorder? then (if exclude then score > e.score else score >= e.score)
      else (if exclude then StringLess(e.member, member) else !StringLess(member, e.member))
    }

    /** As a lower end: is `e` within it? */
    predicate Less(e: Element) {
      if inf.NegativeInf? then true
      else if inf.PositiveInf? then false
      else if ScoreBorder? then (if exclude then score < e.score else score <= e.score)
      else (if exclude then StringLess(member, e.member) else !StringLess(e.member, member))
    }

    /** True when, going by the stored values alone, no element can lie between `this` and `max`. */
    predicate IsIntersected(max: Border)
      requires ScoreBorder? == max.ScoreBorder?
    {
      if ScoreBorder? then score > max.score || (score == max.score && (exclude || max.exclude))
      else inf.PositiveInf? || StringLess(max.member, member) || (member == max.member && (exclude || max.exclude))
    }
  }

  const SCORE_NEGATIVE_INF := ScoreBorder(NegativeInf, 0.0, false)
  const SCORE_POSITIVE_INF := ScoreBorder(PositiveInf, 0.0, false)

  /** The elements of `s` between the two ends, in order. */
  function Between(s: seq<Element>, min: Border, max: Border): (r: seq<Element>) {
    if s == [] then []
    else (if min.Less(s[0]) && max.Greater(s[0]) then [s[0]] else []) + Between(s[1..], min, max)
  }

  predicate DownClosed(s: seq<Element>, before: Element -> bool) {
    forall i, j :: 0 <= i < j < |s| && before(s[j]) ==> before(s[i])
  }

  /** The order of `s` agrees with the borders: what lies below `min` comes first, what lies above `max` comes last. */
  ghost predicate Agrees(s: seq<Element>, min: Border, max: Border) {
    && min.ScoreBorder? == max.ScoreBorder?
    && DownClosed(s, e => !min.Less(e)) && DownClosed(s, max.Greater)
  }

  /** Score borders agree with every sorted sequence. */
  lemma ScoreBordersAgree(s: seq<Element>, min: Border, max: Border)
    requires Sorted(s) && min.ScoreBorder? && max.ScoreBorder?
    ensures Agrees(s, min, max)
  {
    forall i, j | 0 <= i < j < |s| ensures s[i].score <= s[j].score {
      assert Before(s[i], s[j]);
    }
  }

  /** Lex borders agree with a sorted sequence whose scores are all the same. */
  lemma LexBordersAgree(s: seq<Element>, min: Border, max: Border)
    requires Sorted(s) && min.LexBorder? && max.LexBorder?
    requires forall i, j :: 0 <= i < |s| && 0 <= j < |s| ==> s[i].score == s[j].score
    ensures Agrees(s, min, max)
  {
    forall i, j | 0 <= i < j < |s| && !min.Less(s[j]) ensures !min.Less(s[i]) {
      LexOrder(s[i], s[j], min.member);
    }
    forall i, j | 0 <= i < j < |s| && max.Greater(s[j]) ensures max.Greater(s[i]) {
      LexOrder(s[i], s[j], max.member);
    }
  }

  lemma LexOrder(a: Element, b: Element, m: string)
    requires Before(a, b) && a.score == b.score
    ensures !StringLess(m, b.member) ==> !StringLess(m, a.member)
    ensures StringLess(b.member, m) ==> StringLess(a.member, m)
  {
    if StringLess(m, a.member) {
      StringLessTransitive(m, a.member, b.member);
    }
    if StringLess(b.member, m) {
      StringLessTransitive(a.member, b.member, m);
    }
  }

  /** How many leading elements are `before`. */
  ghost function Prefix(s: seq<Element>, before: Element -> bool): (k: nat)
    ensures k <= |s|
    ensures forall i {:trigger s[i]} :: 0 <= i < k ==> before(s[i])
    ensures k < |s| ==> !before(s[k])
  {
    if s == [] || !before(s[0]) then 0
    else
      var k := Prefix(s[1..], before);
      assert forall i {:trigger s[i]} :: 1 <= i <= k ==> s[i] == s[1..][i - 1];
      1 + k
  }

  ghost function Below(s: seq<Element>, min: Border): nat {
    Prefix(s, e => !min.Less(e))
  }

  ghost function Within(s: seq<Element>, max: Border): nat {
    Prefix(s, max.Greater)
  }

  /** `min` and `max` part `s` at the places `a` and `b`. */
  ghost predicate Parts(s: seq<Element>, min: Border, max: Border, a: int, b: int) {
    && 0 <= a <= |s| && 0 <= b <= |s|
    && forall i {:trigger s[i]} :: 0 <= i < |s| ==> (min.Less(s[i]) <==> i >= a) && (max.Greater(s[i]) <==> i < b)
  }

  lemma AgreesParts(s: seq<Element>, min: Border, max: Border)
    requires Agrees(s, min, max)
    ensures Parts(s, min, max, Below(s, min), Within(s, max))
  {
  }

  lemma HeadSlice(s: seq<Element>, a: nat, b: nat)
    requires a <= b <= |s| && s != []
    ensures a == 0 < b ==> s[a..b] == [s[0]] + s[1..][..b - 1]
    ensures a > 0 ==> s[a..b] == s[1..][a - 1..b - 1]
  {
    var t := s[1..];
    assert forall k {:trigger t[k]} :: 0 <= k < |t| ==> t[k] == s[k + 1];
    if a > 0 {
      forall k | 0 <= k < b - a ensures s[a..b][k] == t[a - 1..b - 1][k] {
        assert t[a - 1..b - 1][k] == t[k + a - 1];
      }
    }
  }

  lemma {:induction false} BetweenFrom(s: seq<Element>, min: Border, max: Border, a: nat, b: nat)
    requires Parts(s, min, max, a, b)
    ensures Between(s, min, max) == if a < b then s[a..b] else []
  {
    if s != [] {
      var t := s[1..];
      var a', b' := if a == 0 then 0 else a - 1, if b == 0 then 0 else b - 1;
      forall i | 0 <= i < |t| ensures (min.Less(t[i]) <==> i >= a') && (max.Greater(t[i]) <==> i < b') {
        assert t[i] == s[i + 1];
      }
      BetweenFrom(t, min, max, a', b');
      assert min.Less(s[0]) <==> a == 0;
      if a < b {
        HeadSlice(s, a, b);
      }
    }
  }

  /** Where order and borders agree, the elements in between are one stretch of `s`. */
  lemma BetweenIsSlice(s: seq<Element>, min: Border, max: Border)
    requires Agrees(s, min, max)
    ensures Between(s, min, max) == if Below(s, min) < Within(s, max) then s[Below(s, min)..Within(s, max)] else []
  {
    AgreesParts(s, min, max);
    BetweenFrom(s, min, max, Below(s, min), Within(s, max));
  }

  /* ---- What the borders are ---- */

  /** As the parsers make them: an infinite border has an empty value. */
  predicate Parsed(b: Border) {
    !b.inf.Finite? ==> !b.exclude && if b.ScoreBorder? then b.score == 0.0 else b.member == ""
  }

  /** Not below the lower end: above its value, or at it if that is not left out. */
  ghost predicate NotBelow(min: Border, e: Element) {
    match min.inf
    case NegativeInf => true
    case PositiveInf => false
    case Finite =>
      if min.ScoreBorder? then min.score < e.score || (min.score == e.score && !min.exclude)
      else (exists k: nat :: PartsBelow(min.member, e.member, k)) || (min.member == e.member && !min.exclude)
  }

  ghost predicate NotAbove(max: Border, e: Element) {
    match max.inf
    case NegativeInf => false
    case PositiveInf => true
    case Finite =>
      if max.ScoreBorder? then e.score < max.score || (max.score == e.score && !max.exclude)
      else (exists k: nat :: PartsBelow(e.member, max.member, k)) || (max.member == e.member && !max.exclude)
  }

  lemma BorderMeans(b: Border, e: Element)
    ensures b.Less(e) <==> NotBelow(b, e)
    ensures b.Greater(e) <==> NotAbove(b, e)
  {
    if b.LexBorder? && b.inf.Finite? {
      LessMeans(b.member, e.member);
      LessMeans(e.member, b.member);
      if b.member != e.member {
        StringLessTotal(b.member, e.member);
      }
      if StringLess(b.member, e.member) {
        StringLessAsymmetric(b.member, e.member);
      }
      if StringLess(e.member, b.member) {
        StringLessAsymmetric(e.member, b.member);
      }
    }
  }

  /** The elements between two borders: those of the list that are within both. */
  lemma {:induction false} BetweenMeans(s: seq<Element>, min: Border, max: Border, e: Element)
    ensures e in Between(s, min, max) <==> e in s && NotBelow(min, e) && NotAbove(max, e)
    decreases s
  {
    if s != [] {
      BorderMeans(min, s[0]);
      BorderMeans(max, s[0]);
      BetweenMeans(s[1..], min, max, e);
      assert e in s <==> e == s[0] || e in s[1..];
    }
  }

  /** When the borders look crossed: an infinite border counts as 0, or as the empty string. */
  lemma CrossedMeans(min: Border, max: Border)
    requires Parsed(min) && Parsed(max) && min.ScoreBorder? == max.ScoreBorder?
    ensures min.ScoreBorder? ==>
              var lo, hi := if min.inf.Finite? then min.score else 0.0, if max.inf.Finite? then max.score else 0.0;
              min.IsIntersected(max) <==> lo > hi || (lo == hi && (min.exclude || max.exclude))
    ensures min.LexBorder? ==>
              var lo, hi := if min.inf.Finite? then min.member else "", if max.inf.Finite? then max.member else "";
              min.IsIntersected(max) <==> min.inf.PositiveInf? || (exists k: nat :: PartsBelow(hi, lo, k)) || (lo == hi && (min.exclude || max.exclude))
  {
    if min.LexBorder? {
      LessMeans(max.member, min.member);
    }
  }
}

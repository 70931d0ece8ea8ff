/** Selecting the contacts whose field holds a given value, keeping their
    order: the gender filter is this selection on the `sexo` field. */
module Filtering {

  import opened Contacts

  /** `a` can be obtained from `b` by deleting elements: the elements of `a`
      occur in `b` in the same relative order. */
  predicate IsSubsequence<T(==)>(a: seq<T>, b: seq<T>)
  {
    if |b| == 0 then |a| == 0
    else (|a| > 0 && a[0] == b[0] && IsSubsequence(a[1..], b[1..])) || IsSubsequence(a, b[1..])
  }

  /** The contacts of `s` whose field `f` equals `v`, in their order in `s`
      (the model of `Array.prototype.filter` with a strict-equality test). */
  function Matching(s: seq<Contact>, f: Field, v: string): (r: seq<Contact>)
    ensures forall i :: 0 <= i < |r| ==> Key(r[i], f) == v
    ensures IsSubsequence(r, s)
  {
    if |s| == 0 then []
    else
      var rest := Matching(s[1..], f, v);
      if Key(s[0], f) == v then
        assert ([s[0]] + rest)[1..] == rest;
        [s[0]] + rest
      else rest
  }

  /** Filtering a list with a contact in front filters the rest and keeps
      the front contact exactly when it matches. */
  lemma MatchingCons(x: Contact, t: seq<Contact>, f: Field, v: string)
    ensures Matching([x] + t, f, v) == (if Key(x, f) == v then [x] else []) + Matching(t, f, v)
  {
    assert ([x] + t)[1..] == t;
  }

  /** The selection holds each matching contact exactly as often as the list
      does, and no other contact. */
  lemma {:induction false} MatchingCounts(s: seq<Contact>, f: Field, v: string)
    ensures CountsMatch(Matching(s, f, v), s, f, v)
  {
    if |s| > 0 {
      MatchingCounts(s[1..], f, v);
      assert s == [s[0]] + s[1..];
    }
  }

  /** A subsequence takes no element more often than the sequence holds it. */
  lemma {:induction false} SubsequenceMultiset<T>(a: seq<T>, b: seq<T>)
    ensures IsSubsequence(a, b) ==> multiset(a) <= multiset(b)
  {
    if |b| > 0 && IsSubsequence(a, b) {
      assert b == [b[0]] + b[1..];
      if |a| > 0 && a[0] == b[0] && IsSubsequence(a[1..], b[1..]) {
        SubsequenceMultiset(a[1..], b[1..]);
        assert a == [a[0]] + a[1..];
      } else {
        SubsequenceMultiset(a, b[1..]);
      }
    }
  }

  /** `r` holds each contact of `s` whose field `f` is `v` exactly as often
      as `s` does, and no other contact. */
  ghost predicate CountsMatch(r: seq<Contact>, s: seq<Contact>, f: Field, v: string)
  {
    forall c {:trigger multiset(r)[c]} :: multiset(r)[c] == if Key(c, f) == v then multiset(s)[c] else 0
  }

  /** The selection is unique: any order-preserving choice of exactly the
      matching contacts (each as often as it occurs) is `Matching`. */
  lemma {:induction false} MatchingIsUnique(s: seq<Contact>, f: Field, v: string, r: seq<Contact>)
    requires IsSubsequence(r, s) && CountsMatch(r, s, f, v)
    ensures r == Matching(s, f, v)
  {
    if |s| == 0 {
      assert r == [];
    } else if Key(s[0], f) == v {
      UniqueHeadMatches(s, f, v, r);
      MatchingIsUnique(s[1..], f, v, r[1..]);
      assert r == [s[0]] + r[1..];
    } else {
      UniqueHeadMisses(s, f, v, r);
      MatchingIsUnique(s[1..], f, v, r);
    }
  }

  /** When the head of `s` matches, such an `r` starts with it and its rest
      is such a choice from the rest of `s`. */
  lemma UniqueHeadMatches(s: seq<Contact>, f: Field, v: string, r: seq<Contact>)
    requires |s| > 0 && Key(s[0], f) == v
    requires IsSubsequence(r, s) && CountsMatch(r, s, f, v)
    ensures |r| > 0 && r[0] == s[0]
    ensures IsSubsequence(r[1..], s[1..]) && CountsMatch(r[1..], s[1..], f, v)
  {
    var x := s[0];
    assert s == [x] + s[1..];
    SubsequenceMultiset(r, s[1..]);
    assert multiset(r)[x] == multiset(s[1..])[x] + 1;
    assert r == [x] + r[1..];
    forall c
      ensures multiset(r[1..])[c] == if Key(c, f) == v then multiset(s[1..])[c] else 0
    {
      assert multiset(r)[c] == multiset(r[1..])[c] + (if c == x then 1 else 0);
    }
  }

  /** When the head of `s` does not match, such an `r` is such a choice from
      the rest of `s`. */
  lemma UniqueHeadMisses(s: seq<Contact>, f: Field, v: string, r: seq<Contact>)
    requires |s| > 0 && Key(s[0], f) != v
    requires IsSubsequence(r, s) && CountsMatch(r, s, f, v)
    ensures IsSubsequence(r, s[1..]) && CountsMatch(r, s[1..], f, v)
  {
    var x := s[0];
    assert s == [x] + s[1..];
    assert multiset(r)[x] == 0;
    assert |r| > 0 ==> r[0] in multiset(r);
    forall c
      ensures multiset(r)[c] == if Key(c, f) == v then multiset(s[1..])[c] else 0
    {
      assert multiset(s)[c] == multiset(s[1..])[c] + (if c == x then 1 else 0);
    }
  }

  /** Selecting from a list whose contacts all match keeps the whole list. */
  lemma {:induction false} MatchingAllMatch(s: seq<Contact>, f: Field, v: string)
    requires forall i :: 0 <= i < |s| ==> Key(s[i], f) == v
    ensures Matching(s, f, v) == s
  {
    if |s| > 0 {
      MatchingAllMatch(s[1..], f, v);
      assert s == [s[0]] + s[1..];
    }
  }

  /** Applying the same filter twice gives the result of applying it once. */
  lemma {:induction false} MatchingIdempotent(s: seq<Contact>, f: Field, v: string)
    ensures Matching(Matching(s, f, v), f, v) == Matching(s, f, v)
  {
    MatchingAllMatch(Matching(s, f, v), f, v);
  }

  /** The selection depends only on which contacts the list holds, not on
      their order, up to order: reordering the list reorders the selection. */
  lemma MatchingRespectsPermutation(s: seq<Contact>, t: seq<Contact>, f: Field, v: string)
    requires multiset(s) == multiset(t)
    ensures multiset(Matching(s, f, v)) == multiset(Matching(t, f, v))
  {
    var a, b := Matching(s, f, v), Matching(t, f, v);
    MatchingCounts(s, f, v);
    MatchingCounts(t, f, v);
    forall c
      ensures multiset(a)[c] == multiset(b)[c]
    {
    }
  }

}

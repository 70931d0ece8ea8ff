/** Sorting a contact list on one field. The component hands the list to
    `Array.prototype.sort` with a `localeCompare` comparator; that sort is
    stable, so this model is a stable insertion sort under `Collation.Le`. */
module Sorting {

  import opened Contacts
  import opened Filtering
  import Collation

  /** `s` is ascending in field `f`: each contact sorts on or before the
      next one. */
  predicate Ordered(s: seq<Contact>, f: Field)
  {
    |s| < 2 || (Collation.Le(Key(s[0], f), Key(s[1], f)) && Ordered(s[1..], f))
  }

  /** An ascending list has every contact on or before every later one. */
  lemma {:induction false} OrderedPairwise(s: seq<Contact>, f: Field)
    requires Ordered(s, f)
    ensures forall i, j :: 0 <= i < j < |s| ==> Collation.Le(Key(s[i], f), Key(s[j], f))
  {
    if |s| >= 2 {
      var t := s[1..];
      OrderedPairwise(t, f);
      forall i, j | 0 <= i < j < |s|
        ensures Collation.Le(Key(s[i], f), Key(s[j], f))
      {
        if i == 0 {
          if j == 1 {
          } else {
            assert Collation.Le(Key(t[0], f), Key(t[j - 1], f));
            Collation.Transitive(Key(s[0], f), Key(s[1], f), Key(s[j], f));
          }
        } else {
          assert Collation.Le(Key(t[i - 1], f), Key(t[j - 1], f));
        }
      }
    }
  }

  /** Inserts `x` into the ascending list `s` just before the first contact
      that does not sort strictly before it. */
  function Insert(x: Contact, s: seq<Contact>, f: Field): (r: seq<Contact>)
    requires Ordered(s, f)
    ensures multiset(r) == multiset(s) + multiset{x}
    ensures Ordered(r, f)
    ensures |r| == |s| + 1 && (r[0] == x || (|s| > 0 && r[0] == s[0]))
  {
    if |s| == 0 then [x]
    else if Collation.Le(Key(x, f), Key(s[0], f)) then
      assert ([x] + s)[1..] == s;
      [x] + s
    else
      assert s == [s[0]] + s[1..];
      var rest := Insert(x, s[1..], f);
      Collation.Total(Key(x, f), Key(s[0], f));
      assert ([s[0]] + rest)[1..] == rest;
      [s[0]] + rest
  }

  /** The sorted copy of `s` on field `f`: `ordernador(s, f)`. */
  function SortBy(s: seq<Contact>, f: Field): (r: seq<Contact>)
    ensures multiset(r) == multiset(s)
    ensures |r| == |s|
    ensures Ordered(r, f)
  {
    if |s| == 0 then []
    else
      assert s == [s[0]] + s[1..];
      Insert(s[0], SortBy(s[1..], f), f)
  }

  /** Sorting a list that is already ascending leaves it as it is. */
  lemma {:induction false} SortOrderedIsIdentity(s: seq<Contact>, f: Field)
    requires Ordered(s, f)
    ensures SortBy(s, f) == s
  {
    if |s| > 0 {
      assert Ordered(s[1..], f);
      SortOrderedIsIdentity(s[1..], f);
      if |s| > 1 {
        assert Collation.Le(Key(s[0], f), Key(s[1], f));
      }
      assert s == [s[0]] + s[1..];
    }
  }

  /** Sorting twice on the same field is sorting once. */
  lemma SortIdempotent(s: seq<Contact>, f: Field)
    ensures SortBy(SortBy(s, f), f) == SortBy(s, f)
  {
    SortOrderedIsIdentity(SortBy(s, f), f);
  }

  /** Inserting keeps the relative order of the contacts that share a key. */
  lemma {:induction false} InsertStable(x: Contact, s: seq<Contact>, f: Field, v: string)
    requires Ordered(s, f)
    ensures Matching(Insert(x, s, f), f, v) == Matching([x] + s, f, v)
  {
    if |s| > 0 && !Collation.Le(Key(x, f), Key(s[0], f)) {
      var h, t := s[0], s[1..];
      assert s == [h] + t;
      var rest := Insert(x, t, f);
      assert Insert(x, s, f) == [h] + rest;
      InsertStable(x, t, f, v);
      MatchingCons(h, rest, f, v);
      MatchingCons(x, t, f, v);
      MatchingCons(x, s, f, v);
      MatchingCons(h, t, f, v);
      if Key(x, f) == v {
        Collation.Reflexive(v);
        assert Matching(Insert(x, s, f), f, v) == [x] + Matching(t, f, v);
      } else if Key(h, f) == v {
        assert Matching(Insert(x, s, f), f, v) == [h] + Matching(t, f, v);
      }
    }
  }

  /** The sort is stable: contacts with equal keys keep their relative order. */
  lemma {:induction false} SortStable(s: seq<Contact>, f: Field, v: string)
    ensures Matching(SortBy(s, f), f, v) == Matching(s, f, v)
  {
    if |s| > 0 {
      var h, t := s[0], s[1..];
      var sorted := SortBy(t, f);
      InsertStable(h, sorted, f, v);
      SortStable(t, f, v);
      MatchingCons(h, sorted, f, v);
      MatchingCons(h, t, f, v);
      assert s == [h] + t;
    }
  }

}

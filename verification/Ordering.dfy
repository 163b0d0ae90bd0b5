/** The order Go's `<` puts on strings, sorted listings of sets of strings, and
    the fact the slicing of pods over activators rests on: a set has one sorted
    listing, so everyone who sorts the same set obtains the same sequence. */
module Ordering {

  /** Lexicographic order. */
  predicate Less(a: string, b: string) {
    if a == [] then b != []
    else if b == [] then false
    else a[0] < b[0] || (a[0] == b[0] && Less(a[1..], b[1..]))
  }

  /** `a` and `b` agree up to place `k`, and there `a` ends or has the smaller character. */
  ghost predicate SmallerAt(a: string, b: string, k: int) {
    0 <= k <= |a| && k < |b| && a[..k] == b[..k] && (k == |a| || a[k] < b[k])
  }

  /** The order of a dictionary: the first difference decides, and a proper prefix is
      smaller. */
  lemma {:induction false} LessIsLexicographic(a: string, b: string)
    ensures Less(a, b) <==> exists k :: SmallerAt(a, b, k)
  {
    if a != [] && b != [] && a[0] == b[0] {
      LessIsLexicographic(a[1..], b[1..]);
      if Less(a, b) {
        var k :| SmallerAt(a[1..], b[1..], k);
        assert a[..k + 1] == [a[0]] + a[1..][..k] && b[..k + 1] == [b[0]] + b[1..][..k];
        assert SmallerAt(a, b, k + 1);
      }
      if k :| SmallerAt(a, b, k) {
        assert k > 0 && a[1..][..k - 1] == a[..k][1..] && b[1..][..k - 1] == b[..k][1..];
        assert SmallerAt(a[1..], b[1..], k - 1);
      }
    } else if Less(a, b) {
      assert SmallerAt(a, b, 0);
    } else {
      assert forall k :: SmallerAt(a, b, k) ==> k == 0;
    }
  }

  lemma {:induction false} LessIsIrreflexive(a: string)
    ensures !Less(a, a)
  {
    if a != [] {
      LessIsIrreflexive(a[1..]);
    }
  }

  lemma {:induction false} LessIsTransitive(a: string, b: string, c: string)
    requires Less(a, b) && Less(b, c)
    ensures Less(a, c)
  {
    if a != [] && a[0] == b[0] && b[0] == c[0] {
      LessIsTransitive(a[1..], b[1..], c[1..]);
    }
  }

  lemma {:induction false} LessIsTotal(a: string, b: string)
    ensures Less(a, b) || a == b || Less(b, a)
  {
    if a != [] && b != [] && a[0] == b[0] {
      LessIsTotal(a[1..], b[1..]);
      assert a == [a[0]] + a[1..] && b == [b[0]] + b[1..];
    }
  }

  ghost predicate StrictlySorted(s: seq<string>) {
    forall i, j :: 0 <= i < j < |s| ==> Less(s[i], s[j])
  }

  ghost function Elements<T>(s: seq<T>): set<T> {
    set x | x in s
  }

  /** `s` lists exactly the elements of `S`, each once, in ascending order. */
  ghost predicate IsListing(s: seq<string>, S: set<string>) {
    StrictlySorted(s) && Elements(s) == S
  }

  lemma StrictlySortedIsDistinct(s: seq<string>)
    requires StrictlySorted(s)
    ensures forall i, j :: 0 <= i < j < |s| ==> s[i] != s[j]
  {
    forall i, j | 0 <= i < j < |s| ensures s[i] != s[j] {
      LessIsIrreflexive(s[i]);
    }
  }

  lemma {:induction false} DistinctCardinality<T>(s: seq<T>)
    requires forall i, j :: 0 <= i < j < |s| ==> s[i] != s[j]
    ensures |Elements(s)| == |s|
  {
    if s != [] {
      DistinctCardinality(s[1..]);
      assert Elements(s) == {s[0]} + Elements(s[1..]);
    }
  }

  lemma FirstIsLeast(s: seq<string>, x: string)
    requires StrictlySorted(s) && x in s && x != s[0]
    ensures Less(s[0], x)
  {
  }

  lemma TailElements(s: seq<string>)
    requires StrictlySorted(s) && s != []
    ensures StrictlySorted(s[1..]) && Elements(s[1..]) == Elements(s) - {s[0]}
  {
    StrictlySortedIsDistinct(s);
    assert s == [s[0]] + s[1..];
  }

  /** Sorting is deterministic: two sorted listings of one set are equal. */
  lemma {:induction false} ListingIsUnique(s: seq<string>, t: seq<string>)
    requires StrictlySorted(s) && StrictlySorted(t) && Elements(s) == Elements(t)
    ensures s == t
  {
    StrictlySortedIsDistinct(s);
    StrictlySortedIsDistinct(t);
    DistinctCardinality(s);
    DistinctCardinality(t);
    if s != [] {
      assert s[0] in Elements(s) && t[0] in Elements(t);
      if s[0] != t[0] {
        FirstIsLeast(s, t[0]);
        FirstIsLeast(t, s[0]);
        LessIsTransitive(s[0], t[0], s[0]);
        LessIsIrreflexive(s[0]);
      }
      TailElements(s);
      TailElements(t);
      ListingIsUnique(s[1..], t[1..]);
      assert s == [s[0]] + s[1..] && t == [t[0]] + t[1..];
    }
  }

  /** The place at which `x` goes in a sorted sequence. */
  function Position(s: seq<string>, x: string): (p: nat)
    ensures p <= |s|
    ensures forall i :: 0 <= i < p ==> Less(s[i], x)
    ensures p < |s| ==> !Less(s[p], x)
  {
    if s == [] || !Less(s[0], x) then 0 else 1 + Position(s[1..], x)
  }

  lemma PositionOfMember(s: seq<string>, x: string)
    requires StrictlySorted(s) && x in s
    ensures Position(s, x) < |s| && s[Position(s, x)] == x
  {
    var p := Position(s, x);
    var k :| 0 <= k < |s| && s[k] == x;
    LessIsIrreflexive(x);
  }

  lemma {:induction false} AllLaterAreGreater(s: seq<string>, x: string, i: nat)
    requires StrictlySorted(s) && x !in s && Position(s, x) <= i < |s|
    ensures Less(x, s[i])
  {
    var p := Position(s, x);
    LessIsTotal(s[p], x);
    if p < i {
      LessIsTransitive(x, s[p], s[i]);
    }
  }

  function Insert(s: seq<string>, x: string): seq<string> {
    s[..Position(s, x)] + [x] + s[Position(s, x)..]
  }

  lemma InsertStaysSorted(s: seq<string>, x: string)
    requires StrictlySorted(s) && x !in s
    ensures StrictlySorted(Insert(s, x))
  {
    var p, r := Position(s, x), Insert(s, x);
    forall i, j | 0 <= i < j < |r| ensures Less(r[i], r[j]) {
      if i < p == j {
        assert r[i] == s[i];
      } else if i == p < j {
        assert r[j] == s[j - 1];
        AllLaterAreGreater(s, x, j - 1);
      } else {
        var i', j' := if i < p then i else i - 1, if j < p then j else j - 1;
        assert r[i] == s[i'] && r[j] == s[j'];
      }
    }
  }

  lemma InsertKeepsListing(s: seq<string>, x: string, S: set<string>)
    requires IsListing(s, S) && x !in S
    ensures IsListing(Insert(s, x), S + {x})
  {
    assert x !in Elements(s);
    InsertStaysSorted(s, x);
    var p := Position(s, x);
    assert s == s[..p] + s[p..];
    assert forall y :: y in Insert(s, x) <==> y in s || y == x;
    assert Elements(Insert(s, x)) == S + {x};
  }

  lemma ListingExists(S: set<string>)
    ensures exists s :: IsListing(s, S)
    decreases S
  {
    if S == {} {
      assert IsListing([], S);
    } else {
      var x :| x in S;
      ListingExists(S - {x});
      var s :| IsListing(s, S - {x});
      InsertKeepsListing(s, x, S - {x});
      assert S - {x} + {x} == S;
    }
  }

  /** The sorted listing of a set. */
  ghost function Listing(S: set<string>): (s: seq<string>)
    ensures IsListing(s, S)
    ensures |s| == |S|
  {
    ListingExists(S);
    var s :| IsListing(s, S);
    StrictlySortedIsDistinct(s);
    DistinctCardinality(s);
    s
  }

  /** `sets.List`: the elements of a set in ascending order, however the set is
      iterated. */
  method ListSorted(S: set<string>) returns (s: seq<string>)
    ensures s == Listing(S)
  {
    s := [];
    var rest := S;
    while rest != {}
      invariant rest <= S
      invariant IsListing(s, S - rest)
      decreases rest
    {
      var x :| x in rest;
      InsertKeepsListing(s, x, S - rest);
      s := Insert(s, x);
      assert S - rest + {x} == S - (rest - {x});
      rest := rest - {x};
    }
    assert S - rest == S;
    ListingIsUnique(s, Listing(S));
  }
}

/**
 * The TLD catalog: the raw TLD list lower-cased and sorted longest first,
 * ties broken by ascending string comparison.
 *
 * The list itself is an input here; reading and parsing the JSON file that
 * holds it is not part of this model. The locale-aware tie-break is
 * modelled as code-point lexicographic order (`Text.LocaleCompare`).
 */
module Catalog {
  import opened Text

  /**
   * The sort comparator, negative when `a` goes first: the length
   * difference decides, and only equal lengths fall back to the string
   * comparison.
   */
  function Compare(a: string, b: string): (r: int)
    ensures r == 0 <==> a == b
    ensures |a| > |b| ==> r < 0
    ensures |a| < |b| ==> r > 0
    ensures |a| == |b| ==> (r <= 0 <==> LexLe(a, b))
  {
    var byLength := |b| - |a|;
    if byLength != 0 then byLength else LocaleCompare(a, b)
  }

  /** `a` may precede `b`: longer first, equal lengths in ascending order. */
  predicate Precedes(a: string, b: string) {
    |a| > |b| || (|a| == |b| && LexLe(a, b))
  }

  /** `Precedes` is exactly "the comparator is not positive". */
  lemma PrecedesIsCompare(a: string, b: string)
    ensures Precedes(a, b) <==> Compare(a, b) <= 0
  {
  }

  /** Adjacent entries are in comparator order. */
  predicate WellOrdered(c: seq<string>) {
    forall i | 0 <= i < |c| - 1 :: Precedes(c[i], c[i + 1])
  }

  /** Every pair of entries is in comparator order. */
  predicate Sorted(c: seq<string>) {
    forall i, j | 0 <= i < j < |c| :: Precedes(c[i], c[j])
  }

  /** Every entry is lower-case. */
  predicate AllLower(c: seq<string>) {
    forall i | 0 <= i < |c| :: NoUpper(c[i])
  }

  lemma PrecedesTotal(a: string, b: string)
    ensures Precedes(a, b) || Precedes(b, a)
  {
    LexLeTotal(a, b);
  }

  lemma PrecedesAntisymmetric(a: string, b: string)
    requires Precedes(a, b) && Precedes(b, a)
    ensures a == b
  {
    LexLeAntisymmetric(a, b);
  }

  lemma PrecedesTransitive(a: string, b: string, c: string)
    requires Precedes(a, b) && Precedes(b, c)
    ensures Precedes(a, c)
  {
    if |a| == |b| == |c| {
      LexLeTransitive(a, b, c);
    }
  }

  /** Ordering adjacent pairs orders every pair. */
  lemma {:induction false} WellOrderedIsSorted(c: seq<string>)
    requires WellOrdered(c)
    ensures Sorted(c)
  {
    if |c| > 1 {
      var t := c[1..];
      assert WellOrdered(t) by {
        forall i | 0 <= i < |t| - 1 ensures Precedes(t[i], t[i + 1]) {
          assert t[i] == c[i + 1] && t[i + 1] == c[i + 2];
        }
      }
      WellOrderedIsSorted(t);
      forall i, j | 0 <= i < j < |c| ensures Precedes(c[i], c[j]) {
        if i == 0 && j > 1 {
          assert c[1] == t[0] && c[j] == t[j - 1];
          PrecedesTransitive(c[0], c[1], c[j]);
        } else if i > 0 {
          assert c[i] == t[i - 1] && c[j] == t[j - 1];
        }
      }
    }
  }

  /** Lower-cases every entry of the raw list, keeping its order. */
  function LowerAll(raw: seq<string>): (r: seq<string>)
    ensures |r| == |raw|
    ensures AllLower(r)
  {
    seq(|raw|, i requires 0 <= i < |raw| => ToLower(raw[i]))
  }

  /** Places `t` before the first entry it may precede. */
  function Insert(t: string, c: seq<string>): (r: seq<string>)
    requires WellOrdered(c)
    ensures multiset(r) == multiset(c) + multiset{t}
    ensures WellOrdered(r)
    ensures |r| > 0 && (r[0] == t || (|c| > 0 && r[0] == c[0]))
  {
    if c == [] || Precedes(t, c[0]) then
      [t] + c
    else
      PrecedesTotal(t, c[0]);
      assert WellOrdered(c[1..]) by {
        forall i | 0 <= i < |c[1..]| - 1 ensures Precedes(c[1..][i], c[1..][i + 1]) {
          assert c[1..][i] == c[i + 1];
        }
      }
      assert c == [c[0]] + c[1..];
      [c[0]] + Insert(t, c[1..])
  }

  /** A stable insertion sort under the comparator. */
  function Sort(xs: seq<string>): (r: seq<string>)
    ensures multiset(r) == multiset(xs)
    ensures WellOrdered(r)
  {
    if xs == [] then []
    else
      assert xs == [xs[0]] + xs[1..];
      Insert(xs[0], Sort(xs[1..]))
  }

  /**
   * The catalog built once at startup from the raw list, each entry
   * lower-cased and the list then sorted by the comparator: a well-ordered,
   * lower-case permutation of the lower-cased list.
   */
  function Prepare(raw: seq<string>): (c: seq<string>)
    ensures multiset(c) == multiset(LowerAll(raw))
    ensures WellOrdered(c)
    ensures AllLower(c)
  {
    var c := Sort(LowerAll(raw));
    assert forall i | 0 <= i < |c| :: c[i] in multiset(LowerAll(raw));
    c
  }

  /** The first entry of a sorted sequence precedes every entry. */
  lemma SortedHeadFirst(c: seq<string>, x: string)
    requires Sorted(c) && |c| > 0 && x in multiset(c)
    ensures Precedes(c[0], x)
  {
    var j :| 0 <= j < |c| && c[j] == x;
    if j == 0 {
      LexLeTotal(x, x);
    }
  }

  /** Two sorted sequences with the same entries are equal. */
  lemma {:induction false} SortedUnique(a: seq<string>, b: seq<string>)
    requires Sorted(a) && Sorted(b) && multiset(a) == multiset(b)
    ensures a == b
  {
    if a != [] {
      assert |b| == |a| by { assert |multiset(b)| == |multiset(a)|; }
      assert a[0] in multiset(b) && b[0] in multiset(a);
      SortedHeadFirst(a, b[0]);
      SortedHeadFirst(b, a[0]);
      PrecedesAntisymmetric(a[0], b[0]);
      assert a == [a[0]] + a[1..] && b == [b[0]] + b[1..];
      assert multiset(a[1..]) == multiset(b[1..]) by {
        assert multiset(a) == multiset{a[0]} + multiset(a[1..]);
        assert multiset(b) == multiset{b[0]} + multiset(b[1..]);
        assert multiset(a[1..]) == multiset(a) - multiset{a[0]};
        assert multiset(b[1..]) == multiset(b) - multiset{b[0]};
      }
      SortedUnique(a[1..], b[1..]);
    }
  }

  /**
   * The catalog is determined by the raw list: any well-ordered permutation
   * of the lower-cased list is the one `Prepare` builds.
   */
  lemma PrepareUnique(raw: seq<string>, c: seq<string>)
    requires WellOrdered(c) && multiset(c) == multiset(LowerAll(raw))
    ensures c == Prepare(raw)
  {
    WellOrderedIsSorted(c);
    WellOrderedIsSorted(Prepare(raw));
    SortedUnique(c, Prepare(raw));
  }
}

/**
 * Query normalisation (`normalizeQuery`): trim, lower-case, then delete every
 * whitespace run.
 */
module Query {
  import opened Text

  /** Drops leading whitespace: a suffix of `s` after nothing but whitespace. */
  function TrimStart(s: string): (r: string)
    ensures |r| <= |s| && r == s[|s| - |r|..]
    ensures forall i | 0 <= i < |s| - |r| :: IsSpace(s[i])
    ensures r == [] || !IsSpace(r[0])
  {
    if s != [] && IsSpace(s[0]) then TrimStart(s[1..]) else s
  }

  /** Drops trailing whitespace: a prefix of `s` before nothing but whitespace. */
  function TrimEnd(s: string): (r: string)
    ensures |r| <= |s| && r == s[..|r|]
    ensures forall i | |r| <= i < |s| :: IsSpace(s[i])
    ensures r == [] || !IsSpace(r[|r| - 1])
  {
    if s != [] && IsSpace(s[|s| - 1]) then TrimEnd(s[..|s| - 1]) else s
  }

  /**
   * Trimming: a slice of `s` that neither starts nor ends with whitespace,
   * with only whitespace outside it.
   */
  function Trim(s: string): (r: string)
    ensures r == [] || (!IsSpace(r[0]) && !IsSpace(r[|r| - 1]))
  {
    TrimEnd(TrimStart(s))
  }

  /** Trimming keeps a slice of `s` and drops only whitespace around it. */
  lemma TrimSlice(s: string)
    ensures exists i :: SliceBetweenSpace(s, Trim(s), i)
  {
    var t := TrimStart(s);
    assert SliceBetweenSpace(s, Trim(s), |s| - |t|);
  }

  /** `r` is `s[i..]` cut to its length, and everything of `s` outside it is whitespace. */
  predicate SliceBetweenSpace(s: string, r: string, i: int) {
    && 0 <= i <= |s| - |r|
    && r == s[i..i + |r|]
    && (forall j | 0 <= j < i :: IsSpace(s[j]))
    && (forall j | i + |r| <= j < |s| :: IsSpace(s[j]))
  }

  /** Deleting every whitespace run: each whitespace character removed, the rest kept in order. */
  function StripSpace(s: string): (r: string)
    ensures |r| <= |s|
    ensures NoSpace(r)
    ensures forall c :: multiset(r)[c] == if IsSpace(c) then 0 else multiset(s)[c]
    ensures NoUpper(s) ==> NoUpper(r)
    ensures NoSpace(s) ==> r == s
  {
    if s == [] then []
    else
      assert multiset(s) == multiset{s[0]} + multiset(s[1..]) by {
        assert s == [s[0]] + s[1..];
      }
      if IsSpace(s[0]) then StripSpace(s[1..])
      else [s[0]] + StripSpace(s[1..])
  }

  /** The query as the matcher sees it. */
  function Normalize(q: string): (r: string)
    ensures NoSpace(r) && NoUpper(r)
  {
    StripSpace(ToLower(Trim(q)))
  }

  /**
   * Reference reading of normalisation, one character at a time: the
   * non-whitespace characters of the query, lower-cased, in order.
   */
  function Visible(q: string): string {
    if q == [] then []
    else if IsSpace(q[0]) then Visible(q[1..])
    else [LowerChar(q[0])] + Visible(q[1..])
  }

  lemma {:induction false} VisibleAppend(a: string, b: string)
    ensures Visible(a + b) == Visible(a) + Visible(b)
  {
    if a != [] {
      assert (a + b)[1..] == a[1..] + b;
      VisibleAppend(a[1..], b);
    } else {
      assert a + b == b;
    }
  }

  lemma {:induction false} TrimStartVisible(s: string)
    ensures Visible(TrimStart(s)) == Visible(s)
  {
    if s != [] && IsSpace(s[0]) {
      TrimStartVisible(s[1..]);
    }
  }

  lemma {:induction false} TrimEndVisible(s: string)
    ensures Visible(TrimEnd(s)) == Visible(s)
  {
    if s != [] && IsSpace(s[|s| - 1]) {
      var init := s[..|s| - 1];
      TrimEndVisible(init);
      assert s == init + [s[|s| - 1]];
      VisibleAppend(init, [s[|s| - 1]]);
      assert Visible([s[|s| - 1]]) == [];
    }
  }

  lemma {:induction false} StripLowerVisible(s: string)
    ensures StripSpace(ToLower(s)) == Visible(s)
  {
    if s != [] {
      assert ToLower(s)[1..] == ToLower(s[1..]);
      StripLowerVisible(s[1..]);
    }
  }

  /**
   * Trimming first changes nothing: the normalised query is exactly the
   * non-whitespace characters of the raw query, lower-cased, in order.
   */
  lemma NormalizeIsVisible(q: string)
    ensures Normalize(q) == Visible(q)
  {
    StripLowerVisible(Trim(q));
    TrimEndVisible(TrimStart(q));
    TrimStartVisible(q);
  }

  /** The normalised query is empty exactly when the query is all whitespace. */
  lemma {:induction false} NormalizeEmptyIff(q: string)
    ensures Normalize(q) == [] <==> forall i | 0 <= i < |q| :: IsSpace(q[i])
  {
    NormalizeIsVisible(q);
    VisibleEmptyIff(q);
  }

  lemma {:induction false} VisibleEmptyIff(q: string)
    ensures Visible(q) == [] <==> forall i | 0 <= i < |q| :: IsSpace(q[i])
  {
    if q != [] {
      VisibleEmptyIff(q[1..]);
      assert forall i | 1 <= i < |q| :: q[i] == q[1..][i - 1];
    }
  }

  /** A query with no whitespace and no upper-case letter is already normal. */
  lemma NormalizeClean(s: string)
    requires NoSpace(s) && NoUpper(s)
    ensures Normalize(s) == s
  {
  }

  /** Normalising is idempotent. */
  lemma NormalizeIdempotent(q: string)
    ensures Normalize(Normalize(q)) == Normalize(q)
  {
  }
}

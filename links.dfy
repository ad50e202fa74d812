/**
 * Link collection: the result links of one search, reduced to distinct
 * hrefs in order of first appearance (scrape_web_aiAndCom.py, lines 32-37).
 */
module Links {

  /** No value occurs twice in `s`. */
  predicate NoDuplicates<T(==)>(s: seq<T>) {
    forall i, j :: 0 <= i < j < |s| ==> s[i] != s[j]
  }

  /** Appending a value not yet present keeps a list duplicate-free. */
  lemma NoDuplicatesSnoc<T>(s: seq<T>, x: T)
    requires NoDuplicates(s) && x !in s
    ensures NoDuplicates(s + [x])
  {
  }

  /**
   * The distinct values of `s`, each where it first appears: the list a
   * loop builds by appending every value it has not appended yet.
   */
  function Dedup<T(==)>(s: seq<T>): (r: seq<T>)
    ensures NoDuplicates(r)
    ensures |r| <= |s|
  {
    if s == [] then []
    else
      var n := |s| - 1;
      var d := Dedup(s[..n]);
      assert s == s[..n] + [s[n]];
      if s[n] in d then d else d + [s[n]]
  }

  /** Position `i` of `s` holds a value that no earlier position holds. */
  predicate IsFirstOccurrence<T(==)>(s: seq<T>, i: nat)
    requires i < |s|
  {
    forall j :: 0 <= j < i ==> s[j] != s[i]
  }

  /** The positions of `s` that hold a value not seen earlier in `s`, ascending. */
  function FirstIndices<T(==)>(s: seq<T>): (r: seq<nat>)
    ensures forall k :: 0 <= k < |r| ==> r[k] < |s| && IsFirstOccurrence(s, r[k])
    ensures forall k, l :: 0 <= k < l < |r| ==> r[k] < r[l]
    ensures forall i :: 0 <= i < |s| && IsFirstOccurrence(s, i) ==> i in r
  {
    if s == [] then []
    else
      var n := |s| - 1;
      var p := s[..n];
      var q := FirstIndices(p);
      FirstOccurrenceInPrefix(s, n);
      q + (if IsFirstOccurrence(s, n) then [n] else [])
  }

  /** Below `n`, first occurrences in `s` and in `s[..n]` are the same positions. */
  lemma FirstOccurrenceInPrefix<T>(s: seq<T>, n: nat)
    requires n <= |s|
    ensures forall i :: 0 <= i < n ==> (IsFirstOccurrence(s[..n], i) <==> IsFirstOccurrence(s, i))
  {
  }

  /** The de-duplicated list holds exactly the values of the input. */
  lemma {:induction false} DedupHas<T>(s: seq<T>, x: T)
    ensures x in Dedup(s) <==> x in s
  {
    if s != [] {
      var n := |s| - 1;
      DedupHas(s[..n], x);
      DedupHas(s[..n], s[n]);
      assert s == s[..n] + [s[n]];
    }
  }

  /** Appending one value extends the de-duplicated list exactly when the value is new. */
  lemma DedupSnoc<T>(s: seq<T>, x: T)
    ensures Dedup(s + [x]) == if x in s then Dedup(s) else Dedup(s) + [x]
  {
    assert (s + [x])[..|s|] == s;
    DedupHas(s, x);
  }

  /** The last position of `s` is a first occurrence exactly when its value is new. */
  lemma FirstIndicesSnoc<T>(s: seq<T>)
    requires s != []
    ensures FirstIndices(s) == FirstIndices(s[..|s| - 1]) + (if s[|s| - 1] in s[..|s| - 1] then [] else [|s| - 1])
  {
    var n := |s| - 1;
    if s[n] in s[..n] {
      var j :| 0 <= j < n && s[..n][j] == s[n];
      assert s[j] == s[n];
    }
  }

  /**
   * The de-duplicated list is the input read at its first-occurrence
   * positions; with FirstIndices ascending, it is a subsequence of the input.
   */
  lemma {:induction false} DedupAtFirstIndices<T>(s: seq<T>)
    ensures |Dedup(s)| == |FirstIndices(s)|
    ensures forall k :: 0 <= k < |Dedup(s)| ==> Dedup(s)[k] == s[FirstIndices(s)[k]]
  {
    if s != [] {
      var n := |s| - 1;
      var p := s[..n];
      DedupAtFirstIndices(p);
      var d, q := Dedup(p), FirstIndices(p);
      FirstIndicesSnoc(s);
      assert s == p + [s[n]];
      DedupSnoc(p, s[n]);
      forall k | 0 <= k < |Dedup(s)|
        ensures Dedup(s)[k] == s[FirstIndices(s)[k]]
      {
        if k < |d| {
          assert Dedup(s)[k] == d[k] == p[q[k]];
        }
      }
    }
  }

  /** A list that already has no duplicates is left as it is. */
  lemma {:induction false} DedupOfDistinct<T>(s: seq<T>)
    requires NoDuplicates(s)
    ensures Dedup(s) == s
  {
    if s != [] {
      var n := |s| - 1;
      var p := s[..n];
      assert NoDuplicates(p);
      DedupOfDistinct(p);
      assert s == p + [s[n]];
      DedupSnoc(p, s[n]);
    }
  }

  /** What is collected from a prefix of the input stays a prefix of what is collected from all of it. */
  lemma {:induction false} DedupPrefix<T>(a: seq<T>, b: seq<T>)
    ensures Dedup(a) <= Dedup(a + b)
  {
    if b != [] {
      var n := |b| - 1;
      DedupPrefix(a, b[..n]);
      assert a + b == (a + b[..n]) + [b[n]];
      DedupSnoc(a + b[..n], b[n]);
    } else {
      assert a + b == a;
    }
  }

  /** Two duplicate-free lists with no value in common stay duplicate-free when joined. */
  lemma DistinctAfter<T>(a: seq<T>, b: seq<T>)
    requires NoDuplicates(a) && NoDuplicates(b)
    requires forall i :: 0 <= i < |b| ==> b[i] !in a
    ensures NoDuplicates(a + b)
  {
    var all := a + b;
    forall i, j | 0 <= i < j < |all| ensures all[i] != all[j] {
      if j >= |a| {
        assert all[j] == b[j - |a|];
        if i >= |a| { assert all[i] == b[i - |a|]; }
      }
    }
  }

  /**
   * The loop of lines 32-37: starting from an empty list, each href is
   * appended unless it is already in the list.
   */
  method CollectLinks(hrefs: seq<string>) returns (links: seq<string>)
    ensures links == Dedup(hrefs)
    ensures NoDuplicates(links)
    ensures forall h :: h in links <==> h in hrefs
  {
    links := [];
    for i := 0 to |hrefs|
      invariant links == Dedup(hrefs[..i])
    {
      var href := hrefs[i];
      assert hrefs[..i + 1] == hrefs[..i] + [href];
      DedupSnoc(hrefs[..i], href);
      if href !in links {
        links := links + [href];
      }
    }
    assert hrefs[..|hrefs|] == hrefs;
    forall h ensures h in links <==> h in hrefs {
      DedupHas(hrefs, h);
    }
  }
}

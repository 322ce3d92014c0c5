/** Whether a container still holds any of a set of devices. */
module DeviceConflict {
  import opened Strings

  /** `sort.Strings`: the array is rearranged in place. */
  method SortStrings(a: array<string>)
    modifies a
    ensures a[..] == Sort(old(a[..]))
  {
    var s := Sort(a[..]);
    SortLength(a[..]);
    forall i | 0 <= i < a.Length { a[i] := s[i]; }
    assert a[..] == s;
  }

  /** In a sorted list, nothing from a greater entry on equals `x`. */
  lemma GreaterFromHere(b: seq<string>, i: nat, x: string, k: nat)
    requires Sorted(b) && i <= k < |b| && Le(x, b[i]) && x != b[i]
    ensures b[k] != x
  {
    if b[k] == x {
      LeAntisymmetric(x, b[i]);
      assert false;
    }
  }

  /** The inner scan stops at the first greater entry, and still finds `x` exactly when it is there. */
  method ScanSorted(b: seq<string>, x: string) returns (found: bool)
    requires Sorted(b)
    ensures found <==> x in b
  {
    for i := 0 to |b|
      invariant x !in b[..i]
    {
      if Le(x, b[i]) && x != b[i] {
        forall k | 0 <= k < |b| ensures b[k] != x {
          if k < i { assert b[k] in b[..i]; } else { GreaterFromHere(b, i, x, k); }
        }
        return false;
      }
      if x == b[i] { return true; }
      assert b[..i + 1] == b[..i] + [b[i]];
    }
    assert b[..|b|] == b;
    return false;
  }

  lemma SameElements(s: seq<string>, x: string)
    ensures x in Sort(s) <==> x in s
  {
    SortElems(s);
    assert x in Elems(Sort(s)) <==> x in Elems(s);
  }

  /** The nested scans over the two sorted arrays. */
  method FirstShared(a: array<string>, b: array<string>) returns (found: bool)
    requires Sorted(b[..])
    ensures found <==> exists j :: 0 <= j < a.Length && a[j] in b[..]
  {
    for k := 0 to a.Length
      invariant forall j :: 0 <= j < k ==> a[j] !in b[..]
    {
      found := ScanSorted(b[..], a[k]);
      if found { return; }
    }
    return false;
  }

  /** Sorting twice is sorting once. */
  lemma SortTwice(s: seq<string>)
    ensures Sort(Sort(s)) == Sort(s)
  {
    SortMultiset(s);
    SortPermutation(Sort(s), s);
  }

  /** True exactly when the two lists share an element, also when they are one array; both end sorted. */
  method CheckConflict(a: array<string>, b: array<string>) returns (conflict: bool)
    modifies a, b
    ensures conflict <==> exists x :: x in old(a[..]) && x in old(b[..])
    ensures a[..] == Sort(old(a[..])) && b[..] == Sort(old(b[..]))
  {
    ghost var s, t := a[..], b[..];
    SortStrings(a);
    SortStrings(b);
    SortTwice(s);
    SortSorted(t);
    conflict := FirstShared(a, b);
    SharedBySorted(s, t);
    assert conflict <==> exists j :: 0 <= j < |Sort(s)| && Sort(s)[j] in Sort(t);
  }

  lemma SharedBySorted(s: seq<string>, t: seq<string>)
    ensures (exists j :: 0 <= j < |Sort(s)| && Sort(s)[j] in Sort(t)) <==> exists x :: x in s && x in t
  {
    if j :| 0 <= j < |Sort(s)| && Sort(s)[j] in Sort(t) {
      SameElements(s, Sort(s)[j]);
      SameElements(t, Sort(s)[j]);
    }
    if x :| x in s && x in t {
      SameElements(s, x);
      SameElements(t, x);
      var j :| 0 <= j < |Sort(s)| && Sort(s)[j] == x;
      assert Sort(s)[j] in Sort(t);
    }
  }
}

/**
 * The include lists of the provider configuration: the names of an
 * external-name table, each turned into a regular expression that matches
 * exactly that name.
 */
module ProviderConfig {

  /** The name anchored at its end, so that the include-list regex matches it exactly. */
  function Anchor(name: string): string
  {
    name + "$"
  }

  /** The anchored form of every name of a set. */
  ghost function AnchoredNames(names: set<string>): set<string>
  {
    set n | n in names :: Anchor(n)
  }

  /** Distinct names give distinct patterns. */
  lemma AnchorInjective(a: string, b: string)
    ensures Anchor(a) == Anchor(b) ==> a == b
  {
    if Anchor(a) == Anchor(b) {
      assert |a| == |b|;
      assert a == Anchor(a)[..|a|];
      assert b == Anchor(b)[..|b|];
    }
  }

  /** A sequence without repeats that holds exactly the elements of `s` is a permutation of `s`. */
  lemma {:induction false} DistinctCoverIsPermutation<T>(l: seq<T>, s: set<T>)
    requires forall j, k :: 0 <= j < k < |l| ==> l[j] != l[k]
    requires forall j :: 0 <= j < |l| ==> l[j] in s
    requires forall x :: x in s ==> x in l
    ensures multiset(l) == multiset(s)
    decreases |l|
  {
    if l == [] {
      assert s == {};
    } else {
      var rest := s - {l[0]};
      forall x | x in rest
        ensures x in l[1..]
      {
        var j :| 0 <= j < |l| && l[j] == x;
        assert j != 0;
        assert l[1..][j - 1] == x;
      }
      DistinctCoverIsPermutation(l[1..], rest);
      assert l == [l[0]] + l[1..];
      assert s == rest + {l[0]};
      assert multiset(s) == multiset(rest) + multiset{l[0]};
    }
  }

  /**
   * A list that anchors, slot by slot, an enumeration of the table's names
   * without repeats is a permutation of the anchored names.
   */
  lemma AnchoredEnumeration<E>(t: map<string, E>, visited: seq<string>, l: seq<string>)
    requires |visited| == |l|
    requires forall j :: 0 <= j < |l| ==> visited[j] in t && l[j] == Anchor(visited[j])
    requires forall n :: n in t ==> n in visited
    requires forall j, k :: 0 <= j < k < |visited| ==> visited[j] != visited[k]
    ensures forall j :: 0 <= j < |l| ==> l[j] in AnchoredNames(t.Keys)
    ensures forall n :: n in t ==> Anchor(n) in l
    ensures forall j, k :: 0 <= j < k < |l| ==> l[j] != l[k]
    ensures multiset(l) == multiset(AnchoredNames(t.Keys))
  {
    forall j | 0 <= j < |l|
      ensures l[j] in AnchoredNames(t.Keys)
    {
      assert visited[j] in t.Keys && l[j] == Anchor(visited[j]);
    }
    forall n | n in t
      ensures Anchor(n) in l
    {
      var j :| 0 <= j < |visited| && visited[j] == n;
      assert l[j] == Anchor(n);
    }
    forall j, k | 0 <= j < k < |l|
      ensures l[j] != l[k]
    {
      AnchorInjective(visited[j], visited[k]);
    }
    forall x | x in AnchoredNames(t.Keys)
      ensures x in l
    {
      var n :| n in t.Keys && x == Anchor(n);
    }
    DistinctCoverIsPermutation(l, AnchoredNames(t.Keys));
  }

  /**
   * The include list of the table `t`: one anchored pattern per name, written
   * into a list of exactly `|t|` slots in the table's (unspecified) iteration order.
   */
  method ResourceList<E>(t: map<string, E>) returns (l: seq<string>)
    ensures |l| == |t|
    ensures forall j :: 0 <= j < |l| ==> l[j] in AnchoredNames(t.Keys)
    ensures forall n :: n in t ==> Anchor(n) in l
    ensures forall j, k :: 0 <= j < k < |l| ==> l[j] != l[k]
    ensures multiset(l) == multiset(AnchoredNames(t.Keys))
  {
    var a := new string[|t|];
    var i := 0;
    var pending := t.Keys;
    ghost var visited: seq<string> := [];
    while pending != {}
      invariant pending <= t.Keys
      invariant i + |pending| == a.Length
      invariant |visited| == i
      invariant forall j :: 0 <= j < i ==> visited[j] in t && visited[j] !in pending && a[j] == Anchor(visited[j])
      invariant forall n :: n in t && n !in pending ==> n in visited
      invariant forall j, k :: 0 <= j < k < i ==> visited[j] != visited[k]
      decreases pending
    {
      var n :| n in pending;
      a[i] := Anchor(n);
      visited := visited + [n];
      i := i + 1;
      pending := pending - {n};
    }
    assert i == a.Length;
    l := a[..];
    AnchoredEnumeration(t, visited, l);
  }
}

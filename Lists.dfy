/** List helpers shared by the PATH update and the OpenSSL ranker:
    first occurrence, filtering and the order-preserving dedupe of
    `_list_dedupe`. */
module Lists {

  /** No element of `s` occurs twice. */
  predicate NoDups<T(==)>(s: seq<T>) {
    forall i, j :: 0 <= i < j < |s| ==> s[i] != s[j]
  }

  /** Position of the first occurrence of `x` in `s` (Python's `list.index`). */
  function FirstIndex<T(==)>(s: seq<T>, x: T): (i: nat)
    requires x in s
    ensures i < |s| && s[i] == x
    ensures forall k :: 0 <= k < i ==> s[k] != x
  {
    if s[0] == x then 0 else 1 + FirstIndex(s[1..], x)
  }

  /** The elements of `s` that satisfy `keep`, in their original order. */
  function Filter<T(!new)>(s: seq<T>, keep: T -> bool): (r: seq<T>)
    ensures |r| <= |s|
  {
    if s == [] then []
    else (if keep(s[0]) then [s[0]] else []) + Filter(s[1..], keep)
  }

  lemma {:induction false} FilterMembers<T(!new)>(s: seq<T>, keep: T -> bool)
    ensures forall x :: x in Filter(s, keep) <==> x in s && keep(x)
  {
    if s != [] {
      FilterMembers(s[1..], keep);
      assert s == [s[0]] + s[1..];
    }
  }

  lemma {:induction false} FilterConcat<T(!new)>(a: seq<T>, b: seq<T>, keep: T -> bool)
    ensures Filter(a + b, keep) == Filter(a, keep) + Filter(b, keep)
  {
    if a != [] {
      assert (a + b)[0] == a[0] && (a + b)[1..] == a[1..] + b;
      FilterConcat(a[1..], b, keep);
      var h := if keep(a[0]) then [a[0]] else [];
      assert Filter(a + b, keep) == h + (Filter(a[1..], keep) + Filter(b, keep));
      assert Filter(a, keep) == h + Filter(a[1..], keep);
    } else {
      assert a + b == b;
    }
  }

  /** Filtering a list none of whose elements is dropped changes nothing. */
  lemma {:induction false} FilterKeepsAll<T(!new)>(s: seq<T>, keep: T -> bool)
    requires forall x :: x in s ==> keep(x)
    ensures Filter(s, keep) == s
  {
    if s != [] {
      FilterKeepsAll(s[1..], keep);
    }
  }

  /** Removing one dropped element does not change the filtered list. */
  lemma RemoveDropped<T(!new)>(s: seq<T>, i: nat, keep: T -> bool)
    requires i < |s| && !keep(s[i])
    ensures Filter(s[..i] + s[i + 1..], keep) == Filter(s, keep)
  {
    var a, b, x := s[..i], s[i + 1..], s[i];
    assert s == (a + [x]) + b;
    FilterConcat(a + [x], b, keep);
    FilterConcat(a, [x], keep);
    FilterConcat(a, b, keep);
    assert Filter([x], keep) == [] by {
      assert [x][1..] == [];
    }
    assert Filter(a + [x], keep) == Filter(a, keep);
  }

  /** Filtering keeps the relative order of first occurrences. */
  lemma {:induction false} FilterKeepsOrder<T(!new)>(s: seq<T>, keep: T -> bool, x: T, y: T)
    requires x in s && y in s && keep(x) && keep(y)
    requires FirstIndex(s, x) < FirstIndex(s, y)
    ensures x in Filter(s, keep) && y in Filter(s, keep)
    ensures FirstIndex(Filter(s, keep), x) < FirstIndex(Filter(s, keep), y)
  {
    FilterMembers(s, keep);
    var f := Filter(s, keep);
    var head := if keep(s[0]) then [s[0]] else [];
    assert f == head + Filter(s[1..], keep);
    if s[0] != x {
      assert s[0] != y;
      FilterKeepsOrder(s[1..], keep, x, y);
      var t := Filter(s[1..], keep);
      if keep(s[0]) {
        assert f[0] != x && f[1..] == t;
      } else {
        assert f == t;
      }
    } else {
      assert f[0] == x;
    }
  }

  /** The order-preserving dedupe: each element is kept at its first
      occurrence, later repetitions are dropped. */
  function Dedupe<T(==)>(s: seq<T>): seq<T>
  {
    if s == [] then []
    else
      var d := Dedupe(s[..|s| - 1]);
      if s[|s| - 1] in d then d else d + [s[|s| - 1]]
  }

  /** Appending an element keeps it only when it is new. */
  lemma DedupeSnoc<T>(s: seq<T>, x: T)
    ensures Dedupe(s + [x]) == if x in Dedupe(s) then Dedupe(s) else Dedupe(s) + [x]
  {
    assert (s + [x])[..|s|] == s;
  }

  /** An element survives the dedupe exactly when it occurs in the input. */
  lemma {:induction false} DedupeMember<T>(s: seq<T>, x: T)
    ensures x in Dedupe(s) <==> x in s
  {
    if s != [] {
      var p := s[..|s| - 1];
      DedupeMember(p, x);
      assert s == p + [s[|s| - 1]];
    }
  }

  lemma DedupeElements<T>(s: seq<T>)
    ensures forall x :: x in Dedupe(s) <==> x in s
  {
    forall x {
      DedupeMember(s, x);
    }
  }

  lemma {:induction false} DedupeNoDups<T>(s: seq<T>)
    ensures NoDups(Dedupe(s))
  {
    if s != [] {
      DedupeNoDups(s[..|s| - 1]);
    }
  }

  lemma {:induction false} DedupeShorter<T>(s: seq<T>)
    ensures |Dedupe(s)| <= |s|
  {
    if s != [] {
      DedupeShorter(s[..|s| - 1]);
    }
  }

  /** The kept elements appear in the order of their first occurrence. */
  lemma {:induction false} DedupeOrderAt<T>(s: seq<T>, i: nat, j: nat)
    requires i < j < |Dedupe(s)|
    ensures Dedupe(s)[i] in s && Dedupe(s)[j] in s
    ensures FirstIndex(s, Dedupe(s)[i]) < FirstIndex(s, Dedupe(s)[j])
  {
    var p, z := s[..|s| - 1], s[|s| - 1];
    var d := Dedupe(p);
    assert s == p + [z];
    var x, y := d[i], Dedupe(s)[j];
    assert Dedupe(s)[i] == x;
    DedupeMember(p, x);
    FirstIndexPrefix(p, [z], x);
    if j < |d| {
      DedupeOrderAt(p, i, j);
      FirstIndexPrefix(p, [z], y);
    } else {
      assert y == z && z !in d;
      DedupeMember(p, z);
      FirstIndexSuffix(p, [z], y);
    }
  }

  lemma DedupeOrder<T>(s: seq<T>)
    ensures forall x :: x in Dedupe(s) ==> x in s
    ensures forall i, j :: 0 <= i < j < |Dedupe(s)| ==>
      FirstIndex(s, Dedupe(s)[i]) < FirstIndex(s, Dedupe(s)[j])
  {
    DedupeElements(s);
    forall i, j | 0 <= i < j < |Dedupe(s)|
      ensures FirstIndex(s, Dedupe(s)[i]) < FirstIndex(s, Dedupe(s)[j])
    {
      DedupeOrderAt(s, i, j);
    }
  }

  /** A list without duplicates is its own dedupe. */
  lemma {:induction false} DedupeOfNoDups<T>(s: seq<T>)
    requires NoDups(s)
    ensures Dedupe(s) == s
  {
    if s != [] {
      var p := s[..|s| - 1];
      DedupeOfNoDups(p);
      assert s[|s| - 1] !in p;
    }
  }

  /** `_list_dedupe` applied twice gives what one application gives. */
  lemma DedupeIdempotent<T>(s: seq<T>)
    ensures Dedupe(Dedupe(s)) == Dedupe(s)
  {
    DedupeNoDups(s);
    DedupeOfNoDups(Dedupe(s));
  }

  /** Concatenation is associative. Proved here, apart from any caller, so
      that callers with large contexts can cite it. */
  lemma AppendAssoc<T>(x: seq<T>, y: seq<T>, z: seq<T>)
    ensures x + (y + z) == (x + y) + z
  {
  }

  lemma FirstIndexPrefix<T>(a: seq<T>, b: seq<T>, x: T)
    requires x in a
    ensures x in a + b && FirstIndex(a + b, x) == FirstIndex(a, x)
  {
    var i := FirstIndex(a, x);
    assert (a + b)[i] == x;
    assert forall k :: 0 <= k < i ==> (a + b)[k] == a[k];
  }

  lemma FirstIndexSuffix<T>(a: seq<T>, b: seq<T>, x: T)
    requires x !in a && x in b
    ensures x in a + b && FirstIndex(a + b, x) >= |a|
  {
    var j := FirstIndex(a + b, x);
    assert forall k :: 0 <= k < |a| ==> (a + b)[k] == a[k];
  }

  /** `_list_dedupe`: walks `values` and appends every element not yet in
      `uniques`. */
  method ListDedupe<T(==)>(values: seq<T>) returns (uniques: seq<T>)
    ensures uniques == Dedupe(values)
    ensures NoDups(uniques) && |uniques| <= |values|
    ensures forall x :: x in uniques <==> x in values
  {
    uniques := [];
    for i := 0 to |values|
      invariant uniques == Dedupe(values[..i])
    {
      assert values[..i + 1][..i] == values[..i];
      if values[i] !in uniques {
        uniques := uniques + [values[i]];
      }
    }
    assert values[..|values|] == values;
    DedupeNoDups(values);
    DedupeShorter(values);
    DedupeElements(values);
  }
}

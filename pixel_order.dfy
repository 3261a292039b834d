/** The order in which the activity walks the camera's sizes: a stable
    sort, by descending key, of a copy of the supported sizes. The
    activity's comparator orders sizes by pixel count (width * height),
    so the key passed in is Sizes.Pixels; the sort itself never looks
    inside the key. */
module PixelOrder {

  /** Larger keys come first (the comparator returns -1 when the left
      element has the larger key). */
  ghost predicate NonIncreasing<T>(s: seq<T>, key: T -> int) {
    forall i, j :: 0 <= i < j < |s| ==> key(s[i]) >= key(s[j])
  }

  /** The elements of `s` whose key is `k`, in their order in `s`: the
      group a stable sort must leave in its original relative order. */
  function Group<T>(s: seq<T>, key: T -> int, k: int): (g: seq<T>)
    ensures |g| <= |s|
    ensures forall x :: x in g ==> x in s && key(x) == k
    decreases |s|
  {
    if s == [] then []
    else if key(s[|s| - 1]) == k then Group(s[..|s| - 1], key, k) + [s[|s| - 1]]
    else Group(s[..|s| - 1], key, k)
  }

  lemma {:induction false} GroupConcat<T>(a: seq<T>, b: seq<T>, key: T -> int, k: int)
    ensures Group(a + b, key, k) == Group(a, key, k) + Group(b, key, k)
    decreases |b|
  {
    if b == [] {
      assert a + b == a;
    } else {
      var b' := b[..|b| - 1];
      assert (a + b)[..|a + b| - 1] == a + b';
      GroupConcat(a, b', key, k);
    }
  }

  /** Inserts `x` after every element of `r` whose key is at least as
      large: one step of a stable insertion sort that takes its input
      from the left. */
  function InsertLast<T>(r: seq<T>, x: T, key: T -> int): (t: seq<T>)
    ensures |t| == |r| + 1
    ensures multiset(t) == multiset(r) + multiset{x}
    decreases |r|
  {
    if r == [] || key(x) <= key(r[|r| - 1]) then r + [x]
    else
      assert r == r[..|r| - 1] + [r[|r| - 1]];
      InsertLast(r[..|r| - 1], x, key) + [r[|r| - 1]]
  }

  lemma {:induction false} InsertLastKeepsOrder<T>(r: seq<T>, x: T, key: T -> int)
    requires NonIncreasing(r, key)
    ensures NonIncreasing(InsertLast(r, x, key), key)
    decreases |r|
  {
    if r == [] || key(x) <= key(r[|r| - 1]) {
    } else {
      var r', l := r[..|r| - 1], r[|r| - 1];
      InsertLastKeepsOrder(r', x, key);
      var t' := InsertLast(r', x, key);
      forall i | 0 <= i < |t'|
        ensures key(t'[i]) >= key(l)
      {
        assert t'[i] in multiset(t');
        if t'[i] != x {
          assert t'[i] in multiset(r');
          var k :| 0 <= k < |r'| && r'[k] == t'[i];
          assert r[k] == t'[i];
        }
      }
    }
  }

  /** Inserting `x` only appends it to the end of its own group. */
  lemma {:induction false} InsertLastGroups<T>(r: seq<T>, x: T, key: T -> int, k: int)
    ensures Group(InsertLast(r, x, key), key, k) == Group(r + [x], key, k)
    decreases |r|
  {
    if r == [] || key(x) <= key(r[|r| - 1]) {
    } else {
      var r', l := r[..|r| - 1], r[|r| - 1];
      assert r == r' + [l];
      // x and l have different keys, so at most one of them is in group k
      assert Group([x], key, k) + Group([l], key, k) == Group([l], key, k) + Group([x], key, k) by {
        assert [x][..0] == [] && [l][..0] == [];
      }
      calc {
        Group(InsertLast(r, x, key), key, k);
        { assert InsertLast(r, x, key) == InsertLast(r', x, key) + [l]; }
        Group(InsertLast(r', x, key) + [l], key, k);
        { GroupConcat(InsertLast(r', x, key), [l], key, k); }
        Group(InsertLast(r', x, key), key, k) + Group([l], key, k);
        { InsertLastGroups(r', x, key, k); }
        Group(r' + [x], key, k) + Group([l], key, k);
        { GroupConcat(r', [x], key, k); }
        Group(r', key, k) + Group([x], key, k) + Group([l], key, k);
        Group(r', key, k) + (Group([l], key, k) + Group([x], key, k));
        { GroupConcat(r', [l], key, k); }
        Group(r' + [l], key, k) + Group([x], key, k);
        { GroupConcat(r' + [l], [x], key, k); }
        Group(r + [x], key, k);
      }
    }
  }

  /** `s` sorted by descending key, equal keys in their original order:
      the list Collections.sort leaves behind with the size comparator. */
  function SortedBy<T>(s: seq<T>, key: T -> int): (r: seq<T>)
    ensures |r| == |s|
    ensures multiset(r) == multiset(s)
    ensures NonIncreasing(r, key)
    decreases |s|
  {
    if s == [] then []
    else
      var rest := SortedBy(s[..|s| - 1], key);
      assert s == s[..|s| - 1] + [s[|s| - 1]];
      InsertLastKeepsOrder(rest, s[|s| - 1], key);
      InsertLast(rest, s[|s| - 1], key)
  }

  /** Elements with equal keys keep their relative order. */
  lemma {:induction false} SortedByIsStable<T>(s: seq<T>, key: T -> int, k: int)
    ensures Group(SortedBy(s, key), key, k) == Group(s, key, k)
    decreases |s|
  {
    if s != [] {
      var s', x := s[..|s| - 1], s[|s| - 1];
      var r' := SortedBy(s', key);
      assert SortedBy(s, key) == InsertLast(r', x, key);
      calc {
        Group(SortedBy(s, key), key, k);
        { InsertLastGroups(r', x, key, k); }
        Group(r' + [x], key, k);
        { GroupConcat(r', [x], key, k); }
        Group(r', key, k) + Group([x], key, k);
        { SortedByIsStable(s', key, k); }
        Group(s', key, k) + Group([x], key, k);
        { GroupConcat(s', [x], key, k); }
        Group(s' + [x], key, k);
        { assert s == s' + [x]; }
        Group(s, key, k);
      }
    }
  }

  /** Dropping the last element removes it from its own group only. */
  lemma GroupDropLast<T>(s: seq<T>, key: T -> int, k: int)
    requires s != []
    ensures key(s[|s| - 1]) == k ==> Group(s, key, k) == Group(s[..|s| - 1], key, k) + [s[|s| - 1]]
    ensures key(s[|s| - 1]) != k ==> Group(s, key, k) == Group(s[..|s| - 1], key, k)
  {
  }

  /** In a non-increasing sequence no non-empty group has a key below
      that of the last element. */
  lemma GroupAboveLast<T>(s: seq<T>, key: T -> int, k: int)
    requires NonIncreasing(s, key) && s != []
    requires Group(s, key, k) != []
    ensures key(s[|s| - 1]) <= k
  {
    var y := Group(s, key, k)[0];
    assert y in Group(s, key, k);
    var i :| 0 <= i < |s| && s[i] == y;
  }

  lemma NonIncreasingPrefix<T>(s: seq<T>, key: T -> int)
    requires NonIncreasing(s, key) && s != []
    ensures NonIncreasing(s[..|s| - 1], key)
  {
  }

  /** Non-increasing sequences whose groups agree at the keys of their
      last elements end with the same element. */
  lemma SameGroupsSameLast<T>(a: seq<T>, b: seq<T>, key: T -> int)
    requires NonIncreasing(a, key) && NonIncreasing(b, key) && a != [] && b != []
    requires Group(a, key, key(a[|a| - 1])) == Group(b, key, key(a[|a| - 1]))
    requires Group(a, key, key(b[|b| - 1])) == Group(b, key, key(b[|b| - 1]))
    ensures a[|a| - 1] == b[|b| - 1]
  {
    var la, lb := a[|a| - 1], b[|b| - 1];
    var ka, kb := key(la), key(lb);
    GroupDropLast(a, key, ka);
    GroupDropLast(b, key, kb);
    GroupAboveLast(b, key, ka);
    GroupAboveLast(a, key, kb);
    assert ka == kb;
    var g := Group(a, key, ka);
    assert g[|g| - 1] == la;
    assert g == Group(b, key, kb);
  }

  /** Dropping the same last element from both sides keeps a group equal. */
  lemma SameGroupsAfterLast<T>(a: seq<T>, b: seq<T>, key: T -> int, k: int)
    requires a != [] && b != [] && a[|a| - 1] == b[|b| - 1]
    requires Group(a, key, k) == Group(b, key, k)
    ensures Group(a[..|a| - 1], key, k) == Group(b[..|b| - 1], key, k)
  {
    GroupDropLast(a, key, k);
    GroupDropLast(b, key, k);
    var g := Group(a, key, k);
    if k == key(a[|a| - 1]) {
      assert Group(a[..|a| - 1], key, k) == g[..|g| - 1] == Group(b[..|b| - 1], key, k);
    }
  }

  /** A non-empty sequence has a non-empty group. */
  lemma LastGroupNonEmpty<T>(s: seq<T>, key: T -> int)
    requires s != []
    ensures Group(s, key, key(s[|s| - 1])) != []
  {
    GroupDropLast(s, key, key(s[|s| - 1]));
  }

  /** Two non-increasing sequences with the same groups are equal. */
  lemma {:induction false} SameGroupsSameSequence<T>(a: seq<T>, b: seq<T>, key: T -> int)
    requires NonIncreasing(a, key) && NonIncreasing(b, key)
    requires forall k :: Group(a, key, k) == Group(b, key, k)
    ensures a == b
    decreases |a| + |b|
  {
    if a == [] && b == [] {
    } else if a == [] {
      LastGroupNonEmpty(b, key);
    } else if b == [] {
      LastGroupNonEmpty(a, key);
    } else {
      var a', b' := a[..|a| - 1], b[..|b| - 1];
      assert Group(a, key, key(a[|a| - 1])) == Group(b, key, key(a[|a| - 1]));
      assert Group(a, key, key(b[|b| - 1])) == Group(b, key, key(b[|b| - 1]));
      SameGroupsSameLast(a, b, key);
      forall k
        ensures Group(a', key, k) == Group(b', key, k)
      {
        SameGroupsAfterLast(a, b, key, k);
      }
      NonIncreasingPrefix(a, key);
      NonIncreasingPrefix(b, key);
      SameGroupsSameSequence(a', b', key);
      assert a == a' + [a[|a| - 1]] && b == b' + [b[|b| - 1]];
    }
  }

  /** SortedBy is the one stable descending sort: any arrangement that is
      non-increasing and keeps every group in input order is SortedBy. */
  lemma StableSortIsUnique<T>(s: seq<T>, r: seq<T>, key: T -> int)
    requires NonIncreasing(r, key)
    requires forall k :: Group(r, key, k) == Group(s, key, k)
    ensures r == SortedBy(s, key)
  {
    forall k
      ensures Group(r, key, k) == Group(SortedBy(s, key), key, k)
    {
      SortedByIsStable(s, key, k);
    }
    SameGroupsSameSequence(r, SortedBy(s, key), key);
  }

  /** Where InsertLast puts `x`: after the elements with at least its key,
      before those with a smaller one. */
  lemma {:induction false} InsertLastAt<T>(r: seq<T>, x: T, key: T -> int, j: nat)
    requires j <= |r|
    requires 0 < j ==> key(x) <= key(r[j - 1])
    requires forall i :: j <= i < |r| ==> key(r[i]) < key(x)
    ensures InsertLast(r, x, key) == r[..j] + [x] + r[j..]
    decreases |r|
  {
    if j == |r| {
      assert r != [] ==> key(x) <= key(r[|r| - 1]);
      assert InsertLast(r, x, key) == r + [x];
      assert r[..j] == r && r[j..] == [];
    } else {
      var r', l := r[..|r| - 1], r[|r| - 1];
      assert key(l) < key(x);
      assert InsertLast(r, x, key) == InsertLast(r', x, key) + [l];
      InsertLastAt(r', x, key, j);
      SplitBeforeLast(r, j);
    }
  }

  lemma SplitBeforeLast<T>(r: seq<T>, j: nat)
    requires j < |r|
    ensures r[..j] == r[..|r| - 1][..j]
    ensures r[j..] == r[..|r| - 1][j..] + [r[|r| - 1]]
  {
    assert r[j..] == r[..|r| - 1][j..] + [r[|r| - 1]] by {
      assert forall k :: 0 <= k < |r| - j ==> r[j..][k] == (r[..|r| - 1][j..] + [r[|r| - 1]])[k];
    }
  }

  /** Moves a[i] left past the elements with smaller keys: one pass of the
      insertion sort, inserting into the sorted prefix a[..i]. */
  method InsertIntoPrefix<T>(a: array<T>, i: nat, key: T -> int)
    requires i < a.Length
    modifies a
    ensures a[..i + 1] == InsertLast(old(a[..i]), old(a[i]), key)
    ensures a[i + 1..] == old(a[i + 1..])
  {
    ghost var done, rest := a[..i], a[i + 1..];
    var x := a[i];
    var j := i;
    SpliceStart(a[..], i);
    while 0 < j && key(a[j - 1]) < key(x)
      invariant 0 <= j <= i
      invariant a[..] == Splice(done, x, j, rest)
      invariant forall k :: j <= k < i ==> key(done[k]) < key(x)
    {
      SpliceAround(done, x, j, rest);
      ghost var before := a[..];
      a[j - 1], a[j] := a[j], a[j - 1];
      assert a[..] == before[j - 1 := x][j := done[j - 1]];
      SpliceSwap(done, x, j, rest);
      j := j - 1;
    }
    if 0 < j {
      SpliceAround(done, x, j, rest);
    }
    InsertLastAt(done, x, key, j);
    SpliceParts(done, x, j, rest);
  }

  /** The array during one insertion pass: the sorted prefix with x
      spliced in at j, followed by the untouched rest. */
  ghost function Splice<T>(done: seq<T>, x: T, j: nat, rest: seq<T>): (b: seq<T>)
    requires j <= |done|
    ensures |b| == |done| + 1 + |rest|
  {
    done[..j] + [x] + done[j..] + rest
  }

  lemma SpliceStart<T>(b: seq<T>, i: nat)
    requires i < |b|
    ensures b == Splice(b[..i], b[i], i, b[i + 1..])
  {
    assert b[..i][..i] == b[..i] && b[..i][i..] == [];
    assert b == b[..i] + [b[i]] + b[i + 1..];
  }

  lemma SpliceAround<T>(done: seq<T>, x: T, j: nat, rest: seq<T>)
    requires 0 < j <= |done|
    ensures Splice(done, x, j, rest)[j - 1] == done[j - 1]
    ensures Splice(done, x, j, rest)[j] == x
  {
    assert Splice(done, x, j, rest) == done[..j] + ([x] + done[j..] + rest);
  }

  lemma SpliceSwap<T>(done: seq<T>, x: T, j: nat, rest: seq<T>)
    requires 0 < j <= |done|
    ensures Splice(done, x, j, rest)[j - 1 := x][j := done[j - 1]] == Splice(done, x, j - 1, rest)
  {
    var b, c := Splice(done, x, j, rest)[j - 1 := x][j := done[j - 1]], Splice(done, x, j - 1, rest);
    forall k | 0 <= k < |b|
      ensures b[k] == c[k]
    {
      if k < j - 1 {
        assert b[k] == done[k] == c[k];
      } else if k == j - 1 || k == j {
      } else if k <= |done| {
        assert b[k] == done[k - 1] == c[k];
      } else {
        assert b[k] == rest[k - |done| - 1] == c[k];
      }
    }
  }

  lemma SpliceParts<T>(done: seq<T>, x: T, j: nat, rest: seq<T>)
    requires j <= |done|
    ensures Splice(done, x, j, rest)[..|done| + 1] == done[..j] + [x] + done[j..]
    ensures Splice(done, x, j, rest)[|done| + 1..] == rest
  {
    assert |done[..j] + [x] + done[j..]| == |done| + 1;
  }

  /** Sorting one more element of the input is one more InsertLast. */
  lemma SortedByStep<T>(s: seq<T>, i: nat, key: T -> int)
    requires i < |s|
    ensures SortedBy(s[..i + 1], key) == InsertLast(SortedBy(s[..i], key), s[i], key)
  {
    assert s[..i + 1][..i] == s[..i];
  }

  /** Sorts the array in place by descending key, equal keys keeping their
      order: Collections.sort with the size comparator, on the activity's
      own copy of the list. */
  method SortBy<T>(a: array<T>, key: T -> int)
    modifies a
    ensures a[..] == SortedBy(old(a[..]), key)
  {
    ghost var input := a[..];
    var i := 0;
    while i < a.Length
      invariant 0 <= i <= a.Length
      invariant a[..i] == SortedBy(input[..i], key)
      invariant a[i..] == input[i..]
    {
      ghost var sorted := a[..i];
      assert a[i] == input[i];
      assert a[i + 1..] == a[i..][1..] == input[i..][1..] == input[i + 1..];
      InsertIntoPrefix(a, i, key);
      SortedByStep(input, i, key);
      i := i + 1;
    }
    assert input[..a.Length] == input;
  }
}

/** `rows.sort(key=lambda x: x['Field'].lower())`: Python's stable sort of
    the rows by lower-cased field name, as an insertion sort in place. */
module RowSort {
  import opened Text
  import opened Form

  /** The sort key: the field name, lower-cased. */
  function Key(r: Row): (k: string)
    ensures |k| == |r.field|
    ensures forall i :: 0 <= i < |k| ==> k[i] == LowerChar(r.field[i])
  {
    Lower(r.field)
  }

  predicate KeyLe(a: Row, b: Row)
  {
    LexLe(Key(a), Key(b))
  }

  /** Non-decreasing by key. */
  ghost predicate Sorted(s: seq<Row>)
  {
    forall i, j :: 0 <= i < j < |s| ==> KeyLe(s[i], s[j])
  }

  /** `x` placed after every element of `s` whose key is at most its own,
      scanning from the end as the in-place shift does. */
  function Insert(s: seq<Row>, x: Row): (r: seq<Row>)
    ensures |r| == |s| + 1 && x in r
  {
    if s == [] then [x]
    else if KeyLe(s[|s| - 1], x) then s + [x]
    else Insert(s[..|s| - 1], x) + [s[|s| - 1]]
  }

  /** The sorted rows: each row in turn inserted into the sorted rows before
      it; there are as many as there were. */
  function SortSpec(s: seq<Row>): (r: seq<Row>)
    ensures |r| == |s|
  {
    if s == [] then [] else Insert(SortSpec(s[..|s| - 1]), s[|s| - 1])
  }

  /** The rows of `s` whose key is `k`, in their order in `s`. */
  function WithKey(s: seq<Row>, k: string): seq<Row>
  {
    if s == [] then [] else WithKey(s[..|s| - 1], k) + (if Key(s[|s| - 1]) == k then [s[|s| - 1]] else [])
  }

  lemma {:induction false} WithKeyAppend(a: seq<Row>, b: seq<Row>, k: string)
    ensures WithKey(a + b, k) == WithKey(a, k) + WithKey(b, k)
    decreases |b|
  {
    if b != [] {
      assert (a + b)[..|a + b| - 1] == a + b[..|b| - 1];
      WithKeyAppend(a, b[..|b| - 1], k);
    } else {
      assert a + b == a;
    }
  }

  lemma {:induction false} InsertMultiset(s: seq<Row>, x: Row)
    ensures multiset(Insert(s, x)) == multiset(s) + multiset{x}
  {
    if s != [] && !KeyLe(s[|s| - 1], x) {
      InsertMultiset(s[..|s| - 1], x);
      assert s == s[..|s| - 1] + [s[|s| - 1]];
    }
  }

  lemma {:induction false} InsertSorted(s: seq<Row>, x: Row)
    requires Sorted(s)
    ensures Sorted(Insert(s, x))
  {
    if s == [] {
    } else if KeyLe(s[|s| - 1], x) {
      forall i | 0 <= i < |s| ensures KeyLe(s[i], x) {
        if i < |s| - 1 { LexLeTransitive(Key(s[i]), Key(s[|s| - 1]), Key(x)); }
      }
      SortedSnoc(s, x);
    } else {
      var init, last := s[..|s| - 1], s[|s| - 1];
      InsertSorted(init, x);
      InsertMultiset(init, x);
      LexLeTotal(Key(x), Key(last));
      var t := Insert(init, x);
      forall i | 0 <= i < |t| ensures KeyLe(t[i], last) {
        assert t[i] in multiset(t);
        if t[i] != x {
          assert t[i] in init;
        }
      }
      SortedSnoc(t, last);
    }
  }

  /** A row whose key is at least every key of sorted rows may follow them. */
  lemma SortedSnoc(s: seq<Row>, y: Row)
    requires Sorted(s)
    requires forall i :: 0 <= i < |s| ==> KeyLe(s[i], y)
    ensures Sorted(s + [y])
  {
    var t := s + [y];
    forall i, j | 0 <= i < j < |t| ensures KeyLe(t[i], t[j]) {
      if j < |s| { assert t[i] == s[i] && t[j] == s[j]; } else { assert t[i] == s[i]; }
    }
  }

  /** Inserting keeps the order of the rows that share a key, and puts `x`
      after all of them. */
  lemma {:induction false} InsertWithKey(s: seq<Row>, x: Row, k: string)
    ensures WithKey(Insert(s, x), k) == WithKey(s, k) + (if Key(x) == k then [x] else [])
  {
    if s == [] {
      assert Insert(s, x) == [x];
      assert [x][..0] == [];
    } else if KeyLe(s[|s| - 1], x) {
      assert Insert(s, x) == s + [x];
      assert (s + [x])[..|s|] == s;
    } else {
      InsertWithKey(s[..|s| - 1], x, k);
      InsertPastLast(s, x, k);
    }
  }

  /** The step of InsertWithKey where `x` passes the last row: their keys
      differ, so the two cannot both have key `k`. */
  lemma InsertPastLast(s: seq<Row>, x: Row, k: string)
    requires s != [] && !KeyLe(s[|s| - 1], x)
    requires WithKey(Insert(s[..|s| - 1], x), k) == WithKey(s[..|s| - 1], k) + (if Key(x) == k then [x] else [])
    ensures WithKey(Insert(s, x), k) == WithKey(s, k) + (if Key(x) == k then [x] else [])
  {
    var init, last := s[..|s| - 1], s[|s| - 1];
    var t := Insert(init, x);
    assert Insert(s, x) == t + [last];
    assert init + [last] == s;
    WithKeyLast(t, last, k);
    WithKeyLast(init, last, k);
    SameKeyLe(last, x);
    if Key(x) == k {
      assert Key(last) != k;
      assert WithKey(s, k) == WithKey(init, k);
      assert WithKey(Insert(s, x), k) == WithKey(t, k);
    } else {
      assert WithKey(t, k) == WithKey(init, k);
    }
  }

  /** Rows with the same key are in order either way round. */
  lemma SameKeyLe(a: Row, b: Row)
    ensures Key(a) == Key(b) ==> KeyLe(a, b)
  {
    LexLeReflexive(Key(a));
  }

  /** The rows with key `k` of `t + [y]`: those of `t`, then `y` if its key is `k`. */
  lemma WithKeyLast(t: seq<Row>, y: Row, k: string)
    ensures WithKey(t + [y], k) == WithKey(t, k) + (if Key(y) == k then [y] else [])
  {
    assert (t + [y])[..|t|] == t;
  }

  /** The sorted rows are non-decreasing by key. */
  lemma {:induction false} SortSpecSorted(s: seq<Row>)
    ensures Sorted(SortSpec(s))
  {
    if s != [] {
      SortSpecSorted(s[..|s| - 1]);
      InsertSorted(SortSpec(s[..|s| - 1]), s[|s| - 1]);
    }
  }

  /** The sorted rows are a permutation of the input. */
  lemma {:induction false} SortSpecPermutation(s: seq<Row>)
    ensures multiset(SortSpec(s)) == multiset(s)
  {
    if s != [] {
      var init, last := s[..|s| - 1], s[|s| - 1];
      SortSpecPermutation(init);
      InsertMultiset(SortSpec(init), last);
      MultisetSplitLast(s);
    }
  }

  /** A sequence's multiset is that of all but its last element, plus the last. */
  lemma MultisetSplitLast(s: seq<Row>)
    requires s != []
    ensures multiset(s) == multiset(s[..|s| - 1]) + multiset{s[|s| - 1]}
  {
    assert s == s[..|s| - 1] + [s[|s| - 1]];
  }

  /** The sort is stable: the rows sharing any one key keep their relative order. */
  lemma {:induction false} SortSpecStable(s: seq<Row>, k: string)
    ensures WithKey(SortSpec(s), k) == WithKey(s, k)
  {
    if s != [] {
      SortSpecStable(s[..|s| - 1], k);
      InsertWithKey(SortSpec(s[..|s| - 1]), s[|s| - 1], k);
    }
  }

  /** Sorting rows that are already in order changes nothing. */
  lemma {:induction false} SortSpecOfSorted(s: seq<Row>)
    requires Sorted(s)
    ensures SortSpec(s) == s
  {
    if s != [] {
      var init, x := s[..|s| - 1], s[|s| - 1];
      SortedInit(s);
      SortSpecOfSorted(init);
      assert SortSpec(s) == Insert(init, x);
      assert s == init + [x];
    }
  }

  /** Dropping the last row keeps rows sorted, and that row's key is at
      least the key before it. */
  lemma SortedInit(s: seq<Row>)
    requires s != [] && Sorted(s)
    ensures Sorted(s[..|s| - 1])
    ensures |s| > 1 ==> KeyLe(s[..|s| - 1][|s| - 2], s[|s| - 1])
  {
    var init := s[..|s| - 1];
    forall i, j | 0 <= i < j < |init| ensures KeyLe(init[i], init[j]) {
      assert init[i] == s[i] && init[j] == s[j];
    }
    if |s| > 1 {
      assert init[|s| - 2] == s[|s| - 2];
    }
  }

  /** Sorting twice gives what sorting once gives. */
  lemma SortSpecIdempotent(s: seq<Row>)
    ensures SortSpec(SortSpec(s)) == SortSpec(s)
  {
    SortSpecSorted(s);
    SortSpecOfSorted(SortSpec(s));
  }

  /** The shifting step: while the element before the gap has a larger key
      than `x`, it moves up one place. */
  lemma InsertStep(s: seq<Row>, x: Row, j: nat)
    requires 0 < j <= |s| && !KeyLe(s[j - 1], x)
    ensures Insert(s[..j], x) + s[j..] == Insert(s[..j - 1], x) + s[j - 1..]
  {
    assert s[..j][..j - 1] == s[..j - 1];
    assert s[j - 1..] == [s[j - 1]] + s[j..];
  }

  /** Moving the element before the gap up one place keeps the array
      equal to the sorted prefix with a gap one place further left. */
  lemma ShiftKeeps(before: seq<Row>, sorted: seq<Row>, j: nat, i: nat)
    requires 0 < j <= i < |before| && |sorted| == i
    requires before[..j] == sorted[..j] && before[j + 1..i + 1] == sorted[j..]
    ensures var after := before[j := before[j - 1]];
      after[..j - 1] == sorted[..j - 1] && after[j..i + 1] == sorted[j - 1..] && after[i + 1..] == before[i + 1..]
  {
    var after := before[j := before[j - 1]];
    assert before[j - 1] == sorted[j - 1];
    assert after[j..i + 1] == [before[j - 1]] + before[j + 1..i + 1];
    assert sorted[j - 1..] == [sorted[j - 1]] + sorted[j..];
  }

  /** Writing `x` into the gap, once the key before it is at most that of
      `x`, completes the insertion. */
  lemma PlaceCompletes(before: seq<Row>, sorted: seq<Row>, x: Row, j: nat, i: nat)
    requires j <= i < |before| && |sorted| == i
    requires before[..j] == sorted[..j] && before[j + 1..i + 1] == sorted[j..]
    requires j == 0 || KeyLe(sorted[j - 1], x)
    requires Insert(sorted, x) == Insert(sorted[..j], x) + sorted[j..]
    ensures before[j := x][..i + 1] == Insert(sorted, x)
    ensures before[j := x][i + 1..] == before[i + 1..]
  {
    var after := before[j := x];
    assert Insert(sorted[..j], x) == sorted[..j] + [x] by {
      if j > 0 { assert sorted[..j][j - 1] == sorted[j - 1]; }
    }
    assert after[..i + 1] == after[..j] + [x] + after[j + 1..i + 1];
  }

  /** One insertion step in place: `a[i]` is shifted left past the larger
      keys before it, so equal keys never pass each other. */
  method InsertAt(a: array<Row>, i: nat)
    requires i < a.Length
    modifies a
    ensures a[..i + 1] == Insert(old(a[..i]), old(a[i]))
    ensures a[i + 1..] == old(a[i + 1..])
  {
    var x := a[i];
    ghost var sorted := a[..i];
    var j := i;
    while j > 0 && !KeyLe(a[j - 1], x)
      invariant 0 <= j <= i
      invariant a[..j] == sorted[..j]
      invariant a[j + 1..i + 1] == sorted[j..]
      invariant a[i + 1..] == old(a[i + 1..])
      invariant Insert(sorted, x) == Insert(sorted[..j], x) + sorted[j..]
    {
      InsertStep(sorted, x, j);
      ShiftKeeps(a[..], sorted, j, i);
      a[j] := a[j - 1];
      j := j - 1;
    }
    assert j > 0 ==> a[j - 1] == sorted[j - 1];
    PlaceCompletes(a[..], sorted, x, j, i);
    a[j] := x;
  }

  /** Insertion sort in place: the prefix before `i` is always the sorted
      prefix of the input, and the rest is untouched. */
  method SortRows(a: array<Row>)
    modifies a
    ensures a[..] == SortSpec(old(a[..]))
  {
    ghost var input := a[..];
    var i := 0;
    while i < a.Length
      invariant 0 <= i <= a.Length
      invariant a[..i] == SortSpec(input[..i])
      invariant a[i..] == input[i..]
    {
      ghost var pre := a[..];
      assert pre[..i] == SortSpec(input[..i]);
      assert pre[i] == input[i] by { assert pre[i..][0] == input[i..][0]; }
      assert pre[i + 1..] == input[i + 1..] by { assert pre[i + 1..] == pre[i..][1..]; }
      InsertAt(a, i);
      assert input[..i + 1][..i] == input[..i];
      assert SortSpec(input[..i + 1]) == Insert(SortSpec(input[..i]), input[i]);
      assert a[..i + 1] == SortSpec(input[..i + 1]);
      assert a[i + 1..] == input[i + 1..];
      i := i + 1;
    }
    assert a[..] == a[..a.Length] && input == input[..a.Length];
  }
}

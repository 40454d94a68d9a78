/**
 * The order in which `Object.keys` lists the own properties of a plain
 * object: the array-index keys first, in ascending numeric order, and then
 * the other keys in the order they were first added (section 10.1.11.1,
 * OrdinaryOwnPropertyKeys, of ECMA-262).
 */
module JsObject {
  import opened Js

  /** 2^32 - 1: an array index is below it. */
  const IndexBound: nat := 0x1_0000_0000 - 1

  /** A canonical decimal numeral (no sign, no leading zero) whose value is an array index. */
  predicate IsArrayIndex(k: string) {
    1 <= |k| && IsDigits(k) && (k[0] == '0' ==> |k| == 1) && DigitsValue(k) < IndexBound
  }

  /** The array-index keys, in the given order. */
  function IndexKeys(ks: seq<string>): seq<string> {
    if |ks| == 0 then []
    else (if IsArrayIndex(ks[0]) then [ks[0]] else []) + IndexKeys(ks[1..])
  }

  /** The other keys, in the given order. */
  function OtherKeys(ks: seq<string>): seq<string> {
    if |ks| == 0 then []
    else (if IsArrayIndex(ks[0]) then [] else [ks[0]]) + OtherKeys(ks[1..])
  }

  /** The numeric value of an array-index key (0 for any other key, which is never compared). */
  function Value(k: string): nat {
    if IsDigits(k) then DigitsValue(k) else 0
  }

  predicate SortedByValue(ks: seq<string>) {
    forall i, j :: 0 <= i < j < |ks| ==> Value(ks[i]) <= Value(ks[j])
  }

  predicate AllIndices(ks: seq<string>) {
    forall i :: 0 <= i < |ks| ==> IsArrayIndex(ks[i])
  }

  /** `k` put before the first key of larger value. */
  function Insert(k: string, ks: seq<string>): seq<string> {
    if |ks| == 0 then [k]
    else if Value(k) <= Value(ks[0]) then [k] + ks
    else [ks[0]] + Insert(k, ks[1..])
  }

  lemma {:induction false} InsertMultiset(k: string, ks: seq<string>)
    ensures multiset(Insert(k, ks)) == multiset(ks) + multiset{k}
  {
    if |ks| > 0 && Value(k) > Value(ks[0]) {
      InsertMultiset(k, ks[1..]);
      MultisetCons(ks);
    }
  }

  /** No key of `ks` has a value below `v`. */
  predicate AtLeast(v: nat, ks: seq<string>) {
    forall i :: 0 <= i < |ks| ==> v <= Value(ks[i])
  }

  lemma SortedTail(ks: seq<string>)
    requires |ks| > 0 && SortedByValue(ks)
    ensures SortedByValue(ks[1..]) && AtLeast(Value(ks[0]), ks[1..])
  {
    assert forall i :: 0 <= i < |ks[1..]| ==> ks[1..][i] == ks[i + 1];
  }

  lemma SortedCons(x: string, ks: seq<string>)
    requires SortedByValue(ks) && AtLeast(Value(x), ks)
    ensures SortedByValue([x] + ks)
  {
    var r := [x] + ks;
    forall i, j | 0 <= i < j < |r|
      ensures Value(r[i]) <= Value(r[j])
    {
      assert r[j] == ks[j - 1];
      if i > 0 {
        assert r[i] == ks[i - 1];
      }
    }
  }

  lemma {:induction false} InsertBound(k: string, ks: seq<string>, v: nat)
    requires v <= Value(k) && AtLeast(v, ks)
    ensures AtLeast(v, Insert(k, ks))
  {
    if |ks| > 0 && Value(k) > Value(ks[0]) {
      InsertBound(k, ks[1..], v);
      var rest := Insert(k, ks[1..]);
      assert forall i :: 0 <= i < |rest| ==> ([ks[0]] + rest)[i + 1] == rest[i];
    } else if |ks| > 0 {
      assert forall i :: 0 <= i < |ks| ==> ([k] + ks)[i + 1] == ks[i];
    }
  }

  lemma {:induction false} InsertSorted(k: string, ks: seq<string>)
    requires SortedByValue(ks)
    ensures SortedByValue(Insert(k, ks))
    ensures |Insert(k, ks)| > 0
    ensures Insert(k, ks)[0] == if |ks| > 0 && Value(ks[0]) < Value(k) then ks[0] else k
  {
    if |ks| > 0 {
      SortedTail(ks);
      if Value(k) > Value(ks[0]) {
        InsertSorted(k, ks[1..]);
        InsertBound(k, ks[1..], Value(ks[0]));
        SortedCons(ks[0], Insert(k, ks[1..]));
      } else {
        assert AtLeast(Value(k), ks) by {
          assert forall i :: 0 <= i < |ks| ==> Value(ks[0]) <= Value(ks[i]);
        }
        SortedCons(k, ks);
      }
    }
  }

  /** The array-index keys in ascending numeric order (insertion sort). */
  function SortByValue(ks: seq<string>): seq<string> {
    if |ks| == 0 then [] else Insert(ks[0], SortByValue(ks[1..]))
  }

  /** Sorting keeps the keys and puts them in ascending order. */
  lemma {:induction false} SortByValueSpec(ks: seq<string>)
    ensures multiset(SortByValue(ks)) == multiset(ks)
    ensures SortedByValue(SortByValue(ks))
  {
    if |ks| > 0 {
      SortByValueSpec(ks[1..]);
      InsertMultiset(ks[0], SortByValue(ks[1..]));
      InsertSorted(ks[0], SortByValue(ks[1..]));
      MultisetCons(ks);
    }
  }

  lemma MultisetCons(ks: seq<string>)
    requires |ks| > 0
    ensures multiset(ks) == multiset(ks[1..]) + multiset{ks[0]}
  {
    assert ks == [ks[0]] + ks[1..];
  }

  lemma {:induction false} IndexKeysAreIndices(ks: seq<string>)
    ensures AllIndices(IndexKeys(ks))
  {
    if |ks| > 0 {
      IndexKeysAreIndices(ks[1..]);
    }
  }

  /** Keys with the same multiset are all indices together. */
  lemma SameKeys(a: seq<string>, b: seq<string>)
    requires multiset(a) == multiset(b) && AllIndices(b)
    ensures AllIndices(a)
  {
    forall i | 0 <= i < |a|
      ensures IsArrayIndex(a[i])
    {
      assert a[i] in multiset(b);
      var j :| 0 <= j < |b| && b[j] == a[i];
    }
  }

  /** `Object.keys` of an object whose keys were added in the order `inserted`. */
  function OwnKeys(inserted: seq<string>): seq<string> {
    SortByValue(IndexKeys(inserted)) + OtherKeys(inserted)
  }

  lemma {:induction false} SplitKeys(ks: seq<string>)
    ensures multiset(IndexKeys(ks)) + multiset(OtherKeys(ks)) == multiset(ks)
  {
    if |ks| > 0 {
      SplitKeys(ks[1..]);
      assert ks == [ks[0]] + ks[1..];
    }
  }

  /**
   * `Object.keys` lists every key once per insertion, the array indices
   * first and in ascending order, then the other keys in insertion order.
   */
  lemma OwnKeysOrder(inserted: seq<string>)
    ensures multiset(OwnKeys(inserted)) == multiset(inserted)
    ensures var r := OwnKeys(inserted);
      forall i, j :: 0 <= i < j < |r| && IsArrayIndex(r[j]) ==> IsArrayIndex(r[i])
    ensures var r := OwnKeys(inserted);
      forall i, j :: 0 <= i < j < |r| && IsArrayIndex(r[j]) ==> Value(r[i]) <= Value(r[j])
    ensures OtherKeys(OwnKeys(inserted)) == OtherKeys(inserted)
  {
    var s := SortByValue(IndexKeys(inserted));
    var o := OtherKeys(inserted);
    SplitKeys(inserted);
    SortByValueSpec(IndexKeys(inserted));
    IndexKeysAreIndices(inserted);
    SameKeys(s, IndexKeys(inserted));
    OtherKeysAreOthers(inserted);
    OtherKeysAppend(s, o);
    OtherKeysOfIndices(s);
    OtherKeysOfOthers(o);
    IndicesFirst(s, o);
  }

  lemma {:induction false} OtherKeysAreOthers(ks: seq<string>)
    ensures forall i :: 0 <= i < |OtherKeys(ks)| ==> !IsArrayIndex(OtherKeys(ks)[i])
  {
    if |ks| > 0 {
      OtherKeysAreOthers(ks[1..]);
    }
  }

  lemma IndicesFirst(s: seq<string>, o: seq<string>)
    requires AllIndices(s)
    requires forall i :: 0 <= i < |o| ==> !IsArrayIndex(o[i])
    requires SortedByValue(s)
    ensures var r := s + o;
      forall i, j :: 0 <= i < j < |r| && IsArrayIndex(r[j]) ==> IsArrayIndex(r[i]) && Value(r[i]) <= Value(r[j])
  {
    var r := s + o;
    forall i, j | 0 <= i < j < |r| && IsArrayIndex(r[j])
      ensures IsArrayIndex(r[i]) && Value(r[i]) <= Value(r[j])
    {
      assert forall k :: |s| <= k < |r| ==> r[k] == o[k - |s|];
      assert r[i] == s[i] && r[j] == s[j];
    }
  }

  lemma {:induction false} OtherKeysAppend(x: seq<string>, y: seq<string>)
    ensures OtherKeys(x + y) == OtherKeys(x) + OtherKeys(y)
  {
    if |x| == 0 {
      assert x + y == y;
    } else {
      assert (x + y)[1..] == x[1..] + y;
      OtherKeysAppend(x[1..], y);
    }
  }

  lemma {:induction false} OtherKeysOfIndices(x: seq<string>)
    requires AllIndices(x)
    ensures OtherKeys(x) == []
  {
    if |x| > 0 {
      OtherKeysOfIndices(x[1..]);
    }
  }

  lemma {:induction false} OtherKeysOfOthers(x: seq<string>)
    requires forall i :: 0 <= i < |x| ==> !IsArrayIndex(x[i])
    ensures OtherKeys(x) == x
  {
    if |x| > 0 {
      OtherKeysOfOthers(x[1..]);
    }
  }

  /** Keys added once each are listed once each. */
  lemma OwnKeysDistinct(inserted: seq<string>)
    requires forall i, j :: 0 <= i < j < |inserted| ==> inserted[i] != inserted[j]
    ensures var r := OwnKeys(inserted);
      forall i, j :: 0 <= i < j < |r| ==> r[i] != r[j]
  {
    var r := OwnKeys(inserted);
    OwnKeysOrder(inserted);
    DistinctCounts(inserted);
    forall i, j | 0 <= i < j < |r|
      ensures r[i] != r[j]
    {
      TwoCopies(r, i, j);
    }
  }

  lemma {:induction false} DistinctCounts<T>(s: seq<T>)
    requires forall i, j :: 0 <= i < j < |s| ==> s[i] != s[j]
    ensures forall x :: multiset(s)[x] <= 1
  {
    if |s| > 0 {
      DistinctCounts(s[1..]);
      assert s == [s[0]] + s[1..];
      assert forall k :: 0 <= k < |s| - 1 ==> s[1..][k] == s[k + 1];
      assert s[0] !in s[1..];
    }
  }

  lemma TwoCopies<T>(s: seq<T>, i: nat, j: nat)
    requires i < j < |s|
    ensures s[i] == s[j] ==> multiset(s)[s[i]] >= 2
  {
    assert s == s[..j] + [s[j]] + s[j + 1..];
    assert s[..j][i] == s[i];
  }

  /** An array index added after another key still comes first; a smaller one comes before a larger one. */
  lemma OwnKeysThree(b: string, big: string, small: string)
    requires !IsArrayIndex(b) && IsArrayIndex(big) && IsArrayIndex(small)
    requires Value(small) < Value(big)
    ensures OwnKeys([b, big, small]) == [small, big, b]
  {
    PartsOfThree(b, big, small);
    SortTwo(big, small);
    assert [small, big] + [b] == [small, big, b];
  }

  lemma PartsOfThree(b: string, big: string, small: string)
    requires !IsArrayIndex(b) && IsArrayIndex(big) && IsArrayIndex(small)
    ensures IndexKeys([b, big, small]) == [big, small]
    ensures OtherKeys([b, big, small]) == [b]
  {
    var ks := [b, big, small];
    assert ks[1..] == [big, small] && [big, small][1..] == [small] && [small][1..] == [];
    assert IndexKeys([small]) == [small];
    assert IndexKeys([big, small]) == [big, small];
    assert OtherKeys([small]) == [];
    assert OtherKeys([big, small]) == [];
  }

  lemma SortTwo(big: string, small: string)
    requires IsArrayIndex(big) && IsArrayIndex(small) && Value(small) < Value(big)
    ensures SortByValue([big, small]) == [small, big]
  {
    assert [big, small][1..] == [small] && [small][1..] == [];
    assert SortByValue([small]) == Insert(small, []);
    InsertAfter(big, small);
  }

  lemma InsertAfter(k: string, x: string)
    requires IsArrayIndex(k) && IsArrayIndex(x) && Value(x) < Value(k)
    ensures Insert(k, [x]) == [x, k]
  {
    assert [x][1..] == [];
    assert Insert(k, []) == [k];
  }

  /** The keys `b`, `10`, `2` added in that order come out as `2`, `10`, `b`. */
  lemma OwnKeysExample(ks: seq<string>)
    requires ks == ["b", "10", "2"]
    ensures OwnKeys(ks) == ["2", "10", "b"]
  {
    var (b, ten, two) := (ks[0], ks[1], ks[2]);
    assert !IsArrayIndex(b) by { assert !IsDigit(b[0]); }
    assert IsArrayIndex(ten) && Value(ten) == 10 by {
      assert ten[..1] == "1";
      assert DigitsValue(ten[..1]) == 1;
    }
    assert IsArrayIndex(two) && Value(two) == 2;
    assert ks == [b, ten, two];
    OwnKeysThree(b, ten, two);
  }
}

/**
 * Value-level models of the sequence facts both graph classes rely on:
 * membership without duplicates, ordering, `list.remove`, reversal, the
 * least element `heappop` takes, and the position of a key in a dict's
 * iteration order.
 */
module Lists {

  /** No element occurs twice. */
  predicate NoDup<T(==)>(s: seq<T>) {
    forall a, b :: 0 <= a < b < |s| ==> s[a] != s[b]
  }

  /** Ascending order, ties allowed (what sorting a Python list yields). */
  predicate NonDecreasing(s: seq<int>) {
    forall a, b :: 0 <= a < b < |s| ==> s[a] <= s[b]
  }

  /** Descending order, ties allowed. */
  predicate NonIncreasing(s: seq<int>) {
    forall a, b :: 0 <= a < b < |s| ==> s[a] >= s[b]
  }

  function Last<T>(s: seq<T>): T
    requires s != []
  {
    s[|s| - 1]
  }

  function DropLast<T>(s: seq<T>): seq<T>
    requires s != []
  {
    s[..|s| - 1]
  }

  /**
   * Position of the first occurrence of `x` in `s`, or `|s|` when there is
   * none: for a dict's key order, how many keys were added before `x`.
   */
  function IndexOf<T(==)>(s: seq<T>, x: T): (k: nat)
    ensures k <= |s|
    ensures k < |s| <==> x in s
    ensures k < |s| ==> s[k] == x
    ensures forall j :: 0 <= j < k ==> s[j] != x
  {
    if s == [] then 0
    else if s[0] == x then 0
    else 1 + IndexOf(s[1..], x)
  }

  /** `list.remove(x)`: drops the first occurrence of `x`, which must be present. */
  function RemoveFirst<T(==,!new)>(s: seq<T>, x: T): (r: seq<T>)
    requires x in s
    ensures |r| == |s| - 1
    ensures multiset(r) == multiset(s) - multiset{x}
    ensures NoDup(s) ==> NoDup(r) && forall y :: y in r <==> y in s && y != x
  {
    var k := IndexOf(s, x);
    RemoveAt(s, k);
    s[..k] + s[k + 1..]
  }

  lemma RemoveAt<T(!new)>(s: seq<T>, k: nat)
    requires k < |s|
    ensures multiset(s[..k] + s[k + 1..]) == multiset(s) - multiset{s[k]}
    ensures NoDup(s) ==> NoDup(s[..k] + s[k + 1..])
    ensures NoDup(s) ==> forall y :: y in s[..k] + s[k + 1..] <==> y in s && y != s[k]
  {
    assert s == s[..k] + [s[k]] + s[k + 1..];
    if NoDup(s) {
      RemoveAtNoDup(s, k);
    }
  }

  lemma RemoveAtNoDup<T(!new)>(s: seq<T>, k: nat)
    requires k < |s| && NoDup(s)
    ensures NoDup(s[..k] + s[k + 1..])
    ensures forall y :: y in s[..k] + s[k + 1..] <==> y in s && y != s[k]
  {
    var r := s[..k] + s[k + 1..];
    assert forall j :: 0 <= j < |r| ==> r[j] == s[if j < k then j else j + 1];
    forall y | y in s && y != s[k] ensures y in r {
      var j :| 0 <= j < |s| && s[j] == y;
      assert r[if j < k then j else j - 1] == y;
    }
  }

  /** In a sequence without duplicates, each element is found at its own position. */
  lemma IndexOfDistinct<T>(s: seq<T>, k: nat)
    requires NoDup(s) && k < |s|
    ensures IndexOf(s, s[k]) == k
  {
  }

  /** `s` back to front. */
  function Reverse<T>(s: seq<T>): (r: seq<T>)
    ensures |r| == |s|
    ensures forall k :: 0 <= k < |s| ==> r[k] == s[|s| - 1 - k]
    ensures multiset(r) == multiset(s)
  {
    if s == [] then []
    else
      assert s == [s[0]] + s[1..];
      Reverse(s[1..]) + [s[0]]
  }

  lemma ReverseOrder(s: seq<int>)
    requires NonDecreasing(s)
    ensures NonIncreasing(Reverse(s))
  {
    var r := Reverse(s);
    forall a, b | 0 <= a < b < |r| ensures r[a] >= r[b] {
      assert r[a] == s[|s| - 1 - a] && r[b] == s[|s| - 1 - b];
    }
  }

  /** Reversing `[x] + s` puts `x` last. */
  lemma ReverseCons<T>(x: T, s: seq<T>)
    ensures Reverse([x] + s) == Reverse(s) + [x]
  {
    assert ([x] + s)[1..] == s;
  }

  /** Two lists without duplicates and without a common element concatenate to one. */
  lemma NoDupAppend<T>(a: seq<T>, b: seq<T>)
    requires NoDup(a) && NoDup(b) && forall x :: x in a ==> x !in b
    ensures NoDup(a + b)
  {
    var c := a + b;
    forall i, j | 0 <= i < j < |c| ensures c[i] != c[j] {
      if i < |a| && j >= |a| {
        assert c[i] in a && c[j] == b[j - |a|];
      }
    }
  }

  /** Index of a least element, as `heapq.heappop` returns the least item. */
  function MinIndex(s: seq<int>): (k: nat)
    requires s != []
    ensures k < |s|
    ensures forall j :: 0 <= j < |s| ==> s[k] <= s[j]
  {
    if |s| == 1 then 0
    else
      var k := MinIndex(s[1..]);
      if s[0] <= s[k + 1] then 0 else k + 1
  }

  /** Popping `s[n - 1]` off the front part and pushing it extends the reversed back part. */
  lemma ReverseStep<T>(s: seq<T>, n: nat)
    requires 0 < n <= |s|
    ensures Reverse(s[n..]) + [s[n - 1]] == Reverse(s[n - 1..])
  {
    assert s[n - 1..] == [s[n - 1]] + s[n..];
    ReverseCons(s[n - 1], s[n..]);
  }
}

/** The list operations the registration code relies on: `contains`,
    `indexOf` and `remove(Object)` of a Java list, taken over sequences.
    Equality is Dafny's `==`; on class references that is identity, which
    is what Java's default `equals` compares. */
module Lists {

  /** No element occurs twice. */
  predicate NoDup<T(==)>(s: seq<T>)
  {
    forall i, j :: 0 <= i < j < |s| ==> s[i] != s[j]
  }

  /** Position of the first occurrence of `x` in `s` (what `indexOf` returns
      when the element is present). */
  function IndexOf<T(==)>(s: seq<T>, x: T): (i: nat)
    requires x in s
    ensures i < |s| && s[i] == x
    ensures forall j :: 0 <= j < i ==> s[j] != x
  {
    if s[0] == x then 0 else 1 + IndexOf(s[1..], x)
  }

  /** `s` with its first occurrence of `x` taken out, and `s` itself when
      `x` does not occur: `remove(Object)` on a list. */
  function RemoveFirst<T(==)>(s: seq<T>, x: T): (r: seq<T>)
    ensures x !in s ==> r == s
    ensures x in s ==> |r| == |s| - 1
  {
    if s == [] then []
    else if s[0] == x then s[1..]
    else
      assert x in s ==> x in s[1..];
      [s[0]] + RemoveFirst(s[1..], x)
  }

  /** When `x` occurs, the result is `s` with position `IndexOf(s, x)` cut out. */
  lemma {:induction false} RemoveFirstSplit<T>(s: seq<T>, x: T)
    requires x in s
    ensures RemoveFirst(s, x) == s[..IndexOf(s, x)] + s[IndexOf(s, x) + 1..]
  {
    if s[0] != x {
      var t := s[1..];
      assert x in t;
      RemoveFirstSplit(t, x);
      var k := IndexOf(t, x);
      assert IndexOf(s, x) == k + 1;
      assert [s[0]] + t[..k] == s[..k + 1];
      assert t[k + 1..] == s[k + 2..];
    }
  }

  /** Exactly one occurrence of `x` is removed, and nothing else. */
  lemma {:induction false} RemoveFirstMultiset<T>(s: seq<T>, x: T)
    ensures x in s ==> multiset(RemoveFirst(s, x)) == multiset(s) - multiset{x}
    // A corollary of the first clause, stated for the removed element's own count.
    ensures x in s ==> multiset(RemoveFirst(s, x))[x] == multiset(s)[x] - 1
  {
    if s != [] && s[0] != x && x in s {
      assert s == [s[0]] + s[1..];
      assert x in s[1..];
      RemoveFirstMultiset(s[1..], x);
    } else if s != [] && s[0] == x {
      assert s == [s[0]] + s[1..];
    }
  }

  /** Removing `x` keeps every other element's membership as it was. */
  lemma RemoveFirstOthers<T>(s: seq<T>, x: T, y: T)
    requires y != x
    ensures y in RemoveFirst(s, x) <==> y in s
  {
  }

  /** Position `k` of `s` with position `i` cut out. */
  lemma CutAt<T>(s: seq<T>, i: nat, k: nat)
    requires i < |s| && k < |s| - 1
    ensures (s[..i] + s[i + 1..])[k] == s[if k < i then k else k + 1]
  {
  }

  /** In a duplicate-free sequence, removal takes out the only occurrence
      and the result is still duplicate-free. */
  lemma RemoveFirstNoDup<T>(s: seq<T>, x: T)
    requires NoDup(s)
    ensures x !in RemoveFirst(s, x)
    ensures NoDup(RemoveFirst(s, x))
  {
    if x in s {
      var i := IndexOf(s, x);
      RemoveFirstSplit(s, x);
      var r := s[..i] + s[i + 1..];
      forall a, b | 0 <= a < b < |r| ensures r[a] != r[b] {
        CutAt(s, i, a);
        CutAt(s, i, b);
      }
      forall k | 0 <= k < |r| ensures r[k] != x {
        CutAt(s, i, k);
      }
    }
  }

  /** Appending keeps a sequence duplicate-free exactly when the new element
      was not there yet. */
  lemma AppendNoDup<T>(s: seq<T>, x: T)
    ensures NoDup(s + [x]) <==> NoDup(s) && x !in s
  {
    var t := s + [x];
    if NoDup(t) {
      forall i, j | 0 <= i < j < |s| ensures s[i] != s[j] {
        assert s[i] == t[i] && s[j] == t[j];
      }
      forall i | 0 <= i < |s| ensures s[i] != x {
        assert t[i] == s[i] && t[|s|] == x;
      }
    }
  }

  /** Removing what was just appended gives back the original sequence,
      provided it was not there before. */
  lemma RemoveFirstAppended<T>(s: seq<T>, x: T)
    requires x !in s
    ensures RemoveFirst(s + [x], x) == s
  {
    var t := s + [x];
    assert t[|s|] == x;
    assert t[..|s|] == s;
    RemoveFirstSplit(t, x);
  }
}

/** Sequence operations behind the JavaScript collections the scene code
    mutates: `Set.prototype.delete` and `Map.prototype.delete` on an
    insertion-ordered key list (`Remove`), and `Array.prototype.indexOf`
    followed by `splice(index, 1)` (`IndexOf`, `RemoveFirst`). */
module Seqs {

  /** No element occurs twice: the key list of a JavaScript `Set` or `Map`. */
  ghost predicate NoDup<T>(s: seq<T>)
  {
    forall i, j :: 0 <= i < j < |s| ==> s[i] != s[j]
  }

  /** Concatenation regroups: logs appended in two steps equal the log
      appended at once. */
  lemma AppendRegroups<T>(a: seq<T>, b: seq<T>, c: seq<T>)
    ensures a + b + c == a + (b + c)
  {
    assert forall k :: 0 <= k < |a + b + c| ==> (a + b + c)[k] == (a + (b + c))[k];
  }

  /** `s` without any occurrence of `x`, the other elements in their order. */
  function Remove<T(==)>(s: seq<T>, x: T): (r: seq<T>)
    ensures forall y :: y in r ==> y in s && y != x
    ensures forall y :: y in s && y != x ==> y in r
    ensures |r| <= |s|
  {
    if s == [] then []
    else if s[0] == x then Remove(s[1..], x)
    else [s[0]] + Remove(s[1..], x)
  }

  lemma {:induction false} RemoveKeepsNoDup<T>(s: seq<T>, x: T)
    requires NoDup(s)
    ensures NoDup(Remove(s, x))
  {
    if s != [] {
      assert NoDup(s[1..]) by {
        forall i, j | 0 <= i < j < |s[1..]| ensures s[1..][i] != s[1..][j] {
          assert s[1..][i] == s[i + 1] && s[1..][j] == s[j + 1];
        }
      }
      RemoveKeepsNoDup(s[1..], x);
      if s[0] != x {
        var tail := Remove(s[1..], x);
        assert s[0] !in s[1..] by {
          forall k | 0 <= k < |s[1..]| ensures s[1..][k] != s[0] {
            assert s[1..][k] == s[k + 1];
          }
        }
        assert s[0] !in tail;
        var r := [s[0]] + tail;
        forall i, j | 0 <= i < j < |r| ensures r[i] != r[j] {
          if i == 0 {
            assert r[j] == tail[j - 1];
          } else {
            assert r[i] == tail[i - 1] && r[j] == tail[j - 1];
          }
        }
      }
    }
  }

  /** Removal keeps the order of the rest: every other element moves back by
      the number of copies of `x` before it, and only the copies of `x` are
      dropped. */
  lemma RemoveKeepsOrder<T>(s: seq<T>, x: T)
    ensures |Remove(s, x)| == |s| - multiset(s)[x]
    ensures forall i :: 0 <= i < |s| && s[i] != x ==>
      i - multiset(s[..i])[x] < |Remove(s, x)| && Remove(s, x)[i - multiset(s[..i])[x]] == s[i]
  {
    RemoveLength(s, x);
    forall i | 0 <= i < |s| && s[i] != x
      ensures i - multiset(s[..i])[x] < |Remove(s, x)| && Remove(s, x)[i - multiset(s[..i])[x]] == s[i]
    {
      RemoveMovesBack(s, x, i);
    }
  }

  /** Removal drops exactly the copies of `x`. */
  lemma {:induction false} RemoveLength<T>(s: seq<T>, x: T)
    ensures |Remove(s, x)| == |s| - multiset(s)[x]
  {
    if s != [] {
      RemoveLength(s[1..], x);
      assert s == [s[0]] + s[1..];
    }
  }

  /** Element `i`, when it is not `x`, lands after the copies of `x` before
      it are dropped. */
  lemma {:induction false} RemoveMovesBack<T>(s: seq<T>, x: T, i: nat)
    requires i < |s| && s[i] != x
    ensures i - multiset(s[..i])[x] < |Remove(s, x)|
    ensures Remove(s, x)[i - multiset(s[..i])[x]] == s[i]
  {
    if i == 0 {
      assert s[..0] == [];
    } else {
      var tail := s[1..];
      RemoveMovesBack(tail, x, i - 1);
      assert s[..i] == [s[0]] + tail[..i - 1];
      assert s[i] == tail[i - 1];
    }
  }

  /** Removing an element that is absent leaves the sequence as it was. */
  lemma {:induction false} RemoveAbsent<T>(s: seq<T>, x: T)
    requires x !in s
    ensures Remove(s, x) == s
  {
    if s != [] {
      assert s[0] != x;
      assert x !in s[1..];
      RemoveAbsent(s[1..], x);
      assert s == [s[0]] + s[1..];
    }
  }

  /** Appending a fresh element and then removing it restores the sequence. */
  lemma {:induction false} RemoveAppended<T>(s: seq<T>, x: T)
    requires x !in s
    ensures Remove(s + [x], x) == s
  {
    if s == [] {
      assert Remove([x], x) == Remove([x][1..], x);
      assert [x][1..] == [];
    } else {
      assert (s + [x])[0] == s[0] && (s + [x])[1..] == s[1..] + [x];
      assert x !in s[1..];
      RemoveAppended(s[1..], x);
      assert s == [s[0]] + s[1..];
    }
  }

  /** `Array.prototype.indexOf`: the first index holding `x`, or -1. */
  function IndexOf<T(==)>(s: seq<T>, x: T): (i: int)
    ensures i == -1 <==> x !in s
    ensures 0 <= i ==> i < |s| && s[i] == x && x !in s[..i]
    ensures -1 <= i
  {
    if s == [] then -1
    else if s[0] == x then 0
    else
      var j := IndexOf(s[1..], x);
      if j == -1 then -1
      else
        assert s[..j + 1] == [s[0]] + s[1..][..j];
        j + 1
  }

  /** `s` without its first occurrence of `x`; unchanged when `x` is absent. */
  function RemoveFirst<T(==)>(s: seq<T>, x: T): seq<T>
  {
    if s == [] then []
    else if s[0] == x then s[1..]
    else [s[0]] + RemoveFirst(s[1..], x)
  }

  /** Removing the first occurrence takes exactly one copy of `x` out of the
      multiset of elements, and none when `x` is absent. */
  lemma {:induction false} RemoveFirstMultiset<T>(s: seq<T>, x: T)
    ensures multiset(RemoveFirst(s, x)) == multiset(s) - multiset{x}
  {
    if s != [] {
      assert s == [s[0]] + s[1..];
      if s[0] != x {
        RemoveFirstMultiset(s[1..], x);
      }
    }
  }

  /** `splice(indexOf(x), 1)`, guarded by `indexOf(x) !== -1`, removes exactly
      the first occurrence of `x`. */
  lemma SpliceRemovesFirst<T>(s: seq<T>, x: T)
    ensures var i := IndexOf(s, x);
      RemoveFirst(s, x) == if i == -1 then s else s[..i] + s[i + 1..]
  {
    var i := IndexOf(s, x);
    if i == -1 {
      RemoveFirstAbsent(s, x);
    } else {
      RemoveFirstAt(s, x, i);
    }
  }

  /** Without an occurrence there is nothing to remove. */
  lemma {:induction false} RemoveFirstAbsent<T>(s: seq<T>, x: T)
    requires x !in s
    ensures RemoveFirst(s, x) == s
  {
    if s != [] {
      assert x !in s[1..];
      RemoveFirstAbsent(s[1..], x);
      assert s == [s[0]] + s[1..];
    }
  }

  /** Removing the first occurrence, at index `i`, splices `i` out. */
  lemma {:induction false} RemoveFirstAt<T>(s: seq<T>, x: T, i: nat)
    requires i < |s| && s[i] == x && x !in s[..i]
    ensures RemoveFirst(s, x) == s[..i] + s[i + 1..]
  {
    if i == 0 {
      assert s[..0] + s[1..] == s[1..];
    } else {
      assert s[0] in s[..i];
      var t := s[1..];
      assert t[i - 1] == x;
      assert t[..i - 1] == s[..i][1..];
      RemoveFirstAt(t, x, i - 1);
      SpliceUnderHead(s, i - 1);
    }
  }

  /** Splicing index `j` out of the tail and putting the head back splices
      index `j + 1` out of the whole. */
  lemma SpliceUnderHead<T>(s: seq<T>, j: nat)
    requires j + 1 < |s|
    ensures [s[0]] + (s[1..][..j] + s[1..][j + 1..]) == s[..j + 1] + s[j + 2..]
  {
    var t := s[1..];
    AppendRegroups([s[0]], t[..j], t[j + 1..]);
    assert s[..j + 1] == [s[0]] + t[..j];
    assert s[j + 2..] == t[j + 1..];
  }

  /** Appending a fresh element and then removing its first occurrence restores
      the sequence. */
  lemma {:induction false} RemoveFirstAppended<T>(s: seq<T>, x: T)
    requires x !in s
    ensures RemoveFirst(s + [x], x) == s
  {
    if s == [] {
      assert [x][1..] == [];
    } else {
      assert (s + [x])[0] == s[0] && (s + [x])[1..] == s[1..] + [x];
      assert x !in s[1..];
      RemoveFirstAppended(s[1..], x);
      assert s == [s[0]] + s[1..];
    }
  }

  /** A prefix of a duplicate-free sequence is duplicate-free. */
  lemma PrefixKeepsNoDup<T>(s: seq<T>, n: nat)
    requires NoDup(s) && n <= |s|
    ensures NoDup(s[..n])
  {
    forall i, j | 0 <= i < j < n ensures s[..n][i] != s[..n][j] {
      assert s[..n][i] == s[i] && s[..n][j] == s[j];
    }
  }

  /** Extending a sequence does not move the first occurrence of an element
      it already holds. */
  lemma {:induction false} IndexOfPrefix<T>(s: seq<T>, t: seq<T>, x: T)
    requires x in s
    ensures IndexOf(s + t, x) == IndexOf(s, x)
  {
    if s[0] != x {
      assert (s + t)[1..] == s[1..] + t;
      IndexOfPrefix(s[1..], t, x);
    }
  }

  /** An element appended to a sequence that lacks it sits at the old length. */
  lemma IndexOfAppended<T>(s: seq<T>, x: T)
    requires x !in s
    ensures IndexOf(s + [x], x) == |s|
  {
    assert forall k :: 0 <= k < |s| ==> (s + [x])[k] == s[k] != x;
  }
}

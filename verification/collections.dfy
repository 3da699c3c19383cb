/** Sequence helpers shared by the pool model: the Kotlin list operations the
    pool relies on (`find`, `remove`, iterator-driven filtering). */
module Collections {

  datatype Option<T> = None | Some(value: T)

  /** No element occurs twice. */
  predicate Distinct<T(==)>(s: seq<T>)
  {
    forall i, j :: 0 <= i < j < |s| ==> s[i] != s[j]
  }

  /** Position of the first occurrence of `x` (what `find` stops at). */
  function IndexOf<T(==)>(s: seq<T>, x: T): (i: nat)
    requires x in s
    ensures i < |s| && s[i] == x
    ensures forall j :: 0 <= j < i ==> s[j] != x
  {
    if s[0] == x then 0 else 1 + IndexOf(s[1..], x)
  }

  /** `MutableList.remove(x)`: drops the first occurrence of `x`, if any. */
  function RemoveFirst<T(==)>(s: seq<T>, x: T): (r: seq<T>)
    ensures x !in s ==> r == s
    ensures x in s ==> r == s[..IndexOf(s, x)] + s[IndexOf(s, x) + 1..]
  {
    if |s| == 0 then []
    else if s[0] == x then s[1..]
    else
      var r := [s[0]] + RemoveFirst(s[1..], x);
      if x in s then
        assert x in s[1..] by { assert s == [s[0]] + s[1..]; }
        DeleteStep(s, IndexOf(s[1..], x));
        r
      else r
  }

  /** Deleting position j + 1 of s is s[0] followed by deleting position j of s[1..]. */
  lemma DeleteStep<T>(s: seq<T>, j: nat)
    requires j + 1 < |s|
    ensures s[..j + 1] + s[j + 2..] == [s[0]] + (s[1..][..j] + s[1..][j + 1..])
  {
    var t := s[1..];
    assert s[..j + 1] == [s[0]] + t[..j];
    assert s[j + 2..] == t[j + 1..];
  }

  /** Deleting one position of a duplicate-free sequence leaves it duplicate-free
      and removes exactly the deleted element. */
  lemma DeleteDistinct<T>(s: seq<T>, i: nat)
    requires Distinct(s) && i < |s|
    ensures Distinct(s[..i] + s[i + 1..])
    ensures forall y :: y in s[..i] + s[i + 1..] <==> y in s && y != s[i]
  {
    var r := s[..i] + s[i + 1..];
    assert forall k :: 0 <= k < |r| ==> r[k] == (if k < i then s[k] else s[k + 1]);
    forall y | y in s && y != s[i]
      ensures y in r
    {
      var k :| 0 <= k < |s| && s[k] == y;
      if k < i { assert r[k] == y; } else { assert r[k - 1] == y; }
    }
  }

  /** The elements of `s` whose flag equals `want`, in their original order:
      what an iterator loop that removes the other elements leaves behind. */
  function Select<T>(s: seq<T>, flags: seq<bool>, want: bool): (r: seq<T>)
    requires |flags| == |s|
    ensures |r| <= |s|
  {
    if |s| == 0 then []
    else if flags[0] == want then [s[0]] + Select(s[1..], flags[1..], want)
    else Select(s[1..], flags[1..], want)
  }

  /** An element is selected exactly when it sits at a position whose flag matches. */
  lemma {:induction false} SelectMembers<T>(s: seq<T>, flags: seq<bool>, want: bool)
    requires |flags| == |s|
    ensures forall x :: x in Select(s, flags, want) ==>
              exists i :: 0 <= i < |s| && flags[i] == want && s[i] == x
    ensures forall i :: 0 <= i < |s| && flags[i] == want ==> s[i] in Select(s, flags, want)
  {
    if |s| > 0 {
      SelectMembers(s[1..], flags[1..], want);
      var rest := Select(s[1..], flags[1..], want);
      forall x | x in Select(s, flags, want)
        ensures exists i :: 0 <= i < |s| && flags[i] == want && s[i] == x
      {
        if flags[0] == want && x == s[0] {
          assert flags[0] == want && s[0] == x;
        } else {
          assert x in rest;
          var j :| 0 <= j < |s[1..]| && flags[1..][j] == want && s[1..][j] == x;
          assert flags[j + 1] == want && s[j + 1] == x;
        }
      }
      forall i | 0 <= i < |s| && flags[i] == want
        ensures s[i] in Select(s, flags, want)
      {
        if i > 0 {
          assert s[1..][i - 1] == s[i] && flags[1..][i - 1] == want;
        }
      }
    }
  }

  /** Selection distributes over concatenation, so relative order is kept. */
  lemma {:induction false} SelectAppend<T>(a: seq<T>, fa: seq<bool>, b: seq<T>, fb: seq<bool>, want: bool)
    requires |fa| == |a| && |fb| == |b|
    ensures Select(a + b, fa + fb, want) == Select(a, fa, want) + Select(b, fb, want)
  {
    if |a| == 0 {
      assert a + b == b && fa + fb == fb;
    } else {
      assert (a + b)[1..] == a[1..] + b && (fa + fb)[1..] == fa[1..] + fb;
      SelectAppend(a[1..], fa[1..], b, fb, want);
    }
  }

  /** One step of a left-to-right scan: the prefix of length k + 1 selects what
      the prefix of length k did, plus element k when its flag matches. */
  lemma SelectSnoc<T>(s: seq<T>, flags: seq<bool>, k: nat, want: bool)
    requires |flags| == |s| && k < |s|
    ensures Select(s[..k + 1], flags[..k + 1], want)
         == Select(s[..k], flags[..k], want) + (if flags[k] == want then [s[k]] else [])
  {
    assert s[..k + 1] == s[..k] + [s[k]] && flags[..k + 1] == flags[..k] + [flags[k]];
    SelectAppend(s[..k], flags[..k], [s[k]], [flags[k]], want);
  }

  /** The kept and the dropped elements together are exactly the input. */
  lemma {:induction false} SelectPartition<T>(s: seq<T>, flags: seq<bool>)
    requires |flags| == |s|
    ensures multiset(Select(s, flags, true)) + multiset(Select(s, flags, false)) == multiset(s)
    ensures |Select(s, flags, true)| + |Select(s, flags, false)| == |s|
  {
    if |s| > 0 {
      SelectPartition(s[1..], flags[1..]);
      assert s == [s[0]] + s[1..];
    }
  }

  /** Selecting from a duplicate-free sequence gives a duplicate-free sequence. */
  lemma {:induction false} SelectDistinct<T>(s: seq<T>, flags: seq<bool>, want: bool)
    requires |flags| == |s| && Distinct(s)
    ensures Distinct(Select(s, flags, want))
  {
    if |s| > 0 {
      assert Distinct(s[1..]) by {
        forall i, j | 0 <= i < j < |s[1..]| ensures s[1..][i] != s[1..][j] {
          assert s[1..][i] == s[i + 1] && s[1..][j] == s[j + 1];
        }
      }
      SelectDistinct(s[1..], flags[1..], want);
      SelectMembers(s[1..], flags[1..], want);
      var rest := Select(s[1..], flags[1..], want);
      if flags[0] == want {
        assert s[0] !in rest;
        var r := [s[0]] + rest;
        forall i, j | 0 <= i < j < |r| ensures r[i] != r[j] {
          if i == 0 { assert r[j] == rest[j - 1]; assert rest[j - 1] in rest; }
          else { assert r[i] == rest[i - 1] && r[j] == rest[j - 1]; }
        }
      }
    }
  }

  /** Every element is either kept or dropped, and (without duplicates) never both. */
  lemma SelectSplits<T>(s: seq<T>, flags: seq<bool>)
    requires |flags| == |s|
    ensures forall x :: x in s <==> x in Select(s, flags, true) || x in Select(s, flags, false)
    ensures Distinct(s) ==> forall x :: x in Select(s, flags, true) ==> x !in Select(s, flags, false)
  {
    SelectMembers(s, flags, true);
    SelectMembers(s, flags, false);
    forall x | x in s ensures x in Select(s, flags, true) || x in Select(s, flags, false) {
      var i :| 0 <= i < |s| && s[i] == x;
    }
  }

  /** Two duplicate-free sequences with no common element concatenate to a
      duplicate-free sequence. */
  lemma DistinctConcat<T>(a: seq<T>, b: seq<T>)
    requires Distinct(a) && Distinct(b)
    requires forall x :: x in a ==> x !in b
    ensures Distinct(a + b)
  {
    forall i, j | 0 <= i < j < |a + b| ensures (a + b)[i] != (a + b)[j] {
      if i < |a| && j >= |a| {
        assert (a + b)[i] == a[i] && (a + b)[j] == b[j - |a|];
        assert a[i] in a;
      }
    }
  }

  /** An iterator at position |done| over `done + rest` removing its current element. */
  lemma IteratorRemove<T>(done: seq<T>, rest: seq<T>)
    requires |rest| > 0
    ensures (done + rest)[..|done|] + (done + rest)[|done| + 1..] == done + rest[1..]
  {
    assert (done + rest)[..|done|] == done;
    assert (done + rest)[|done| + 1..] == rest[1..];
  }

  /** An iterator at position |done| over `done + rest` replacing its current element. */
  lemma IteratorSet<T>(done: seq<T>, rest: seq<T>, x: T)
    requires |rest| > 0
    ensures (done + rest)[|done| := x] == (done + [x]) + rest[1..]
  {
  }
}

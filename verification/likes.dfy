/** The like toggle of a post: `likes` holds the ids of the users who like the
    post, and liking flips the caller's membership. */
module Likes {

  type UserId = string

  /** `sub` is obtained from `s` by deleting some of its elements, keeping the
      rest in their relative order. */
  predicate IsSubsequence<T(==)>(sub: seq<T>, s: seq<T>)
    decreases |s|
  {
    if |sub| == 0 then true
    else if |s| == 0 then false
    else if sub[0] == s[0] then IsSubsequence(sub[1..], s[1..])
    else IsSubsequence(sub, s[1..])
  }

  /** No element occurs twice. */
  predicate Distinct<T(==)>(s: seq<T>) {
    forall i, j :: 0 <= i < j < |s| ==> s[i] != s[j]
  }

  /** `s` with every occurrence of `u` filtered out. */
  function RemoveAll(s: seq<UserId>, u: UserId): (r: seq<UserId>)
    ensures u !in r
    ensures forall x :: x != u ==> multiset(r)[x] == multiset(s)[x]
    ensures IsSubsequence(r, s)
  {
    if |s| == 0 then []
    else
      assert s == [s[0]] + s[1..];
      if s[0] == u then RemoveAll(s[1..], u)
      else
        var rest := RemoveAll(s[1..], u);
        assert ([s[0]] + rest)[1..] == rest;
        [s[0]] + rest
  }

  /** The likes of a post after user `u` clicks "like": `u` is appended when
      absent, and every occurrence of `u` is removed when present. */
  function Toggle(likes: seq<UserId>, u: UserId): (r: seq<UserId>)
    ensures u in r <==> u !in likes
    ensures forall x :: x != u ==> (x in r <==> x in likes)
    ensures u !in likes ==> r == likes + [u]
    ensures u in likes ==> IsSubsequence(r, likes)
    ensures u in likes ==> forall x :: x != u ==> multiset(r)[x] == multiset(likes)[x]
  {
    if u !in likes then likes + [u]
    else
      var r := RemoveAll(likes, u);
      assert forall x :: x != u ==> (x in r <==> multiset(r)[x] > 0) && (x in likes <==> multiset(likes)[x] > 0);
      r
  }

  /** Filtering out a user who is not there changes nothing. */
  lemma {:induction false} RemoveAllAbsent(s: seq<UserId>, u: UserId)
    requires u !in s
    ensures RemoveAll(s, u) == s
  {
    if |s| > 0 {
      assert u !in s[1..];
      RemoveAllAbsent(s[1..], u);
    }
  }

  /** Filtering distributes over a trailing occurrence of the filtered user. */
  lemma {:induction false} RemoveAllAppended(s: seq<UserId>, u: UserId)
    ensures RemoveAll(s + [u], u) == RemoveAll(s, u)
  {
    if |s| == 0 {
      assert s + [u] == [u];
      assert [u][1..] == [];
    } else {
      assert (s + [u])[0] == s[0];
      assert (s + [u])[1..] == s[1..] + [u];
      RemoveAllAppended(s[1..], u);
    }
  }

  /** A like followed by an unlike from the same user restores `likes`
      exactly. */
  lemma ToggleTwiceFromAbsent(likes: seq<UserId>, u: UserId)
    requires u !in likes
    ensures Toggle(Toggle(likes, u), u) == likes
  {
    RemoveAllAppended(likes, u);
    RemoveAllAbsent(likes, u);
  }

  /** Every element kept by a subsequence occurs at least as often in the
      whole. */
  lemma {:induction false} SubsequenceMultiset<T>(sub: seq<T>, s: seq<T>)
    requires IsSubsequence(sub, s)
    ensures multiset(sub) <= multiset(s)
    decreases |s|
  {
    if |sub| > 0 {
      assert s == [s[0]] + s[1..];
      if sub[0] == s[0] {
        assert sub == [sub[0]] + sub[1..];
        SubsequenceMultiset(sub[1..], s[1..]);
      } else {
        SubsequenceMultiset(sub, s[1..]);
      }
    }
  }

  /** The three facts `RemoveAll` promises pin its result down: any
      subsequence of `s` that drops `u` and keeps every other element as often
      as `s` has it is `RemoveAll(s, u)`. */
  lemma {:induction false} RemoveAllUnique(s: seq<UserId>, u: UserId, r: seq<UserId>)
    requires IsSubsequence(r, s)
    requires u !in r
    requires forall x :: x != u ==> multiset(r)[x] == multiset(s)[x]
    ensures r == RemoveAll(s, u)
  {
    if |s| == 0 {
      assert |r| == 0;
    } else {
      assert s == [s[0]] + s[1..];
      if |r| > 0 && r[0] == s[0] {
        assert r == [r[0]] + r[1..];
        assert s[0] != u;
        assert u !in r[1..];
        assert multiset(r) == multiset{r[0]} + multiset(r[1..]);
        assert multiset(s) == multiset{s[0]} + multiset(s[1..]);
        forall x | x != u ensures multiset(r[1..])[x] == multiset(s[1..])[x] {
          assert multiset(r)[x] == multiset(s)[x];
        }
        RemoveAllUnique(s[1..], u, r[1..]);
      } else {
        assert IsSubsequence(r, s[1..]);
        SubsequenceMultiset(r, s[1..]);
        assert multiset(r)[s[0]] < multiset(s)[s[0]];
        assert s[0] == u;
        RemoveAllUnique(s[1..], u, r);
      }
    }
  }

  /** Each element of a duplicate-free sequence occurs at most once. */
  lemma {:induction false} DistinctCount(s: seq<UserId>, x: UserId)
    requires Distinct(s)
    ensures multiset(s)[x] <= 1
  {
    if |s| > 0 {
      assert s == [s[0]] + s[1..];
      assert Distinct(s[1..]) by {
        forall i, j | 0 <= i < j < |s[1..]| ensures s[1..][i] != s[1..][j] {
          assert s[1..][i] == s[i + 1] && s[1..][j] == s[j + 1];
        }
      }
      DistinctCount(s[1..], x);
      if s[0] == x {
        assert x !in s[1..] by {
          forall k | 0 <= k < |s[1..]| ensures s[1..][k] != x {
            assert s[1..][k] == s[k + 1];
          }
        }
      }
    }
  }

  /** A sequence in which nothing occurs twice is duplicate-free. */
  lemma CountDistinct(s: seq<UserId>)
    requires forall x :: multiset(s)[x] <= 1
    ensures Distinct(s)
  {
    forall i, j | 0 <= i < j < |s| ensures s[i] != s[j] {
      assert s == s[..j] + s[j..];
      assert s[..j][i] == s[i];
      assert s[j..][0] == s[j];
      assert multiset(s)[s[j]] == multiset(s[..j])[s[j]] + multiset(s[j..])[s[j]];
    }
  }

  /** Toggling keeps a duplicate-free `likes` duplicate-free. */
  lemma ToggleKeepsDistinct(likes: seq<UserId>, u: UserId)
    requires Distinct(likes)
    ensures Distinct(Toggle(likes, u))
  {
    var r := Toggle(likes, u);
    forall x ensures multiset(r)[x] <= 1 {
      DistinctCount(likes, x);
    }
    CountDistinct(r);
  }

  /** An unlike followed by a like from the same user brings back the same
      users, each as often as before, with `u` moved to the end. */
  lemma ToggleTwiceFromPresent(likes: seq<UserId>, u: UserId)
    requires Distinct(likes)
    requires u in likes
    ensures multiset(Toggle(Toggle(likes, u), u)) == multiset(likes)
    ensures Toggle(Toggle(likes, u), u) == RemoveAll(likes, u) + [u]
  {
    var r := Toggle(Toggle(likes, u), u);
    DistinctCount(likes, u);
    forall x ensures multiset(r)[x] == multiset(likes)[x] {
    }
  }
}

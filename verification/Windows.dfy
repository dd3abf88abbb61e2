/** Counting events in windows of time. */
module Windows {
  import opened Sets

  /** The entries of s after `cutoff`. */
  function After(s: seq<int>, cutoff: int): seq<int> {
    if s == [] then []
    else
      var last := |s| - 1;
      After(s[..last], cutoff) + if s[last] > cutoff then [s[last]] else []
  }

  ghost predicate Ascending(s: seq<int>) {
    forall i, j :: 0 <= i < j < |s| ==> s[i] <= s[j]
  }

  ghost predicate StrictlyAscending(s: seq<int>) {
    forall i, j :: 0 <= i < j < |s| ==> s[i] < s[j]
  }

  /** Nothing in s is later than now. */
  ghost predicate UpTo(s: seq<int>, now: int) {
    forall i :: 0 <= i < |s| ==> s[i] <= now
  }

  ghost predicate Before(s: seq<int>, now: int) {
    forall i :: 0 <= i < |s| ==> s[i] < now
  }

  /** Taking the last entry off an ascending list. */
  lemma Unappend(s: seq<int>)
    requires s != []
    ensures s == s[..|s| - 1] + [s[|s| - 1]]
    ensures Ascending(s) ==> Ascending(s[..|s| - 1]) && UpTo(s[..|s| - 1], s[|s| - 1])
    ensures StrictlyAscending(s) ==> StrictlyAscending(s[..|s| - 1]) && Before(s[..|s| - 1], s[|s| - 1])
  {
  }

  lemma AppendAscends(s: seq<int>, t: int)
    ensures Ascending(s) && UpTo(s, t) ==> Ascending(s + [t])
    ensures StrictlyAscending(s) && Before(s, t) ==> StrictlyAscending(s + [t])
  {
  }

  /** Any limit + 1 entries in a row take at least `span`. */
  ghost predicate Spaced(s: seq<int>, limit: nat, span: int) {
    forall i, j :: 0 <= i && i + limit <= j < |s| ==> s[j] - s[i] >= span
  }

  lemma AppendSpaced(s: seq<int>, t: int, limit: nat, span: int)
    requires Ascending(s) && Spaced(s, limit, span) && limit >= 1
    requires |s| < limit || t - s[|s| - limit] >= span
    ensures Spaced(s + [t], limit, span)
  {
  }

  /** The positions of the entries in [from, upto). */
  ghost function Within(s: seq<int>, from: int, upto: int): set<int> {
    set i | 0 <= i < |s| && from <= s[i] < upto
  }

  ghost function Range(from: int, n: nat): (r: set<int>)
    ensures forall i :: i in r <==> from <= i < from + n
    ensures |r| == n
  {
    if n == 0 then {} else Range(from, n - 1) + {from + n - 1}
  }

  lemma {:induction false} Smallest(s: set<int>) returns (m: int)
    requires s != {}
    ensures m in s && forall i :: i in s ==> m <= i
  {
    var x := Any(s);
    m := x;
    var rest := s - {x};
    if rest != {} {
      var k := Smallest(rest);
      m := if k < x then k else x;
      assert s == rest + {x};
    }
  }

  lemma NarrowSetIsSmall(s: set<int>, limit: nat)
    requires forall i, j :: i in s && j in s ==> j < i + limit
    ensures |s| <= limit
  {
    if s != {} {
      var m := Smallest(s);
      SubsetSize(s, Range(m, limit));
    }
  }

  /** Spacing bounds every window of the given length, wherever it starts. */
  lemma SpacedWindow(s: seq<int>, limit: nat, span: int, from: int)
    requires Ascending(s) && Spaced(s, limit, span)
    ensures |Within(s, from, from + span)| <= limit
  {
    var w := Within(s, from, from + span);
    forall i, j | i in w && j in w
      ensures j < i + limit
    {
    }
    NarrowSetIsSmall(w, limit);
  }

  lemma AfterAppend(s: seq<int>, t: int, cutoff: int)
    ensures After(s + [t], cutoff) == if t > cutoff then After(s, cutoff) + [t] else After(s, cutoff)
  {
  }

  lemma {:induction false} AfterNone(s: seq<int>, cutoff: int)
    requires UpTo(s, cutoff)
    ensures After(s, cutoff) == []
    decreases |s|
  {
    if s != [] {
      AfterNone(s[..|s| - 1], cutoff);
    }
  }

  lemma {:induction false} AfterMembers(s: seq<int>, cutoff: int, t: int)
    ensures t in After(s, cutoff) <==> t in s && t > cutoff
    decreases |s|
  {
    if s != [] {
      AfterMembers(s[..|s| - 1], cutoff, t);
      Unappend(s);
    }
  }

  lemma {:induction false} AfterUpTo(s: seq<int>, cutoff: int, now: int)
    ensures UpTo(s, now) ==> UpTo(After(s, cutoff), now)
    ensures Before(s, now) ==> Before(After(s, cutoff), now)
    decreases |s|
  {
    if s != [] {
      AfterUpTo(s[..|s| - 1], cutoff, now);
      assert forall i :: 0 <= i < |s| - 1 ==> s[..|s| - 1][i] == s[i];
    }
  }

  /** In an ascending list, at least n entries follow the cutoff iff the n-th from the end does. */
  lemma {:induction false} AfterCount(s: seq<int>, cutoff: int, n: nat)
    requires Ascending(s) && 1 <= n
    ensures |After(s, cutoff)| >= n <==> |s| >= n && s[|s| - n] > cutoff
    decreases |s|
  {
    if s != [] {
      var init, last := s[..|s| - 1], s[|s| - 1];
      Unappend(s);
      if last <= cutoff {
        AfterNone(s, cutoff);
      } else {
        AfterAppend(init, last, cutoff);
        if n > 1 {
          AfterCount(init, cutoff, n - 1);
        }
      }
    }
  }

  lemma {:induction false} AfterTwice(s: seq<int>, c: int, d: int)
    requires c <= d
    ensures After(After(s, c), d) == After(s, d)
    decreases |s|
  {
    if s != [] {
      var init, last := s[..|s| - 1], s[|s| - 1];
      AfterTwice(init, c, d);
      AfterAppend(init, last, c);
      AfterAppend(After(init, c), last, d);
    }
  }

  /** Evicting by an earlier cutoff first, and then recording t, loses nothing. */
  lemma {:induction false} EvictThenRecord(kept: seq<int>, passed: seq<int>, t: int, c: int, d: int)
    requires After(kept, c) == After(passed, c) && c <= d
    ensures After(After(kept, c), d) == After(passed, d)
    ensures After(After(kept, c) + [t], d) == After(passed + [t], d)
  {
    AfterTwice(passed, c, d);
    AfterAppend(After(kept, c), t, d);
    AfterAppend(passed, t, d);
  }

  lemma {:induction false} AfterAscends(s: seq<int>, cutoff: int)
    ensures Ascending(s) ==> Ascending(After(s, cutoff))
    ensures StrictlyAscending(s) ==> StrictlyAscending(After(s, cutoff))
    decreases |s|
  {
    if s != [] {
      var init, last := s[..|s| - 1], s[|s| - 1];
      Unappend(s);
      AfterAscends(init, cutoff);
      AfterUpTo(init, cutoff, last);
      AppendAscends(After(init, cutoff), last);
    }
  }

  /** Distinct entries of a list, all from one set. */
  lemma {:induction false} DistinctFit(s: seq<int>, from: set<int>)
    requires StrictlyAscending(s) && forall t :: t in s ==> t in from
    ensures |s| <= |from|
    decreases |s|
  {
    if s != [] {
      var init, last := s[..|s| - 1], s[|s| - 1];
      Unappend(s);
      assert last in s;
      DistinctFit(init, from - {last});
    }
  }

  /** A set whose members all occur in a list is no bigger than the list. */
  lemma {:induction false} ListCovers(s: seq<int>, members: set<int>)
    requires forall t :: t in members ==> t in s
    ensures |members| <= |s|
    decreases |s|
  {
    if s != [] {
      var init, last := s[..|s| - 1], s[|s| - 1];
      Unappend(s);
      ListCovers(init, members - {last});
      if last in members {
        assert |members - {last}| == |members| - 1;
      }
    } else if members != {} {
      var t := Any(members);
      assert false;
    }
  }

  /** How many entries of an ascending list lie in the window that ends now. */
  lemma WindowCount(s: seq<int>, cutoff: int, now: int, n: nat)
    requires Ascending(s) && UpTo(s, now) && 1 <= n
    ensures |Within(s, cutoff + 1, now + 1)| >= n <==> |s| >= n && s[|s| - n] > cutoff
  {
    var w := Within(s, cutoff + 1, now + 1);
    var size := |s|;
    if size >= n && s[size - n] > cutoff {
      forall i | i in Range(size - n, n)
        ensures i in w
      {
        assert i == size - n || s[size - n] <= s[i];
      }
      SubsetSize(Range(size - n, n), w);
    } else {
      forall i | i in w
        ensures i in Range(size - n + 1, n - 1)
      {
      }
      SubsetSize(w, Range(size - n + 1, n - 1));
    }
  }
}

/**
  Batch deletion by list position (main.py:946-948, 1690-1692): the selected
  positions are deleted one at a time from the highest to the lowest, so that
  no deletion shifts a position that is still to be deleted.
*/
module BatchDelete {

  /** `s` without the elements whose positions, counted from `base`, are in `drop`. */
  function KeepFrom<T>(s: seq<T>, drop: set<nat>, base: nat): seq<T>
    decreases |s|
  {
    if s == [] then []
    else (if base in drop then [] else [s[0]]) + KeepFrom(s[1..], drop, base + 1)
  }

  /**
    The reference definition: keep exactly the positions not selected, in
    order. The result is never longer than `s`, and nothing is kept that was
    not in `s`.
  */
  function Keep<T>(s: seq<T>, drop: set<nat>): (r: seq<T>)
    ensures |r| <= |s|
    ensures forall x <- r :: x in s
  {
    var r := KeepFrom(s, drop, 0);
    KeepFromLength(s, drop, 0);
    assert forall x <- r :: x in s by {
      forall x <- r ensures x in s {
        KeepFromOrigin(s, drop, 0, x);
      }
    }
    r
  }

  /** `del s[i]` */
  function RemoveAt<T>(s: seq<T>, i: nat): seq<T>
    requires i < |s|
  {
    s[..i] + s[i + 1..]
  }

  /** The positions of `drop` in the window [lo, hi). */
  function Hits(drop: set<nat>, lo: nat, hi: nat): set<nat> {
    set i: nat | i in drop && lo <= i < hi
  }

  lemma {:induction false} KeepFromLength<T>(s: seq<T>, drop: set<nat>, base: nat)
    ensures |KeepFrom(s, drop, base)| == |s| - |Hits(drop, base, base + |s|)|
    decreases |s|
  {
    if s == [] {
      assert Hits(drop, base, base) == {};
    } else {
      KeepFromLength(s[1..], drop, base + 1);
      var rest := Hits(drop, base + 1, base + |s|);
      if base in drop {
        assert Hits(drop, base, base + |s|) == {base} + rest;
      } else {
        assert Hits(drop, base, base + |s|) == rest;
      }
    }
  }

  /** Every selected position in range removes exactly one element. */
  lemma KeepLength<T>(s: seq<T>, drop: set<nat>)
    requires forall i <- drop :: i < |s|
    ensures |Keep(s, drop)| == |s| - |drop|
  {
    KeepFromLength(s, drop, 0);
    assert Hits(drop, 0, |s|) == drop;
  }

  /** An element at an unselected position survives. */
  lemma {:induction false} KeepFromRetains<T>(s: seq<T>, drop: set<nat>, base: nat, i: nat)
    requires i < |s| && base + i !in drop
    ensures s[i] in KeepFrom(s, drop, base)
    decreases |s|
  {
    if i > 0 {
      KeepFromRetains(s[1..], drop, base + 1, i - 1);
    }
  }

  /** An element that survives comes from an unselected position. */
  lemma {:induction false} KeepFromOrigin<T>(s: seq<T>, drop: set<nat>, base: nat, x: T)
    requires x in KeepFrom(s, drop, base)
    ensures exists i :: 0 <= i < |s| && base + i !in drop && s[i] == x
    decreases |s|
  {
    if s != [] && !(base !in drop && x == s[0]) {
      KeepFromOrigin(s[1..], drop, base + 1, x);
      var i :| 0 <= i < |s[1..]| && base + 1 + i !in drop && s[1..][i] == x;
      assert s[i + 1] == x;
    }
  }

  lemma KeepMembers<T>(s: seq<T>, drop: set<nat>, x: T)
    ensures x in Keep(s, drop) <==> exists i :: 0 <= i < |s| && i !in drop && s[i] == x
  {
    if x in Keep(s, drop) {
      KeepFromOrigin(s, drop, 0, x);
    }
    if exists i :: 0 <= i < |s| && i !in drop && s[i] == x {
      var i :| 0 <= i < |s| && i !in drop && s[i] == x;
      KeepFromRetains(s, drop, 0, i);
    }
  }

  lemma {:induction false} KeepNothing<T>(s: seq<T>, base: nat)
    ensures KeepFrom(s, {}, base) == s
    decreases |s|
  {
    if s != [] {
      KeepNothing(s[1..], base + 1);
    }
  }

  /** Positions below `base` do not matter to `KeepFrom`. */
  lemma {:induction false} KeepIgnoresBelow<T>(s: seq<T>, drop: set<nat>, base: nat, x: nat)
    requires x < base
    ensures KeepFrom(s, drop + {x}, base) == KeepFrom(s, drop, base)
    decreases |s|
  {
    if s != [] {
      KeepIgnoresBelow(s[1..], drop, base + 1, x);
    }
  }

  /** A window with no selected position is copied through. */
  lemma {:induction false} KeepSplit<T>(s: seq<T>, drop: set<nat>, base: nat, j: nat)
    requires j <= |s|
    requires forall d <- drop :: !(base <= d < base + j)
    ensures KeepFrom(s, drop, base) == s[..j] + KeepFrom(s[j..], drop, base + j)
    decreases j
  {
    if j > 0 {
      KeepSplit(s[1..], drop, base + 1, j - 1);
      assert s[1..][j - 1..] == s[j..];
      assert [s[0]] + s[1..][..j - 1] == s[..j];
      calc {
        KeepFrom(s, drop, base);
        { assert base !in drop; }
        [s[0]] + KeepFrom(s[1..], drop, base + 1);
        [s[0]] + (s[1..][..j - 1] + KeepFrom(s[j..], drop, base + j));
        s[..j] + KeepFrom(s[j..], drop, base + j);
      }
    }
  }

  /** With no selected position up to `m`, the result is the prefix, `s[m]`, then what survives after `m`. */
  lemma KeepAround<T>(s: seq<T>, done: set<nat>, m: nat)
    requires m < |s| && m !in done
    requires forall d <- done :: m < d
    ensures Keep(s, done) == s[..m] + [s[m]] + KeepFrom(s[m + 1..], done, m + 1)
  {
    KeepSplit(s, done, 0, m);
    assert s[m..][1..] == s[m + 1..];
    assert KeepFrom(s[m..], done, m) == [s[m]] + KeepFrom(s[m + 1..], done, m + 1);
  }

  /** Selecting `m` as well leaves out exactly `s[m]`. */
  lemma KeepAroundWith<T>(s: seq<T>, done: set<nat>, m: nat)
    requires m < |s| && m !in done
    requires forall d <- done :: m < d
    ensures Keep(s, done + {m}) == s[..m] + KeepFrom(s[m + 1..], done, m + 1)
  {
    KeepSplit(s, done + {m}, 0, m);
    assert s[m..][1..] == s[m + 1..];
    KeepIgnoresBelow(s[m + 1..], done, m + 1, m);
    assert KeepFrom(s[m..], done + {m}, m) == KeepFrom(s[m + 1..], done, m + 1);
  }

  lemma RemoveMiddle<T>(a: seq<T>, x: T, b: seq<T>)
    ensures RemoveAt(a + [x] + b, |a|) == a + b
  {
    var k := a + [x] + b;
    assert k[..|a|] == a;
    assert k[|a| + 1..] == b;
  }

  /**
    Deleting position `m` after every higher selected position has been
    deleted removes exactly the element originally at `m`.
  */
  lemma KeepStep<T>(s: seq<T>, done: set<nat>, m: nat)
    requires m < |s| && m !in done
    requires forall d <- done :: m < d
    ensures m < |Keep(s, done)|
    ensures Keep(s, done + {m}) == RemoveAt(Keep(s, done), m)
  {
    KeepAround(s, done, m);
    KeepAroundWith(s, done, m);
    RemoveMiddle(s[..m], s[m], KeepFrom(s[m + 1..], done, m + 1));
  }

  /** The largest element of a non-empty set. */
  ghost function MaxOf(s: set<nat>): (m: nat)
    requires s != {}
    ensures m in s && forall x <- s :: x <= m
    decreases |s|
  {
    var y :| y in s;
    var rest := s - {y};
    assert forall x <- s :: x == y || x in rest;
    if rest == {} then y
    else
      var m := MaxOf(rest);
      if m < y then y else m
  }

  /**
    `for index in sorted(selected, reverse=True): del s[index]`: the result
    keeps exactly the unselected positions.
  */
  method DeleteDescending<T>(s: seq<T>, selected: set<nat>) returns (r: seq<T>)
    requires forall i <- selected :: i < |s|
    ensures r == Keep(s, selected)
  {
    KeepNothing(s, 0);
    assert selected - selected == {};
    r := s;
    var pending := selected;
    while pending != {}
      invariant pending <= selected
      invariant r == Keep(s, selected - pending)
      invariant forall p <- pending, d <- selected - pending :: p < d
      decreases |pending|
    {
      ghost var top := MaxOf(pending);
      var m :| m in pending && forall x <- pending :: x <= m;
      KeepStep(s, selected - pending, m);
      r := RemoveAt(r, m);
      assert selected - (pending - {m}) == (selected - pending) + {m};
      pending := pending - {m};
    }
    assert selected - pending == selected;
  }

  /** Deleting in ascending order instead would remove the wrong element. */
  lemma AscendingOrderShifts()
    ensures RemoveAt(RemoveAt([10, 20, 30], 0), 1) == [20]
    ensures Keep([10, 20, 30], {0, 1}) == [30]
  {
    assert RemoveAt([10, 20, 30], 0) == [20, 30];
    assert KeepFrom([30], {0, 1}, 2) == [30];
    assert KeepFrom([20, 30], {0, 1}, 1) == [30];
  }
}

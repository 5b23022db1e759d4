/** A JavaScript `Set` of strings, as the arc service uses it: membership
    without duplicates, iterated in insertion order, serialised with
    `Array.from`. Modelled as a duplicate-free sequence in insertion order. */
module OrderedSets {

  /** No element occurs twice. */
  predicate NoDup(s: seq<string>) {
    forall i, j :: 0 <= i < j < |s| ==> s[i] != s[j]
  }

  lemma NoDupAppend(s: seq<string>, x: string)
    requires NoDup(s) && x !in s
    ensures NoDup(s + [x])
  {
  }

  /** How a list splits around position `i`. */
  lemma SplitAt(s: seq<string>, i: nat)
    requires i < |s|
    ensures s[..i + 1] == s[..i] + [s[i]] && s[..i + 1][..i] == s[..i]
    ensures s[i..] == [s[i]] + s[i + 1..]
  {
  }

  /** `set.add(x)`: an element already present leaves the set as it is; a
      new one goes at the end of the iteration order. */
  function Insert(s: seq<string>, x: string): seq<string> {
    if x in s then s else s + [x]
  }

  /** Adding is idempotent, keeps the set duplicate-free, keeps the earlier
      elements in place and adds exactly `x` to the membership. */
  lemma InsertProperties(s: seq<string>, x: string)
    ensures Insert(Insert(s, x), x) == Insert(s, x)
    ensures NoDup(s) ==> NoDup(Insert(s, x))
    ensures |Insert(s, x)| >= |s| && Insert(s, x)[..|s|] == s
    ensures forall y :: y in Insert(s, x) <==> y in s || y == x
  {
  }

  /** `xs.forEach(x => set.add(x))`, one element after the other. */
  function InsertAll(s: seq<string>, xs: seq<string>): (r: seq<string>)
    ensures |r| >= |s| && r[..|s|] == s
    ensures forall y :: y in r <==> y in s || y in xs
    ensures NoDup(s) ==> NoDup(r)
  {
    if xs == [] then s
    else
      var prev := InsertAll(s, xs[..|xs| - 1]);
      assert forall y :: y in xs <==> y in xs[..|xs| - 1] || y == xs[|xs| - 1] by {
        assert xs == xs[..|xs| - 1] + [xs[|xs| - 1]];
      }
      Insert(prev, xs[|xs| - 1])
  }

  /** `new Set(xs)`: the first occurrence of every element, in order. */
  function FromArray(xs: seq<string>): seq<string> {
    InsertAll([], xs)
  }

  /** The elements of `xs` that `s` does not hold yet, in the order of `xs`. */
  function Fresh(s: seq<string>, xs: seq<string>): (r: seq<string>)
    ensures forall y :: y in r <==> y in xs && y !in s
  {
    if xs == [] then []
    else
      var prev := Fresh(s, xs[..|xs| - 1]);
      var x := xs[|xs| - 1];
      assert forall y :: y in xs <==> y in xs[..|xs| - 1] || y == x by {
        assert xs == xs[..|xs| - 1] + [x];
      }
      if x in s then prev else prev + [x]
  }

  /** Adding a list one by one appends exactly the elements not yet present,
      in the order they first occur in the list. */
  lemma {:induction false} InsertAllAppendsFresh(s: seq<string>, xs: seq<string>)
    ensures InsertAll(s, xs) == s + FromArray(Fresh(s, xs))
  {
    if xs == [] {
      assert Fresh(s, xs) == [];
      assert s + [] == s;
    } else {
      var ys, y := xs[..|xs| - 1], xs[|xs| - 1];
      InsertAllAppendsFresh(s, ys);
      var d := FromArray(Fresh(s, ys));
      assert InsertAll(s, xs) == Insert(s + d, y);
      if y in s {
        assert Fresh(s, xs) == Fresh(s, ys);
      } else {
        var f := Fresh(s, xs);
        assert f == Fresh(s, ys) + [y];
        assert f[..|f| - 1] == Fresh(s, ys);
        assert FromArray(f) == Insert(d, y);
        assert y in s + d <==> y in d;
        if y !in d {
          assert (s + d) + [y] == s + (d + [y]);
        }
      }
    }
  }

  /** A duplicate-free list survives `new Set(...)` unchanged. */
  lemma {:induction false} FromArrayOfNoDup(xs: seq<string>)
    requires NoDup(xs)
    ensures FromArray(xs) == xs
  {
    if xs != [] {
      var ys := xs[..|xs| - 1];
      assert NoDup(ys);
      FromArrayOfNoDup(ys);
      assert xs[|xs| - 1] !in ys;
      assert ys + [xs[|xs| - 1]] == xs;
    }
  }

  /** `set.delete(x)`: every occurrence of `x` dropped, the rest in order. */
  function Without(s: seq<string>, x: string): seq<string> {
    if s == [] then []
    else if s[0] == x then Without(s[1..], x)
    else [s[0]] + Without(s[1..], x)
  }

  /** Deleting takes out `x` and nothing else, is a no-op when `x` is
      absent, and keeps a duplicate-free list duplicate-free. */
  lemma {:induction false} WithoutProperties(s: seq<string>, x: string)
    ensures x !in Without(s, x)
    ensures forall y :: y != x ==> (y in Without(s, x) <==> y in s)
    ensures x !in s ==> Without(s, x) == s
    ensures NoDup(s) ==> NoDup(Without(s, x))
  {
    if s != [] {
      var rest := Without(s[1..], x);
      WithoutProperties(s[1..], x);
      assert forall y :: y in s <==> y == s[0] || y in s[1..] by {
        assert s == [s[0]] + s[1..];
      }
      if s[0] != x {
        assert NoDup(s) ==> s[0] !in s[1..];
        assert x !in s ==> [s[0]] + s[1..] == s;
      }
    }
  }

  /** Deleting a present element of a duplicate-free list removes exactly
      its one position and leaves the order of the others as it was. */
  lemma {:induction false} WithoutAt(s: seq<string>, k: nat)
    requires NoDup(s) && k < |s|
    ensures Without(s, s[k]) == s[..k] + s[k + 1..]
  {
    if k == 0 {
      assert s[0] !in s[1..];
      WithoutProperties(s[1..], s[0]);
    } else {
      WithoutAt(s[1..], k - 1);
      assert s[1..][k - 1] == s[k];
      assert s[0] != s[k];
      assert s[1..][..k - 1] == s[1..k];
      assert s[1..][k..] == s[k + 1..];
      assert [s[0]] + s[1..k] == s[..k];
    }
  }
}

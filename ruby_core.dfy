/**
 * The behaviour of Ruby's core library that the differ depends on:
 * `Array#include?`, `#reject`, `#&`, `#|`, `#index`, `#at`, `#join` and
 * matching a string against a regular expression that is a plain word.
 * Lists are built from the back, the way a loop with `<<` builds them.
 */
module RubyCore {
  import opened Wrappers

  /** No element occurs twice. */
  predicate NoDuplicates<T(==)>(s: seq<T>) {
    forall i, j :: 0 <= i < j < |s| ==> s[i] != s[j]
  }

  /**
   * `s` is what remains of `t` after deleting some of its elements
   * (matched greedily from the end).
   */
  predicate Subsequence<T(==)>(s: seq<T>, t: seq<T>)
    decreases |t|
  {
    if s == [] then true
    else if t == [] then false
    else if s[|s| - 1] == t[|t| - 1] then Subsequence(s[..|s| - 1], t[..|t| - 1])
    else Subsequence(s, t[..|t| - 1])
  }

  lemma {:induction false} SubsequenceExtend<T>(s: seq<T>, t: seq<T>, y: T)
    requires Subsequence(s, t)
    ensures Subsequence(s, t + [y])
    decreases |s| + |t|, 1
  {
    if s != [] {
      assert (t + [y])[..|t|] == t;
      if s[|s| - 1] == y {
        SubsequenceDropLast(s, t);
      }
    }
  }

  lemma {:induction false} SubsequenceDropLast<T>(s: seq<T>, t: seq<T>)
    requires s != [] && Subsequence(s, t)
    ensures Subsequence(s[..|s| - 1], t)
    decreases |s| + |t|, 0
  {
    var s', t' := s[..|s| - 1], t[..|t| - 1];
    assert t' + [t[|t| - 1]] == t;
    if s[|s| - 1] != t[|t| - 1] {
      SubsequenceDropLast(s, t');
    }
    SubsequenceExtend(s', t', t[|t| - 1]);
  }

  /**
   * `a.reject { |x| b.include?(x) }`: the elements of `a` that do not occur in
   * `b`, in the order of `a`, repeats kept.
   */
  function Without<T(==)>(a: seq<T>, b: seq<T>): (r: seq<T>)
    ensures |r| <= |a|
    ensures forall x :: x in r ==> x in a && x !in b
  {
    if a == [] then []
    else
      var rest := Without(a[..|a| - 1], b);
      assert forall x :: x in a[..|a| - 1] ==> x in a;
      if a[|a| - 1] in b then rest else rest + [a[|a| - 1]]
  }

  /** Each element keeps its multiplicity in `a` unless `b` holds it at all. */
  lemma {:induction false} WithoutMultiplicity<T>(a: seq<T>, b: seq<T>, x: T)
    ensures multiset(Without(a, b))[x] == if x in b then 0 else multiset(a)[x]
  {
    if a != [] {
      WithoutMultiplicity(a[..|a| - 1], b, x);
      assert a == a[..|a| - 1] + [a[|a| - 1]];
    }
  }

  lemma WithoutMembership<T>(a: seq<T>, b: seq<T>, x: T)
    ensures x in Without(a, b) <==> x in a && x !in b
  {
    WithoutMultiplicity(a, b, x);
    assert x in Without(a, b) <==> x in multiset(Without(a, b));
    assert x in a <==> x in multiset(a);
  }

  /** What `reject` keeps it keeps in order. */
  lemma {:induction false} WithoutInOrder<T>(a: seq<T>, b: seq<T>)
    ensures Subsequence(Without(a, b), a)
  {
    if a != [] {
      var a', x := a[..|a| - 1], a[|a| - 1];
      WithoutInOrder(a', b);
      assert a' + [x] == a;
      var w := Without(a', b);
      if x in b {
        SubsequenceExtend(w, a', x);
      } else {
        assert (w + [x])[..|w|] == w;
      }
    }
  }

  /** Nothing is left when every element of `a` occurs in `b`; in particular `a` without `a`. */
  lemma {:induction false} WithoutCovered<T>(a: seq<T>, b: seq<T>)
    requires forall x :: x in a ==> x in b
    ensures Without(a, b) == []
  {
    if a != [] {
      assert forall x :: x in a[..|a| - 1] ==> x in a;
      WithoutCovered(a[..|a| - 1], b);
    }
  }

  /**
   * `a & b`: the elements of `a` that occur in `b`, each once. For an `a`
   * without repeats (the table lists it is applied to), in the order of `a`.
   */
  function Intersect<T(==)>(a: seq<T>, b: seq<T>): (r: seq<T>)
    ensures forall x :: x in r ==> x in a && x in b
    ensures forall x :: x in a && x in b ==> x in r
    ensures NoDuplicates(r)
  {
    if a == [] then []
    else
      var rest, x := Intersect(a[..|a| - 1], b), a[|a| - 1];
      assert a == a[..|a| - 1] + [x];
      if x in b && x !in rest then rest + [x] else rest
  }

  lemma {:induction false} IntersectInOrder<T>(a: seq<T>, b: seq<T>)
    ensures Subsequence(Intersect(a, b), a)
  {
    if a != [] {
      var a', x := a[..|a| - 1], a[|a| - 1];
      IntersectInOrder(a', b);
      assert a' + [x] == a;
      var r := Intersect(a', b);
      if x in b && x !in r {
        assert (r + [x])[..|r|] == r;
      } else {
        SubsequenceExtend(r, a', x);
      }
    }
  }

  /** `s.uniq`: every element of `s` once, in the order of first occurrence (`DedupFirstOccurrences`); a list without repeats is left as it is (`DedupOfDistinct`). */
  function Dedup<T(==)>(s: seq<T>): (r: seq<T>)
    ensures forall x :: x in r ==> x in s
    ensures forall x :: x in s ==> x in r
    ensures NoDuplicates(r)
  {
    if s == [] then []
    else
      var rest, x := Dedup(s[..|s| - 1]), s[|s| - 1];
      assert s == s[..|s| - 1] + [x];
      if x in rest then rest else rest + [x]
  }

  lemma {:induction false} DedupOfDistinct<T>(s: seq<T>)
    requires NoDuplicates(s)
    ensures Dedup(s) == s
  {
    if s != [] {
      var s' := s[..|s| - 1];
      assert NoDuplicates(s');
      DedupOfDistinct(s');
      assert s[|s| - 1] !in s';
      assert s' + [s[|s| - 1]] == s;
    }
  }

  /** Appending `y` leaves the first position of every element already present and puts a new `y` at the end. */
  lemma {:induction false} IndexSnoc<T>(s: seq<T>, y: T, x: T)
    requires x in s || x == y
    ensures Index(s + [y], x) == if x in s then Index(s, x) else Some(|s|)
  {
    if s == [] {
      assert s + [y] == [y];
    } else {
      assert (s + [y])[0] == s[0];
      assert (s + [y])[1..] == s[1..] + [y];
      if s[0] != x {
        assert x in s <==> x in s[1..];
        IndexSnoc(s[1..], y, x);
      }
    }
  }

  /** `s.uniq` keeps the order of `s`: the result is a subsequence of `s`. */
  lemma {:induction false} DedupInOrder<T>(s: seq<T>)
    ensures Subsequence(Dedup(s), s)
  {
    if s != [] {
      var s', x := s[..|s| - 1], s[|s| - 1];
      DedupInOrder(s');
      assert s' + [x] == s;
      var r := Dedup(s');
      if x in r {
        SubsequenceExtend(r, s', x);
      } else {
        assert (r + [x])[..|r|] == r;
      }
    }
  }

  /** `s.uniq` keeps first occurrences: of two elements of the result, the one that occurs first in `s` comes first. */
  lemma {:induction false} DedupFirstOccurrences<T>(s: seq<T>)
    ensures forall i, j :: 0 <= i < j < |Dedup(s)| ==> Index(s, Dedup(s)[i]).value < Index(s, Dedup(s)[j]).value
  {
    if s != [] {
      var s', x := s[..|s| - 1], s[|s| - 1];
      DedupFirstOccurrences(s');
      assert s' + [x] == s;
      var r := Dedup(s');
      forall e | e in r
        ensures Index(s, e) == Index(s', e)
      {
        IndexSnoc(s', x, e);
      }
      if x !in r {
        IndexSnoc(s', x, x);
        FirstOccurrencesSnoc(s, r, x);
      }
    }
  }

  /** Adding an element whose first occurrence lies after those of `r` keeps `r + [x]` in first-occurrence order. */
  lemma FirstOccurrencesSnoc<T>(s: seq<T>, r: seq<T>, x: T)
    requires x in s && forall e :: e in r ==> e in s
    requires forall i, j :: 0 <= i < j < |r| ==> Index(s, r[i]).value < Index(s, r[j]).value
    requires forall e :: e in r ==> Index(s, e).value < Index(s, x).value
    ensures forall i, j :: 0 <= i < j < |r + [x]| ==> Index(s, (r + [x])[i]).value < Index(s, (r + [x])[j]).value
  {
    var d := r + [x];
    forall i, j | 0 <= i < j < |d|
      ensures Index(s, d[i]).value < Index(s, d[j]).value
    {
      assert d[i] == r[i] && r[i] in r;
      if j < |r| {
        assert d[j] == r[j];
      }
    }
  }

  /** `a | b`: every element of either list once, those of `a` first. */
  function Union<T(==)>(a: seq<T>, b: seq<T>): (r: seq<T>)
    ensures forall x :: x in r ==> x in a || x in b
    ensures forall x :: x in a ==> x in r
    ensures forall x :: x in b ==> x in r
    ensures NoDuplicates(r)
  {
    Dedup(a + b)
  }

  /** When `a` has no repeats, `a | b` is `a` followed by the new elements of `b`, in `b`'s order, once each. */
  lemma {:induction false} UnionExtends<T>(a: seq<T>, b: seq<T>)
    requires NoDuplicates(a)
    ensures Union(a, b) == a + Dedup(Without(b, a))
  {
    if b == [] {
      assert a + b == a;
      DedupOfDistinct(a);
    } else {
      var b', x := b[..|b| - 1], b[|b| - 1];
      UnionExtends(a, b');
      var w := Without(b', a);
      var rest := Dedup(a + b');
      assert rest == a + Dedup(w);
      assert (a + b)[..|a + b| - 1] == a + b' && (a + b)[|a + b| - 1] == x;
      assert Dedup(a + b) == if x in rest then rest else rest + [x];
      if x in a {
        assert Without(b, a) == w;
        assert x in rest;
      } else {
        assert Without(b, a) == w + [x];
        assert (w + [x])[..|w|] == w;
        WithoutMembership(b', a, x);
        assert Dedup(w + [x]) == if x in Dedup(w) then Dedup(w) else Dedup(w) + [x];
        assert x in rest <==> x in Dedup(w);
        if x !in Dedup(w) {
          Regroup(a, Dedup(w), [x]);
        }
      }
    }
  }

  /** `s.index(x)`: the position of the first occurrence of `x`, or nil. */
  function Index<T(==)>(s: seq<T>, x: T): (r: Option<nat>)
    ensures r.Some? <==> x in s
    ensures r.Some? ==> r.value < |s| && s[r.value] == x
    ensures r.Some? ==> forall j :: 0 <= j < r.value ==> s[j] != x
  {
    if s == [] then None
    else if s[0] == x then Some(0)
    else
      match Index(s[1..], x)
      case None => None
      case Some(k) => Some(k + 1)
  }

  /** `s.at(k)`: a negative `k` counts back from the end; out of range gives nil. */
  function At<T>(s: seq<T>, k: int): Option<T> {
    if 0 <= k < |s| then Some(s[k])
    else if -|s| <= k < 0 then Some(s[|s| + k])
    else None
  }

  /** Regrouping appended text, which the solver finds costly to do unaided. */
  lemma Regroup<T>(a: seq<T>, b: seq<T>, c: seq<T>)
    ensures (a + b) + c == a + (b + c)
  {
  }

  lemma Regroup3<T>(a: seq<T>, b: seq<T>, c: seq<T>, d: seq<T>)
    ensures ((a + b) + c) + d == a + ((b + c) + d)
  {
  }

  /** `xs.join(sep)`. */
  function Join(xs: seq<string>, sep: string): string {
    if xs == [] then ""
    else if |xs| == 1 then xs[0]
    else Join(xs[..|xs| - 1], sep) + sep + xs[|xs| - 1]
  }

  lemma JoinSnoc(xs: seq<string>, x: string, sep: string)
    ensures Join(xs + [x], sep) == Join(xs, sep) + (if xs == [] then "" else sep) + x
  {
    if xs == [] {
      assert xs + [x] == [x];
    } else {
      assert (xs + [x])[..|xs|] == xs;
    }
  }

  /** One step of writing `xs.join(sep)` piece by piece after `prefix`: the separator, then item `i`. */
  lemma JoinStep(prefix: string, xs: seq<string>, i: nat, sep: string)
    requires i < |xs|
    ensures prefix + Join(xs[..i], sep) + (if i > 0 then sep else "") + xs[i] == prefix + Join(xs[..i + 1], sep)
  {
    assert xs[..i + 1] == xs[..i] + [xs[i]];
    JoinSnoc(xs[..i], xs[i], sep);
    Regroup3(prefix, Join(xs[..i], sep), if i > 0 then sep else "", xs[i]);
  }

  /** The strings one after the other, as successive `<<` leave them in a buffer. */
  function Concat(xs: seq<string>): string {
    if xs == [] then "" else Concat(xs[..|xs| - 1]) + xs[|xs| - 1]
  }

  lemma ConcatSnoc(xs: seq<string>, x: string)
    ensures Concat(xs + [x]) == Concat(xs) + x
  {
    assert (xs + [x])[..|xs|] == xs;
  }

  lemma {:induction false} ConcatAppend(xs: seq<string>, ys: seq<string>)
    ensures Concat(xs + ys) == Concat(xs) + Concat(ys)
  {
    if ys == [] {
      assert xs + ys == xs;
    } else {
      var init, last := ys[..|ys| - 1], ys[|ys| - 1];
      ConcatAppend(xs, init);
      assert ys == init + [last];
      assert xs + ys == (xs + init) + [last];
      ConcatSnoc(xs + init, last);
      ConcatSnoc(init, last);
      Regroup(Concat(xs), Concat(init), last);
    }
  }

  /** How many times the character `c` occurs in `s`. */
  function Occurrences(s: string, c: char): nat {
    if s == [] then 0
    else Occurrences(s[..|s| - 1], c) + (if s[|s| - 1] == c then 1 else 0)
  }

  lemma {:induction false} OccurrencesAppend(s: string, t: string, c: char)
    ensures Occurrences(s + t, c) == Occurrences(s, c) + Occurrences(t, c)
  {
    if t == [] {
      assert s + t == s;
    } else {
      OccurrencesAppend(s, t[..|t| - 1], c);
      assert (s + t)[..|s + t| - 1] == s + t[..|t| - 1];
      assert (s + t)[|s + t| - 1] == t[|t| - 1];
    }
  }

  lemma OccurrencesAbsent(s: string, c: char)
    requires c !in s
    ensures Occurrences(s, c) == 0
  {
    if s != [] {
      assert forall x :: x in s[..|s| - 1] ==> x in s;
      OccurrencesAbsent(s[..|s| - 1], c);
    }
  }

  /** Joining items that hold no `c` with `c` puts exactly one `c` between neighbours. */
  lemma {:induction false} JoinSeparators(xs: seq<string>, c: char)
    requires forall i :: 0 <= i < |xs| ==> c !in xs[i]
    ensures Occurrences(Join(xs, [c]), c) == if xs == [] then 0 else |xs| - 1
  {
    if |xs| == 1 {
      OccurrencesAbsent(xs[0], c);
    } else if |xs| > 1 {
      var init, last := xs[..|xs| - 1], xs[|xs| - 1];
      JoinSeparators(init, c);
      OccurrencesAppend(Join(init, [c]) + [c], last, c);
      OccurrencesAppend(Join(init, [c]), [c], c);
      OccurrencesAbsent(last, c);
      assert Occurrences([c], c) == 1 by {
        assert [c][..0] == [];
      }
    }
  }

  /** `pat` stands at position `i` of `s`. */
  predicate OccursAt(s: string, pat: string, i: int) {
    0 <= i && i + |pat| <= |s| && s[i..i + |pat|] == pat
  }

  /** `s =~ /pat/` for a pattern without metacharacters: a scan from the left. */
  function Matches(s: string, pat: string): bool
    decreases |s|
  {
    if |s| < |pat| then false
    else s[..|pat|] == pat || Matches(s[1..], pat)
  }

  /** The scan finds the pattern exactly when it occurs somewhere. */
  lemma {:induction false} MatchesIffOccurs(s: string, pat: string)
    ensures Matches(s, pat) <==> exists i :: OccursAt(s, pat, i)
    decreases |s|
  {
    if |s| == 0 {
      if |pat| == 0 {
        assert OccursAt(s, pat, 0);
      } else {
        assert forall i :: !OccursAt(s, pat, i);
      }
    } else if |s| >= |pat| {
      MatchesIffOccurs(s[1..], pat);
      if Matches(s[1..], pat) {
        var i :| OccursAt(s[1..], pat, i);
        assert s[1..][i..i + |pat|] == s[i + 1..i + 1 + |pat|];
        assert OccursAt(s, pat, i + 1);
      }
      if s[..|pat|] == pat {
        assert OccursAt(s, pat, 0);
      }
      if exists i :: OccursAt(s, pat, i) {
        var i :| OccursAt(s, pat, i);
        if i > 0 {
          assert s[1..][i - 1..i - 1 + |pat|] == s[i..i + |pat|];
          assert OccursAt(s[1..], pat, i - 1);
        } else {
          assert s[..|pat|] == pat;
        }
      }
    } else {
      assert forall i :: !OccursAt(s, pat, i);
    }
  }
}

/** The two list operations applied to the collected package names:
    in-place removal of consecutive duplicates (`Vec::dedup`) and joining
    with a separator (`join(" ")`). */
module VecOps {

  /** No two neighbouring elements are equal. */
  ghost predicate NoAdjacentDuplicates<T>(s: seq<T>) {
    forall i :: 0 < i < |s| ==> s[i - 1] != s[i]
  }

  /** `t` can be obtained from `s` by deleting elements: the elements of
      `t` occur in `s` in the same relative order. */
  ghost predicate IsSubsequence<T>(t: seq<T>, s: seq<T>)
    decreases |s|
  {
    if |t| == 0 then true
    else if |s| == 0 then false
    else (t[|t| - 1] == s[|s| - 1] && IsSubsequence(t[..|t| - 1], s[..|s| - 1]))
         || IsSubsequence(t, s[..|s| - 1])
  }

  /** The value of a vector after `dedup`: every run of equal neighbours is
      collapsed to a single element. Defined on growing prefixes, the way
      the in-place algorithm reads its input. */
  function Dedup<T(==)>(s: seq<T>): (r: seq<T>)
    ensures |r| <= |s|
    ensures |r| == 0 <==> |s| == 0
    ensures |s| > 0 ==> r[0] == s[0] && r[|r| - 1] == s[|s| - 1]
  {
    if |s| <= 1 then s
    else if s[|s| - 1] == s[|s| - 2] then Dedup(s[..|s| - 1])
    else Dedup(s[..|s| - 1]) + [s[|s| - 1]]
  }

  /** `Vec::dedup` on the first `a.Length` elements: a write cursor trails a
      read cursor, and an element is kept when it differs from the last
      element kept. The retained length is returned; the vector is
      truncated to it. */
  method DedupInPlace(a: array<string>) returns (len: nat)
    modifies a
    ensures len <= a.Length
    ensures a[..len] == Dedup(old(a[..]))
  {
    ghost var orig := a[..];
    if a.Length <= 1 {
      return a.Length;
    }
    var write := 1;
    var read := 1;
    while read < a.Length
      invariant 1 <= write <= read <= a.Length
      invariant a[..write] == Dedup(orig[..read])
      invariant forall k :: read <= k < a.Length ==> a[k] == orig[k]
    {
      assert orig[..read + 1][..read] == orig[..read];
      assert a[read] == orig[read];
      if a[read] != a[write - 1] {
        a[write] := a[read];
        write := write + 1;
      }
      read := read + 1;
    }
    assert orig[..read] == orig;
    return write;
  }

  lemma {:induction false} DedupNoAdjacentDuplicates<T>(s: seq<T>)
    ensures NoAdjacentDuplicates(Dedup(s))
  {
    if |s| > 1 {
      DedupNoAdjacentDuplicates(s[..|s| - 1]);
    }
  }

  lemma {:induction false} DedupIsSubsequence<T>(s: seq<T>)
    ensures IsSubsequence(Dedup(s), s)
  {
    if |s| == 1 {
      assert Dedup(s)[..0] == [];
    } else if |s| > 1 {
      var p := s[..|s| - 1];
      DedupIsSubsequence(p);
      var d := Dedup(s);
      if s[|s| - 1] != s[|s| - 2] {
        assert d[..|d| - 1] == Dedup(p);
      }
    }
  }

  /** Dedup keeps exactly the distinct values of its input. */
  lemma {:induction false} DedupSameElements<T>(s: seq<T>, x: T)
    ensures x in Dedup(s) <==> x in s
  {
    if |s| > 1 {
      var p := s[..|s| - 1];
      DedupSameElements(p, x);
      assert s == p + [s[|s| - 1]];
      assert s[|s| - 1] == s[|s| - 2] ==> s[|s| - 1] in p;
    }
  }

  /** A sequence is left unchanged by dedup exactly when it has no equal
      neighbours. */
  lemma {:induction false} DedupFixedIff<T>(s: seq<T>)
    ensures Dedup(s) == s <==> NoAdjacentDuplicates(s)
  {
    if |s| > 1 {
      var p := s[..|s| - 1];
      DedupFixedIff(p);
      if NoAdjacentDuplicates(s) {
        assert NoAdjacentDuplicates(p);
        assert s == p + [s[|s| - 1]];
      } else if Dedup(s) == s {
        DedupNoAdjacentDuplicates(s);
      }
    }
  }

  lemma DedupIdempotent<T>(s: seq<T>)
    ensures Dedup(Dedup(s)) == Dedup(s)
  {
    DedupNoAdjacentDuplicates(s);
    DedupFixedIff(Dedup(s));
  }

  /** Position `i` starts a run of equal neighbours. */
  ghost predicate IsRunStart<T>(s: seq<T>, i: nat) {
    i < |s| && (i == 0 || s[i - 1] != s[i])
  }

  /** The positions where a run of equal neighbours starts. */
  ghost function RunStarts<T>(s: seq<T>): set<nat> {
    set i: nat | i < |s| && IsRunStart(s, i)
  }

  /** Dedup keeps exactly one element per run: its length is the number of
      run starts. With `DedupIsSubsequence` and `DedupNoAdjacentDuplicates`
      this determines the result, so distant repeats are never dropped. */
  lemma {:induction false} DedupLengthIsRunCount<T>(s: seq<T>)
    ensures |Dedup(s)| == |RunStarts(s)|
  {
    if |s| == 0 {
      assert RunStarts(s) == {};
    } else if |s| == 1 {
      assert RunStarts(s) == {0};
    } else {
      var n := |s| - 1;
      var p := s[..n];
      DedupLengthIsRunCount(p);
      assert forall i :: 0 <= i < n ==> p[i] == s[i];
      if s[n] == s[n - 1] {
        assert RunStarts(s) == RunStarts(p);
      } else {
        assert RunStarts(s) == RunStarts(p) + {n};
        assert n !in RunStarts(p);
      }
    }
  }

  /** Only neighbouring duplicates are removed: a value that recurs after
      a different value survives twice. */
  lemma DedupKeepsDistantDuplicates(x: string, y: string)
    requires x != y
    ensures Dedup([x, x, y, x]) == [x, y, x]
  {
    assert [x, x, y, x][..3] == [x, x, y];
    assert [x, x, y][..2] == [x, x];
    assert [x, x][..1] == [x];
    assert Dedup([x, x]) == [x];
    assert Dedup([x, x, y]) == [x, y];
  }

  /** `parts.join(sep)`: the parts in order with `sep` between neighbours. */
  function Join(parts: seq<string>, sep: string): (r: string)
    ensures |parts| == 0 ==> r == []
    ensures |parts| > 0 ==> |r| >= |parts[0]| && r[..|parts[0]|] == parts[0]
  {
    if |parts| == 0 then []
    else if |parts| == 1 then parts[0]
    else parts[0] + sep + Join(parts[1..], sep)
  }

  /** The pieces of `s` between occurrences of `c` (so a string without `c`
      is one piece); the inverse of joining with `[c]`. */
  function Split(s: string, c: char): (r: seq<string>)
    ensures |r| >= 1
  {
    if |s| == 0 then [[]]
    else if s[0] == c then [[]] + Split(s[1..], c)
    else
      var rest := Split(s[1..], c);
      [[s[0]] + rest[0]] + rest[1..]
  }

  /** Total length of the parts. */
  function SumLengths(parts: seq<string>): nat {
    if |parts| == 0 then 0 else |parts[0]| + SumLengths(parts[1..])
  }

  /** The joined line is the parts plus one separator between each pair:
      no leading or trailing separator. */
  lemma {:induction false} JoinLength(parts: seq<string>, sep: string)
    requires |parts| > 0
    ensures |Join(parts, sep)| == SumLengths(parts) + (|parts| - 1) * |sep|
  {
    if |parts| > 1 {
      JoinLength(parts[1..], sep);
    }
  }

  lemma {:induction false} JoinEndsWithLast(parts: seq<string>, sep: string)
    requires |parts| > 0
    ensures var r := Join(parts, sep);
            |r| >= |parts[|parts| - 1]| && r[|r| - |parts[|parts| - 1]|..] == parts[|parts| - 1]
  {
    if |parts| > 1 {
      JoinEndsWithLast(parts[1..], sep);
      var tail := Join(parts[1..], sep);
      var r := parts[0] + sep + tail;
      assert r[|r| - |tail|..] == tail;
    }
  }

  lemma {:induction false} SplitPrefix(p: string, c: char, rest: string)
    requires c !in p
    ensures Split(p + [c] + rest, c) == [p] + Split(rest, c)
  {
    if |p| > 0 {
      SplitPrefix(p[1..], c, rest);
      assert (p + [c] + rest)[1..] == p[1..] + [c] + rest;
      assert p == [p[0]] + p[1..];
    } else {
      assert p + [c] + rest == [c] + rest;
      assert ([c] + rest)[1..] == rest;
    }
  }

  lemma {:induction false} SplitNoSeparator(s: string, c: char)
    requires c !in s
    ensures Split(s, c) == [s]
  {
    if |s| > 0 {
      SplitNoSeparator(s[1..], c);
      assert [s[0]] + s[1..] == s;
    }
  }

  /** Joining with a one-character separator is undone by splitting on it,
      as long as there is at least one part and no part contains it. */
  lemma {:induction false} SplitJoin(parts: seq<string>, c: char)
    requires |parts| > 0
    requires forall i :: 0 <= i < |parts| ==> c !in parts[i]
    ensures Split(Join(parts, [c]), c) == parts
  {
    if |parts| == 1 {
      SplitNoSeparator(parts[0], c);
    } else {
      SplitJoin(parts[1..], c);
      SplitPrefix(parts[0], c, Join(parts[1..], [c]));
      assert parts == [parts[0]] + parts[1..];
    }
  }
}

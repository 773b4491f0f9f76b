/** Generic values and sequence operations shared by every page and the seed
    script: the optional value of a nullable reference, the array methods
    `filter`, `find`, `slice(0, n)` and fixed-size slicing into chunks. */
module Common {

  /** A nullable reference (`T | null` or `T | undefined`). */
  datatype Option<+T> = None | Some(value: T)

  function Min(a: int, b: int): int
  {
    if a <= b then a else b
  }

  /** `b` keeps every element of `a`, in the same relative order. */
  predicate IsSubsequence<T(==)>(a: seq<T>, b: seq<T>)
    decreases |b|
  {
    if |a| == 0 then true
    else if |b| == 0 then false
    else if a[0] == b[0] then IsSubsequence(a[1..], b[1..])
    else IsSubsequence(a, b[1..])
  }

  lemma {:induction false} SubsequenceSelf<T>(s: seq<T>)
    ensures IsSubsequence(s, s)
    decreases |s|
  {
    if |s| > 0 {
      SubsequenceSelf(s[1..]);
    }
  }

  /** A subsequence of the tail of `b` is a subsequence of `b`. */
  lemma {:induction false} SubsequenceOfTail<T>(a: seq<T>, b: seq<T>)
    requires |b| > 0 && IsSubsequence(a, b[1..])
    ensures IsSubsequence(a, b)
    decreases |b|, 0
  {
    if |a| > 0 && a[0] == b[0] {
      var c := b[1..];
      if a[0] == c[0] {
        SubsequenceOfTail(a[1..], c);
      } else {
        DropHead(a, c[1..]);
        SubsequenceOfTail(a[1..], c);
      }
    }
  }

  /** Dropping the first element of a subsequence keeps it a subsequence. */
  lemma {:induction false} DropHead<T>(a: seq<T>, b: seq<T>)
    requires |a| > 0 && IsSubsequence(a, b)
    ensures IsSubsequence(a[1..], b)
    decreases |b|, 1
  {
    if a[0] == b[0] {
      SubsequenceOfTail(a[1..], b);
    } else {
      DropHead(a, b[1..]);
      SubsequenceOfTail(a[1..], b);
    }
  }

  /** `Array.prototype.filter`: the elements satisfying `p`, in order. */
  function Filter<T(==)>(s: seq<T>, p: T -> bool): (r: seq<T>)
    ensures |r| <= |s|
    ensures forall i :: 0 <= i < |r| ==> r[i] in s && p(r[i])
    ensures forall i :: 0 <= i < |s| && p(s[i]) ==> s[i] in r
    ensures IsSubsequence(r, s)
    decreases |s|
  {
    if |s| == 0 then []
    else
      var rest := Filter(s[1..], p);
      if p(s[0]) then
        assert IsSubsequence(rest, s[1..]);
        [s[0]] + rest
      else
        SubsequenceOfTail(rest, s);
        rest
  }

  lemma {:induction false} FilterAppend<T>(a: seq<T>, b: seq<T>, p: T -> bool)
    ensures Filter(a + b, p) == Filter(a, p) + Filter(b, p)
    decreases |a|
  {
    if |a| > 0 {
      assert (a + b)[1..] == a[1..] + b;
      FilterAppend(a[1..], b, p);
    } else {
      assert a + b == b;
    }
  }

  /** `for (const x of s) if (keep(x)) out.push(make(x))`: the kept
      elements, each transformed, in order. */
  function FilterMap<T, U>(s: seq<T>, keep: T -> bool, make: T -> U): seq<U>
    decreases |s|
  {
    if |s| == 0 then []
    else
      var last := s[|s| - 1];
      FilterMap(s[..|s| - 1], keep, make) + (if keep(last) then [make(last)] else [])
  }

  /** The pushing loop makes exactly the `filter`ed elements, in order. */
  lemma {:induction false} FilterMapOfFilter<T, U>(s: seq<T>, keep: T -> bool, make: T -> U)
    ensures |FilterMap(s, keep, make)| == |Filter(s, keep)|
    ensures forall k :: 0 <= k < |Filter(s, keep)| ==> FilterMap(s, keep, make)[k] == make(Filter(s, keep)[k])
    decreases |s|
  {
    if |s| > 0 {
      var init, last := s[..|s| - 1], s[|s| - 1];
      FilterMapOfFilter(init, keep, make);
      assert s == init + [last];
      FilterAppend(init, [last], keep);
      assert Filter([last], keep) == if keep(last) then [last] else [] by {
        assert [last][1..] == [];
      }
    }
  }

  /** Filtering twice keeps the elements both predicates accept. */
  lemma {:induction false} FilterFilter<T>(s: seq<T>, p: T -> bool, q: T -> bool, both: T -> bool)
    requires forall x :: both(x) == (p(x) && q(x))
    ensures Filter(Filter(s, p), q) == Filter(s, both)
    decreases |s|
  {
    if |s| > 0 {
      FilterFilter(s[1..], p, q, both);
      var rest := Filter(s[1..], p);
      if p(s[0]) {
        assert ([s[0]] + rest)[1..] == rest;
      }
    }
  }

  /** No value occurs twice. */
  predicate Distinct<T(==)>(s: seq<T>)
  {
    forall i, j :: 0 <= i < j < |s| ==> s[i] != s[j]
  }

  /** Filtering a duplicate-free sequence keeps it duplicate-free. */
  lemma {:induction false} FilterDistinct<T>(s: seq<T>, p: T -> bool)
    requires Distinct(s)
    ensures Distinct(Filter(s, p))
    decreases |s|
  {
    if |s| > 0 {
      FilterDistinct(s[1..], p);
      var rest := Filter(s[1..], p);
      if p(s[0]) {
        var r := [s[0]] + rest;
        assert s[0] !in s[1..];
        forall i, j | 0 <= i < j < |r|
          ensures r[i] != r[j]
        {
          assert r[j] == rest[j - 1] && r[j] in s[1..];
          if i > 0 {
            assert r[i] == rest[i - 1];
          }
        }
      }
    }
  }

  /** Appending a value that is not there keeps a sequence duplicate-free. */
  lemma AppendDistinct<T>(s: seq<T>, x: T)
    requires Distinct(s) && x !in s
    ensures Distinct(s + [x])
  {
    var r := s + [x];
    forall i, j | 0 <= i < j < |r|
      ensures r[i] != r[j]
    {
      assert r[i] == s[i];
    }
  }

  /** `Array.prototype.some`: whether some element satisfies `p`. */
  function Any<T>(s: seq<T>, p: T -> bool): (r: bool)
    ensures r <==> exists i :: 0 <= i < |s| && p(s[i])
    decreases |s|
  {
    if |s| == 0 then false
    else if p(s[0]) then true
    else
      var rest := Any(s[1..], p);
      assert forall i :: 1 <= i < |s| ==> s[i] == s[1..][i - 1];
      rest
  }

  /** A select box whose "ALL" entry switches its filter off: `choice`
      admits `value` when it is "ALL" or equal to it. */
  predicate SelectAdmits(choice: string, value: string)
  {
    choice == "ALL" || value == choice
  }

  /** A predicate that holds of every element keeps the whole sequence. */
  lemma {:induction false} FilterAll<T>(s: seq<T>, p: T -> bool)
    requires forall i :: 0 <= i < |s| ==> p(s[i])
    ensures Filter(s, p) == s
    decreases |s|
  {
    if |s| > 0 {
      FilterAll(s[1..], p);
    }
  }

  /** Index of the first element satisfying `p`, if any. */
  function FindIndex<T>(s: seq<T>, p: T -> bool): (r: Option<nat>)
    ensures r.None? <==> forall i :: 0 <= i < |s| ==> !p(s[i])
    ensures r.Some? ==> r.value < |s| && p(s[r.value])
                        && forall i :: 0 <= i < r.value ==> !p(s[i])
    decreases |s|
  {
    if |s| == 0 then None
    else if p(s[0]) then Some(0)
    else
      match FindIndex(s[1..], p)
      case None => None
      case Some(k) => Some(k + 1)
  }

  /** `Array.prototype.find`: the first element satisfying `p`, if any. */
  function Find<T>(s: seq<T>, p: T -> bool): (r: Option<T>)
    ensures r.None? <==> forall i :: 0 <= i < |s| ==> !p(s[i])
    ensures r.Some? ==> p(r.value)
    ensures r.Some? ==> exists k :: 0 <= k < |s| && s[k] == r.value && FirstAt(s, p, k)
  {
    match FindIndex(s, p)
    case None => None
    case Some(k) => assert FirstAt(s, p, k); Some(s[k])
  }

  /** `k` is the position of the first element of `s` satisfying `p`. */
  predicate FirstAt<T>(s: seq<T>, p: T -> bool, k: nat)
  {
    k < |s| && p(s[k]) && forall i :: 0 <= i < k ==> !p(s[i])
  }

  /** `s.slice(0, n)`: the first `n` elements, or all of them. */
  function Take<T>(s: seq<T>, n: nat): (r: seq<T>)
    ensures |r| == Min(n, |s|)
    ensures r <= s
  {
    if n <= |s| then s[..n] else s
  }

  /** A prefix of a prefix is a prefix: taking fewer elements first. */
  lemma TakeTake<T>(s: seq<T>, m: nat, n: nat)
    requires m <= n
    ensures Take(Take(s, n), m) == Take(s, m)
  {
  }

  /** Consecutive slices `s.slice(i, i + size)` for `i = 0, size, 2*size, ...`. */
  function Chunks<T>(s: seq<T>, size: nat): (r: seq<seq<T>>)
    requires size > 0
    ensures forall k :: 0 <= k < |r| ==> 0 < |r[k]| <= size
    ensures forall k :: 0 <= k < |r| - 1 ==> |r[k]| == size
    ensures Flatten(r) == s
    decreases |s|
  {
    if |s| == 0 then []
    else if |s| <= size then
      assert Flatten([s]) == s + Flatten([]);
      [s]
    else
      var rest := Chunks(s[size..], size);
      assert s == s[..size] + s[size..];
      assert ([s[..size]] + rest)[1..] == rest;
      [s[..size]] + rest
  }

  /** There are `Math.ceil(|s| / size)` chunks. */
  lemma {:induction false} ChunksCount<T>(s: seq<T>, size: nat)
    requires size > 0
    ensures |Chunks(s, size)| == CeilDiv(|s|, size)
    decreases |s|
  {
    if 0 < |s| <= size {
      CeilDivOne(|s|, size);
    } else if |s| > size {
      ChunksCount(s[size..], size);
      CeilDivStep(|s| - size, size);
    }
  }

  /** The chunks of `s[i..]` are the slice `s.slice(i, i + size)`
      followed by the chunks of what comes after it. */
  lemma ChunksFrom<T>(s: seq<T>, i: nat, size: nat)
    requires i < |s| && size > 0
    ensures Chunks(s[i..], size) == [s[i..Min(i + size, |s|)]] + Chunks(s[Min(i + size, |s|)..], size)
  {
    var t := s[i..];
    var end := Min(i + size, |s|);
    assert t[..end - i] == s[i..end];
    assert t[end - i..] == s[end..];
    if |t| <= size {
      assert t[..|t|] == t;
      assert s[end..] == [];
    }
  }

  /** Taking the next slice keeps `done + Chunks(rest)` equal to all chunks. */
  lemma ChunksStep<T>(s: seq<T>, done: seq<seq<T>>, i: nat, size: nat)
    requires i < |s| && size > 0
    requires done + Chunks(s[i..], size) == Chunks(s, size)
    ensures (done + [s[i..Min(i + size, |s|)]]) + Chunks(s[Min(i + size, |s|)..], size) == Chunks(s, size)
  {
    var end := Min(i + size, |s|);
    var rest := Chunks(s[end..], size);
    assert Chunks(s[i..], size) == [s[i..end]] + rest by {
      ChunksFrom(s, i, size);
    }
    ConcatAssoc(done, [s[i..end]], rest);
  }

  lemma ConcatAssoc<T>(a: seq<T>, b: seq<T>, c: seq<T>)
    ensures (a + b) + c == a + (b + c)
  {
  }

  /** `done` holds the chunks of `s` before position `i`: they and the
      chunks of the rest make up the chunks of `s`. */
  ghost predicate ChunkedUpTo<T>(s: seq<T>, i: nat, size: nat, done: seq<seq<T>>)
    requires size > 0
  {
    done + Chunks(s[Min(i, |s|)..], size) == Chunks(s, size)
  }

  /** Taking the chunk at `i` moves the position on by `size`. */
  lemma ChunkedStep<T>(s: seq<T>, i: nat, size: nat, done: seq<seq<T>>)
    requires size > 0 && i < |s| && ChunkedUpTo(s, i, size, done)
    ensures ChunkedUpTo(s, i + size, size, done + [s[i..Min(i + size, |s|)]])
  {
    ChunksStep(s, done, i, size);
    assert Min(i + size, |s|) == Min(Min(i + size, |s|), |s|);
  }

  /** Consecutive slices join up. */
  lemma SliceJoin<T>(s: seq<T>, i: nat, j: nat)
    requires i <= j <= |s|
    ensures s[..i] + s[i..j] == s[..j]
  {
  }

  /** `Math.ceil(n / size)` for natural numbers. */
  function CeilDiv(n: nat, size: nat): nat
    requires size > 0
  {
    (n + size - 1) / size
  }

  lemma CeilDivOne(n: nat, size: nat)
    requires 0 < n <= size
    ensures CeilDiv(n, size) == 1
  {
    assert size <= n + size - 1 < 2 * size;
  }

  lemma CeilDivStep(n: nat, size: nat)
    requires size > 0
    ensures CeilDiv(n + size, size) == CeilDiv(n, size) + 1
  {
    var m := n + size - 1;
    var q, r := m / size, m % size;
    DivUnique(m + size, size, q + 1, r);
  }

  /** Euclidean division is determined by quotient and remainder. */
  lemma DivUnique(m: int, size: int, q: int, r: int)
    requires size > 0 && 0 <= r < size && m == q * size + r
    ensures m / size == q
  {
    var q', r' := m / size, m % size;
    assert m == q' * size + r';
    assert (q' - q) * size == r - r' by {
      assert (q' - q) * size == q' * size - q * size;
    }
    if q' > q {
      MulAtLeast(q' - q, size);
    } else if q' < q {
      MulAtLeast(q - q', size);
    }
  }

  lemma MulAtLeast(k: int, size: int)
    requires k >= 1 && size > 0
    ensures k * size >= size
  {
  }

  /** Concatenation of a sequence of sequences. */
  function Flatten<T>(ss: seq<seq<T>>): seq<T>
  {
    if |ss| == 0 then [] else ss[0] + Flatten(ss[1..])
  }
}

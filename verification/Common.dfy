/** Machine words, an optional value, and what several modules need about sequences. */
module Common {

  // ----- machine words -----

  const WORD: int := 0x1_0000_0000
  const HALF_WORD: int := 0x8000_0000

  type uint8 = x: int | 0 <= x < 0x100
  type int32 = x: int | -HALF_WORD <= x < HALF_WORD
  type uint32 = x: int | 0 <= x < WORD

  datatype Option<+T> = None | Some(value: T)

  lemma WholeSlice<T>(s: seq<T>)
    ensures s[..|s|] == s
  {
  }

  lemma TailOfCons<T>(x: T, r: seq<T>)
    ensures ([x] + r)[1..] == r
  {
  }

  lemma EmptyFirst<T>(s: seq<T>)
    ensures [] + s == s
  {
  }

  lemma Associate<T>(a: seq<T>, b: seq<T>, c: seq<T>)
    ensures (a + b) + c == a + (b + c)
  {
  }

  lemma Halves<T>(s: seq<T>, k: nat)
    requires k <= |s|
    ensures s[..k] + s[k..] == s
  {
  }

  lemma ElementIsIn<T>(s: seq<T>, i: nat)
    requires i < |s|
    ensures s[i] in s
  {
  }

  /** The first place where `x` stands, or the length. */
  function FirstPlace<T(==)>(s: seq<T>, x: T): (i: nat)
    ensures i <= |s|
    ensures i < |s| ==> s[i] == x
    ensures forall j :: 0 <= j < i ==> s[j] != x
  {
    if s == [] || s[0] == x then 0 else 1 + FirstPlace(s[1..], x)
  }

  // ----- subsequences -----

  /** `a` is what remains of `b` when some of its elements are left out. */
  predicate Subsequence<T(==)>(a: seq<T>, b: seq<T>)
    decreases |b|
  {
    if a == [] then true
    else if b == [] then false
    else Subsequence(a, b[..|b| - 1])
         || (a[|a| - 1] == b[|b| - 1] && Subsequence(a[..|a| - 1], b[..|b| - 1]))
  }

  lemma {:induction false} SubsequenceOfDropped<T>(a: seq<T>, b: seq<T>, i: nat)
    requires Subsequence(a, b) && i < |a|
    ensures Subsequence(a[..i] + a[i + 1..], b)
    decreases |b|
  {
    var last := |a| - 1;
    var dropped := a[..i] + a[i + 1..];
    if Subsequence(a, b[..|b| - 1]) {
      SubsequenceOfDropped(a, b[..|b| - 1], i);
    } else if i == last {
      assert dropped == a[..last];
    } else {
      SubsequenceOfDropped(a[..last], b[..|b| - 1], i);
      assert dropped[..last - 1] == a[..last][..i] + a[..last][i + 1..];
    }
  }

  lemma SubsequenceSnoc<T>(a: seq<T>, b: seq<T>, x: T)
    requires Subsequence(a, b)
    ensures Subsequence(a + [x], b + [x]) && Subsequence(a, b + [x])
  {
    assert (a + [x])[..|a|] == a && (b + [x])[..|b|] == b;
  }

  lemma {:induction false} SubsequenceTransitive<T>(a: seq<T>, b: seq<T>, c: seq<T>)
    requires Subsequence(a, b) && Subsequence(b, c)
    ensures Subsequence(a, c)
    decreases |c|
  {
    if a == [] {
    } else if Subsequence(b, c[..|c| - 1]) {
      SubsequenceTransitive(a, b, c[..|c| - 1]);
    } else if Subsequence(a, b[..|b| - 1]) {
      SubsequenceTransitive(a, b[..|b| - 1], c[..|c| - 1]);
    } else {
      SubsequenceTransitive(a[..|a| - 1], b[..|b| - 1], c[..|c| - 1]);
    }
  }
}

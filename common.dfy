/** Shared vocabulary of the lane-line post-processing: pixel values, point
    kinds, the fixed constants of the pipeline, and order-preserving filtering
    of sequences (the model of numpy's boolean selection and np.delete). */
module Common {

  /** One value of an 8-bit single-channel image. */
  newtype byte = x: int | 0 <= x < 256

  datatype Option<T> = None | Some(value: T)

  /** A pixel position as the pipeline writes it after the axis flip:
      x is the column, y is the row. */
  datatype Point = Point(x: int, y: int)

  /** A centerline point: the mean column of one row, and that row, both
      held as floating-point numbers as in numpy's `line` array (exact reals here). */
  datatype RowPoint = RowPoint(x: real, y: real)

  /** An 8-bit value at or above this is a lane pixel. */
  const Threshold: byte := 60

  /** Points farther than this from the fitted line are deleted. */
  const MaxDistance: real := 5.0

  /** A line is fitted only when the centerline has more rows than this. */
  const MinFitRows: nat := 5

  /** Number of channels turned into masks (`selected_lines`). */
  const SelectedLines: nat := 2

  /** `g` is an `h` by `w` single-channel image, indexed `g[row][col]`. */
  predicate IsGrid(g: seq<seq<byte>>, h: nat, w: nat)
  {
    |g| == h && forall r :: 0 <= r < |g| ==> |g[r]| == w
  }

  function AbsR(r: real): real
  {
    if r < 0.0 then -r else r
  }

  /** `a` is obtained from `b` by deleting elements, the rest keeping their order. */
  predicate IsSubsequence<T(==)>(a: seq<T>, b: seq<T>)
    decreases |b|
  {
    if |a| == 0 then true
    else if |b| == 0 then false
    else if a[|a| - 1] == b[|b| - 1] then IsSubsequence(a[..|a| - 1], b[..|b| - 1])
    else IsSubsequence(a, b[..|b| - 1])
  }

  lemma {:induction false} SubsequenceDropLast<T>(a: seq<T>, b: seq<T>)
    requires |a| > 0 && IsSubsequence(a, b)
    ensures IsSubsequence(a[..|a| - 1], b)
    decreases |b|, 0
  {
    var b' := b[..|b| - 1];
    assert b' + [b[|b| - 1]] == b;
    if a[|a| - 1] == b[|b| - 1] {
      SubsequenceExtend(a[..|a| - 1], b', b[|b| - 1]);
    } else {
      SubsequenceDropLast(a, b');
      SubsequenceExtend(a[..|a| - 1], b', b[|b| - 1]);
    }
  }

  /** A subsequence of `b` stays a subsequence when `b` grows at the end. */
  lemma {:induction false} SubsequenceExtend<T>(a: seq<T>, b: seq<T>, v: T)
    requires IsSubsequence(a, b)
    ensures IsSubsequence(a, b + [v])
    decreases |b|, 1
  {
    var bv := b + [v];
    assert bv[..|bv| - 1] == b;
    if |a| > 0 && a[|a| - 1] == v {
      SubsequenceDropLast(a, b);
    }
  }

  lemma {:induction false} SubsequenceSelf<T>(s: seq<T>)
    ensures IsSubsequence(s, s)
  {
    if |s| > 0 {
      SubsequenceSelf(s[..|s| - 1]);
    }
  }

  /** Every element of a subsequence of `b` is an element of `b`. */
  lemma {:induction false} SubsequenceMembers<T>(a: seq<T>, b: seq<T>)
    requires IsSubsequence(a, b)
    ensures forall k :: 0 <= k < |a| ==> a[k] in b
    decreases |b|
  {
    if |a| > 0 {
      var b' := b[..|b| - 1];
      assert forall v :: v in b' ==> v in b;
      if a[|a| - 1] == b[|b| - 1] {
        var a' := a[..|a| - 1];
        SubsequenceMembers(a', b');
        assert forall k :: 0 <= k < |a| - 1 ==> a[k] == a'[k];
      } else {
        SubsequenceMembers(a, b');
      }
    }
  }

  /** The elements of `s` that satisfy `f`, in their order in `s`. */
  function Keep<T(==)>(s: seq<T>, f: T -> bool): (r: seq<T>)
    ensures forall k :: 0 <= k < |r| ==> r[k] in s && f(r[k])
    ensures forall k :: 0 <= k < |s| && f(s[k]) ==> s[k] in r
    ensures IsSubsequence(r, s)
  {
    if |s| == 0 then []
    else
      var r' := Keep(s[..|s| - 1], f);
      KeepStep(s, f, r');
      KeepLast(s, f, r')
  }

  /** One step of `Keep`: the last element of `s` joins the selection of the
      others when it satisfies `f`. */
  function KeepLast<T>(s: seq<T>, f: T -> bool, r': seq<T>): seq<T>
    requires |s| > 0
  {
    if f(s[|s| - 1]) then r' + [s[|s| - 1]] else r'
  }

  lemma KeepStep<T>(s: seq<T>, f: T -> bool, r': seq<T>)
    requires |s| > 0
    requires forall k :: 0 <= k < |r'| ==> r'[k] in s[..|s| - 1] && f(r'[k])
    requires forall k :: 0 <= k < |s| - 1 && f(s[k]) ==> s[k] in r'
    requires IsSubsequence(r', s[..|s| - 1])
    ensures var r := KeepLast(s, f, r');
      && (forall k :: 0 <= k < |r| ==> r[k] in s && f(r[k]))
      && (forall k :: 0 <= k < |s| && f(s[k]) ==> s[k] in r)
      && IsSubsequence(r, s)
  {
    var init, last := s[..|s| - 1], s[|s| - 1];
    assert init + [last] == s;
    assert forall k :: 0 <= k < |s| - 1 ==> s[k] == init[k];
    SubsequenceExtend(r', init, last);
    if f(last) {
      var r := r' + [last];
      assert r[..|r| - 1] == r';
    }
  }

  /** `Keep` keeps every copy of a value that satisfies `f` and no copy of
      one that does not. */
  lemma {:induction false} KeepCopies<T>(s: seq<T>, f: T -> bool)
    ensures forall k :: 0 <= k < |s| ==>
      multiset(Keep(s, f))[s[k]] == if f(s[k]) then multiset(s)[s[k]] else 0
  {
    if |s| > 0 {
      var init := s[..|s| - 1];
      KeepCopies(init, f);
      KeepCount(s, f, Keep(init, f));
    }
  }

  /** The step of `Keep` keeps every copy of a selected value. */
  lemma KeepCount<T>(s: seq<T>, f: T -> bool, r': seq<T>)
    requires |s| > 0
    requires forall k :: 0 <= k < |r'| ==> r'[k] in s[..|s| - 1]
    requires forall k :: 0 <= k < |s| - 1 ==>
      multiset(r')[s[k]] == if f(s[k]) then multiset(s[..|s| - 1])[s[k]] else 0
    ensures var r := KeepLast(s, f, r');
      forall k :: 0 <= k < |s| ==>
        multiset(r)[s[k]] == if f(s[k]) then multiset(s)[s[k]] else 0
  {
    var init, last := s[..|s| - 1], s[|s| - 1];
    assert init + [last] == s;
    var r := KeepLast(s, f, r');
    assert multiset(r) == multiset(r') + (if f(last) then multiset{last} else multiset{});
    forall k | 0 <= k < |s|
      ensures multiset(r)[s[k]] == if f(s[k]) then multiset(s)[s[k]] else 0
    {
      var v := s[k];
      assert multiset(s)[v] == multiset(init)[v] + (if v == last then 1 else 0);
      if v !in init {
        assert k == |s| - 1;
        assert multiset(r')[v] == 0;
      } else {
        var j :| 0 <= j < |init| && init[j] == v;
        assert s[j] == v;
      }
    }
  }

  /** Nothing is deleted when every element satisfies the predicate. */
  lemma {:induction false} KeepAll<T>(s: seq<T>, f: T -> bool)
    requires forall k :: 0 <= k < |s| ==> f(s[k])
    ensures Keep(s, f) == s
  {
    if |s| > 0 {
      var init := s[..|s| - 1];
      assert init + [s[|s| - 1]] == s;
      KeepAll(init, f);
    }
  }
}

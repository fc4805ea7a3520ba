/**
 * The Steinhaus-Johnson-Trotter permutation generator that drives the
 * exhaustive search: a permutation `p` of the cities with position 0 pinned to
 * city 0, and a parallel array `d` of direction flags (LEFT or RIGHT), one per
 * position, that travel with their values.
 *
 * The generator is specified on sequences (`Step`, `State`) and implemented on
 * arrays updated in place (`InitArrangement`, `FindLargestMobile`, `Advance`).
 */
module Sjt {
  import opened Tours

  const Left := -1
  const Right := 1

  /** The permutation and the direction flag of the value at each position. */
  datatype Arrangement = Arrangement(p: seq<int>, d: seq<int>)

  predicate IsDirection(x: int)
  {
    x == Left || x == Right
  }

  /** Reverse a direction flag. */
  function Flip(x: int): (y: int)
    requires IsDirection(x)
    ensures IsDirection(y) && y != x
  {
    if x == Left then Right else Left
  }

  /** Both arrays have n entries and every flag is LEFT or RIGHT. */
  predicate Shaped(s: Arrangement, n: int)
  {
    && n >= 2 && |s.p| == n && |s.d| == n
    && forall j :: 0 <= j < n ==> IsDirection(s.d[j])
  }

  /** A reachable generator state: a permutation of the n cities starting at city 0, every flag LEFT or RIGHT. */
  predicate Valid(s: Arrangement, n: int)
  {
    Shaped(s, n) && IsPermutation(s.p, n) && s.p[0] == 0
  }

  /**
   * The value at position j is mobile: it is not at position 1 facing LEFT
   * (position 0 is pinned), not at the last position facing RIGHT, and it is
   * larger than the neighbour it faces.
   */
  predicate Mobile(s: Arrangement, n: int, j: int)
    requires Shaped(s, n)
    ensures Mobile(s, n, j) ==> 1 <= j < n && 1 <= j + s.d[j] < n
  {
    && 1 <= j < n
    && !(j == 1 && s.d[j] == Left) && !(j == n - 1 && s.d[j] == Right)
    && s.p[j] > s.p[j + s.d[j]]
  }

  predicate HasMobile(s: Arrangement, n: int)
    requires Shaped(s, n)
  {
    exists j :: 1 <= j < n && Mobile(s, n, j)
  }

  /**
   * The scan for the largest mobile value over positions 1..j-1, in position
   * order with a strict `>`: the pair (largest mobile value, its position), or
   * (0, 0) when none of those positions is mobile.
   */
  function Scan(s: Arrangement, n: int, j: int): (r: (int, int))
    requires Shaped(s, n) && 1 <= j <= n
    ensures r.0 >= 0
    ensures r.0 != 0 ==> 1 <= r.1 < j && Mobile(s, n, r.1) && s.p[r.1] == r.0
  {
    if j == 1 then (0, 0)
    else
      var r := Scan(s, n, j - 1);
      if Mobile(s, n, j - 1) && s.p[j - 1] > r.0 then (s.p[j - 1], j - 1) else r
  }

  function LargestMobile(s: Arrangement, n: int): (int, int)
    requires Shaped(s, n)
  {
    Scan(s, n, n)
  }

  /** No mobile value at a position the scan covered exceeds the scan result. */
  lemma {:induction false} ScanBound(s: Arrangement, n: int, j: int, k: int)
    requires Shaped(s, n) && 1 <= k < j <= n && Mobile(s, n, k)
    ensures s.p[k] <= Scan(s, n, j).0
  {
    assert Scan(s, n, j - 1).0 <= Scan(s, n, j).0;
    if k < j - 1 {
      ScanBound(s, n, j - 1, k);
    }
  }

  /** The scan over positions 1..j-1 finds the largest mobile value there, and 0 exactly when there is none. */
  lemma ScanFindsLargest(s: Arrangement, n: int, j: int)
    requires Shaped(s, n) && InRange(s.p, n) && 1 <= j <= n
    ensures Scan(s, n, j).0 == 0 <==> forall k :: 1 <= k < j ==> !Mobile(s, n, k)
    ensures forall k :: 1 <= k < j && Mobile(s, n, k) ==> s.p[k] <= Scan(s, n, j).0
  {
    forall k | 1 <= k < j && Mobile(s, n, k)
      ensures s.p[k] <= Scan(s, n, j).0 && Scan(s, n, j).0 != 0
    {
      ScanBound(s, n, j, k);
      assert s.p[k + s.d[k]] >= 0;
    }
  }

  /**
   * `LargestMobile` returns 0 exactly when no value is mobile; otherwise it
   * returns a mobile value and its position, and every other mobile value is
   * strictly smaller.
   */
  lemma LargestMobileCharacterised(s: Arrangement, n: int)
    requires Valid(s, n)
    ensures LargestMobile(s, n).0 == 0 <==> !HasMobile(s, n)
    ensures LargestMobile(s, n).0 != 0 ==>
              var (m, i) := LargestMobile(s, n);
              Mobile(s, n, i) && s.p[i] == m
              && forall k :: Mobile(s, n, k) && k != i ==> s.p[k] < m
  {
    ScanFindsLargest(s, n, n);
  }

  /** `s` with the entries at positions i and j exchanged. */
  function Swap(s: seq<int>, i: int, j: int): (r: seq<int>)
    requires 0 <= i < |s| && 0 <= j < |s|
    ensures |r| == |s| && r[i] == s[j] && r[j] == s[i]
    ensures forall k :: 0 <= k < |s| && k != i && k != j ==> r[k] == s[k]
  {
    s[i := s[j]][j := s[i]]
  }

  /** The flags `d` with the flag of every position from 1 on whose value exceeds m reversed. */
  function FlipAbove(p: seq<int>, d: seq<int>, m: int): (r: seq<int>)
    requires |p| == |d| && forall j :: 0 <= j < |d| ==> IsDirection(d[j])
    ensures |r| == |d| && forall j :: 0 <= j < |r| ==> IsDirection(r[j])
  {
    seq(|d|, j requires 0 <= j < |d| => if j >= 1 && p[j] > m then Flip(d[j]) else d[j])
  }

  /**
   * Move the mobile value at position i: exchange it with the neighbour it
   * faces, its flag moving with it, then reverse every flag whose value is
   * larger than the moved one.
   */
  function Move(s: Arrangement, n: int, i: int): (r: Arrangement)
    requires Shaped(s, n) && Mobile(s, n, i)
    ensures Shaped(r, n)
    ensures r.p[i + s.d[i]] == s.p[i] && r.p[i] == s.p[i + s.d[i]] && r.p[i] < r.p[i + s.d[i]]
    ensures forall k :: 0 <= k < n && k != i && k != i + s.d[i] ==> r.p[k] == s.p[k]
  {
    var t := i + s.d[i];
    var p := Swap(s.p, i, t);
    Arrangement(p, FlipAbove(p, Swap(s.d, i, t), s.p[i]))
  }

  /**
   * One generator step: move the largest mobile value. When nothing is
   * mobile the state is returned unchanged (the generator is never asked to
   * step from such a state; see `NeverStuck`).
   */
  function Step(s: Arrangement, n: int): (r: Arrangement)
    requires Shaped(s, n)
    ensures Shaped(r, n)
    ensures LargestMobile(s, n).0 != 0 ==> r.p != s.p
  {
    var r := LargestMobile(s, n);
    if r.0 == 0 then s else Move(s, n, r.1)
  }

  lemma SwapCommutes(q: seq<int>, i: int, j: int)
    requires 0 <= i < |q| && 0 <= j < |q|
    ensures Swap(q, i, j) == Swap(q, j, i)
  {
    assert forall k :: 0 <= k < |q| ==> Swap(q, i, j)[k] == Swap(q, j, i)[k];
  }

  /** `r` is `q` with the entries at the adjacent positions a and a+1 exchanged. */
  predicate SwapsAt(q: seq<int>, r: seq<int>, a: int)
  {
    0 <= a < |q| - 1 && r == Swap(q, a, a + 1)
  }

  /** Swapping two entries keeps a list repeat-free and in range. */
  lemma SwapPermutation(s: seq<int>, n: int, i: int, j: int)
    requires IsPermutation(s, n) && 0 <= i < n && 0 <= j < n
    ensures IsPermutation(Swap(s, i, j), n)
  {
    var r := Swap(s, i, j);
    forall a, b | 0 <= a < b < n
      ensures r[a] != r[b]
    {
      var a' := if a == i then j else if a == j then i else a;
      var b' := if b == i then j else if b == j then i else b;
      assert r[a] == s[a'] && r[b] == s[b'] && a' != b';
    }
  }

  /** Moving a mobile value keeps the state valid. */
  lemma MoveValid(s: Arrangement, n: int, i: int)
    requires Valid(s, n) && Mobile(s, n, i)
    ensures Valid(Move(s, n, i), n)
  {
    SwapPermutation(s.p, n, i, i + s.d[i]);
  }

  /** Moving a mobile value keeps both arrays' lengths, the flags and the range of the values. */
  lemma MoveShaped(s: Arrangement, n: int, i: int)
    requires Shaped(s, n) && InRange(s.p, n) && Mobile(s, n, i)
    ensures Shaped(Move(s, n, i), n) && InRange(Move(s, n, i).p, n)
  {
  }

  /** A step keeps both arrays' lengths, the flags and the range of the values. */
  lemma StepShaped(s: Arrangement, n: int)
    requires Shaped(s, n) && InRange(s.p, n)
    ensures Shaped(Step(s, n), n) && InRange(Step(s, n).p, n)
  {
    var r := LargestMobile(s, n);
    if r.0 != 0 {
      MoveShaped(s, n, r.1);
    }
  }

  /** A step keeps the state valid: still a permutation, city 0 still first, every flag still LEFT or RIGHT. */
  lemma StepValid(s: Arrangement, n: int)
    requires Valid(s, n)
    ensures Valid(Step(s, n), n)
  {
    var r := LargestMobile(s, n);
    if r.0 != 0 {
      MoveValid(s, n, r.1);
    }
  }

  /** Moving the mobile value at i exchanges two adjacent positions, both at least 1, and the value lands where it faced. */
  lemma MoveSwapsAdjacent(s: Arrangement, n: int, i: int)
    requires Shaped(s, n) && Mobile(s, n, i)
    ensures exists a :: 1 <= a && SwapsAt(s.p, Move(s, n, i).p, a)
    ensures 0 <= i + s.d[i] < n && Move(s, n, i).p[i + s.d[i]] == s.p[i]
  {
    var t := i + s.d[i];
    var q := Swap(s.p, i, t);
    assert Move(s, n, i).p == q;
    if s.d[i] == Left {
      SwapCommutes(s.p, i, t);
      assert SwapsAt(s.p, q, t);
    } else {
      assert SwapsAt(s.p, q, i);
    }
  }

  /**
   * A step from a state with a mobile value exchanges two adjacent positions,
   * both at least 1, and the largest mobile value ends up one place further in
   * its own direction.
   */
  lemma StepSwapsAdjacent(s: Arrangement, n: int)
    requires Shaped(s, n) && InRange(s.p, n) && HasMobile(s, n)
    ensures exists a :: 1 <= a && SwapsAt(s.p, Step(s, n).p, a)
    ensures var i := LargestMobile(s, n).1;
            Mobile(s, n, i) && Step(s, n).p[i + s.d[i]] == LargestMobile(s, n).0
  {
    ScanFindsLargest(s, n, n);
    var i := LargestMobile(s, n).1;
    assert Step(s, n) == Move(s, n, i);
    MoveSwapsAdjacent(s, n, i);
  }

  /** Moving the value at i keeps each flag with its value, reversing exactly the flags of values larger than the moved one. */
  lemma MoveDirections(s: Arrangement, n: int, i: int)
    requires Valid(s, n) && Mobile(s, n, i)
    ensures forall j0, j :: 0 <= j0 < n && 0 <= j < n && Move(s, n, i).p[j] == s.p[j0] ==>
              Move(s, n, i).d[j] == (if s.p[j0] > s.p[i] then Flip(s.d[j0]) else s.d[j0])
  {
    var t := i + s.d[i];
    var s' := Move(s, n, i);
    forall j0, j | 0 <= j0 < n && 0 <= j < n && s'.p[j] == s.p[j0]
      ensures s'.d[j] == (if s.p[j0] > s.p[i] then Flip(s.d[j0]) else s.d[j0])
    {
      var src := if j == i then t else if j == t then i else j;
      assert s'.p[j] == s.p[src];
      assert src == j0;
    }
  }

  /**
   * A step keeps each value's flag attached to the value, and reverses it
   * exactly when the value is larger than the largest mobile value.
   */
  lemma StepDirections(s: Arrangement, n: int)
    requires Valid(s, n) && HasMobile(s, n)
    ensures var m := LargestMobile(s, n).0;
            forall j0, j :: 0 <= j0 < n && 0 <= j < n && Step(s, n).p[j] == s.p[j0] ==>
              Step(s, n).d[j] == (if s.p[j0] > m then Flip(s.d[j0]) else s.d[j0])
  {
    ScanFindsLargest(s, n, n);
    MoveDirections(s, n, LargestMobile(s, n).1);
  }

  /** The identity permutation of the n cities. */
  function Identity(n: nat): seq<int>
  {
    seq(n, i => i)
  }

  /** Every flag LEFT. */
  function Lefts(n: nat): seq<int>
  {
    seq(n, i => Left)
  }

  function Initial(n: nat): Arrangement
  {
    Arrangement(Identity(n), Lefts(n))
  }

  /** The state after k steps from the identity with every flag LEFT. */
  function State(n: int, k: nat): (s: Arrangement)
    requires n >= 2
    ensures Shaped(s, n) && InRange(s.p, n)
  {
    if k == 0 then
      Initial(n)
    else
      var prev := State(n, k - 1);
      StepShaped(prev, n);
      Step(prev, n)
  }

  /** Every generated state is valid: a permutation of the cities with city 0 first, every flag LEFT or RIGHT. */
  lemma {:induction false} StateValid(n: int, k: nat)
    requires n >= 2
    ensures Valid(State(n, k), n)
  {
    if k == 0 {
      assert IsPermutation(Identity(n), n);
    } else {
      StateValid(n, k - 1);
      StepValid(State(n, k - 1), n);
    }
  }

  /** Each of the first `count` states has a mobile value, so none of the first `count` steps is stuck. */
  predicate NeverStuck(n: int, count: int)
    requires n >= 2
  {
    forall k :: 0 <= k < count ==> HasMobile(State(n, k), n)
  }

  /** Fill `p` with the identity and every flag of `d` with LEFT. */
  method InitArrangement(p: array<int>, d: array<int>, n: int)
    requires n >= 2 && p.Length == n && d.Length == n && p != d
    modifies p, d
    ensures Arrangement(p[..], d[..]) == Initial(n)
    ensures Arrangement(p[..], d[..]) == State(n, 0)
  {
    for i := 0 to n
      invariant p[..i] == Identity(n)[..i] && d[..i] == Lefts(n)[..i]
    {
      p[i] := i;
      d[i] := Left;
    }
    assert p[..] == p[..n] && d[..] == d[..n];
  }

  /** Scan positions 1..n-1 for the largest mobile value and its position. */
  method FindLargestMobile(p: array<int>, d: array<int>, n: int) returns (m: int, idx: int)
    requires p.Length == n && d.Length == n && Shaped(Arrangement(p[..], d[..]), n) && InRange(p[..], n)
    ensures (m, idx) == LargestMobile(Arrangement(p[..], d[..]), n)
    ensures m == 0 <==> !HasMobile(Arrangement(p[..], d[..]), n)
    ensures m != 0 ==> Mobile(Arrangement(p[..], d[..]), n, idx) && p[idx] == m
    ensures forall k :: Mobile(Arrangement(p[..], d[..]), n, k) ==> p[k] <= m
  {
    m, idx := ScanArrays(p, d, n);
    ScanFindsLargest(Arrangement(p[..], d[..]), n, n);
  }

  /** The scan loop itself: one pass from position 1 to n-1, keeping the largest mobile value seen. */
  method ScanArrays(p: array<int>, d: array<int>, n: int) returns (m: int, idx: int)
    requires p.Length == n && d.Length == n && Shaped(Arrangement(p[..], d[..]), n)
    ensures (m, idx) == Scan(Arrangement(p[..], d[..]), n, n)
  {
    ghost var s := Arrangement(p[..], d[..]);
    m, idx := 0, 0;
    for j := 1 to n
      invariant (m, idx) == Scan(s, n, j)
    {
      ghost var next := if Mobile(s, n, j) && s.p[j] > m then (s.p[j], j) else (m, idx);
      assert Scan(s, n, j + 1) == next;
      var dj := d[j];
      assert dj == s.d[j] && IsDirection(dj);
      if !(j == 1 && dj == Left) && !(j == n - 1 && dj == Right) {
        var pj, neighbour := p[j], p[j + dj];
        assert pj == s.p[j] && neighbour == s.p[j + s.d[j]];
        if pj > neighbour && pj > m {
          m := pj;
          idx := j;
        }
      }
    }
  }

  /** Exchange the entries at positions i and t of both arrays, so each flag stays with its value. */
  method SwapMobile(p: array<int>, d: array<int>, i: int, t: int)
    requires p.Length == d.Length && p != d && 0 <= i < p.Length && 0 <= t < p.Length
    modifies p, d
    ensures p[..] == Swap(old(p[..]), i, t) && d[..] == Swap(old(d[..]), i, t)
  {
    var temp := p[i];
    p[i] := p[t];
    p[t] := temp;

    temp := d[t];
    d[t] := d[i];
    d[i] := temp;
  }

  /** Reverse the flag of every position from 1 on whose value exceeds m. */
  method FlipLarger(p: array<int>, d: array<int>, m: int)
    requires p.Length == d.Length >= 1 && p != d && forall j :: 0 <= j < d.Length ==> IsDirection(d[j])
    modifies d
    ensures d[..] == FlipAbove(p[..], old(d[..]), m)
  {
    ghost var d0 := d[..];
    for j := 1 to d.Length
      invariant forall k :: 0 <= k < d.Length ==> d[k] == (if 1 <= k < j && p[k] > m then Flip(d0[k]) else d0[k])
    {
      if p[j] > m {
        d[j] := if d[j] == Left then Right else Left;
      }
    }
    assert d[..] == FlipAbove(p[..], d0, m);
  }

  /** Move the mobile value at position i in place: swap it and its flag with the neighbour it faces, then flip the larger values' flags. */
  method ApplyMove(p: array<int>, d: array<int>, n: int, i: int)
    requires p.Length == n && d.Length == n && p != d
    requires Shaped(Arrangement(p[..], d[..]), n) && Mobile(Arrangement(p[..], d[..]), n, i)
    modifies p, d
    ensures Arrangement(p[..], d[..]) == Move(old(Arrangement(p[..], d[..])), n, i)
  {
    ghost var s := Arrangement(p[..], d[..]);
    ghost var moved := Move(s, n, i);
    var m := p[i];
    var t := i + d[i];
    SwapMobile(p, d, i, t);
    assert p[..] == moved.p;
    ghost var swapped := d[..];
    assert swapped == Swap(s.d, i, t);
    FlipLarger(p, d, m);
    assert d[..] == moved.d;
  }

  /**
   * Advance the generator by one step in place: exchange the largest mobile
   * value with the neighbour it faces, move its flag with it, then reverse the
   * flag of every larger value.
   */
  method Advance(p: array<int>, d: array<int>, n: int)
    requires p.Length == n && d.Length == n && p != d
    requires Valid(Arrangement(p[..], d[..]), n) && HasMobile(Arrangement(p[..], d[..]), n)
    modifies p, d
    ensures Arrangement(p[..], d[..]) == Step(old(Arrangement(p[..], d[..])), n)
  {
    ghost var s := Arrangement(p[..], d[..]);
    var m, idx := FindLargestMobile(p, d, n);
    assert Step(s, n) == Move(s, n, idx);
    ApplyMove(p, d, n, idx);
  }
}

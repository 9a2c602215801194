/**
  The list utility `Arrays.RotateListRight`: rotate a list right, in place, by a
  possibly negative or oversized amount.

  The caller's `List<T>` is modelled as an `array?<T>`: a reference that may be
  null and whose elements the method overwrites. Rotation never changes the
  length, so a fixed-length array holds everything the list does here.
*/
module Arrays {
  import opened Errors

  // ---------------------------------------------------------------------------
  // Integer arithmetic: C#'s `%` and the mathematical residue
  // ---------------------------------------------------------------------------

  lemma MulNonNeg(n: int, d: int)
    requires n > 0 && d >= 0
    ensures n * d >= 0
  {}

  lemma MulAwayFromZero(n: int, d: int)
    requires n > 0 && d != 0
    ensures n * d >= n || n * d <= -n
  {
    if d > 0 {
      assert n * d == n * (d - 1) + n;
      MulNonNeg(n, d - 1);
    } else {
      assert n * d == -(n * (-d - 1)) - n;
      MulNonNeg(n, -d - 1);
    }
  }

  /** A residue in [0, n) that differs from `x` by a multiple of `n` is `x % n`. */
  lemma ModUnique(x: int, n: int, k: int, y: int)
    requires n > 0 && 0 <= y < n && x == n * k + y
    ensures x % n == y
  {
    var d := k - x / n;
    assert n * d == x % n - y;
    if d != 0 {
      MulAwayFromZero(n, d);
    }
  }

  /**
    C#'s `amount % n` for a positive divisor: the quotient is truncated toward
    zero, so the remainder is never larger than `n` in magnitude, has the sign
    of the dividend, and differs from it by a multiple of `n`.
  */
  function Remainder(a: int, n: int): (r: int)
    requires n > 0
    ensures -n < r < n
    ensures a >= 0 ==> r >= 0
    ensures a <= 0 ==> r <= 0
    ensures (a - r) % n == 0
  {
    if a >= 0 then
      ModUnique(a - a % n, n, a / n, 0);
      a % n
    else
      var m := (-a) % n;
      ModUnique(a + m, n, -((-a) / n), 0);
      -m
  }

  /**
    The shift that `RotateListRight` actually performs (Arrays.cs lines 65-66):
    C#'s remainder, with `n` added when it is negative. It is the mathematical
    residue of `amount` modulo `n`, for negative amounts too.
  */
  function NormalizedShift(amount: int, n: int): (r: int)
    requires n > 0
    ensures 0 <= r < n
    ensures r == amount % n
  {
    var t := Remainder(amount, n);
    var k := (amount - t) / n;
    assert amount - t == n * k;
    if t < 0 then
      ModUnique(amount, n, k - 1, t + n);
      t + n
    else
      ModUnique(amount, n, k, t);
      t
  }

  // ---------------------------------------------------------------------------
  // Specification of a right rotation, by index
  // ---------------------------------------------------------------------------

  /**
    `s` rotated right by `amount` places: position `i` of the result holds the
    element found `amount` places before it, counting around the end.
    Negative amounts rotate left.
  */
  function RotatedRight<T>(s: seq<T>, amount: int): (r: seq<T>)
    ensures |r| == |s|
  {
    seq(|s|, i requires 0 <= i < |s| => s[(i - amount) % |s|])
  }

  /** The element at index `j` moves to index `(j + amount) mod n`. */
  lemma RotatedRightMovesAt<T>(s: seq<T>, amount: int, j: int)
    requires 0 <= j < |s|
    ensures RotatedRight(s, amount)[(j + amount) % |s|] == s[j]
  {
    var n := |s|;
    var t := (j + amount) % n;
    var q := (j + amount) / n;
    assert t - amount == n * (-q) + j;
    ModUnique(t - amount, n, -q, j);
  }

  /** Every element moves `amount` places right, counting around the end. */
  lemma RotatedRightMoves<T>(s: seq<T>, amount: int)
    ensures forall j :: 0 <= j < |s| ==> RotatedRight(s, amount)[(j + amount) % |s|] == s[j]
  {
    forall j | 0 <= j < |s|
      ensures RotatedRight(s, amount)[(j + amount) % |s|] == s[j]
    {
      RotatedRightMovesAt(s, amount, j);
    }
  }

  /**
    For a non-empty list, the rotation is the last `amount mod n` elements
    followed by the rest: the split `RotateListRight` performs.
  */
  lemma RotatedRightSplit<T>(s: seq<T>, amount: int)
    requires |s| > 0
    ensures var k := |s| - amount % |s|; RotatedRight(s, amount) == s[k..] + s[..k]
  {
    var n := |s|;
    var r := amount % n;
    var k := n - r;
    var q := amount / n;
    assert amount == n * q + r;
    var rot := RotatedRight(s, amount);
    var cut := s[k..] + s[..k];
    forall i | 0 <= i < n
      ensures rot[i] == cut[i]
    {
      if i < r {
        ModUnique(i - amount, n, -q - 1, k + i);
      } else {
        ModUnique(i - amount, n, -q, i - r);
      }
    }
  }

  /** Rotation rearranges the elements: the result is a permutation of the input. */
  lemma RotatedRightPermutes<T>(s: seq<T>, amount: int)
    ensures multiset(RotatedRight(s, amount)) == multiset(s)
  {
    if |s| > 0 {
      var k := |s| - amount % |s|;
      RotatedRightSplit(s, amount);
      assert s == s[..k] + s[k..];
    }
  }

  /** A list of zero or one elements is unchanged by any rotation. */
  lemma RotatedRightShort<T>(s: seq<T>, amount: int)
    requires |s| <= 1
    ensures RotatedRight(s, amount) == s
  {
    if |s| == 1 {
      RotatedRightSplit(s, amount);
    }
  }

  /** Rotating by a multiple of the length leaves the list unchanged. */
  lemma RotatedRightFull<T>(s: seq<T>, amount: int)
    requires |s| > 0 && amount % |s| == 0
    ensures RotatedRight(s, amount) == s
  {
    RotatedRightSplit(s, amount);
  }

  /** Rotating right by `amount` and then by `-amount` restores the list. */
  lemma RotatedRightInverse<T>(s: seq<T>, amount: int)
    ensures RotatedRight(RotatedRight(s, amount), -amount) == s
  {
    var r := RotatedRight(s, amount);
    var back := RotatedRight(r, -amount);
    forall i | 0 <= i < |s|
      ensures back[i] == s[i]
    {
      RotatedRightMovesAt(s, amount, i);
    }
  }

  // ---------------------------------------------------------------------------
  // The in-place operation
  // ---------------------------------------------------------------------------

  /**
    Rotates `data` right by `amount` places, in place (Arrays.cs lines 52-76).
    A null list throws ArgumentNullException before anything changes; lists of
    zero or one element and shifts that are a multiple of the length return
    early; otherwise the tail of `amount mod n` elements is copied out with the
    head, and the list is refilled with the tail followed by the head.
  */
  method RotateListRight<T>(data: array?<T>, amount: int) returns (outcome: Outcome)
    modifies data
    ensures data == null ==> outcome == Fail(ArgumentNull("data"))
    ensures data != null ==> outcome == Pass && data[..] == RotatedRight(old(data[..]), amount)
  {
    if data == null {
      return Fail(ArgumentNull("data"));
    }
    var n := data.Length;
    if n <= 1 {
      RotatedRightShort(data[..], amount);
      return Pass;
    }
    var r := NormalizedShift(amount, n);
    if r == 0 {
      RotatedRightFull(data[..], amount);
      return Pass;
    }
    var split := n - r;
    var tail := data[split..];
    var head := data[..split];
    RotatedRightSplit(data[..], amount);
    Refill(data, tail, head);
    return Pass;
  }

  /**
    The list is cleared, then the tail and then the head are appended: the
    array, as long as the two slices together, ends up holding `tail` followed
    by `head`, the tail's elements written first.
  */
  method Refill<T>(data: array<T>, tail: seq<T>, head: seq<T>)
    requires data.Length == |tail| + |head|
    modifies data
    ensures data[..] == tail + head
  {
    var r := |tail|;
    var i := 0;
    while i < r
      invariant 0 <= i <= r
      invariant forall k :: 0 <= k < i ==> data[k] == tail[k]
    {
      data[i] := tail[i];
      i := i + 1;
    }
    var j := 0;
    while j < |head|
      invariant 0 <= j <= |head|
      invariant forall k :: 0 <= k < r ==> data[k] == tail[k]
      invariant forall k :: 0 <= k < j ==> data[r + k] == head[k]
    {
      data[r + j] := head[j];
      j := j + 1;
    }
    assert data[..] == tail + head;
  }
}

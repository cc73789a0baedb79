/**
  The in-place exchange of two adjacent blocks of the argument vector
  (`gcd` and `permute_args` in src/msim_getopt.c).

  With n non-options followed by m options, every slot p has to move to
  (p + m) mod (n + m).  The code follows that permutation cycle by cycle: there
  are gcd(n, m) cycles, each of length (n + m) / gcd(n, m).
 */
module PermuteArgs {
  import opened Arithmetic

  /** Euclid's algorithm, as a function. */
  function Gcd(a: nat, b: nat): (g: nat)
    requires b > 0
    ensures 0 < g <= b
    decreases b
  {
    if a % b == 0 then b else Gcd(b, a % b)
  }

  /** The loop of `gcd`. */
  method ComputeGcd(a: nat, b: nat) returns (g: nat)
    requires b > 0
    ensures g == Gcd(a, b)
  {
    var x, y := a, b;
    var c := x % y;
    while c != 0
      invariant y > 0 && c == x % y
      invariant Gcd(x, y) == Gcd(a, b)
      decreases c
    {
      x := y;
      y := c;
      c := x % y;
    }
    return y;
  }

  /** One step of the extended Euclidean algorithm. */
  lemma BezoutStep(g: int, b: int, c: int, d: int, p: int, q: int, u: int, v: int)
    requires b == g * p && c == g * q && u * b + v * c == g
    ensures b * d + c == g * (p * d + q)
    ensures v * (b * d + c) + (u - v * d) * b == g
  {
    MulAssociates(g, p, d);
    MulDistributes(g, p * d, q);
    MulDistributes(v, b * d, c);
    MulAssociates(v, d, b);
    MulDistributes(b, u, v * d);
  }

  /** Gcd(a, b) divides both numbers and is an integer combination of them. */
  lemma {:induction false} GcdBezout(a: nat, b: nat) returns (p: int, q: int, u: int, v: int)
    requires b > 0
    ensures a == Gcd(a, b) * p && b == Gcd(a, b) * q
    ensures u * a + v * b == Gcd(a, b)
    decreases b
  {
    var c, d := a % b, a / b;
    assert a == b * d + c;
    if c == 0 {
      p, q, u, v := d, 1, 0, 1;
    } else {
      var p', q', u', v' := GcdBezout(b, c);
      BezoutStep(Gcd(b, c), b, c, d, p', q', u', v');
      p, q, u, v := p' * d + q', p', v', u' - v' * d;
    }
  }

  /** Every common divisor d of a == d * x and b == d * y divides Gcd(a, b), which is therefore the greatest. */
  lemma GcdGreatest(a: nat, b: nat, d: nat, x: nat, y: nat)
    requires b > 0 && d > 0 && a == d * x && b == d * y
    ensures Gcd(a, b) % d == 0 && d <= Gcd(a, b)
  {
    var p, q, u, v := GcdBezout(a, b);
    MulAssociates(u, d, x);
    MulAssociates(v, d, y);
    MulDistributes(d, u * x, v * y);
    DivOfMultiple(d, u * x + v * y);
    var w := Gcd(a, b) / d;
    assert Gcd(a, b) == d * w;
    if d > Gcd(a, b) {
      SmallMultiple(d, w);
    }
  }

  /** Where the element in relative slot p belongs after the exchange. */
  function Dest(n: nat, m: nat, p: nat): (q: nat)
    requires p < n + m
    ensures q < n + m
  {
    if p >= n then p - n else p + m
  }

  /** The k-th slot visited by cycle i, which starts at relative slot n + i. */
  function Slot(n: nat, m: nat, i: nat, k: nat): (q: nat)
    requires i < m
    ensures q < n + m
  {
    if k == 0 then n + i else Dest(n, m, Slot(n, m, i, k - 1))
  }

  function CycleLength(n: nat, m: nat): (len: nat)
    requires m > 0
  {
    (n + m) / Gcd(n, m)
  }

  lemma SlotFirst(n: nat, m: nat, i: nat)
    requires i < m
    ensures Slot(n, m, i, 0) == n + i
  {
  }

  lemma SlotNext(n: nat, m: nat, i: nat, k: nat) returns (e: nat)
    requires i < m
    ensures Slot(n, m, i, k + 1) == Slot(n, m, i, k) + m - (n + m) * e
  {
    e := if Slot(n, m, i, k) >= n then 1 else 0;
  }

  /** Slot is n + i + k * m reduced modulo n + m. */
  lemma {:induction false} SlotForm(n: nat, m: nat, i: nat, k: nat) returns (t: int)
    requires i < m
    ensures Slot(n, m, i, k) == n + i + k * m - (n + m) * t
  {
    hide Slot;
    if k == 0 {
      SlotFirst(n, m, i);
      t := 0;
    } else {
      var t' := SlotForm(n, m, i, k - 1);
      var e := SlotNext(n, m, i, k - 1);
      t := t' + e;
      MulDistributes(m, k, 1);
      MulDistributes(n + m, t', e);
    }
  }

  /** gcd * length == total, and gcd is a combination of m and the total. */
  lemma CycleFacts(n: nat, m: nat) returns (q: int, u: int, v: int)
    requires m > 0
    ensures Gcd(n, m) * CycleLength(n, m) == n + m
    ensures 0 < CycleLength(n, m)
    ensures m == Gcd(n, m) * q
    ensures u * m + v * (n + m) == Gcd(n, m)
  {
    var g := Gcd(n, m);
    var p, q', u', v' := GcdBezout(n, m);
    q := q';
    MulDistributes(g, p, q);
    DivOfMultiple(g, p + q);
    u, v := v' - u', u';
    MulDistributes(m, v', u');
    MulDistributes(u', n, m);
  }

  /** k * m is a multiple of the total only if the cycle length divides k. */
  lemma LengthDivides(n: nat, m: nat, k: int, t: int) returns (w: int)
    requires m > 0 && k * m == (n + m) * t
    ensures k == CycleLength(n, m) * w
  {
    var g, len, total := Gcd(n, m), CycleLength(n, m), n + m;
    var q, u, v := CycleFacts(n, m);
    w := u * t + v * k;
    assert g * k == total * w by {
      MulDistributes(k, u * m, v * total);
      MulAssociates(u, m, k);
      MulAssociates(v, total, k);
      MulAssociates(u, total, t);
      MulDistributes(total, u * t, v * k);
    }
    MulAssociates(g, len, w);
    SameMultiple(g, k, len * w);
  }

  /** Two steps of a cycle reach the same slot exactly when they are equal modulo its length. */
  lemma CycleOrder(n: nat, m: nat, i: nat, k: nat, k': nat)
    requires m > 0 && i < m
    ensures Slot(n, m, i, k) == Slot(n, m, i, k') <==> (k - k') % CycleLength(n, m) == 0
  {
    hide Slot, Gcd, CycleLength;
    var len := CycleLength(n, m);
    var dt := StepsApart(n, m, i, k, i, k');
    var q, u, v := CycleFacts(n, m);
    if Slot(n, m, i, k) == Slot(n, m, i, k') {
      var w := LengthDivides(n, m, k - k', dt);
      DivOfMultiple(len, w);
    }
    if (k - k') % len == 0 {
      var w, r := DivMod(k - k', len);
      LengthTimes(Gcd(n, m), len, q, w);
      SameClassed(n + m, w * q, dt, Slot(n, m, i, k) - Slot(n, m, i, k'));
    }
  }

  /** How far apart the slots of two steps are. */
  lemma StepsApart(n: nat, m: nat, i: nat, k: nat, i': nat, k': nat) returns (dt: int)
    requires i < m && i' < m
    ensures Slot(n, m, i, k) - Slot(n, m, i', k') == i - i' + (k - k') * m - (n + m) * dt
  {
    hide Slot;
    var t := SlotForm(n, m, i, k);
    var t' := SlotForm(n, m, i', k');
    dt := t - t';
    MulDistributes(m, k, k');
    MulDistributes(n + m, t, t');
  }

  /** Slots that differ by a multiple of the total are the same. */
  lemma SameClassed(total: int, w: int, dt: int, d: int)
    requires total > 0 && d == total * w - total * dt && -total < d < total
    ensures d == 0
  {
    MulDistributes(total, w, dt);
    SmallMultiple(total, w - dt);
  }

  lemma LengthTimes(g: int, len: int, q: int, w: int)
    ensures (len * w) * (g * q) == (g * len) * (w * q)
  {
    MulAssociates(len, w, g * q);
    MulAssociates(w, g, q);
    MulAssociates(g, len, w * q);
    MulAssociates(g, w, q);
    MulAssociates(len, g, w * q);
  }

  /** Different (cycle, step) pairs name different slots. */
  lemma CyclesDisjoint(n: nat, m: nat, i: nat, k: nat, i': nat, k': nat)
    requires m > 0 && i < Gcd(n, m) && i' < Gcd(n, m)
    requires k < CycleLength(n, m) && k' < CycleLength(n, m)
    requires Slot(n, m, i, k) == Slot(n, m, i', k')
    ensures i == i' && k == k'
  {
    hide Slot, Gcd, CycleLength;
    var g, len := Gcd(n, m), CycleLength(n, m);
    var q, u, v := CycleFacts(n, m);
    var dt := StepsApart(n, m, i, k, i', k');
    SameClass(g, len, q, dt, k - k');
    SmallMultiple(g, len * dt - q * (k - k'));
    var w := LengthDivides(n, m, k - k', dt);
    SmallMultiple(len, w);
  }

  lemma SameClass(g: int, len: int, q: int, dt: int, dk: int)
    ensures (g * len) * dt - dk * (g * q) == g * (len * dt - q * dk)
  {
    MulAssociates(g, len, dt);
    MulAssociates(g, q, dk);
    MulDistributes(g, len * dt, q * dk);
  }

  /** With g == u * m + v * total, the step count k == u * e - len * w moves by g * e modulo total == g * len. */
  lemma StepsOfClass(g: int, len: int, m: int, q: int, u: int, v: int, e: int, w: int)
    requires m == g * q && u * m + v * (g * len) == g
    ensures (u * e - len * w) * m == g * e - (g * len) * (v * e + w * q)
  {
    var total := g * len;
    MulDistributes(m, u * e, len * w);
    MulAssociates(u, e, m);
    MulAssociates(u, m, e);
    assert (u * e) * m == (u * m) * e;
    MulDistributes(e, g, v * total);
    MulAssociates(v, total, e);
    assert (u * m) * e == g * e - total * (v * e);
    MulAssociates(len, w, g * q);
    MulAssociates(w, g, q);
    MulAssociates(len, g, w * q);
    assert (len * w) * m == total * (w * q);
    MulDistributes(total, v * e, w * q);
  }

  /** The step and cycle at which relative slot p is visited, up to a multiple w' of the total. */
  lemma CycleOfSlot(n: nat, m: nat, p: nat) returns (i: nat, k: nat, w': int)
    requires m > 0
    ensures i < Gcd(n, m) && k < CycleLength(n, m)
    ensures n + i + k * m == p - (n + m) * w'
  {
    var g, len := Gcd(n, m), CycleLength(n, m);
    var q, u, v := CycleFacts(n, m);
    var e, w: int;
    e, i := DivMod(p - n, g);
    w, k := DivMod(u * e, len);
    StepsOfClass(g, len, m, q, u, v, e, w);
    w' := v * e + w * q;
  }

  /** The cycles together visit every slot. */
  lemma CyclesCover(n: nat, m: nat, p: nat) returns (i: nat, k: nat)
    requires m > 0 && p < n + m
    ensures i < Gcd(n, m) && k < CycleLength(n, m)
    ensures Slot(n, m, i, k) == p
  {
    var w: int;
    i, k, w := CycleOfSlot(n, m, p);
    var t := SlotForm(n, m, i, k);
    MulDistributes(n + m, -w, t);
    MulDistributes(n + m, 0, w);
    SmallMultiple(n + m, -w - t);
  }

  /** After CycleLength steps a cycle is back at its start. */
  lemma CycleCloses(n: nat, m: nat, i: nat)
    requires m > 0 && i < Gcd(n, m)
    ensures Slot(n, m, i, CycleLength(n, m)) == Slot(n, m, i, 0)
  {
    var g, len, total := Gcd(n, m), CycleLength(n, m), n + m;
    var q, u, v := CycleFacts(n, m);
    var t := SlotForm(n, m, i, len);
    MulAssociates(len, g, q);
    MulAssociates(g, len, q);
    MulDistributes(total, q, t);
    SmallMultiple(total, q - t);
  }

  /** The vector with blocks [from, mid) and [mid, to) exchanged, each in its own order. */
  function Exchanged<T>(a: seq<T>, from: nat, mid: nat, to: nat): (b: seq<T>)
    requires from <= mid <= to <= |a|
    ensures |b| == |a|
  {
    a[..from] + a[mid..to] + a[from..mid] + a[to..]
  }

  /** Exchanging back restores the vector. */
  lemma ExchangeUndone<T>(a: seq<T>, from: nat, mid: nat, to: nat)
    requires from <= mid <= to <= |a|
    ensures Exchanged(Exchanged(a, from, mid, to), from, from + (to - mid), to) == a
  {
    var b := Exchanged(a, from, mid, to);
    var mid' := from + (to - mid);
    assert b[..from] == a[..from];
    assert b[from..mid'] == a[mid..to];
    assert b[mid'..to] == a[from..mid];
    assert b[to..] == a[to..];
    assert a == a[..from] + a[from..mid] + a[mid..to] + a[to..];
  }

  /**
    The k-th slot of cycle c after j steps of cycle i: final if the slot has been
    passed, untouched otherwise.
   */
  ghost predicate Holds<T>(b: seq<T>, a: seq<T>, from: nat, n: nat, m: nat, i: nat, j: nat, c: nat, k: nat)
    requires c < m && from + n + m <= |a| == |b|
  {
    var source := if !(c < i || (c == i && 0 < k <= j)) then k else if k == 0 then CycleLength(n, m) - 1 else k - 1;
    source >= 0 && b[from + Slot(n, m, c, k)] == a[from + Slot(n, m, c, source)]
  }

  ghost predicate SameOutside<T>(b: seq<T>, a: seq<T>, from: nat, to: nat)
  {
    |b| == |a| && forall p :: 0 <= p < |a| && !(from <= p < to) ==> b[p] == a[p]
  }

  /** The cycles below i are finished, the others not begun. */
  ghost predicate CyclesDone<T>(b: seq<T>, a: seq<T>, from: nat, n: nat, m: nat, i: nat)
    requires m > 0 && from + n + m <= |a|
  {
    && SameOutside(b, a, from, from + n + m)
    && forall c: nat, k: nat :: c < Gcd(n, m) && k < CycleLength(n, m) ==> Holds(b, a, from, n, m, i, 0, c, k)
  }

  /** After j steps of cycle i its start slot carries the element of slot j. */
  ghost predicate InCycle<T>(b: seq<T>, a: seq<T>, from: nat, n: nat, m: nat, i: nat, j: nat)
    requires m > 0 && from + n + m <= |a| && i < Gcd(n, m)
  {
    && SameOutside(b, a, from, from + n + m)
    && (forall c: nat, k: nat :: c < Gcd(n, m) && k < CycleLength(n, m) && !(c == i && k == 0) ==>
        Holds(b, a, from, n, m, i, j, c, k))
    && b[from + Slot(n, m, i, 0)] == a[from + Slot(n, m, i, j)]
  }

  function Swapped<T>(b: seq<T>, p: nat, q: nat): (b': seq<T>)
    requires p < |b| && q < |b|
    ensures |b'| == |b|
  {
    b[p := b[q]][q := b[p]]
  }

  lemma SlotSteps(n: nat, m: nat, i: nat, k: nat)
    requires i < m
    ensures Slot(n, m, i, 0) == n + i
    ensures Slot(n, m, i, k + 1) == Dest(n, m, Slot(n, m, i, k))
  {
  }

  lemma NoCycleDone<T>(a: seq<T>, from: nat, n: nat, m: nat)
    requires m > 0 && from + n + m <= |a|
    ensures CyclesDone(a, a, from, n, m, 0) && CycleLength(n, m) > 0
  {
    var q, u, v := CycleFacts(n, m);
  }

  /** Cycle i begins. */
  lemma CycleBegins<T>(b: seq<T>, a: seq<T>, from: nat, n: nat, m: nat, i: nat)
    requires m > 0 && from + n + m <= |a| && i < Gcd(n, m)
    requires CyclesDone(b, a, from, n, m, i)
    ensures InCycle(b, a, from, n, m, i, 0)
  {
    var q, u, v := CycleFacts(n, m);
    assert Holds(b, a, from, n, m, i, 0, i, 0);
  }

  /** What one swap of the inner loop, not the last of its cycle, does to slot (c, k). */
  lemma CycleStepAt<T>(b: seq<T>, a: seq<T>, from: nat, n: nat, m: nat, i: nat, j: nat, c: nat, k: nat)
    requires m > 0 && from + n + m <= |a| == |b| && i < Gcd(n, m) && c < Gcd(n, m)
    requires j + 1 < CycleLength(n, m) && k < CycleLength(n, m) && !(c == i && k == 0)
    requires Holds(b, a, from, n, m, i, j, c, k)
    requires b[from + Slot(n, m, i, 0)] == a[from + Slot(n, m, i, j)]
    ensures Holds(Swapped(b, from + Slot(n, m, i, j + 1), from + Slot(n, m, i, 0)), a, from, n, m, i, j + 1, c, k)
  {
    hide CycleLength, Gcd;
    if Slot(n, m, c, k) == Slot(n, m, i, 0) {
      CyclesDisjoint(n, m, c, k, i, 0);
    } else if Slot(n, m, c, k) == Slot(n, m, i, j + 1) {
      CyclesDisjoint(n, m, c, k, i, j + 1);
      hide Slot;
    } else {
      hide Slot;
    }
  }

  lemma CycleStep<T>(b: seq<T>, a: seq<T>, from: nat, n: nat, m: nat, i: nat, j: nat)
    requires m > 0 && from + n + m <= |a| && i < Gcd(n, m)
    requires j + 1 < CycleLength(n, m)
    requires InCycle(b, a, from, n, m, i, j)
    ensures InCycle(Swapped(b, from + Slot(n, m, i, j + 1), from + Slot(n, m, i, 0)), a, from, n, m, i, j + 1)
  {
    hide CycleLength, Gcd, Slot;
    var b' := Swapped(b, from + Slot(n, m, i, j + 1), from + Slot(n, m, i, 0));
    var j' := j + 1;
    forall c: nat, k: nat | c < Gcd(n, m) && k < CycleLength(n, m) && !(c == i && k == 0)
      ensures Holds(b', a, from, n, m, i, j', c, k)
    {
      CycleStepAt(b, a, from, n, m, i, j, c, k);
    }
    assert Holds(b, a, from, n, m, i, j, i, j');
  }

  /** The last swap of a cycle exchanges its start slot with itself and finishes the cycle. */
  lemma CycleEnds<T>(b: seq<T>, a: seq<T>, from: nat, n: nat, m: nat, i: nat)
    requires m > 0 && from + n + m <= |a| && i < Gcd(n, m)
    requires CycleLength(n, m) > 0 && InCycle(b, a, from, n, m, i, CycleLength(n, m) - 1)
    ensures CyclesDone(b, a, from, n, m, i + 1)
  {
    var len, i' := CycleLength(n, m), i + 1;
    forall c: nat, k: nat | c < Gcd(n, m) && k < len
      ensures Holds(b, a, from, n, m, i', 0, c, k)
    {
      if !(c == i && k == 0) {
        assert Holds(b, a, from, n, m, i, len - 1, c, k);
      }
    }
  }

  /** One swap of the inner loop. */
  lemma CycleSwap<T>(b: seq<T>, a: seq<T>, from: nat, n: nat, m: nat, i: nat, j: nat)
    requires m > 0 && from + n + m <= |a| && i < Gcd(n, m)
    requires j < CycleLength(n, m)
    requires InCycle(b, a, from, n, m, i, j)
    ensures
      var b' := Swapped(b, from + Slot(n, m, i, j + 1), from + Slot(n, m, i, 0));
      if j + 1 < CycleLength(n, m) then InCycle(b', a, from, n, m, i, j + 1) else CyclesDone(b', a, from, n, m, i + 1)
  {
    hide Gcd, CycleLength, Slot, Holds, CyclesDone;
    if j + 1 < CycleLength(n, m) {
      CycleStep(b, a, from, n, m, i, j);
    } else {
      CycleEnds(b, a, from, n, m, i);
      CycleCloses(n, m, i);
      assert Swapped(b, from + Slot(n, m, i, 0), from + Slot(n, m, i, 0)) == b;
    }
  }

  /** When all cycles are done, slot p holds the element whose destination is p. */
  lemma MovedFrom<T>(b: seq<T>, a: seq<T>, from: nat, n: nat, m: nat, p: nat) returns (p': nat)
    requires m > 0 && from + n + m <= |a| && p < n + m
    requires CyclesDone(b, a, from, n, m, Gcd(n, m))
    ensures p' < n + m && Dest(n, m, p') == p && b[from + p] == a[from + p']
  {
    var c, k := CyclesCover(n, m, p);
    assert Holds(b, a, from, n, m, Gcd(n, m), 0, c, k);
    CycleCloses(n, m, c);
    var k' := if k == 0 then CycleLength(n, m) else k;
    SlotSteps(n, m, c, k' - 1);
    p' := Slot(n, m, c, k' - 1);
  }

  lemma ExchangedAt<T>(a: seq<T>, from: nat, n: nat, m: nat, p: nat)
    requires from + n + m <= |a| && p < n + m
    ensures Exchanged(a, from, from + n, from + n + m)[from + Dest(n, m, p)] == a[from + p]
  {
    var head, ys, xs := a[..from], a[from + n..from + n + m], a[from..from + n];
    if p < n {
      assert (head + ys + xs + a[from + n + m..])[|head + ys| + p] == xs[p];
    } else {
      assert (head + ys + xs + a[from + n + m..])[|head| + (p - n)] == ys[p - n];
    }
  }

  /** When all cycles are done the blocks are exchanged. */
  lemma AllCyclesDone<T>(b: seq<T>, a: seq<T>, from: nat, n: nat, m: nat)
    requires m > 0 && from + n + m <= |a|
    requires CyclesDone(b, a, from, n, m, Gcd(n, m))
    ensures b == Exchanged(a, from, from + n, from + n + m)
  {
    var e := Exchanged(a, from, from + n, from + n + m);
    forall p | 0 <= p < |a|
      ensures b[p] == e[p]
    {
      if from <= p < from + n + m {
        var p' := MovedFrom(b, a, from, n, m, p - from);
        hide *;
        assert e[p] == a[from + p'] by {
          ExchangedAt(a, from, n, m, p');
        }
      } else {
        hide CycleLength, Gcd, Slot, Holds;
      }
    }
  }

  method SwapEntries<T>(nargv: array<T>, p: nat, q: nat)
    requires p < nargv.Length && q < nargv.Length
    modifies nargv
    ensures nargv[..] == Swapped(old(nargv[..]), p, q)
  {
    var swap := nargv[p];
    nargv[p] := nargv[q];
    nargv[q] := swap;
  }

  /** The inner loop of `permute_args`: cycle i is followed once around. */
  method FollowCycle<T>(nargv: array<T>, ghost a: seq<T>, from: nat, n: nat, m: nat, i: nat, cyclelen: nat)
    requires m > 0 && from + n + m <= nargv.Length == |a|
    requires i < Gcd(n, m) && cyclelen == CycleLength(n, m) > 0
    requires CyclesDone(nargv[..], a, from, n, m, i)
    modifies nargv
    ensures CyclesDone(nargv[..], a, from, n, m, i + 1)
  {
    hide Gcd, CycleLength, Slot, Holds, CyclesDone, InCycle, SameOutside, Swapped;
    CycleBegins(nargv[..], a, from, n, m, i);
    SlotSteps(n, m, i, 0);
    var mid := from + n;
    var cstart := mid + i;
    var pos := cstart;
    var j := 0;
    while j < cyclelen
      invariant 0 <= j <= cyclelen
      invariant pos == from + Slot(n, m, i, j)
      invariant if j < cyclelen then InCycle(nargv[..], a, from, n, m, i, j)
                else CyclesDone(nargv[..], a, from, n, m, i + 1)
    {
      ghost var b := nargv[..];
      SlotSteps(n, m, i, j);
      CycleSwap(b, a, from, n, m, i, j);
      if pos >= mid {
        pos := pos - n;
      } else {
        pos := pos + m;
      }
      SwapEntries(nargv, pos, cstart);
      j := j + 1;
    }
  }

  /**
    `permute_args`: n non-options at [from, mid) and at least one option at
    [mid, to) change places.
   */
  method Permute<T>(nargv: array<T>, from: nat, mid: nat, to: nat)
    requires from <= mid < to <= nargv.Length
    modifies nargv
    ensures nargv[..] == Exchanged(old(nargv[..]), from, mid, to)
  {
    var n, m := mid - from, to - mid;
    var ncycle := ComputeGcd(n, m);
    var cyclelen := (to - from) / ncycle;
    ghost var a := nargv[..];
    NoCycleDone(a, from, n, m);
    assert cyclelen == CycleLength(n, m);
    hide Gcd, CycleLength, CyclesDone;
    var i := 0;
    while i < ncycle
      invariant 0 <= i <= ncycle
      invariant CyclesDone(nargv[..], a, from, n, m, i)
    {
      FollowCycle(nargv, a, from, n, m, i, cyclelen);
      i := i + 1;
    }
    AllCyclesDone(nargv[..], a, from, n, m);
  }
}

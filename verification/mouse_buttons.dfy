/** Mouse buttons as a 64-bit set, and a mouse position relative to a
    rectangle (crates/gooey-core/src/events.rs). */
module GooeyMouseEvents {
  import opened Common

  /** `MouseButtons`: the 64 bits of its `u64`, least significant first;
      bit `n` is the `n`th button. */
  type MouseButtons = b: seq<bool> | |b| == 64 witness seq(64, i => false)

  /** Two to the `n`th. */
  function Pow2(n: nat): (r: nat)
    ensures r >= 1
  {
    if n == 0 then 1 else 2 * Pow2(n - 1)
  }

  /** Powers of two multiply by adding exponents. */
  lemma {:induction false} Pow2Add(a: nat, b: nat)
    ensures Pow2(a + b) == Pow2(a) * Pow2(b)
  {
    if a > 0 {
      Pow2Add(a - 1, b);
    }
  }

  /** The powers of two the `u64` buttons need. */
  lemma Pow2Values()
    ensures Pow2(2) == 4 && Pow2(3) == 8 && Pow2(20) == 0x10_0000 && Pow2(63) == 0x8000_0000_0000_0000
    ensures Pow2(64) == USIZE_MAX + 1
  {
    var p4 := Pow2(4);
    assert p4 == 16;
    Pow2Add(4, 4);
    var p8 := Pow2(8);
    assert p8 == 256;
    Pow2Add(8, 8);
    var p16 := Pow2(16);
    assert p16 == 0x1_0000;
    Pow2Add(16, 4);
    Pow2Add(16, 16);
    var p32 := Pow2(32);
    assert p32 == 0x1_0000_0000;
    Pow2Add(32, 31);
    Pow2Add(16, 15);
    Pow2Add(8, 7);
    Pow2Add(4, 3);
    Pow2Add(32, 32);
  }

  /** The number whose binary digits, least significant first, are `b`. */
  function ValueOf(b: seq<bool>): nat
  {
    if |b| == 0 then 0 else (if b[0] then 1 else 0) + 2 * ValueOf(b[1..])
  }

  /** The lowest `k` binary digits of `v`, least significant first. */
  function DigitsOf(v: nat, k: nat): (b: seq<bool>)
    ensures |b| == k
  {
    if k == 0 then [] else [v % 2 == 1] + DigitsOf(v / 2, k - 1)
  }

  /** The digits of a sequence's number are the sequence. */
  lemma {:induction false} DigitsOfValue(b: seq<bool>)
    ensures DigitsOf(ValueOf(b), |b|) == b
  {
    if |b| > 0 {
      DigitsOfValue(b[1..]);
      var c := DigitsOf(ValueOf(b), |b|);
      assert c[1..] == DigitsOf(ValueOf(b[1..]), |b| - 1);
    }
  }

  /** `MouseButtons::multiple`: the buttons of the given bits. */
  function Multiple(bits: nat): (r: MouseButtons)
    requires bits <= USIZE_MAX
  {
    DigitsOf(bits, 64)
  }

  /** A number of `k` binary digits is below `2^k`. */
  lemma {:induction false} ValueBelowPow2(b: seq<bool>)
    ensures ValueOf(b) < Pow2(|b|)
  {
    if |b| > 0 {
      ValueBelowPow2(b[1..]);
    }
  }

  /** Sixty-four buttons make a `u64`. */
  lemma ValueFitsU64(b: MouseButtons)
    ensures ValueOf(b) <= USIZE_MAX
  {
    ValueBelowPow2(b);
    Pow2Values();
  }

  /** Every set of buttons is `multiple` of its own number. */
  lemma MultipleOfValue(b: MouseButtons)
    ensures ValueOf(b) <= USIZE_MAX && Multiple(ValueOf(b)) == b
  {
    ValueFitsU64(b);
    DigitsOfValue(b);
  }

  /** `MouseButtons::single`: only the `n`th button, the value `1 << n`. It
      panics for `n >= 64`. */
  function Single(n: nat): (r: MouseButtons)
    requires n < 64
  {
    seq(64, i => i == n)
  }

  /** `BitOr`, bit by bit. */
  function Or(a: MouseButtons, b: MouseButtons): (r: MouseButtons)
  {
    seq(64, i requires 0 <= i < 64 => a[i] || b[i])
  }

  /** `BitAnd`, bit by bit. */
  function And(a: MouseButtons, b: MouseButtons): (r: MouseButtons)
  {
    seq(64, i requires 0 <= i < 64 => a[i] && b[i])
  }

  /** `MouseButtons::any`: the number is above zero. */
  predicate Any(b: MouseButtons)
  {
    ValueOf(b) > 0
  }

  /** A number is above zero exactly when one of its digits is set. */
  lemma {:induction false} ValueAboveZero(b: seq<bool>)
    ensures ValueOf(b) > 0 <==> exists i :: 0 <= i < |b| && b[i]
  {
    if |b| > 0 {
      ValueAboveZero(b[1..]);
      if exists i :: 0 <= i < |b| - 1 && b[1..][i] {
        var i :| 0 <= i < |b| - 1 && b[1..][i];
        assert b[i + 1];
      }
      if exists i :: 0 <= i < |b| && b[i] {
        var i :| 0 <= i < |b| && b[i];
        if i > 0 {
          assert b[1..][i - 1];
        }
      }
    }
  }

  /** `single(n)` is the number `2^n`, as `1 << n` is. */
  lemma {:induction false} SingleIsPow2(n: nat)
    requires n < 64
    ensures ValueOf(Single(n)) == Pow2(n)
  {
    SingleValue(n, 0, 64);
    assert Single(n)[0..64] == Single(n);
  }

  /** The digits `lo` to `hi` of `single(n)` make `2^(n - lo)` when `lo <= n`,
      and nothing when `n < lo`. */
  lemma {:induction false} SingleValue(n: nat, lo: nat, hi: nat)
    requires n < 64 && lo <= hi <= 64
    ensures ValueOf(Single(n)[lo..hi]) == if lo <= n < hi then Pow2(n - lo) else 0
    decreases hi - lo
  {
    var s := Single(n)[lo..hi];
    if lo < hi {
      SingleValue(n, lo + 1, hi);
      assert s[1..] == Single(n)[lo + 1..hi];
    }
  }

  /** `MouseButtons::nth`: whether the `n`th button is pressed. */
  predicate Nth(b: MouseButtons, n: nat)
    requires n < 64
  {
    Any(And(b, Single(n)))
  }

  /** `nth(n)` tests exactly bit `n`. */
  lemma NthIsBit(b: MouseButtons, n: nat)
    requires n < 64
    ensures Nth(b, n) <==> b[n]
  {
    var m := And(b, Single(n));
    ValueAboveZero(m);
    if b[n] {
      assert m[n];
    }
  }

  /** `MouseButtons::with`: `self | single(n)`. */
  function With(b: MouseButtons, n: nat): (r: MouseButtons)
    requires n < 64
    ensures r[n]
  {
    Or(b, Single(n))
  }

  /** Some button is pressed exactly when one of the 64 is. */
  lemma AnyIsSomeNth(b: MouseButtons)
    ensures Any(b) <==> exists i :: 0 <= i < 64 && b[i]
  {
    ValueAboveZero(b);
  }

  /** `with(n)` presses the `n`th button and leaves every other button as it
      was. */
  lemma WithPressesOne(b: MouseButtons, n: nat, i: nat)
    requires n < 64 && i < 64
    ensures Nth(With(b, n), i) <==> i == n || Nth(b, i)
  {
    NthIsBit(With(b, n), i);
    NthIsBit(b, i);
  }

  /** The named buttons: left, right, middle, back and forward are bits 0
      to 4, in that order (the constants; the doc comments of `multiple` and
      `single` list middle before right). */
  const Left: MouseButtons := Single(0)
  const Right: MouseButtons := Single(1)
  const Middle: MouseButtons := Single(2)
  const Back: MouseButtons := Single(3)
  const Forward: MouseButtons := Single(4)

  /** Setting a clear digit `n` adds `2^n` to the number. */
  lemma {:induction false} SetDigitAdds(b: seq<bool>, n: nat)
    requires n < |b| && !b[n]
    ensures ValueOf(b[n := true]) == ValueOf(b) + Pow2(n)
  {
    if n > 0 {
      SetDigitAdds(b[1..], n - 1);
      assert b[n := true][1..] == b[1..][n - 1 := true];
    }
  }

  /** Adding a button that is not pressed adds `2^n` to the number. */
  lemma WithAdds(b: MouseButtons, n: nat)
    requires n < 64 && !b[n]
    ensures ValueOf(With(b, n)) == ValueOf(b) + Pow2(n)
  {
    assert With(b, n) == b[n := true];
    SetDigitAdds(b, n);
  }

  /** The accessors `left`, `right`, `middle`, `back` and `forward` test
      bits 0 to 4. */
  lemma NamedButtonsAreBits(b: MouseButtons)
    ensures Any(And(b, Left)) <==> b[0]
    ensures Any(And(b, Right)) <==> b[1]
    ensures Any(And(b, Middle)) <==> b[2]
    ensures Any(And(b, Back)) <==> b[3]
    ensures Any(And(b, Forward)) <==> b[4]
  {
    NthIsBit(b, 0);
    NthIsBit(b, 1);
    NthIsBit(b, 2);
    NthIsBit(b, 3);
    NthIsBit(b, 4);
  }

  /** Four distinct buttons make the sum of their powers of two. */
  lemma FourButtons(a: nat, b: nat, c: nat, d: nat)
    requires a < 64 && b < 64 && c < 64 && d < 64
    requires a != b && a != c && a != d && b != c && b != d && c != d
    ensures ValueOf(With(With(With(Single(a), b), c), d)) == Pow2(a) + Pow2(b) + Pow2(c) + Pow2(d)
  {
    var b1 := Single(a);
    var b2 := With(b1, b);
    var b3 := With(b2, c);
    assert !b1[b] && !b1[c] && !b1[d];
    assert !b2[c] && !b2[d];
    assert !b3[d];
    SingleIsPow2(a);
    WithAdds(b1, b);
    WithAdds(b2, c);
    WithAdds(b3, d);
  }

  /** The `construction` test: buttons 2, 3, 20 and 63 make the number
      with those four bits set, and are `multiple` of that number. */
  lemma ConstructionTest()
    ensures var b := With(With(With(Single(2), 3), 20), 63);
      ValueOf(b) == 0x8000_0000_0010_000C && Multiple(ValueOf(b)) == b
  {
    FourButtons(2, 3, 20, 63);
    Pow2Values();
    MultipleOfValue(With(With(With(Single(2), 3), 20), 63));
  }

  /** The `left` test: the left button is pressed, the right one not, and
      `LEFT` is `single(0)`, the number 1. */
  lemma LeftTest()
    ensures Nth(Left, 0) && Any(Left) && !Nth(Left, 1)
    ensures ValueOf(Left) == 1 && Multiple(ValueOf(Left)) == Left
  {
    NthIsBit(Left, 0);
    NthIsBit(Left, 1);
    AnyIsSomeNth(Left);
    SingleIsPow2(0);
    MultipleOfValue(Left);
  }

  /** A point. */
  datatype Point = Point(x: int, y: int)

  /** A rectangle: origin and size. */
  datatype Rect = Rect(origin: Point, width: int, height: int)

  /** `MouseEvent::relative`: the position relative to the rectangle's
      origin, when there is a position and it lies in the rectangle, whose
      right and bottom edges are excluded. */
  function Relative(position: Option<Point>, parent: Rect): (r: Option<Point>)
    ensures r.Some? <==> (position.Some?
      && parent.origin.x <= position.value.x < parent.origin.x + parent.width
      && parent.origin.y <= position.value.y < parent.origin.y + parent.height)
    ensures r.Some? ==> (r.value.x + parent.origin.x == position.value.x
                         && r.value.y + parent.origin.y == position.value.y)
  {
    match position
    case None => None
    case Some(pos) =>
      var relative := Point(pos.x - parent.origin.x, pos.y - parent.origin.y);
      if 0 <= relative.x && 0 <= relative.y && relative.x < parent.width && relative.y < parent.height then
        Some(relative)
      else None
  }
}

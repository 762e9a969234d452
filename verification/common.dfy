/** Shared vocabulary: optional values, results and the fixed-width unsigned
    integers (`u32`, `usize`, `u64`) that the toolkit computes with. */
module Common {

  datatype Option<T> = None | Some(value: T)

  datatype Result<T, E> = Ok(value: T) | Err(error: E)

  const U8_MAX: nat := 0xFF
  const U32_MAX: nat := 0xFFFF_FFFF
  /** `usize` is taken to be 64 bits wide. */
  const USIZE_MAX: nat := 0xFFFF_FFFF_FFFF_FFFF

  type U8 = x: nat | x <= U8_MAX
  type U32 = x: nat | x <= U32_MAX
  type Usize = x: nat | x <= USIZE_MAX
  type U64 = Usize

  /** Unsigned pixels (`UPx`) wrap a `u32`. */
  type UPx = U32

  /** `char::is_control`: the Unicode control characters U+0000 to U+001F
      and U+007F to U+009F. */
  predicate IsControl(ch: char)
  {
    ch as int < 0x20 || (0x7F <= ch as int <= 0x9F)
  }

  function Min(a: int, b: int): int { if a <= b then a else b }
  function Max(a: int, b: int): int { if a >= b then a else b }

  /** `u32::saturating_add`: the sum, or `u32::MAX` once it would overflow. */
  function SatAdd(a: U32, b: U32): (r: U32)
    ensures r <= a + b && a <= r && b <= r
    ensures r < U32_MAX ==> r == a + b
  {
    Min(a + b, U32_MAX)
  }

  /** Unsigned `saturating_sub`: the difference, or zero once it would underflow. */
  function SatSub(a: nat, b: nat): (r: nat)
    ensures r <= a
    ensures r > 0 ==> r + b == a
    ensures a >= b ==> r + b == a
  {
    if a >= b then a - b else 0
  }

  /** `usize::saturating_add`. */
  function SatAddUsize(a: Usize, b: Usize): (r: Usize)
    ensures r <= a + b && a <= r && b <= r
    ensures r < USIZE_MAX ==> r == a + b
  {
    Min(a + b, USIZE_MAX)
  }

  /** No entry occurs twice. */
  predicate Distinct<T(==)>(s: seq<T>)
  {
    forall i, j :: 0 <= i < j < |s| ==> s[i] != s[j]
  }

  /** Inserting an entry that is not there keeps the entries distinct. */
  lemma InsertKeepsDistinct<T>(names: seq<T>, index: nat, name: T)
    requires index <= |names| && name !in names && Distinct(names)
    ensures Distinct(names[..index] + [name] + names[index..])
  {
    var names' := names[..index] + [name] + names[index..];
    forall i, j | 0 <= i < j < |names'|
      ensures names'[i] != names'[j]
    {
      if j < index {
        assert names'[i] == names[i] && names'[j] == names[j];
      } else if j == index {
        assert names'[i] == names[i];
      } else if i < index {
        assert names'[i] == names[i] && names'[j] == names[j - 1];
      } else if i == index {
        assert names'[j] == names[j - 1];
      } else {
        assert names'[i] == names[i - 1] && names'[j] == names[j - 1];
      }
    }
  }

  /** Swapping two positions keeps a list without repeats so. */
  lemma SwapKeepsDistinct<T>(s: seq<T>, i: nat, j: nat)
    requires i < j < |s| && Distinct(s)
    ensures Distinct(s[i := s[j]][j := s[i]])
  {
    var r := s[i := s[j]][j := s[i]];
    forall a, b | 0 <= a < b < |r|
      ensures r[a] != r[b]
    {
      var a' := if a == i then j else if a == j then i else a;
      var b' := if b == i then j else if b == j then i else b;
      assert r[a] == s[a'] && r[b] == s[b'] && a' != b';
    }
  }

  /** Removing a position keeps a list without repeats so, and the
      removed entry is no longer there. */
  lemma RemoveKeepsDistinct<T>(s: seq<T>, i: nat)
    requires i < |s| && Distinct(s)
    ensures Distinct(s[..i] + s[i + 1..]) && s[i] !in s[..i] + s[i + 1..]
  {
    var r := s[..i] + s[i + 1..];
    forall a, b | 0 <= a < b < |r|
      ensures r[a] != r[b]
    {
      var a' := if a < i then a else a + 1;
      var b' := if b < i then b else b + 1;
      assert r[a] == s[a'] && r[b] == s[b'] && a' < b';
    }
    forall a | 0 <= a < |r|
      ensures r[a] != s[i]
    {
      var a' := if a < i then a else a + 1;
      assert r[a] == s[a'] && a' != i;
    }
  }

  /** Sum of a sequence of naturals. */
  function Sum(s: seq<nat>): nat
  {
    if s == [] then 0 else Sum(s[..|s| - 1]) + s[|s| - 1]
  }

  lemma {:induction false} SumAppend(s: seq<nat>, t: seq<nat>)
    ensures Sum(s + t) == Sum(s) + Sum(t)
  {
    if t == [] {
      assert s + t == s;
    } else {
      assert (s + t)[..|s + t| - 1] == s + t[..|t| - 1];
      SumAppend(s, t[..|t| - 1]);
    }
  }

  /** The sum of a first element before the others. */
  lemma SumCons(h: nat, rest: seq<nat>)
    ensures Sum([h] + rest) == h + Sum(rest)
  {
    SumAppend([h], rest);
    assert Sum([h]) == h;
  }

  /** `n` shares of `s` and one more. */
  lemma MulSucc(s: nat, n: nat)
    ensures s * n + s == s * (n + 1)
  {
  }

  /** Integer division rounds down. */
  lemma DivTimes(a: nat, k: nat)
    requires k > 0
    ensures (a / k) * k <= a
  {
  }

  /** No element exceeds the sum. */
  lemma {:induction false} ElementAtMostSum(s: seq<nat>, k: nat)
    requires k < |s|
    ensures s[k] <= Sum(s)
  {
    if k < |s| - 1 {
      ElementAtMostSum(s[..|s| - 1], k);
    }
  }

  /** Concatenation is associative; stated once so that proofs about
      sequences built by recursive functions need not rediscover it. */
  lemma AppendAssoc<T>(x: seq<T>, y: seq<T>, z: seq<T>)
    ensures (x + y) + z == x + (y + z)
  {
  }

  /** A non-empty sequence is its front followed by its last element. */
  lemma InitLast<T>(s: seq<T>)
    requires s != []
    ensures s[..|s| - 1] + [s[|s| - 1]] == s
  {
  }

  /** The character for decimal digit `d`. */
  function DigitChar(d: nat): (c: char)
    requires d < 10
    ensures '0' <= c <= '9' && c as int - '0' as int == d
  {
    (d + '0' as int) as char
  }

  /** The decimal digits of `n`, most significant first, as `format!` writes
      them. */
  function NatDigits(n: nat): (s: string)
    ensures |s| >= 1
  {
    if n < 10 then [DigitChar(n)] else NatDigits(n / 10) + [DigitChar(n % 10)]
  }

  /** The number a string of decimal digits spells. */
  function ParseNat(s: string): nat
  {
    if |s| == 0 then 0
    else
      var c := s[|s| - 1];
      ParseNat(s[..|s| - 1]) * 10 + (if '0' <= c <= '9' then c as int - '0' as int else 0)
  }

  /** The digits are decimal digits, without a leading zero, and spell the
      number back. */
  lemma {:induction false} NatDigitsRoundTrip(n: nat)
    ensures forall i :: 0 <= i < |NatDigits(n)| ==> '0' <= NatDigits(n)[i] <= '9'
    ensures |NatDigits(n)| > 1 ==> NatDigits(n)[0] != '0'
    ensures ParseNat(NatDigits(n)) == n
  {
    if n >= 10 {
      NatDigitsRoundTrip(n / 10);
      var s := NatDigits(n);
      assert s[..|s| - 1] == NatDigits(n / 10);
    }
  }
}

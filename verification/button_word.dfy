/**
 The numeric value of the `ButtonStates` word. The translator writes the
 word with `|= 1 << k` (press) and `&= ~(1 << k)` (release); in terms of the
 32 entries of a `ButtonMask` these set or clear entry `k`. This module ties
 the two views together: the word is the sum of `2^k` over the pressed
 entries, entry `k` is bit `k` of that number, writing entry `k` changes
 bit `k` and no other, a press adds `2^k` exactly when bit `k` was clear, a
 release takes it away exactly when bit `k` was set, and the word always
 fits in 32 bits.
 */
module ButtonWord {
  import opened SdlController

  function Pow2(k: nat): nat
  {
    if k == 0 then 1 else 2 * Pow2(k - 1)
  }

  /** Contribution of entry `k` to the word. */
  function BitValue(m: ButtonMask, k: nat): nat
    requires k < Width
  {
    if m[k] then Pow2(k) else 0
  }

  /** Sum of the contributions of entries `i..31`. */
  function WordFrom(m: ButtonMask, i: nat): nat
    requires i <= Width
    decreases Width - i
  {
    if i == Width then 0 else BitValue(m, i) + WordFrom(m, i + 1)
  }

  /** The unsigned 32-bit value of the button word. */
  function Word(m: ButtonMask): nat
  {
    WordFrom(m, 0)
  }

  /** Entries `i..31` contribute less than `2^32 - 2^i`. */
  lemma {:induction false} WordFromBound(m: ButtonMask, i: nat)
    requires i <= Width
    ensures WordFrom(m, i) + Pow2(i) <= Pow2(Width)
    decreases Width - i
  {
    if i < Width {
      WordFromBound(m, i + 1);
    }
  }

  /** The word is an unsigned 32-bit value. */
  lemma WordFits(m: ButtonMask)
    ensures Word(m) < Pow2(Width)
  {
    WordFromBound(m, 0);
  }

  lemma {:induction false} Pow2Positive(k: nat)
    ensures Pow2(k) > 0
  {
    if k > 0 {
      Pow2Positive(k - 1);
    }
  }

  /** Sum of the contributions of entries `0..k-1`. */
  function LowSum(m: ButtonMask, k: nat): nat
    requires k <= Width
  {
    if k == 0 then 0 else LowSum(m, k - 1) + BitValue(m, k - 1)
  }

  /** Entries below `k` contribute less than `2^k`. */
  lemma {:induction false} LowSumBound(m: ButtonMask, k: nat)
    requires k <= Width
    ensures LowSum(m, k) < Pow2(k)
  {
    if k > 0 {
      LowSumBound(m, k - 1);
    }
  }

  /** The word splits at any position into the entries below and above it. */
  lemma {:induction false} WordSplit(m: ButtonMask, k: nat)
    requires k <= Width
    ensures Word(m) == LowSum(m, k) + WordFrom(m, k)
  {
    if k > 0 {
      WordSplit(m, k - 1);
    }
  }

  /** Entries `i..31` read as a binary number with entry `i` as its units digit. */
  function Digits(m: ButtonMask, i: nat): nat
    requires i <= Width
    decreases Width - i
  {
    if i == Width then 0 else (if m[i] then 1 else 0) + 2 * Digits(m, i + 1)
  }

  /** Entries `i..31` contribute `2^i` times their binary number. */
  lemma {:induction false} WordFromDigits(m: ButtonMask, i: nat)
    requires i <= Width
    ensures WordFrom(m, i) == Pow2(i) * Digits(m, i)
    decreases Width - i
  {
    if i < Width {
      WordFromDigits(m, i + 1);
      var b := if m[i] then 1 else 0;
      var d := Digits(m, i + 1);
      assert BitValue(m, i) == Pow2(i) * b;
      MulTwice(Pow2(i), d);
      MulDistrib(Pow2(i), b, 2 * d);
    }
  }

  lemma MulDistrib(a: int, b: int, c: int)
    ensures a * (b + c) == a * b + a * c
  {
  }

  lemma MulTwice(a: int, d: int)
    ensures (2 * a) * d == a * (2 * d)
  {
  }

  lemma {:induction false} MulAtLeast(p: nat, d: nat)
    requires p > 0 && d >= 1
    ensures p * d >= p
    decreases d
  {
    if d > 1 {
      MulAtLeast(p, d - 1);
      MulDistrib(p, d - 1, 1);
    }
  }

  /** Euclidean division has one quotient and one remainder. */
  lemma DivUnique(x: int, p: int, q: int, r: int)
    requires p > 0 && 0 <= r < p && x == p * q + r
    ensures x / p == q && x % p == r
  {
    var q', r' := x / p, x % p;
    assert x == p * q' + r';
    MulDistrib(p, q - q', q');
    assert p * (q - q') == r' - r;
    if q > q' {
      MulAtLeast(p, q - q');
      assert false;
    } else if q < q' {
      MulDistrib(p, q' - q, q);
      MulAtLeast(p, q' - q);
      assert false;
    }
  }

  /** Entry `k` is bit `k` of the word: this is what `IsButtonPressed`
      reads with `ButtonStates & (1 << k)`. */
  lemma WordBit(m: ButtonMask, k: nat)
    requires k < Width
    ensures Pow2(k) > 0
    ensures (Word(m) / Pow2(k)) % 2 == if m[k] then 1 else 0
  {
    Pow2Positive(k);
    WordSplit(m, k);
    LowSumBound(m, k);
    WordFromDigits(m, k);
    DivUnique(Word(m), Pow2(k), Digits(m, k), LowSum(m, k));
    var b := if m[k] then 1 else 0;
    DivUnique(Digits(m, k), 2, Digits(m, k + 1), b);
  }

  /** Writing entry `k` of the word changes bit `k` of its number and no
      other bit: a press is `| (1 << k)` and a release is `& ~(1 << k)`
      bit by bit. */
  lemma UpdateBits(m: ButtonMask, k: nat, b: bool, j: nat)
    requires k < Width && j < Width
    ensures Pow2(j) > 0
    ensures (Word(m[k := b]) / Pow2(j)) % 2 ==
      if j == k then (if b then 1 else 0) else (Word(m) / Pow2(j)) % 2
  {
    WordBit(m[k := b], j);
    WordBit(m, j);
  }

  /** Writing entry `k` changes the sum of entries `i..31` by exactly the
      change of entry `k`'s contribution, when `k` is among them. */
  lemma {:induction false} WordFromUpdate(m: ButtonMask, i: nat, k: nat, b: bool)
    requires i <= k < Width
    ensures WordFrom(m[k := b], i) + BitValue(m, k) == WordFrom(m, i) + BitValue(m[k := b], k)
    decreases Width - i
  {
    var m': ButtonMask := m[k := b];
    if i < k {
      WordFromUpdate(m, i + 1, k, b);
      assert BitValue(m', i) == BitValue(m, i);
    } else {
      WordFromUnchanged(m, m', i + 1);
    }
  }

  /** Sums of entries that agree are equal. */
  lemma {:induction false} WordFromUnchanged(m: ButtonMask, m': ButtonMask, i: nat)
    requires i <= Width
    requires forall j :: i <= j < Width ==> m[j] == m'[j]
    ensures WordFrom(m, i) == WordFrom(m', i)
    decreases Width - i
  {
    if i < Width {
      WordFromUnchanged(m, m', i + 1);
      assert BitValue(m, i) == BitValue(m', i);
    }
  }

  /** `ButtonStates |= 1 << k`: the word gains `2^k` when bit `k` was clear
      and is unchanged when it was already set. */
  lemma PressIsOr(m: ButtonMask, k: nat)
    requires k < Width
    ensures Word(m[k := true]) == if m[k] then Word(m) else Word(m) + Pow2(k)
  {
    WordFromUpdate(m, 0, k, true);
  }

  /** `ButtonStates &= ~(1 << k)`: the word loses `2^k` when bit `k` was set
      and is unchanged when it was already clear. */
  lemma ReleaseIsAndNot(m: ButtonMask, k: nat)
    requires k < Width
    ensures Word(m[k := false]) == if m[k] then Word(m) - Pow2(k) else Word(m)
  {
    WordFromUpdate(m, 0, k, false);
  }

  /** The button handler's update of the word, in numeric terms. */
  lemma HandleButtonWord(c: Controller, button: nat, pressed: bool)
    requires ButtonDefined(c, button)
    ensures var r := HandleButton(c, button, pressed);
      var before := Word(c.event.buttonStates);
      var after := Word(r.state.event.buttonStates);
      && (!r.ok ==> after == before)
      && (r.ok && pressed ==>
            after == if c.event.buttonStates[button] then before else before + Pow2(button))
      && (r.ok && !pressed ==>
            after == if c.event.buttonStates[button] then before - Pow2(button) else before)
  {
    if button <= c.buttonCount {
      if pressed {
        PressIsOr(c.event.buttonStates, button);
      } else {
        ReleaseIsAndNot(c.event.buttonStates, button);
      }
    }
  }
}

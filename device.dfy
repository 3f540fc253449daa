/**
 * Mouse buttons and the mouse-button bit set, as both device.rs snapshots
 * define them: every button is one bit of a 32-bit word, a set of buttons is
 * the OR of their bits.
 */
module Device {
  import opened Common

  datatype ButtonState = Pressed | Released

  // ---------------------------------------------------------------------
  // Bits of a 32-bit word
  // ---------------------------------------------------------------------

  /** A bit position of a `u32`. */
  type BitIndex = i: bv32 | i < 32

  function BitAt(i: BitIndex): bv32 {
    1 << i
  }

  predicate HasBit(bits: bv32, i: BitIndex) {
    (bits >> i) & 1 != 0
  }

  /** The bits below position `k`. */
  function LowMask(k: bv32): bv32
    requires k <= 32
  {
    if k == 32 then 0xffff_ffff else (1 << k) - 1
  }

  lemma MaskStep(k: bv32)
    requires 0 < k <= 32
    ensures LowMask(k) == LowMask(k - 1) | BitAt(k - 1)
  {
  }

  lemma ClearStep(x: bv32, k: bv32)
    requires 0 < k <= 32
    requires x & LowMask(k - 1) == 0
    requires !HasBit(x, k - 1)
    ensures x & LowMask(k) == 0
  {
    MaskStep(k);
  }

  lemma {:induction false} ClearBelow(x: bv32, k: bv32)
    requires k <= 32
    requires forall i: BitIndex :: i < k ==> !HasBit(x, i)
    ensures x & LowMask(k) == 0
    decreases k
  {
    if k > 0 {
      ClearBelow(x, k - 1);
      ClearStep(x, k);
    }
  }

  /** A word is zero exactly when none of its 32 bits is set. */
  lemma ZeroIffNoBit(x: bv32)
    ensures x == 0 <==> forall i: BitIndex :: !HasBit(x, i)
  {
    if forall i: BitIndex :: !HasBit(x, i) {
      ClearBelow(x, 32);
    }
  }

  lemma XorBit(x: bv32, y: bv32, i: BitIndex)
    ensures HasBit(x ^ y, i) <==> HasBit(x, i) != HasBit(y, i)
  {
  }

  /** Two words with the same bits are equal. */
  lemma BitsExtensional(x: bv32, y: bv32)
    requires forall i: BitIndex :: HasBit(x, i) <==> HasBit(y, i)
    ensures x == y
  {
    var z := x ^ y;
    forall i: BitIndex ensures !HasBit(z, i) {
      XorBit(x, y, i);
    }
    ZeroIffNoBit(z);
  }

  /** For a single-bit mask, "all of the mask is set" and "some of it is set"
      coincide. */
  lemma SingleBitMask(x: bv32, i: BitIndex)
    ensures (x & BitAt(i) == BitAt(i)) <==> HasBit(x, i)
  {
  }

  /** The formatter's test `x & (1 << i) != 0` is the bit test. */
  lemma MaskTest(x: bv32, i: BitIndex)
    ensures x & BitAt(i) != 0 <==> HasBit(x, i)
  {
  }

  /** OR sets a bit iff one of its operands has it. */
  lemma OrBit(x: bv32, y: bv32, i: BitIndex)
    ensures HasBit(x | y, i) <==> HasBit(x, i) || HasBit(y, i)
  {
  }

  lemma BitAtBit(i: BitIndex, j: BitIndex)
    ensures HasBit(BitAt(i), j) <==> i == j
  {
  }

  /** The position of the lowest set bit at or above `from`, or 32 if there
      is none: the `(index..32).find(..)` search of the iterator. */
  function NextSetBit(bits: bv32, from: bv32): (r: bv32)
    requires from <= 32
    ensures from <= r <= 32
    ensures r < 32 ==> HasBit(bits, r)
    decreases 32 - from
  {
    if from == 32 then 32
    else if HasBit(bits, from) then from
    else NextSetBit(bits, from + 1)
  }

  /** The search skips only clear bits. */
  lemma {:induction false} NextSetBitSkips(bits: bv32, from: bv32, i: BitIndex)
    requires from <= i < NextSetBit(bits, from)
    ensures !HasBit(bits, i)
    decreases 32 - from
  {
    if from < 32 && !HasBit(bits, from) && i != from {
      NextSetBitSkips(bits, from + 1, i);
    }
  }

  // ---------------------------------------------------------------------
  // MouseButton
  // ---------------------------------------------------------------------

  /** The argument of `MouseButton::ex`: extended buttons 0 to 28. */
  type ExIndex = n: bv32 | n <= 28

  /** `Left`, `Right`, `Middle` are bits 0..2; `Ex(n)` stands for `Ex0`..`Ex28`,
      bits 3..31. */
  datatype MouseButton = Left | Right | Middle | Ex(n: ExIndex)

  function Index(b: MouseButton): BitIndex {
    match b
    case Left => 0
    case Right => 1
    case Middle => 2
    case Ex(n) => 3 + n
  }

  /** `button as u32`: the enum's discriminant. */
  function Discriminant(b: MouseButton): bv32 {
    BitAt(Index(b))
  }

  function FromIndex(i: BitIndex): MouseButton {
    if i == 0 then Left
    else if i == 1 then Right
    else if i == 2 then Middle
    else Ex(i - 3)
  }

  lemma IndexRoundTrip(b: MouseButton, i: BitIndex)
    ensures FromIndex(Index(b)) == b
    ensures Index(FromIndex(i)) == i
  {
  }

  /** Every variant is a single bit, and distinct variants are distinct bits. */
  lemma DiscriminantsDistinct(a: MouseButton, b: MouseButton)
    ensures IsSingleBit(Discriminant(a))
    ensures Discriminant(a) == Discriminant(b) <==> a == b
  {
    BitAtBit(Index(a), Index(b));
    BitAtBit(Index(a), Index(a));
    IndexRoundTrip(a, 0);
    IndexRoundTrip(b, 0);
  }

  /** `MouseButton::ex(n)`; the source asserts `n <= 28`. */
  function ExButton(n: bv32): (b: MouseButton)
    requires n <= 28
    ensures Discriminant(b) == 1 << (3 + n)
    ensures b != Left && b != Right && b != Middle
  {
    Ex(n)
  }

  ghost predicate IsSingleBit(v: bv32) {
    exists i: BitIndex :: v == BitAt(i)
  }

  /** The search finds the only bit of a single-bit word. */
  lemma SingleBitFound(i: BitIndex)
    ensures NextSetBit(BitAt(i), 0) == i
  {
    var v := BitAt(i);
    BitAtBit(i, i);
    if i < NextSetBit(v, 0) {
      NextSetBitSkips(v, 0, i);
    }
    var r := NextSetBit(v, 0);
    if r < 32 {
      BitAtBit(i, r);
    }
  }

  /** `MouseButton::from(u32)` (awita) and `MouseButton::from_u32` (src): a
      transmute, which the callers only apply to a single bit. */
  function FromDiscriminant(v: bv32): (b: MouseButton)
    requires IsSingleBit(v)
    ensures Discriminant(b) == v
  {
    var i :| v == BitAt(i);
    SingleBitFound(i);
    FromIndex(NextSetBit(v, 0))
  }

  // ---------------------------------------------------------------------
  // MouseButtons
  // ---------------------------------------------------------------------

  /** A set of mouse buttons: the OR of their discriminants. */
  datatype MouseButtons = MouseButtons(bits: bv32)

  /** Membership: the button's bit is set. */
  predicate Contains(s: MouseButtons, b: MouseButton) {
    HasBit(s.bits, Index(b))
  }

  /** `MouseButtons::contains` tests that every bit of the button's
      discriminant is set, which for a single bit is the membership above. */
  lemma ContainsAsWritten(s: MouseButtons, b: MouseButton)
    ensures Contains(s, b) <==> s.bits & Discriminant(b) == Discriminant(b)
  {
    SingleBitMask(s.bits, Index(b));
  }

  /** The left fold of `MouseButtons::new`, from accumulator `acc`. */
  function OrFold(acc: bv32, bs: seq<MouseButton>): (r: bv32)
    ensures forall b :: Contains(MouseButtons(r), b) <==> Contains(MouseButtons(acc), b) || b in bs
    decreases |bs|
  {
    if bs == [] then acc
    else
      var acc' := acc | Discriminant(bs[0]);
      assert forall b :: Contains(MouseButtons(acc'), b) <==> Contains(MouseButtons(acc), b) || b == bs[0] by {
        forall b ensures Contains(MouseButtons(acc'), b) <==> Contains(MouseButtons(acc), b) || b == bs[0] {
          ContainsOr(MouseButtons(acc'), acc, Discriminant(bs[0]));
          ContainsSingle(bs[0]);
        }
      }
      assert forall b :: b in bs <==> b == bs[0] || b in bs[1..];
      OrFold(acc', bs[1..])
  }

  /** `MouseButtons::new(&[..])`: contains exactly the listed buttons. */
  function NewButtons(bs: seq<MouseButton>): (r: MouseButtons)
    ensures forall b :: Contains(r, b) <==> b in bs
  {
    assert forall b :: !Contains(MouseButtons(0), b) by {
      forall b ensures !Contains(MouseButtons(0), b) {
      }
    }
    MouseButtons(OrFold(0, bs))
  }

  lemma ContainsFromIndex(s: MouseButtons, i: BitIndex)
    ensures Contains(s, FromIndex(i)) <==> HasBit(s.bits, i)
  {
    IndexRoundTrip(FromIndex(i), i);
  }

  /** Two sets that contain the same buttons are the same word. */
  lemma SameButtonsSameBits(s: MouseButtons, t: MouseButtons)
    requires forall b :: Contains(s, b) <==> Contains(t, b)
    ensures s == t
  {
    forall i: BitIndex ensures HasBit(s.bits, i) <==> HasBit(t.bits, i) {
      ContainsFromIndex(s, i);
      ContainsFromIndex(t, i);
    }
    BitsExtensional(s.bits, t.bits);
  }

  /** The set built by `new` depends only on which buttons are listed, not on
      their order or repetition. */
  lemma NewIgnoresOrder(bs: seq<MouseButton>, cs: seq<MouseButton>)
    requires forall b :: b in bs <==> b in cs
    ensures NewButtons(bs) == NewButtons(cs)
  {
    SameButtonsSameBits(NewButtons(bs), NewButtons(cs));
  }

  /** `MouseButtons::is_empty`: the word is 0, i.e. no button is contained. */
  predicate IsEmpty(s: MouseButtons) {
    s.bits == 0
  }

  lemma IsEmptyIffNoButton(s: MouseButtons)
    ensures IsEmpty(s) <==> forall b :: !Contains(s, b)
  {
    ZeroIffNoBit(s.bits);
    if !IsEmpty(s) {
      var i :| 0 <= i < 32 && HasBit(s.bits, i);
      ContainsFromIndex(s, i);
    } else {
      forall b ensures !Contains(s, b) {
      }
    }
  }

  // The four `BitOr` impls: each yields the union of its operands.

  lemma ContainsOr(r: MouseButtons, x: bv32, y: bv32)
    requires r.bits == x | y
    ensures forall c :: Contains(r, c) <==> Contains(MouseButtons(x), c) || Contains(MouseButtons(y), c)
  {
    forall c ensures Contains(r, c) <==> Contains(MouseButtons(x), c) || Contains(MouseButtons(y), c) {
      OrBit(x, y, Index(c));
    }
  }

  /** The word of a single button contains that button only. */
  lemma ContainsSingle(a: MouseButton)
    ensures forall c :: Contains(MouseButtons(Discriminant(a)), c) <==> a == c
  {
    forall c ensures Contains(MouseButtons(Discriminant(a)), c) <==> a == c {
      BitAtBit(Index(a), Index(c));
      IndexRoundTrip(a, 0);
      IndexRoundTrip(c, 0);
    }
  }

  /** `MouseButton | MouseButton`. */
  function ButtonOrButton(a: MouseButton, b: MouseButton): (r: MouseButtons)
    ensures forall c :: Contains(r, c) <==> c == a || c == b
  {
    var r := MouseButtons(Discriminant(a) | Discriminant(b));
    ContainsOr(r, Discriminant(a), Discriminant(b));
    ContainsSingle(a);
    ContainsSingle(b);
    r
  }

  /** `MouseButtons | MouseButton`. */
  function ButtonsOrButton(s: MouseButtons, b: MouseButton): (r: MouseButtons)
    ensures forall c :: Contains(r, c) <==> Contains(s, c) || c == b
  {
    var r := MouseButtons(s.bits | Discriminant(b));
    ContainsOr(r, s.bits, Discriminant(b));
    ContainsSingle(b);
    r
  }

  /** `MouseButton | MouseButtons`. */
  function ButtonOrButtons(a: MouseButton, s: MouseButtons): (r: MouseButtons)
    ensures forall c :: Contains(r, c) <==> c == a || Contains(s, c)
  {
    var r := MouseButtons(Discriminant(a) | s.bits);
    ContainsOr(r, Discriminant(a), s.bits);
    ContainsSingle(a);
    r
  }

  /** `MouseButtons | MouseButtons`. */
  function ButtonsOrButtons(s: MouseButtons, t: MouseButtons): (r: MouseButtons)
    ensures forall c :: Contains(r, c) <==> Contains(s, c) || Contains(t, c)
  {
    var r := MouseButtons(s.bits | t.bits);
    ContainsOr(r, s.bits, t.bits);
    r
  }

  // ---------------------------------------------------------------------
  // Ascending iteration: `MouseButtons::iter` and the `Debug` formatter
  // ---------------------------------------------------------------------

  /** The buttons of `s` whose bit is at position `from` or above, in
      increasing bit order. */
  function ButtonsFrom(s: MouseButtons, from: bv32): seq<MouseButton>
    requires from <= 32
    decreases 32 - from
  {
    if from == 32 then []
    else if HasBit(s.bits, from) then [FromIndex(from)] + ButtonsFrom(s, from + 1)
    else ButtonsFrom(s, from + 1)
  }

  /** All buttons of `s`, lowest bit first. */
  function Buttons(s: MouseButtons): seq<MouseButton> {
    ButtonsFrom(s, 0)
  }

  /** Strictly increasing bit positions: each button at most once, in order. */
  predicate Ascending(bs: seq<MouseButton>) {
    forall j, k :: 0 <= j < k < |bs| ==> Index(bs[j]) < Index(bs[k])
  }

  lemma {:induction false} ButtonsFromMembers(s: MouseButtons, from: bv32, b: MouseButton)
    requires from <= 32
    ensures b in ButtonsFrom(s, from) <==> Contains(s, b) && from <= Index(b)
    decreases 32 - from
  {
    IndexRoundTrip(b, 0);
    if from < 32 {
      ButtonsFromMembers(s, from + 1, b);
      IndexRoundTrip(FromIndex(from), from);
    }
  }

  lemma {:induction false} ButtonsFromAscending(s: MouseButtons, from: bv32)
    requires from <= 32
    ensures Ascending(ButtonsFrom(s, from))
    decreases 32 - from
  {
    if from < 32 {
      ButtonsFromAscending(s, from + 1);
      var rest := ButtonsFrom(s, from + 1);
      forall b | b in rest ensures from < Index(b) {
        ButtonsFromMembers(s, from + 1, b);
      }
      if HasBit(s.bits, from) {
        var head := FromIndex(from);
        IndexRoundTrip(head, from);
        var bs := [head] + rest;
        forall j, k | 0 <= j < k < |bs| ensures Index(bs[j]) < Index(bs[k]) {
          if j > 0 {
            assert bs[j] == rest[j - 1] && bs[k] == rest[k - 1];
          } else {
            assert bs[k] == rest[k - 1] && bs[k] in rest;
          }
        }
      }
    }
  }

  /** `MouseButtons::iter` yields every contained button exactly once, in
      increasing bit order, and nothing else. */
  lemma ButtonsSpec(s: MouseButtons)
    ensures Ascending(Buttons(s))
    ensures forall b :: b in Buttons(s) <==> Contains(s, b)
  {
    ButtonsFromAscending(s, 0);
    forall b ensures b in Buttons(s) <==> Contains(s, b) {
      ButtonsFromMembers(s, 0, b);
    }
  }

  /** In an ascending listing, a member other than the head lies in the tail
      and has a larger index than the head. */
  lemma AscendingTail(xs: seq<MouseButton>, b: MouseButton)
    requires Ascending(xs) && xs != []
    ensures b in xs[1..] <==> b in xs && b != xs[0]
    ensures b in xs[1..] ==> Index(xs[0]) < Index(b)
  {
    if b in xs && b != xs[0] {
      var m :| 0 <= m < |xs| && xs[m] == b;
      assert xs[1..][m - 1] == b;
    }
  }

  lemma HeadShared(xs: seq<MouseButton>, ys: seq<MouseButton>)
    requires forall b :: b in xs <==> b in ys
    requires xs != []
    ensures xs[0] in ys
  {
    var b := xs[0];
    assert b in xs;
  }

  /** An ascending listing is determined by its members. */
  lemma {:induction false} AscendingUnique(xs: seq<MouseButton>, ys: seq<MouseButton>)
    requires Ascending(xs) && Ascending(ys)
    requires forall b :: b in xs <==> b in ys
    ensures xs == ys
    decreases |xs|
  {
    if xs != [] && ys != [] {
      // Both heads are the member of least index.
      HeadShared(xs, ys);
      HeadShared(ys, xs);
      AscendingTail(xs, ys[0]);
      AscendingTail(ys, xs[0]);
      assert xs[0] == ys[0];
      forall b ensures b in xs[1..] <==> b in ys[1..] {
        AscendingTail(xs, b);
        AscendingTail(ys, b);
      }
      AscendingUnique(xs[1..], ys[1..]);
      assert xs == [xs[0]] + xs[1..];
      assert ys == [ys[0]] + ys[1..];
    } else if xs != [] {
      HeadShared(xs, ys);
      assert false;
    } else if ys != [] {
      HeadShared(ys, xs);
      assert false;
    }
  }

  /** The listing of `s` is the unique ascending sequence of its buttons. */
  lemma ButtonsUnique(s: MouseButtons, bs: seq<MouseButton>)
    requires Ascending(bs)
    requires forall b :: b in bs <==> Contains(s, b)
    ensures Buttons(s) == bs
  {
    ButtonsSpec(s);
    AscendingUnique(Buttons(s), bs);
  }

  /** `new(&[Left, Middle, Ex1])` iterates Left, Middle, Ex1. */
  lemma NewIterExample()
    ensures Buttons(NewButtons([Left, Middle, Ex(1)])) == [Left, Middle, Ex(1)]
  {
    ButtonsUnique(NewButtons([Left, Middle, Ex(1)]), [Left, Middle, Ex(1)]);
  }

  /** `Middle | (Left | Right)` iterates Left, Right, Middle. */
  lemma BitOrIterExample()
    ensures Buttons(ButtonOrButtons(Middle, ButtonOrButton(Left, Right))) == [Left, Right, Middle]
  {
    ButtonsUnique(ButtonOrButtons(Middle, ButtonOrButton(Left, Right)), [Left, Right, Middle]);
  }

  /** `(Left | Right) | (Middle | Ex28)` iterates Left, Right, Middle, Ex28. */
  lemma BitOrBothIterExample()
    ensures Buttons(ButtonsOrButtons(ButtonOrButton(Left, Right), ButtonOrButton(Middle, Ex(28))))
         == [Left, Right, Middle, Ex(28)]
  {
    ButtonsUnique(ButtonsOrButtons(ButtonOrButton(Left, Right), ButtonOrButton(Middle, Ex(28))),
                  [Left, Right, Middle, Ex(28)]);
  }

  /** `MouseButtonsIter`: a cursor over the bit positions of a set. The
      iterator borrows the set, which it never changes. */
  class MouseButtonsIter {
    const buttons: MouseButtons
    var index: bv32

    ghost predicate Valid()
      reads this
    {
      index <= 32
    }

    /** The buttons the iterator has yet to yield. */
    ghost function Remaining(): seq<MouseButton>
      reads this
      requires Valid()
    {
      ButtonsFrom(buttons, index)
    }

    /** `MouseButtons::iter`: starts at bit 0, so every button is still to
        come. */
    constructor (s: MouseButtons)
      ensures Valid()
      ensures buttons == s && index == 0
      ensures Remaining() == Buttons(s)
    {
      buttons := s;
      index := 0;
    }

    /** `Iterator::next`: yields the lowest remaining button and moves past
        it, or `None` once no button is left (the index then stays put). */
    method Next() returns (r: Option<MouseButton>)
      requires Valid()
      modifies this
      ensures Valid()
      ensures old(Remaining()) == [] ==> r == None && Remaining() == []
      ensures old(Remaining()) != [] ==>
                r == Some(old(Remaining())[0]) && Remaining() == old(Remaining())[1..]
    {
      ghost var rest := Remaining();
      if index >= 32 {
        assert rest == [];
        return None;
      }
      // `(self.index..32).find(..)`
      var i := index;
      while i < 32
        invariant index <= i <= 32
        invariant ButtonsFrom(buttons, i) == rest
        invariant unchanged(this)
        decreases 32 - i
      {
        ContainsFromIndex(buttons, i);
        if Contains(buttons, FromIndex(i)) {
          break;
        }
        i := i + 1;
      }
      if i == 32 {
        // `find` found nothing: `?` returns without moving the index.
        assert rest == [];
        return None;
      }
      ContainsFromIndex(buttons, i);
      assert rest == [FromIndex(i)] + ButtonsFrom(buttons, i + 1);
      index := i + 1;
      r := Some(FromIndex(i));
    }
  }

  /** The decimal digits of an extended-button number. */
  function Decimal(n: ExIndex): (r: string)
    ensures |r| == if n < 10 then 1 else 2
  {
    var k := n as int;
    if k < 10 then [('0' as int + k) as char]
    else [('0' as int + k / 10) as char, ('0' as int + k % 10) as char]
  }

  /** The derived `Debug` name of a button: its variant name. */
  function Name(b: MouseButton): string {
    match b
    case Left => "Left"
    case Right => "Right"
    case Middle => "Middle"
    case Ex(n) => "Ex" + Decimal(n)
  }

  /** `", Name"` for every button of `bs`. */
  function ListTail(bs: seq<MouseButton>): string {
    if bs == [] then "" else ", " + Name(bs[0]) + ListTail(bs[1..])
  }

  /** The names of `bs` separated by `", "`. */
  function JoinNames(bs: seq<MouseButton>): string {
    if bs == [] then "" else Name(bs[0]) + ListTail(bs[1..])
  }

  /** What `Debug` prints: the contained buttons in ascending bit order. */
  function DebugString(s: MouseButtons): string {
    "MouseButtons([" + JoinNames(Buttons(s)) + "])"
  }

  /** The two loops of `impl Debug for MouseButtons`: the first prints the
      lowest set bit without a separator and breaks, the second prints the
      rest, each after `", "`. The source's test `bits & (1 << i) != 0` is
      written `HasBit` here (the two agree by `MaskTest`). */
  method Fmt(s: MouseButtons) returns (out: string)
    ensures out == DebugString(s)
  {
    ghost var listed := "MouseButtons([" + JoinNames(Buttons(s));
    out := "MouseButtons([";
    var i: bv32 := 0;
    while i < 32
      invariant i <= 32
      invariant out == "MouseButtons(["
      invariant ButtonsFrom(s, i) == Buttons(s)
      decreases 32 - i
    {
      if HasBit(s.bits, i) {
        FirstStep(s, i);
        out := out + Name(FromIndex(i));
        i := i + 1;
        break;
      }
      i := i + 1;
    }
    while i < 32
      invariant i <= 32
      invariant out + ListTail(ButtonsFrom(s, i)) == listed
      decreases 32 - i
    {
      ghost var before := out;
      if HasBit(s.bits, i) {
        out := out + (", " + Name(FromIndex(i)));
      }
      TailAppend(before, out, s, i);
      i := i + 1;
    }
    out := out + "])";
  }

  lemma FirstStep(s: MouseButtons, i: BitIndex)
    requires ButtonsFrom(s, i) == Buttons(s)
    requires HasBit(s.bits, i)
    ensures JoinNames(Buttons(s)) == Name(FromIndex(i)) + ListTail(ButtonsFrom(s, i + 1))
  {
  }

  lemma TailAppend(before: string, after: string, s: MouseButtons, i: BitIndex)
    requires after == if HasBit(s.bits, i) then before + (", " + Name(FromIndex(i))) else before
    ensures before + ListTail(ButtonsFrom(s, i)) == after + ListTail(ButtonsFrom(s, i + 1))
  {
  }

  /** An empty set prints `MouseButtons([])`. */
  lemma EmptyDebug()
    ensures DebugString(MouseButtons(0)) == "MouseButtons([])"
  {
    ButtonsUnique(MouseButtons(0), []);
  }

  /** `Left | Ex1` prints its two buttons in bit order. */
  lemma DebugExample()
    ensures DebugString(ButtonOrButton(Ex(1), Left)) == "MouseButtons([Left, Ex1])"
  {
    ButtonsUnique(ButtonOrButton(Ex(1), Left), [Left, Ex(1)]);
  }
}

/** The mask field of the editor GUI kit: the text on the mask button, and the
    popup window that lists the named bits and turns clicks into a new value.
    Masks and values are 32-bit patterns held in a bv64 that fits 32 bits; a
    bit's name comes from the `bitToName` callback, where "" stands for a null
    or empty name. */
module MaskGUIKit {
  import opened Wrappers
  import opened BitwiseKit

  /** Is bit i of the mask set? (mask & (1 << i)) != 0 */
  predicate IsSet(mask: bv64, i: nat)
    requires i < 32
  {
    GetBit(mask, i as bv64)
  }

  /** The names of the set bits from bit `from` up, in ascending bit order,
      skipping bits whose name is empty. */
  function NamedSetBits(mask: bv64, bitToName: int -> string, from: nat): (r: seq<string>)
    requires from <= 32
    decreases 32 - from
  {
    if from == 32 then []
    else if IsSet(mask, from) && bitToName(from) != "" then [bitToName(from)] + NamedSetBits(mask, bitToName, from + 1)
    else NamedSetBits(mask, bitToName, from + 1)
  }

  lemma NamedSetBitsStep(mask: bv64, bitToName: int -> string, i: nat)
    requires i < 32
    ensures NamedSetBits(mask, bitToName, i) ==
      (if IsSet(mask, i) && bitToName(i) != "" then [bitToName(i)] else []) + NamedSetBits(mask, bitToName, i + 1)
  {
  }

  /** The label for a list of names: none, one, two, or the first two and an ellipsis. */
  function Summary(names: seq<string>): string {
    if |names| == 0 then "(Nameless)"
    else if |names| == 1 then names[0]
    else if |names| == 2 then names[0] + ", " + names[1]
    else names[0] + ", " + names[1] + ", ..."
  }

  /** The text GetMaskButtonText shows for a mask. */
  function ButtonText(mask: bv64, bitToName: int -> string): string {
    if mask == 0 then "Nothing"
    else if mask == Mask(W32) then "Everything"
    else Summary(NamedSetBits(mask, bitToName, 0))
  }

  /** GetMaskButtonText: "Nothing" for 0, "Everything" for ~0, otherwise the
      summary of the named set bits. */
  method GetMaskButtonText(mask: bv64, bitToName: int -> string) returns (text: string)
    requires Fits(mask, W32)
    ensures text == ButtonText(mask, bitToName)
  {
    if mask == 0 {
      return "Nothing";
    }
    if mask == Mask(W32) {
      return "Everything";
    }
    var count, name1, name2 := FirstNames(mask, bitToName);
    if count == 0 {
      text := "(Nameless)";
    } else if count == 1 {
      text := name1;
    } else if count == 2 {
      text := name1 + ", " + name2;
    } else {
      text := name1 + ", " + name2 + ", ...";
    }
  }

  /** The loop of GetMaskButtonText: scan the bits from 0 and give up at the
      third named set bit, keeping the first two names. */
  method FirstNames(mask: bv64, bitToName: int -> string) returns (count: nat, name1: string, name2: string)
    ensures var names := NamedSetBits(mask, bitToName, 0);
      && count == (if |names| < 3 then |names| else 3)
      && (count >= 1 ==> name1 == names[0])
      && (count >= 2 ==> name2 == names[1])
  {
    name1, name2 := "", "";
    count := 0;
    var i := 0;
    while i < 32
      invariant 0 <= i <= 32 && count <= 2
      invariant NamedSetBits(mask, bitToName, 0) == [name1, name2][..count] + NamedSetBits(mask, bitToName, i)
    {
      var stop;
      count, name1, name2, stop := VisitBit(mask, bitToName, i, count, name1, name2);
      if stop {
        return;
      }
      i := i + 1;
    }
  }

  /** One iteration of the loop of GetMaskButtonText, at bit i. */
  method VisitBit(mask: bv64, bitToName: int -> string, i: nat, count: nat, name1: string, name2: string)
    returns (count': nat, name1': string, name2': string, stop: bool)
    requires i < 32 && count <= 2
    requires NamedSetBits(mask, bitToName, 0) == [name1, name2][..count] + NamedSetBits(mask, bitToName, i)
    ensures stop ==> var names := NamedSetBits(mask, bitToName, 0);
      count' == 3 && |names| >= 3 && name1' == names[0] && name2' == names[1]
    ensures !stop ==> (count' <= 2 &&
      NamedSetBits(mask, bitToName, 0) == [name1', name2'][..count'] + NamedSetBits(mask, bitToName, i + 1))
  {
    count', name1', name2', stop := count, name1, name2, false;
    NamedSetBitsStep(mask, bitToName, i);
    if IsSet(mask, i) {
      var name := bitToName(i);
      if name != "" {
        KeepName(NamedSetBits(mask, bitToName, 0), name1, name2, count, name, NamedSetBits(mask, bitToName, i + 1));
        if count == 0 {
          name1' := name;
        } else if count == 1 {
          name2' := name;
        } else {
          return 3, name1, name2, true;
        }
        count' := count + 1;
      }
    }
  }

  /** The names found so far, a new name and the names still ahead: the new
      name takes the next free slot, or is the third name. */
  lemma KeepName(all: seq<string>, a: string, b: string, count: nat, name: string, rest: seq<string>)
    requires count <= 2 && all == [a, b][..count] + ([name] + rest)
    ensures count == 0 ==> all == [name, b][..1] + rest
    ensures count == 1 ==> all == [a, name][..2] + rest
    ensures count == 2 ==> |all| >= 3 && all[0] == a && all[1] == b
  {
    if count == 0 {
      assert [name, b][..1] == [name];
    } else if count == 1 {
      assert [a, name][..2] == [a] + [name];
    }
  }

  /** Every named set bit sits in the summary or behind its ellipsis: the label
      starts with the first name, and it ends in "..." exactly when there are
      more than two names. */
  lemma ButtonTextNames(mask: bv64, bitToName: int -> string, names: seq<string>)
    requires mask != 0 && mask != Mask(W32) && names == NamedSetBits(mask, bitToName, 0)
    ensures |names| == 0 ==> ButtonText(mask, bitToName) == "(Nameless)"
    ensures |names| >= 1 ==> names[0] <= ButtonText(mask, bitToName)
    ensures |names| >= 3 ==> ButtonText(mask, bitToName)[|names[0]| + 2 + |names[1]|..] == ", ..."
  {
  }

  /** The bits below `n` whose name is not empty, in ascending order. */
  function NamedBits(bitToName: int -> string, n: nat): (r: seq<int>)
    requires n <= 32
    ensures |r| <= n
  {
    if n == 0 then []
    else NamedBits(bitToName, n - 1) + (if bitToName(n - 1) != "" then [n - 1] else [])
  }

  lemma NamedBitsStep(bitToName: int -> string, i: nat)
    requires i < 32
    ensures NamedBits(bitToName, i + 1) == NamedBits(bitToName, i) + (if bitToName(i) != "" then [i] else [])
  {
  }

  /** What the loop of Show leaves in the two arrays, read as sequences. */
  lemma CollectedBits(bitToName: int -> string, bs: seq<int>, ns: seq<string>, b0: seq<int>, m0: seq<string>, n: int)
    requires |bs| == |ns| == |b0| == |m0| == 32 && 0 <= n <= 32
    requires |NamedBits(bitToName, 32)| == n
    requires forall k :: 0 <= k < n ==> bs[k] == NamedBits(bitToName, 32)[k]
    requires forall k :: n <= k < 32 ==> bs[k] == b0[k] && ns[k] == m0[k]
    ensures bs[..n] == NamedBits(bitToName, 32) && bs[n..] == b0[n..] && ns[n..] == m0[n..]
    ensures forall k :: 0 <= k < 32 ==> (0 <= bs[k] < 32 || bs[k] == b0[k])
  {
    SameFrom(bs, b0, n);
    SameFrom(ns, m0, n);
    NamedBitsAscending(bitToName, 32);
  }

  /** The same, read off the arrays themselves. */
  lemma CollectedArrays(bitToName: int -> string, bits: array<int>, names: array<string>, b0: seq<int>, m0: seq<string>, n: int)
    requires bits.Length == 32 && names.Length == 32 && |b0| == |m0| == 32 && 0 <= n <= 32
    requires n == |NamedBits(bitToName, 32)|
    requires forall k :: 0 <= k < n ==> bits[k] == NamedBits(bitToName, 32)[k] && names[k] == bitToName(bits[k])
    requires forall k :: n <= k < 32 ==> bits[k] == b0[k] && names[k] == m0[k]
    requires forall k :: 0 <= k < 32 ==> 0 <= b0[k] < 32
    ensures bits[..n] == NamedBits(bitToName, 32) && bits[n..] == b0[n..] && names[n..] == m0[n..]
    ensures forall k :: 0 <= k < 32 ==> 0 <= bits[k] < 32
  {
    CollectedBits(bitToName, bits[..], names[..], b0, m0, n);
  }

  lemma SameFrom<T>(a: seq<T>, b: seq<T>, n: int)
    requires 0 <= n <= |a| == |b|
    requires forall k :: n <= k < |a| ==> a[k] == b[k]
    ensures a[n..] == b[n..]
  {
    assert forall j :: 0 <= j < |a| - n ==> a[n..][j] == a[n + j];
  }

  /** The list Show records is strictly increasing and holds exactly the bits
      with a name. */
  lemma {:induction false} NamedBitsAscending(bitToName: int -> string, n: nat)
    requires n <= 32
    ensures forall k :: 0 <= k < |NamedBits(bitToName, n)| ==> 0 <= NamedBits(bitToName, n)[k] < n
    ensures forall j, k :: 0 <= j < k < |NamedBits(bitToName, n)| ==>
      NamedBits(bitToName, n)[j] < NamedBits(bitToName, n)[k]
    ensures forall i :: i in NamedBits(bitToName, n) <==> 0 <= i < n && bitToName(i) != ""
  {
    if n > 0 {
      NamedBitsAscending(bitToName, n - 1);
    }
  }

  datatype PopupMode = BitMode | MaskMode

  /** Mathf.Clamp on ints: the lower bound is checked first. */
  function Clamp(value: int, min: int, max: int): (r: int)
    ensures min <= max ==> min <= r <= max
    ensures min <= value <= max ==> r == value
    ensures value < min ==> r == min
  {
    if value < min then min else if value > max then max else value
  }

  /** The last line of the popup: one per named bit, plus "Nothing" and
      "Everything" at the top in mask mode. */
  function LastLine(mode: PopupMode, count: int): int {
    if mode == BitMode then count - 1 else count + 1
  }

  /** The hover line the window keeps for the mouse over line `raw`, as written. */
  function HoverLine(mode: PopupMode, count: int, raw: int): int {
    Clamp(raw, 0, LastLine(mode, count))
  }

  /** With no named bit in bit mode, every mouse position below the top
      gives hover line -1, which is no index into the bit list. */
  lemma HoverLineEscapes(raw: int)
    requires raw >= 0
    ensures HoverLine(BitMode, 0, raw) == -1
  {
  }

  /** The hover line with the upper bound kept at or above 0. */
  function HoverLineCorrected(mode: PopupMode, count: int, raw: int): (r: int)
    ensures 0 <= r
    ensures LastLine(mode, count) >= 0 ==> r <= LastLine(mode, count)
    ensures 0 <= raw <= LastLine(mode, count) ==> r == raw
  {
    Clamp(raw, 0, if LastLine(mode, count) < 0 then 0 else LastLine(mode, count))
  }

  /** When the window has at least one line, the corrected hover line is the
      one the code computes. */
  lemma HoverLineCorrectedAgrees(mode: PopupMode, count: int, raw: int)
    requires LastLine(mode, count) >= 0
    ensures HoverLineCorrected(mode, count, raw) == HoverLine(mode, count, raw)
  {
  }

  /** The popup window's static state. The name and bit arrays are allocated
      once with 32 slots and reused by every Show. */
  class MaskWindow {
    var controlID: int
    var value: bv64
    var count: int
    const names: array<string>
    const bits: array<int>
    var mode: PopupMode
    var hoverLine: int

    ghost predicate Valid()
      reads this, bits
    {
      && names.Length == 32 && bits.Length == 32
      && 0 <= count <= 32
      && Fits(value, W32)
      && forall k :: 0 <= k < 32 ==> 0 <= bits[k] < 32
    }

    /** The state before the first Show: the static arrays are zero-filled. */
    constructor ()
      ensures Valid() && count == 0 && hoverLine == 0 && value == 0
    {
      controlID := 0;
      value := 0;
      count := 0;
      names := new string[32](_ => "");
      bits := new int[32](_ => 0);
      mode := BitMode;
      hoverLine := 0;
    }

    /** MaskWindow.Show: record the control and value, collect the named bits in
        ascending order, and reset the hover line. Slots past the new count keep
        what an earlier Show left there. */
    method Show(mode: PopupMode, controlID: int, value: bv64, bitToName: int -> string)
      requires Valid() && Fits(value, W32)
      modifies this, names, bits
      ensures Valid()
      ensures this.mode == mode && this.controlID == controlID && this.value == value && hoverLine == 0
      ensures count == |NamedBits(bitToName, 32)| && bits[..count] == NamedBits(bitToName, 32)
      ensures forall k :: 0 <= k < count ==> names[k] == bitToName(bits[k])
      ensures bits[count..] == old(bits[..])[count..] && names[count..] == old(names[..])[count..]
    {
      this.controlID := controlID;
      this.value := value;
      ghost var b0, m0 := bits[..], names[..];
      var n := CollectNamedBits(bitToName);
      CollectedArrays(bitToName, bits, names, b0, m0, n);
      count := n;
      this.mode := mode;
      hoverLine := 0;
    }

    /** The loop of Show: store each named bit and its name in the next free
        slot, in ascending bit order, and return how many were stored. */
    method CollectNamedBits(bitToName: int -> string) returns (n: int)
      requires names.Length == 32 && bits.Length == 32
      modifies names, bits
      ensures n == |NamedBits(bitToName, 32)|
      ensures forall k :: 0 <= k < n ==> bits[k] == NamedBits(bitToName, 32)[k] && names[k] == bitToName(bits[k])
      ensures forall k :: n <= k < 32 ==> bits[k] == old(bits[k]) && names[k] == old(names[k])
    {
      ghost var b0, m0 := bits[..], names[..];
      ghost var found: seq<int> := [];
      n := 0;
      var i := 0;
      while i < 32
        invariant 0 <= i <= 32 && 0 <= n <= i
        invariant found == NamedBits(bitToName, i) && |found| == n
        invariant forall k :: 0 <= k < n ==> bits[k] == found[k] && names[k] == bitToName(found[k])
        invariant forall k :: n <= k < 32 ==> bits[k] == b0[k] && names[k] == m0[k]
      {
        var name := bitToName(i);
        NamedBitsStep(bitToName, i);
        if name != "" {
          names[n] := name;
          bits[n] := i;
          found := found + [i];
          n := n + 1;
        }
        i := i + 1;
      }
    }

    /** A mouse move in OnGUI: the mouse's line, clamped to the window's lines. */
    method MouseMove(rawLine: int)
      requires Valid()
      modifies this`hoverLine
      ensures Valid() && hoverLine == HoverLine(mode, count, rawLine)
      ensures value == old(value) && count == old(count) && mode == old(mode)
    {
      hoverLine := Clamp(rawLine, 0, LastLine(mode, count));
    }

    /** A click in OnGUI. BitMode mode selects the hovered bit; mask mode sets 0 on
        line 0, ~0 on line 1, and flips the bit of line k on lines k >= 2.
        Reading a slot outside the bit array throws. */
    method MouseDown() returns (outcome: Outcome)
      requires Valid()
      modifies this`value
      ensures Valid() && count == old(count) && mode == old(mode) && hoverLine == old(hoverLine)
      ensures outcome.Fail? <==> ClickFails(mode, hoverLine)
      ensures outcome.Fail? ==> outcome.error == IndexOutOfRange && value == old(value)
      ensures outcome.Done? ==> value == Clicked(mode, old(value), hoverLine, bits[..])
    {
      if mode == BitMode {
        if !(0 <= hoverLine < 32) {
          return Fail(IndexOutOfRange);
        }
        value := BitIndex(bits[hoverLine]);
      } else if hoverLine == 0 {
        value := 0;
      } else if hoverLine == 1 {
        value := Mask(W32);
      } else {
        if !(0 <= hoverLine - 2 < 32) {
          return Fail(IndexOutOfRange);
        }
        value := ReverseBit(value, W32, BitIndex(bits[hoverLine - 2]));
      }
      outcome := Done;
    }

    /** A mouse move with the corrected clamp. */
    method MouseMoveCorrected(rawLine: int)
      requires Valid()
      modifies this`hoverLine
      ensures Valid() && hoverLine == HoverLineCorrected(mode, count, rawLine)
      ensures value == old(value) && count == old(count) && mode == old(mode)
    {
      hoverLine := HoverLineCorrected(mode, count, rawLine);
    }

    /** A click that ignores bit mode with no line to choose. After Show and any
        corrected mouse moves it never fails. */
    method MouseDownCorrected() returns (outcome: Outcome)
      requires Valid() && 0 <= hoverLine && hoverLine <= (if LastLine(mode, count) < 0 then 0 else LastLine(mode, count))
      modifies this`value
      ensures Valid() && outcome == Done
      ensures hoverLine == old(hoverLine) && count == old(count) && mode == old(mode)
      ensures mode == BitMode && count == 0 ==> value == old(value)
      ensures mode == BitMode && count > 0 ==> hoverLine < count && value == BitIndex(bits[hoverLine])
      ensures mode == MaskMode ==> value == Clicked(mode, old(value), hoverLine, bits[..])
    {
      if mode == BitMode && count == 0 {
        return Done;
      }
      outcome := MouseDown();
    }
  }

  /** A bit number as the shift amount of the bit operations. */
  function BitIndex(x: int): (b: bv64)
    requires 0 <= x < 32
    ensures b < 32 && Fits(b, W32)
  {
    x as bv64
  }

  /** A click on `line` reads a slot outside the 32-entry bit array. */
  predicate ClickFails(mode: PopupMode, line: int) {
    if mode == BitMode then !(0 <= line < 32)
    else line != 0 && line != 1 && !(0 <= line - 2 < 32)
  }

  /** The value a click on line `line` leaves, when the read slot exists. */
  function Clicked(mode: PopupMode, value: bv64, line: int, bits: seq<int>): bv64
    requires Fits(value, W32) && |bits| == 32 && forall k :: 0 <= k < 32 ==> 0 <= bits[k] < 32
    requires !ClickFails(mode, line)
  {
    if mode == BitMode then BitIndex(bits[line])
    else if line == 0 then 0
    else if line == 1 then Mask(W32)
    else ReverseBit(value, W32, BitIndex(bits[line - 2]))
  }

  /** In mask mode, clicking a bit's line twice restores the value; clicking
      "Nothing" or "Everything" twice is the same as clicking it once. */
  lemma ClickTwice(value: bv64, line: int, bits: seq<int>)
    requires Fits(value, W32) && |bits| == 32 && forall k :: 0 <= k < 32 ==> 0 <= bits[k] < 32
    requires 0 <= line < 34
    ensures line >= 2 ==> Clicked(MaskMode, Clicked(MaskMode, value, line, bits), line, bits) == value
    ensures line < 2 ==>
      Clicked(MaskMode, Clicked(MaskMode, value, line, bits), line, bits) == Clicked(MaskMode, value, line, bits)
  {
    if line >= 2 {
      ReverseBitInvolution(value, W32, BitIndex(bits[line - 2]));
    }
  }
}

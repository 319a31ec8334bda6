# UnityExtensions, modelled in Dafny

UnityExtensions is a utility library for Unity games. Most of it is glue to
the engine, but a set of small, single-threaded components carries real
logic, and that is what this project models:

- **State machines.** `StateMachine<T>` holds one current state; assigning a
  state exits the old one, restarts the timer, enters the new one and
  notifies observers. `StackStateMachine<T>` keeps a stack of states, and
  every push or pop tells the states involved which action moved them. Both
  refuse, under DEBUG, a transition made from inside a transition's own
  callbacks. Callbacks are user code: a `Behaviour` parameter says whether
  each call returns, throws or starts a nested transition, and a trace field
  records the calls in order.
- **Index-linked structures.** Two generations of `QuickLinkedList<T>` (a
  doubly linked list stored in a slot array with a stack of free ids),
  `TreeNode<T>` (children kept in a circular doubly linked ring) with its
  three enumerators, and `LinkedComponent<T>` (an intrusive list with a
  static head and tail). Each is a class whose fields are the source's link
  fields, tied by a validity predicate to a ghost sequence of its elements in
  order.
- **Schedulers and controllers.** `GameObjectPool` (per-name stacks of idle
  objects plus a delayed-despawn schedule) and `BlendEffectController<T>`
  (channels folded with `Blend`, plus events played through attenuation
  curves), with the concrete float and Vector2 controllers.
- **Bit and byte codecs.** `Union64` (eight bytes, typed little-endian integer views,
  copying to and from a buffer that advances an offset), `BitwiseKit`, and
  the `Axis` flags with the `AxisKit` algebra.
- **Random numbers.** The Lehmer generator `Random` and the index selection
  and shuffle of `RandomExtension`, which draw from the modelled generator.
- **Pure utilities.** The intervals `Range`, `Range2` and `Range3`, the list
  helpers of `ArrayExtension` and `GeneralKit`, the `TextKit` scanners, the
  identifier and path helpers of the script generator, the mask-field text
  and popup rules of `MaskGUIKit`, the ordered-dithering matrix of `MathKit`
  and the depth-limited hierarchy walks of `UnityTypesExtension`.

Every `.dfy` file is one top-level module, named after the C# type it
models; `Wrappers`, `Ints`, `Powers` and `Vectors` are shared by the others.
`float` is read as `real`, C# fixed-width integers wrap explicitly where the
source's arithmetic can overflow, `null` is `None` (or `-1` for an id), and a
thrown exception is a `Fail`/`Err` value naming it. Where a method loops or
updates fields in place, the model is a method with loop invariants or a
class with `modifies` clauses, proved against a function that specifies it.

Both generations of the library are modelled where they differ: paths under
`Assets/Plugins/UnityExtension/` are the older generation and paths under
`Assets/Plugins/UnityExtensions/` the newer one.

## Model

| member | source | states |
|---|---|---|
| GeneralKit.Swap | Assets/Plugins/UnityExtensions/RuntimeAPI/Utilities/GeneralKit.cs:14-19 | the two values come back exchanged |
| GeneralKit.SwapTwice | Assets/Plugins/UnityExtensions/RuntimeAPI/Utilities/GeneralKit.cs:14-19 | swapping twice gives back both values unchanged |
| GeneralKit.IsNullOrEmptyIffNoElement | Assets/Plugins/UnityExtensions/RuntimeAPI/Utilities/GeneralKit.cs:25-28 | IsNullOrEmpty holds exactly when there is no collection or it has no element |
| Axes.DirectedAreSingleBits | Assets/Plugins/UnityExtension/RuntimeAPI/Supplements/Axis.cs:14-19 | each of the six directed axes is a single bit 2^k, k < 6 |
| Axes.NegativeIsShiftedPositive | Assets/Plugins/UnityExtension/RuntimeAPI/Supplements/Axis.cs:14-19 | each negative axis is its positive axis shifted left by 3 |
| Axes.UnionsOfDirected | Assets/Plugins/UnityExtension/RuntimeAPI/Supplements/Axis.cs:12-29 | X, Y, Z are the unions of their two directions; XY, YZ, XZ and All are unions of those; None is 0 |
| AxisKit.ToVector | Assets/Plugins/UnityExtensions/RuntimeAPI/Utilities/AxisKit.cs:14-26 | an axis that is neither directed nor X, Y, Z maps to the zero vector |
| AxisKit.ToVectorIsUnit | Assets/Plugins/UnityExtensions/RuntimeAPI/Utilities/AxisKit.cs:14-26 | a directed axis maps to a unit vector along that axis, pointing positive exactly for the positive axes |
| AxisKit.UndirectedPointsPositive | Assets/Plugins/UnityExtensions/RuntimeAPI/Utilities/AxisKit.cs:14-26 | X, Y and Z map to the same vectors as their positive directions |
| AxisKit.FromVector | Assets/Plugins/UnityExtensions/RuntimeAPI/Utilities/AxisKit.cs:52-80 | None exactly for a vector Unity calls equal to zero; otherwise a directed axis along a component of largest magnitude, signed like it; x only when strictly larger than y and z, y only when strictly larger than z |
| AxisKit.FromToVector | Assets/Plugins/UnityExtensions/RuntimeAPI/Utilities/AxisKit.cs:14-80 | FromVector inverts ToVector on directed axes |
| AxisKit.Reverse | Assets/Plugins/UnityExtensions/RuntimeAPI/Utilities/AxisKit.cs:87-99 | a directed axis maps to a different directed axis; anything else maps to itself |
| AxisKit.ReverseInvolution | Assets/Plugins/UnityExtensions/RuntimeAPI/Utilities/AxisKit.cs:87-99 | reversing twice gives back the axis |
| AxisKit.ReverseIsOpposite | Assets/Plugins/UnityExtensions/RuntimeAPI/Utilities/AxisKit.cs:14-99 | the reverse of a directed axis points the opposite way |
| AxisKit.ReverseFlipsSign | Assets/Plugins/UnityExtensions/RuntimeAPI/Utilities/AxisKit.cs:87-129 | the reverse of a directed axis is positive exactly when the axis is not |
| AxisKit.ShiftLeft3 | Assets/Plugins/UnityExtensions/RuntimeAPI/Utilities/AxisKit.cs:113 | the int shift by 3 multiplies by 8 while it does not overflow |
| AxisKit.RelationBetween | Assets/Plugins/UnityExtensions/RuntimeAPI/Utilities/AxisKit.cs:106-119 | for directed axes: Same exactly when equal, Opposite exactly when one is the other's reverse, Vertical otherwise |
| AxisKit.IsPositive | Assets/Plugins/UnityExtensions/RuntimeAPI/Utilities/AxisKit.cs:126-129 | for a directed axis, the test `<= 4` holds exactly for PositiveX, PositiveY, PositiveZ |
| Search.FirstMatch | Assets/Plugins/UnityExtensions/RuntimeAPI/Extensions/UnityTypesExtension.cs:132-147 | a found value is in the sequence and matches |
| Search.FirstMatchIsLeast | Assets/Plugins/UnityExtensions/RuntimeAPI/Extensions/UnityTypesExtension.cs:132-147 | nothing is found exactly when nothing matches; otherwise the result is the earliest match |
| Search.FirstMatchOfConcat | Assets/Plugins/UnityExtensions/RuntimeAPI/Extensions/UnityTypesExtension.cs:138-144 | searching a concatenation searches the first part, then the second |
| Hierarchy.PreOrder | Assets/Plugins/UnityExtensions/RuntimeAPI/Extensions/UnityTypesExtension.cs:89-101 | the root-first walk starts at the root |
| Hierarchy.PostOrder | Assets/Plugins/UnityExtensions/RuntimeAPI/Extensions/UnityTypesExtension.cs:110-122 | the leaf-first walk ends at the root |
| Hierarchy.TraverseHierarchy | Assets/Plugins/UnityExtensions/RuntimeAPI/Extensions/UnityTypesExtension.cs:89-101 | the nodes handed to `operate` are the root-first walk, cut at the depth limit |
| Hierarchy.InverseTraverseHierarchy | Assets/Plugins/UnityExtensions/RuntimeAPI/Extensions/UnityTypesExtension.cs:110-122 | the nodes handed to `operate` are the leaf-first walk, cut at the depth limit |
| Hierarchy.InverseTraverseChildren | Assets/Plugins/UnityExtensions/RuntimeAPI/Extensions/UnityTypesExtension.cs:114-118 | the child loop hands over the children's leaf-first walks, in index order |
| Hierarchy.SearchHierarchy | Assets/Plugins/UnityExtensions/RuntimeAPI/Extensions/UnityTypesExtension.cs:132-147 | the result is the first node of the root-first walk that matches, or null |
| Hierarchy.SearchChildren | Assets/Plugins/UnityExtensions/RuntimeAPI/Extensions/UnityTypesExtension.cs:138-144 | the child loop returns the first match over the children's walks in order |
| Hierarchy.PreOrderDepth | Assets/Plugins/UnityExtensions/RuntimeAPI/Extensions/UnityTypesExtension.cs:89-101 | limit 0 visits only the root; a negative limit visits every node once |
| Hierarchy.PreOrderWithinLevels | Assets/Plugins/UnityExtensions/RuntimeAPI/Extensions/UnityTypesExtension.cs:88-101 | for every limit, a node is visited exactly when a path of child indices from the root reaches it in at most `depthLimit` steps (any number of steps for a negative limit): limit k > 0 visits the first k levels below the root and no deeper |
| Hierarchy.SameNodes | Assets/Plugins/UnityExtensions/RuntimeAPI/Extensions/UnityTypesExtension.cs:89-122 | both walks visit the same nodes, as many times each |
| Hierarchy.XY | Assets/Plugins/UnityExtensions/RuntimeAPI/Extensions/UnityTypesExtension.cs:159-162 | the x and y components |
| Hierarchy.YZ | Assets/Plugins/UnityExtensions/RuntimeAPI/Extensions/UnityTypesExtension.cs:165-168 | the y and z components |
| Hierarchy.XZ | Assets/Plugins/UnityExtensions/RuntimeAPI/Extensions/UnityTypesExtension.cs:171-174 | the x and z components |
| Hierarchy.PairsDetermine | Assets/Plugins/UnityExtensions/RuntimeAPI/Extensions/UnityTypesExtension.cs:159-174 | any two of the three pairs determine the vector |
| BitwiseKit.SetBit0 | Assets/Plugins/UnityExtensions/RuntimeAPI/Utilities/BitwiseKit.cs:12-54 | clearing a bit keeps the value within its width |
| BitwiseKit.SetBit1 | Assets/Plugins/UnityExtensions/RuntimeAPI/Utilities/BitwiseKit.cs:60-102 | setting a bit keeps the value within its width |
| BitwiseKit.ReverseBit | Assets/Plugins/UnityExtensions/RuntimeAPI/Utilities/BitwiseKit.cs:156-198 | flipping a bit keeps the value within its width |
| BitwiseKit.SetBit | Assets/Plugins/UnityExtensions/RuntimeAPI/Utilities/BitwiseKit.cs:108-150 | the chosen bit reads back as `is1`, within the width |
| BitwiseKit.SetBit1Sets | Assets/Plugins/UnityExtensions/RuntimeAPI/Utilities/BitwiseKit.cs:60-102 | after SetBit1 the bit reads 1 |
| BitwiseKit.SetBit0Clears | Assets/Plugins/UnityExtensions/RuntimeAPI/Utilities/BitwiseKit.cs:12-54 | after SetBit0 the bit reads 0 |
| BitwiseKit.SetBit0KeepsOthers | Assets/Plugins/UnityExtensions/RuntimeAPI/Utilities/BitwiseKit.cs:12-54 | SetBit0 leaves every other bit of the width as it was |
| BitwiseKit.SetBit1KeepsOthers | Assets/Plugins/UnityExtensions/RuntimeAPI/Utilities/BitwiseKit.cs:60-102 | SetBit1 leaves every other bit of the width as it was |
| BitwiseKit.ReverseBitKeepsOthers | Assets/Plugins/UnityExtensions/RuntimeAPI/Utilities/BitwiseKit.cs:156-198 | ReverseBit leaves every other bit as it was |
| BitwiseKit.ReverseBitFlips | Assets/Plugins/UnityExtensions/RuntimeAPI/Utilities/BitwiseKit.cs:156-198 | ReverseBit inverts the chosen bit |
| BitwiseKit.ReverseBitInvolution | Assets/Plugins/UnityExtensions/RuntimeAPI/Utilities/BitwiseKit.cs:156-198 | flipping the same bit twice gives back the value |
| BitwiseKit.SetBit0Idempotent | Assets/Plugins/UnityExtensions/RuntimeAPI/Utilities/BitwiseKit.cs:12-54 | clearing a bit twice is clearing it once |
| BitwiseKit.SetBit1Idempotent | Assets/Plugins/UnityExtensions/RuntimeAPI/Utilities/BitwiseKit.cs:60-102 | setting a bit twice is setting it once |
| BitwiseKit.GetBit | Assets/Plugins/UnityExtensions/RuntimeAPI/Utilities/BitwiseKit.cs:204-246 | a bit is set exactly when the value holds the whole single-bit mask |
| TextKit.IsDigit | Assets/Plugins/UnityExtensions/RuntimeAPI/Utilities/TextKit.cs:13-16 | true exactly for '0'..'9' |
| TextKit.IsEnglishLower | Assets/Plugins/UnityExtensions/RuntimeAPI/Utilities/TextKit.cs:22-25 | true exactly for 'a'..'z' |
| TextKit.IsEnglishUpper | Assets/Plugins/UnityExtensions/RuntimeAPI/Utilities/TextKit.cs:31-34 | true exactly for 'A'..'Z' |
| TextKit.IsEnglishLetter | Assets/Plugins/UnityExtensions/RuntimeAPI/Utilities/TextKit.cs:40-43 | a lower- or an upper-case English letter |
| TextKit.ScanForward | Assets/Plugins/UnityExtensions/RuntimeAPI/Utilities/TextKit.cs:49-77 | a negative start is out of range; otherwise the least index from the start whose character satisfies the test, or -1 |
| TextKit.ScanBackward | Assets/Plugins/UnityExtensions/RuntimeAPI/Utilities/TextKit.cs:83-111 | a start at or past the end is out of range; otherwise the greatest index up to the start whose character satisfies the test, or -1 |
| TextKit.IndexOfWhiteSpace | Assets/Plugins/UnityExtensions/RuntimeAPI/Utilities/TextKit.cs:49-60 | the first white-space index at or after the start, or -1; a negative start throws |
| TextKit.IndexOfNonWhiteSpace | Assets/Plugins/UnityExtensions/RuntimeAPI/Utilities/TextKit.cs:66-77 | the first non-white-space index at or after the start, or -1; a negative start throws |
| TextKit.LastIndexOfWhiteSpace | Assets/Plugins/UnityExtensions/RuntimeAPI/Utilities/TextKit.cs:83-94 | the last white-space index at or before the start, or -1; a start past the end throws |
| TextKit.LastIndexOfNonWhiteSpace | Assets/Plugins/UnityExtensions/RuntimeAPI/Utilities/TextKit.cs:100-111 | the last non-white-space index at or before the start, or -1; a start past the end throws |
| TextKit.IndexOf | Assets/Plugins/UnityExtensions/RuntimeAPI/Utilities/TextKit.cs:117-128 | the first index of the character at or after the start, or -1; a negative start throws |
| ScriptGenerating.Capitalized | Assets/Plugins/UnityExtension/EditorAPI/Utilities/ScriptGeneratingUtilities.cs:137-140 | a lower-case English letter becomes its upper-case letter; any other character is kept |
| ScriptGenerating.Clean | Assets/Plugins/UnityExtension/EditorAPI/Utilities/ScriptGeneratingUtilities.cs:123-143 | the sanitised rest is no longer than the input; at the start it begins with an allowed first character that is not lower case |
| ScriptGenerating.Kept | Assets/Plugins/UnityExtension/EditorAPI/Utilities/ScriptGeneratingUtilities.cs:127-134 | the characters that survive the filter are no more than the input |
| ScriptGenerating.CleanIsIdentifier | Assets/Plugins/UnityExtension/EditorAPI/Utilities/ScriptGeneratingUtilities.cs:123-143 | every character left is allowed at its position: letter or `_` first, then also digits |
| ScriptGenerating.SanitizedIsIdentifier | Assets/Plugins/UnityExtension/EditorAPI/Utilities/ScriptGeneratingUtilities.cs:123-145 | the sanitised name is an identifier and does not start lower case |
| ScriptGenerating.CleanIsKeptUpToCase | Assets/Plugins/UnityExtension/EditorAPI/Utilities/ScriptGeneratingUtilities.cs:123-143 | the result is exactly the kept characters, each kept or capitalised |
| ScriptGenerating.CleanOfIdentifier | Assets/Plugins/UnityExtension/EditorAPI/Utilities/ScriptGeneratingUtilities.cs:123-143 | an input that is already an identifier is kept, with at most its first character capitalised |
| ScriptGenerating.SanitizedIdempotent | Assets/Plugins/UnityExtension/EditorAPI/Utilities/ScriptGeneratingUtilities.cs:123-145 | sanitising a sanitised name changes nothing |
| ScriptGenerating.GetVariableName | Assets/Plugins/UnityExtension/EditorAPI/Utilities/ScriptGeneratingUtilities.cs:117-153 | the sanitised name, or the fallback when it is empty or already listed; the name returned is appended to the list |
| ScriptGenerating.SanitizeName | Assets/Plugins/UnityExtension/EditorAPI/Utilities/ScriptGeneratingUtilities.cs:119-145 | the loop drops each character not allowed where it stands and capitalises the first one kept and each one kept right after a dropped one; the result is Sanitized of the name |
| ScriptGenerating.Slashes | Assets/Plugins/UnityExtension/EditorAPI/Utilities/ScriptGeneratingUtilities.cs:164-171 | the number of `/` is at most the length |
| ScriptGenerating.GetSubpath | Assets/Plugins/UnityExtension/EditorAPI/Utilities/ScriptGeneratingUtilities.cs:157-174 | with removeExtension, a path without `.` throws, else the extension is dropped; the result is the path's tail after the (depth+1)-th `/` from the end, or the whole path when it has no more levels |
| ScriptGenerating.TrailingLevels | Assets/Plugins/UnityExtension/EditorAPI/Utilities/ScriptGeneratingUtilities.cs:164-173 | the backward scan keeps exactly the last max(depth,0)+1 levels |
| ScriptGenerating.SlashesOfSuffix | Assets/Plugins/UnityExtension/EditorAPI/Utilities/ScriptGeneratingUtilities.cs:164-171 | a suffix after a `/` has fewer slashes than the path |
| ScriptGenerating.LastDot | Assets/Plugins/UnityExtension/EditorAPI/Utilities/ScriptGeneratingUtilities.cs:161 | LastIndexOf('.'): the index of the last `.`, or -1 exactly when there is none |
| ScriptGenerating.LastDotIsLastMatch | Assets/Plugins/UnityExtension/EditorAPI/Utilities/ScriptGeneratingUtilities.cs:161 | the backward scan for `.` finds the same index as LastDot |
| MathKit.Normalize | Assets/Plugins/UnityExtensions/RuntimeAPI/Utilities/MathKit.cs:87-92 | the sign of the value: 1, -1 or 0, and sign times magnitude is the value |
| MathKit.Log2 | Assets/Plugins/UnityExtensions/RuntimeAPI/Utilities/MathKit.cs:519 | for a power of two n, the k with 2^k = n |
| MathKit.DitherInRange | Assets/Plugins/UnityExtensions/RuntimeAPI/Utilities/MathKit.cs:532-544 | every entry of the 2^k matrix lies in [0, 4^k) |
| MathKit.DitherInjective | Assets/Plugins/UnityExtensions/RuntimeAPI/Utilities/MathKit.cs:532-544 | no two cells of the matrix hold the same entry |
| MathKit.CellOf | Assets/Plugins/UnityExtensions/RuntimeAPI/Utilities/MathKit.cs:532-544 | every value in [0, 4^k) is the entry of some cell, so the matrix is a permutation of 0..4^k-1 |
| MathKit.DitherOrigin | Assets/Plugins/UnityExtensions/RuntimeAPI/Utilities/MathKit.cs:527-539 | the top-left entry is 0 at every size |
| MathKit.CreateOrderedDitheringMatrix | Assets/Plugins/UnityExtensions/RuntimeAPI/Utilities/MathKit.cs:517-553 | null exactly when size <= 1 or not a power of two; otherwise a new size x size matrix whose every entry is the recursive Bayer value |
| MathKit.Double | Assets/Plugins/UnityExtensions/RuntimeAPI/Utilities/MathKit.cs:532-544 | one doubling step turns the 2^k matrix into the 2^(k+1) matrix |
| MathKit.FillRow | Assets/Plugins/UnityExtensions/RuntimeAPI/Utilities/MathKit.cs:536-543 | row i of the input fills its four quadrant cells with 4v, 4v+1, 4v+2, 4v+3, and nothing else changes |
| MathKit.DoubledIsNext | Assets/Plugins/UnityExtensions/RuntimeAPI/Utilities/MathKit.cs:538-542 | the four quadrant rules give exactly the next-size matrix |
| MaskGUIKit.NamedSetBitsStep | Assets/Plugins/UnityExtensions/EditorAPI/Utilities/MaskGUIKit.cs:275-288 | the named set bits from bit i are bit i's name, when it is set and named, followed by those from bit i+1 |
| MaskGUIKit.GetMaskButtonText | Assets/Plugins/UnityExtensions/EditorAPI/Utilities/MaskGUIKit.cs:266-297 | "Nothing" for 0, "Everything" for all 32 bits, "(Nameless)" when no set bit is named, else the first one or two names, with ", ..." when there are more |
| MaskGUIKit.FirstNames | Assets/Plugins/UnityExtensions/EditorAPI/Utilities/MaskGUIKit.cs:271-288 | the loop counts the named set bits up to 3 and keeps the first two names |
| MaskGUIKit.VisitBit | Assets/Plugins/UnityExtensions/EditorAPI/Utilities/MaskGUIKit.cs:277-286 | one bit of the loop keeps the names seen so far a prefix of the named set bits, and stops at the third |
| MaskGUIKit.ButtonTextNames | Assets/Plugins/UnityExtensions/EditorAPI/Utilities/MaskGUIKit.cs:290-296 | the text starts with the first name and ends in ", ..." from three names on |
| MaskGUIKit.NamedBits | Assets/Plugins/UnityExtensions/EditorAPI/Utilities/MaskGUIKit.cs:45-54 | the collected bit numbers are no more than the bits scanned |
| MaskGUIKit.NamedBitsAscending | Assets/Plugins/UnityExtensions/EditorAPI/Utilities/MaskGUIKit.cs:45-54 | the collected bits ascend and are exactly the bits below n whose name is not empty |
| MaskGUIKit.Clamp | Assets/Plugins/UnityExtensions/EditorAPI/Utilities/MaskGUIKit.cs:89 | Mathf.Clamp tests the lower bound first: between the bounds when they are ordered, the value itself inside them, the lower bound below it |
| MaskGUIKit.HoverLineEscapes | Assets/Plugins/UnityExtensions/EditorAPI/Utilities/MaskGUIKit.cs:89 | in bit mode with no named bit, the hover line becomes -1 |
| MaskGUIKit.HoverLineCorrected | Assets/Plugins/UnityExtensions/EditorAPI/Utilities/MaskGUIKit.cs:89 | the corrected hover line is never negative, never past the last line, and the mouse's line when on a line |
| MaskGUIKit.HoverLineCorrectedAgrees | Assets/Plugins/UnityExtensions/EditorAPI/Utilities/MaskGUIKit.cs:89 | with at least one line, the corrected hover line is the code's |
| MaskGUIKit.MaskWindow.constructor | Assets/Plugins/UnityExtensions/EditorAPI/Utilities/MaskGUIKit.cs:19-29 | the static state before any Show: no names, hover line 0, value 0 |
| MaskGUIKit.MaskWindow.Show | Assets/Plugins/UnityExtensions/EditorAPI/Utilities/MaskGUIKit.cs:38-60 | stores mode, control id and value, resets the hover line, and lists the named bits in ascending order with their names; slots past the count keep their old contents |
| MaskGUIKit.MaskWindow.CollectNamedBits | Assets/Plugins/UnityExtensions/EditorAPI/Utilities/MaskGUIKit.cs:43-54 | the loop fills the first slots with exactly the named bits and their names, leaving the rest |
| MaskGUIKit.MaskWindow.MouseMove | Assets/Plugins/UnityExtensions/EditorAPI/Utilities/MaskGUIKit.cs:88-95 | the hover line becomes the clamped mouse line |
| MaskGUIKit.MaskWindow.MouseDown | Assets/Plugins/UnityExtensions/EditorAPI/Utilities/MaskGUIKit.cs:97-110 | a click reading outside the bit array throws and keeps the value; otherwise bit mode picks the hovered bit, mask mode sets 0, all bits, or flips the hovered bit |
| MaskGUIKit.MaskWindow.MouseMoveCorrected | Assets/Plugins/UnityExtensions/EditorAPI/Utilities/MaskGUIKit.cs:88-95 | the corrected hover line is stored |
| MaskGUIKit.MaskWindow.MouseDownCorrected | Assets/Plugins/UnityExtensions/EditorAPI/Utilities/MaskGUIKit.cs:97-110 | with the corrected hover line every click succeeds; in bit mode with no named bit the value is kept |
| MaskGUIKit.BitIndex | Assets/Plugins/UnityExtensions/EditorAPI/Utilities/MaskGUIKit.cs:100-106 | a bit number is a shift amount below 32 |
| MaskGUIKit.ClickTwice | Assets/Plugins/UnityExtensions/EditorAPI/Utilities/MaskGUIKit.cs:104-106 | in mask mode, clicking a bit's line twice restores the value; "Nothing" and "Everything" are idempotent |
| ArrayExtension.SwapElements | Assets/Plugins/UnityExtensions/RuntimeAPI/Extensions/ArrayExtension.cs:153-155 | the two entries are exchanged, a permutation of the list |
| ArrayExtension.SetValues | Assets/Plugins/UnityExtensions/RuntimeAPI/Extensions/ArrayExtension.cs:18-26 | the entries from index up to index+count (int32 sum), or to the end for a non-positive count, become the value; the write that leaves the array throws, after the writes before it |
| ArrayExtension.SetValues2D | Assets/Plugins/UnityExtensions/RuntimeAPI/Extensions/ArrayExtension.cs:36-54 | non-positive end indices mean the last row or column; the rectangle is written row by row and throws exactly when it reaches outside the array, after the writes before that: a first row outside or a negative first column writes nothing, columns past the end leave only the first row's part written, rows past the end leave the rows inside written |
| ArrayExtension.FillRow | Assets/Plugins/UnityExtensions/RuntimeAPI/Extensions/ArrayExtension.cs:49-52 | one row of the rectangle: throws exactly when a column of it lies outside the array or the row does, after writing the columns inside; nothing else changes |
| ArrayExtension.FindNearest | Assets/Plugins/UnityExtensions/RuntimeAPI/Extensions/ArrayExtension.cs:61-80 | -1 exactly for a null or empty array; otherwise an index of least distance to the value, the first such |
| ArrayExtension.List.constructor | Assets/Plugins/UnityExtensions/RuntimeAPI/Extensions/ArrayExtension.cs:86 | a list holding the given items |
| ArrayExtension.List.Resize | Assets/Plugins/UnityExtensions/RuntimeAPI/Extensions/ArrayExtension.cs:86-105 | a negative size throws (RemoveRange) and changes nothing; otherwise the list has the new size, keeps its prefix and pads with newValue |
| ArrayExtension.List.ResizeNonGeneric | Assets/Plugins/UnityExtensions/RuntimeAPI/Extensions/ArrayExtension.cs:111-133 | like Resize, except that a negative size removes every element before throwing |
| ArrayExtension.Sort | Assets/Plugins/UnityExtensions/RuntimeAPI/Extensions/ArrayExtension.cs:141-161 | for any comparer: a non-positive count means to the end of the list (int32 difference); the call throws exactly when SortThrows says, that is when some pass, whose last index is index + count - 1 decremented once per pass in int32, reads outside the list; entries outside [index, index + count) never change and the list stays a permutation, also after a throw; for a comparer that is a consistent order (RankedBy, a real-valued ranking), a range inside the list ends sorted by compare and elements of equal rank keep their order (stability) |
| ArrayExtension.SortThrowsExactly | Assets/Plugins/UnityExtensions/RuntimeAPI/Extensions/ArrayExtension.cs:142-157 | Sort throws exactly when the range has at least two elements and reaches outside the list, except that a start at int.MaxValue (whose last index wraps negative) never throws, and when the count wraps to int.MinValue |
| ArrayExtension.SortCountFacts | Assets/Plugins/UnityExtensions/RuntimeAPI/Extensions/ArrayExtension.cs:142-146 | the count wraps to int.MinValue only for a start of Count - 2^31 with the count to the end; otherwise count - 1 does not wrap |
| ArrayExtension.PassEndNext | Assets/Plugins/UnityExtensions/RuntimeAPI/Extensions/ArrayExtension.cs:143-158 | lastIndex-- in int32 gives the end of the next pass |
| ArrayExtension.SortRound | Assets/Plugins/UnityExtensions/RuntimeAPI/Extensions/ArrayExtension.cs:147-160 | one turn of the outer loop, for any comparer: it throws exactly when its pass reads outside the list, otherwise no pass so far has thrown and the list is a rearrangement within the range; for a ranked comparer the rearrangement is stable and inside the list the ordered tail grows by one |
| ArrayExtension.ExchangeKeepsOrderByRank | Assets/Plugins/UnityExtensions/RuntimeAPI/Extensions/ArrayExtension.cs:151-156 | exchanging neighbours of different rank keeps the order of every rank |
| ArrayExtension.OfRankAppend | Assets/Plugins/UnityExtensions/RuntimeAPI/Extensions/ArrayExtension.cs:141-161 | the elements of one rank in a concatenation are those of each part, in order |
| ArrayExtension.LastPassDone | Assets/Plugins/UnityExtensions/RuntimeAPI/Extensions/ArrayExtension.cs:147-160 | once every pass is done the range is sorted |
| ArrayExtension.NextPassDone | Assets/Plugins/UnityExtensions/RuntimeAPI/Extensions/ArrayExtension.cs:149-159 | a pass that moves a greatest element to its end extends the sorted tail by one |
| ArrayExtension.Pass | Assets/Plugins/UnityExtensions/RuntimeAPI/Extensions/ArrayExtension.cs:149-157 | one pass over [lo, last], for any comparer: it throws exactly when it reads outside the list, after the exchanges before, and it is a rearrangement within [lo, last]; for a ranked comparer the rearrangement is stable, and a finished pass inside the list leaves a greatest element of the pass at last and keeps nothing in the pass greater than the ordered tail |
| ArrayExtension.PassEnds | Assets/Plugins/UnityExtensions/RuntimeAPI/Extensions/ArrayExtension.cs:149-157 | where the pass stops, by a throw or at its end, its state gives what the pass promises |
| ArrayExtension.PassStep | Assets/Plugins/UnityExtensions/RuntimeAPI/Extensions/ArrayExtension.cs:150-156 | for any comparer, the two reads throw, changing nothing, exactly when j or j + 1 lies outside the list; otherwise one comparison moves the pass state on to j + 1 |
| ArrayExtension.BubbleStep | Assets/Plugins/UnityExtensions/RuntimeAPI/Extensions/ArrayExtension.cs:151-156 | for any comparer, the neighbours are exchanged exactly when compare says greater, and nothing else changes; for a ranked comparer the greatest so far moves right and every rank keeps its order |
| ArrayExtension.BubbleFacts | Assets/Plugins/UnityExtensions/RuntimeAPI/Extensions/ArrayExtension.cs:151-156 | the exchange or its absence is a rearrangement of the two neighbours; for a ranked comparer it keeps each rank's order, puts a greatest element so far at j + 1 and keeps the pass below the ordered tail |
| ArrayExtension.NaturalOrderRanked | Assets/Plugins/UnityExtensions/RuntimeAPI/Extensions/ArrayExtension.cs:141-161 | a comparer giving the natural order of the reals (float elements) is a consistent order, ranked by the identity, so Sort's sorted and stable clauses apply to it |
| Randoms.NextSeed | Assets/Plugins/UnityExtension/RuntimeAPI/Supplements/Random.cs:22-32 | the Lehmer step keeps the seed in [0, 2147483645] |
| Randoms.ProductFitsIn64Bits | Assets/Plugins/UnityExtension/RuntimeAPI/Supplements/Random.cs:31 | the product by 48271 fits the 64-bit unsigned arithmetic |
| Randoms.LehmerProductNonZero | Assets/Plugins/UnityExtension/RuntimeAPI/Supplements/Random.cs:31 | the product is never a multiple of 2147483647, so the final subtraction never wraps |
| Randoms.SeedAfter | Assets/Plugins/UnityExtension/RuntimeAPI/Supplements/Random.cs:22-45 | after one or more steps the seed is in [0, 2147483645], so every draw of Next01 lies in [0, 1) |
| Randoms.RangeIntendedInRange | Assets/Plugins/UnityExtension/RuntimeAPI/Supplements/Random.cs:95-98 | the intended Range(int) lies in [minValue, maxValue) |
| Randoms.ScaledTruncateBelow | Assets/Plugins/UnityExtension/RuntimeAPI/Supplements/Random.cs:97 | truncating width times a draw gives an integer in [0, width) |
| Randoms.ScaledBelow | Assets/Plugins/UnityExtension/RuntimeAPI/Supplements/Random.cs:97 | width times a draw lies in [0, width) |
| Randoms.RangeAsWrittenWhenNoOverflow | Assets/Plugins/UnityExtension/RuntimeAPI/Supplements/Random.cs:95-98 | when maxValue - minValue fits an int, Range(int) is the intended value |
| Randoms.WidthDoesNotWrap | Assets/Plugins/UnityExtension/RuntimeAPI/Supplements/Random.cs:95-98 | when the width fits, the as-written result is the intended one wrapped to 32 bits |
| Randoms.RangeAsWrittenEscapes | Assets/Plugins/UnityExtension/RuntimeAPI/Supplements/Random.cs:95-98 | Range(-2, int.MaxValue) after seed 0 returns -48272, below minValue |
| Randoms.Random.Create | Assets/Plugins/UnityExtension/RuntimeAPI/Supplements/Random.cs:51-54 | a generator holding the given seed |
| Randoms.Random.Next | Assets/Plugins/UnityExtension/RuntimeAPI/Supplements/Random.cs:22-32 | the seed takes one Lehmer step |
| Randoms.Random.Next01 | Assets/Plugins/UnityExtension/RuntimeAPI/Supplements/Random.cs:38-45 | one step, and the draw is the new seed over 2147483646, in [0, 1) |
| Randoms.Random.Range | Assets/Plugins/UnityExtension/RuntimeAPI/Supplements/Random.cs:95-98 | one step; the result is the 32-bit as-written value, in [minValue, maxValue) whenever the width fits an int |
| Randoms.Random.RangeCorrected | Assets/Plugins/UnityExtension/RuntimeAPI/Supplements/Random.cs:95-98 | one step; the result is min + floor(width x draw), computed without wrap-around |
| Randoms.Random.Test | Assets/Plugins/UnityExtension/RuntimeAPI/Supplements/Random.cs:106-109 | one step; true exactly when the draw is below the probability |
| Randoms.CreateFromShared | Assets/Plugins/UnityExtension/RuntimeAPI/Supplements/Random.cs:61-65 | the shared generator takes one step and the new one gets its seed's complement |
| RandomExtension.ChooseBy | Assets/Plugins/UnityExtensions/RuntimeAPI/Extensions/RandomExtension.cs:88-102 | one draw; the result is the first index whose cumulative probability passes the draw, or the last index |
| RandomExtension.CumulativeScan | Assets/Plugins/UnityExtensions/RuntimeAPI/Extensions/RandomExtension.cs:92-101 | the scan stops at the first index where the draw minus the sum so far is below its probability |
| RandomExtension.Choose | Assets/Plugins/UnityExtensions/RuntimeAPI/Extensions/RandomExtension.cs:112-131 | a non-positive count means to the end; a negative start throws; otherwise as ChooseBy over the list, within it for a start inside it |
| RandomExtension.Shuffle | Assets/Plugins/UnityExtensions/RuntimeAPI/Extensions/RandomExtension.cs:141-161 | the range end is startIndex + count, or the list end when that is not inside (startIndex, Count]; positions startIndex up to but not including the last one are each exchanged, in order, with a partner drawn from itself to the last position: the list is exactly Swaps of the old list by those partners; a negative start throws after its first draw and before any exchange; the list stays a permutation and the outside is unchanged; the generator ends `SeedAfter` one step per draw, and partner k is the as-written Range(startIndex + k, last + 1) of the (k+1)-th step from the old seed, so the shuffle is determined by the seed |
| RandomExtension.Swaps | Assets/Plugins/UnityExtensions/RuntimeAPI/Extensions/RandomExtension.cs:154-159 | applying the exchanges in order keeps the length |
| RandomExtension.SwapsNext | Assets/Plugins/UnityExtensions/RuntimeAPI/Extensions/RandomExtension.cs:154-159 | one more partner drawn inside the list adds one more exchange at the next position |
| RandomExtension.SwapsPermutes | Assets/Plugins/UnityExtensions/RuntimeAPI/Extensions/RandomExtension.cs:154-159 | the exchanges give a permutation of the list |
| RandomExtension.SwapsOutside | Assets/Plugins/UnityExtensions/RuntimeAPI/Extensions/RandomExtension.cs:154-159 | with every partner between its position and the last, nothing outside [start, last] moves |
| RandomExtension.SwapNext | Assets/Plugins/UnityExtensions/RuntimeAPI/Extensions/RandomExtension.cs:156-158 | the three assignments exchange position i with its partner, as Swaps says |
| RandomExtension.Exchange | Assets/Plugins/UnityExtensions/RuntimeAPI/Extensions/RandomExtension.cs:156-158 | an exchange keeps the length and puts each of the two entries at the other's position |
| RandomExtension.DrawPartner | Assets/Plugins/UnityExtensions/RuntimeAPI/Extensions/RandomExtension.cs:156 | the loop's draw `random.Range(i, lastIndex + 1)`: one more generator step, the drawn partner is the as-written Range of that step, and for i >= 0 it lies in [i, lastIndex] |
| RandomExtension.ExchangePermutes | Assets/Plugins/UnityExtensions/RuntimeAPI/Extensions/RandomExtension.cs:156-158 | an exchange of two entries keeps the multiset |
| Union64Model.Unsigned | Assets/Plugins/UnityExtensions/RuntimeAPI/Supplements/Union64.cs:27-79 | the little-endian value of n bytes is below 256^n |
| Union64Model.Encode | Assets/Plugins/UnityExtensions/RuntimeAPI/Supplements/Union64.cs:27-79 | a value below 256^n as n little-endian bytes |
| Union64Model.Signed | Assets/Plugins/UnityExtensions/RuntimeAPI/Supplements/Union64.cs:37-77 | the two's-complement value of n bytes lies in [-256^n/2, 256^n/2) |
| Union64Model.TwosComplement | Assets/Plugins/UnityExtensions/RuntimeAPI/Supplements/Union64.cs:37-77 | a signed value's bit pattern: itself when not negative, else itself plus 256^n |
| Union64Model.UnsignedOfEncode | Assets/Plugins/UnityExtensions/RuntimeAPI/Supplements/Union64.cs:27-79 | reading back the bytes written for a value gives the value |
| Union64Model.EncodeOfUnsigned | Assets/Plugins/UnityExtensions/RuntimeAPI/Supplements/Union64.cs:27-79 | writing the value read from bytes gives the bytes |
| Union64Model.SignedOfEncode | Assets/Plugins/UnityExtensions/RuntimeAPI/Supplements/Union64.cs:37-77 | a signed value survives its two's-complement bytes |
| Union64Model.UnsignedOfConcat | Assets/Plugins/UnityExtensions/RuntimeAPI/Supplements/Union64.cs:27-79 | the bytes at higher offsets weigh 256^k more: little-endian layout |
| Union64Model.UnsignedOfZeros | Assets/Plugins/UnityExtensions/RuntimeAPI/Supplements/Union64.cs:123-134 | zero bytes read as 0 |
| Union64Model.WidenedViews | Assets/Plugins/UnityExtensions/RuntimeAPI/Supplements/Union64.cs:123-134 | after construction the field of that width reads the value, the whole 64 bits read the value too, and the bytes above are 0 |
| Union64Model.WidenedSignedView | Assets/Plugins/UnityExtensions/RuntimeAPI/Supplements/Union64.cs:123-134 | a signed constructor's value reads back through the signed field |
| Union64Model.Loaded | Assets/Plugins/UnityExtensions/RuntimeAPI/Supplements/Union64.cs:171-178 | Read's copy of n buffer bytes into the first n union bytes |
| Union64Model.Stored | Assets/Plugins/UnityExtensions/RuntimeAPI/Supplements/Union64.cs:187-194 | Write's copy of the first n union bytes into the buffer at the offset |
| Union64Model.LoadedAfterStored | Assets/Plugins/UnityExtensions/RuntimeAPI/Supplements/Union64.cs:171-194 | reading back what was written at the same offset gives the written bytes |
| Union64Model.StoredAfterLoaded | Assets/Plugins/UnityExtensions/RuntimeAPI/Supplements/Union64.cs:171-194 | writing back what was read at the same offset leaves the buffer unchanged |
| Union64Model.Reach | Assets/Plugins/UnityExtensions/RuntimeAPI/Supplements/Union64.cs:171-194 | how many bytes a copy can move before it leaves the buffer or the union |
| Union64Model.ReachMeansFits | Assets/Plugins/UnityExtensions/RuntimeAPI/Supplements/Union64.cs:171-194 | a copy of count bytes succeeds exactly when count <= 0 or it fits both the buffer and the eight bytes |
| Union64Model.Union64.constructor | Assets/Plugins/UnityExtensions/RuntimeAPI/Supplements/Union64.cs:123-134 | all eight bytes zero |
| Union64Model.Union64.FromUnsigned | Assets/Plugins/UnityExtensions/RuntimeAPI/Supplements/Union64.cs:123-134 | the unsigned value stored in its width, the rest zero |
| Union64Model.Union64.FromSigned | Assets/Plugins/UnityExtensions/RuntimeAPI/Supplements/Union64.cs:123-134 | the signed value's two's complement stored in its width, the rest zero |
| Union64Model.Union64.UnsignedView | Assets/Plugins/UnityExtensions/RuntimeAPI/Supplements/Union64.cs:27-79 | a field read as an unsigned value lies in its width's range |
| Union64Model.Union64.SignedView | Assets/Plugins/UnityExtensions/RuntimeAPI/Supplements/Union64.cs:37-77 | a field read as a signed value lies in its width's range |
| Union64Model.Union64.BoolView | Assets/Plugins/UnityExtensions/RuntimeAPI/Supplements/Union64.cs:17-25 | a bool field is true exactly when its byte is not 0 |
| Union64Model.Union64.Get | Assets/Plugins/UnityExtensions/RuntimeAPI/Supplements/Union64.cs:91-104 | byte0..byte7 for index 0..7; any other index throws IndexOutOfRange |
| Union64Model.Union64.Set | Assets/Plugins/UnityExtensions/RuntimeAPI/Supplements/Union64.cs:106-120 | stores the byte for index 0..7 and throws for any other index, changing no other byte |
| Union64Model.Union64.Read | Assets/Plugins/UnityExtensions/RuntimeAPI/Supplements/Union64.cs:171-178 | copies count bytes from the buffer at offset into byte0.. and advances offset by count; a copy past either end throws after the bytes before it, with offset already advanced past the failing byte |
| Union64Model.Union64.Write | Assets/Plugins/UnityExtensions/RuntimeAPI/Supplements/Union64.cs:187-194 | copies count bytes of the union into the buffer at offset and advances offset by count, failing the same way |
| Union64Model.Union64.ReadValue | Assets/Plugins/UnityExtensions/RuntimeAPI/Supplements/Union64.cs:202-491 | each typed Read copies the value's size from the buffer and advances offset by it; a read leaving the buffer throws after loading the bytes that fit, with offset already advanced past the failing byte, as Read |
| Union64Model.Union64.WriteValue | Assets/Plugins/UnityExtensions/RuntimeAPI/Supplements/Union64.cs:213-506 | each typed Write copies the value's size into the buffer and advances offset by it; a write leaving the buffer throws after storing the bytes that fit, with offset already advanced past the failing byte, as Write |
| Union64Model.SizeOf | Assets/Plugins/UnityExtensions/RuntimeAPI/Supplements/Union64.cs:202-506 | 1 byte for bool, byte, sbyte; 2 for char, short, ushort; 4 for int, uint, float; 8 for long, ulong, double |
| Union64Model.WriteThenRead | Assets/Plugins/UnityExtensions/RuntimeAPI/Supplements/Union64.cs:171-194 | a Write and a Read of the same span succeed together, and the reader gets the writer's bytes, keeping the rest |
| Ranges.Range.constructor | Assets/Plugins/UnityExtension/RuntimeAPI/Supplements/Range.cs:26-30 | the range holds the given min and max as they are, unsorted if so given |
| Ranges.Range.Size | Assets/Plugins/UnityExtension/RuntimeAPI/Supplements/Range.cs:37-39 | negative exactly when the ends are out of order; the ends lie half the size either side of the center |
| Ranges.Range.Center | Assets/Plugins/UnityExtension/RuntimeAPI/Supplements/Range.cs:53-55 | as far from min as from max, and between them in a sorted range |
| Ranges.Range.Contains | Assets/Plugins/UnityExtension/RuntimeAPI/Supplements/Range.cs:82-85 | an unsorted range holds nothing |
| Ranges.ContainsNearCenter | Assets/Plugins/UnityExtension/RuntimeAPI/Supplements/Range.cs:37-85 | a value is held exactly when it is at most half the size from the center |
| Ranges.Range.Intersects | Assets/Plugins/UnityExtension/RuntimeAPI/Supplements/Range.cs:102-105 | two sorted ranges intersect exactly when the larger min does not exceed the smaller max |
| Ranges.Range.SetSize | Assets/Plugins/UnityExtension/RuntimeAPI/Supplements/Range.cs:37-46 | the new size is the value and the center stays where it was |
| Ranges.Range.SetCenter | Assets/Plugins/UnityExtension/RuntimeAPI/Supplements/Range.cs:53-62 | the new center is the value and the size stays |
| Ranges.Range.SortMinMax | Assets/Plugins/UnityExtension/RuntimeAPI/Supplements/Range.cs:68-76 | afterwards min <= max, holding the same two ends, swapped exactly when they were reversed |
| Ranges.Range.Closest | Assets/Plugins/UnityExtension/RuntimeAPI/Supplements/Range.cs:91-96 | a value inside is its own closest point; for a sorted range the result lies in the range and no value of the range is nearer |
| Ranges.Range.GetIntersection | Assets/Plugins/UnityExtension/RuntimeAPI/Supplements/Range.cs:111-116 | the new range holds exactly the values held by both ranges |
| Ranges.IntersectsIffShared | Assets/Plugins/UnityExtension/RuntimeAPI/Supplements/Range.cs:102-105 | two sorted ranges intersect exactly when some value lies in both |
| Ranges.Range.SignedDistance | Assets/Plugins/UnityExtension/RuntimeAPI/Supplements/Range.cs:122-127 | negative exactly below min; for a sorted range the offset of the value from its closest point |
| Ranges.Range.Distance | Assets/Plugins/UnityExtension/RuntimeAPI/Supplements/Range.cs:133-138 | the absolute signed distance |
| Ranges.DistanceZeroIffContains | Assets/Plugins/UnityExtension/RuntimeAPI/Supplements/Range.cs:133-138 | a sorted range is at distance zero from exactly its own values |
| Ranges.Range.EncapsulateValue | Assets/Plugins/UnityExtension/RuntimeAPI/Supplements/Range.cs:144-148 | a value below min becomes the min, otherwise max grows to the value; a sorted range then holds the value and everything it held |
| Ranges.Range.EncapsulateRange | Assets/Plugins/UnityExtension/RuntimeAPI/Supplements/Range.cs:154-158 | the range grows to the smaller min and the larger max and holds everything either range held |
| Ranges.Range.Expand | Assets/Plugins/UnityExtension/RuntimeAPI/Supplements/Range.cs:164-168 | both ends move out by delta: the center stays and the size grows by twice delta |
| Ranges.Range.Move | Assets/Plugins/UnityExtension/RuntimeAPI/Supplements/Range.cs:174-178 | both ends shift by delta: the size stays and v + delta is held exactly when v was |
| Ranges2.Range2.constructor | Assets/Plugins/UnityExtension/RuntimeAPI/Supplements/Range2.cs:27-31 | copies of the two axis ranges |
| Ranges2.Range2.FromCorners | Assets/Plugins/UnityExtension/RuntimeAPI/Supplements/Range2.cs:37-43 | the box with the given min and max corners |
| Ranges2.Range2.Size | Assets/Plugins/UnityExtension/RuntimeAPI/Supplements/Range2.cs:78-80 | no component negative exactly when the box is sorted; the corners lie half the size either side of the center |
| Ranges2.Range2.Center | Assets/Plugins/UnityExtension/RuntimeAPI/Supplements/Range2.cs:93-95 | per axis as far from the min as from the max, and inside a sorted box |
| Ranges2.Range2.Contains | Assets/Plugins/UnityExtension/RuntimeAPI/Supplements/Range2.cs:117-120 | an unsorted box holds nothing |
| Ranges2.ContainsNearCenter2 | Assets/Plugins/UnityExtension/RuntimeAPI/Supplements/Range2.cs:117-120 | a point is held exactly when on every axis it is at most half the size from the center |
| Ranges2.Range2.Intersects | Assets/Plugins/UnityExtension/RuntimeAPI/Supplements/Range2.cs:137-140 | two sorted boxes intersect exactly when on every axis the larger min does not exceed the smaller max |
| Ranges2.Range2.SetMin | Assets/Plugins/UnityExtension/RuntimeAPI/Supplements/Range2.cs:49-57 | the min corner becomes the value, the max corner stays |
| Ranges2.Range2.SetMax | Assets/Plugins/UnityExtension/RuntimeAPI/Supplements/Range2.cs:63-71 | the max corner becomes the value, the min corner stays |
| Ranges2.Range2.SetSize | Assets/Plugins/UnityExtension/RuntimeAPI/Supplements/Range2.cs:78-86 | the size becomes the value around the same center |
| Ranges2.Range2.SetCenter | Assets/Plugins/UnityExtension/RuntimeAPI/Supplements/Range2.cs:93-101 | the center becomes the value with the same size |
| Ranges2.Range2.SortMinMax | Assets/Plugins/UnityExtension/RuntimeAPI/Supplements/Range2.cs:107-111 | each axis sorted, swapped exactly when it was reversed |
| Ranges2.Range2.Closest | Assets/Plugins/UnityExtension/RuntimeAPI/Supplements/Range2.cs:126-131 | the closest value per axis: a point inside is its own closest point, and a sorted box holds the result |
| Ranges2.Range2.GetIntersection | Assets/Plugins/UnityExtension/RuntimeAPI/Supplements/Range2.cs:146-151 | the box of points held by both boxes |
| Ranges2.IntersectsIffShared2 | Assets/Plugins/UnityExtension/RuntimeAPI/Supplements/Range2.cs:137-140 | two sorted boxes intersect exactly when some point lies in both |
| Ranges2.Range2.SignedDistance2 | Assets/Plugins/UnityExtension/RuntimeAPI/Supplements/Range2.cs:157-162 | the per-axis signed distance, the point's offset from its closest point in a sorted box |
| Ranges2.Range2.Distance2 | Assets/Plugins/UnityExtension/RuntimeAPI/Supplements/Range2.cs:168-173 | the per-axis absolute distance |
| Ranges2.Range2.SqrDistance | Assets/Plugins/UnityExtension/RuntimeAPI/Supplements/Range2.cs:179-182 | the squared distance is never negative and is zero on the points of a sorted box |
| Ranges2.Range2.EncapsulatePoint | Assets/Plugins/UnityExtension/RuntimeAPI/Supplements/Range2.cs:197-201 | each axis grows to the point; a sorted box then holds the point and everything it held |
| Ranges2.Range2.EncapsulateRange | Assets/Plugins/UnityExtension/RuntimeAPI/Supplements/Range2.cs:207-211 | the box grows to hold everything either box held |
| Ranges2.Range2.Expand | Assets/Plugins/UnityExtension/RuntimeAPI/Supplements/Range2.cs:217-221 | each axis grows by its delta on both sides around the same center |
| Ranges2.Range2.ExpandEvenly | Assets/Plugins/UnityExtension/RuntimeAPI/Supplements/Range2.cs:227-231 | both axes grow by the same delta on both sides around the same center |
| Ranges2.Range2.Move | Assets/Plugins/UnityExtension/RuntimeAPI/Supplements/Range2.cs:237-241 | the box shifts by delta: p + delta is held exactly when p was |
| Ranges3.Range3.constructor | Assets/Plugins/UnityExtension/RuntimeAPI/Supplements/Range3.cs:17-22 | copies of the three axis ranges |
| Ranges3.Range3.FromCorners | Assets/Plugins/UnityExtension/RuntimeAPI/Supplements/Range3.cs:25-33 | the box with the given min and max corners |
| Ranges3.Range3.Size | Assets/Plugins/UnityExtension/RuntimeAPI/Supplements/Range3.cs:70-72 | no component negative exactly when the box is sorted; the corners lie half the size either side of the center |
| Ranges3.Range3.Center | Assets/Plugins/UnityExtension/RuntimeAPI/Supplements/Range3.cs:86-88 | per axis as far from the min as from the max, and inside a sorted box |
| Ranges3.Range3.Contains | Assets/Plugins/UnityExtension/RuntimeAPI/Supplements/Range3.cs:112-115 | an unsorted box holds nothing |
| Ranges3.ContainsNearCenter3 | Assets/Plugins/UnityExtension/RuntimeAPI/Supplements/Range3.cs:112-115 | a point is held exactly when on every axis it is at most half the size from the center |
| Ranges3.Range3.Intersects | Assets/Plugins/UnityExtension/RuntimeAPI/Supplements/Range3.cs:133-136 | two sorted boxes intersect exactly when on every axis the larger min does not exceed the smaller max |
| Ranges3.Range3.SetMin | Assets/Plugins/UnityExtension/RuntimeAPI/Supplements/Range3.cs:39-48 | the min corner becomes the value, the max corner stays |
| Ranges3.Range3.SetMax | Assets/Plugins/UnityExtension/RuntimeAPI/Supplements/Range3.cs:54-63 | the max corner becomes the value, the min corner stays |
| Ranges3.Range3.SetSize | Assets/Plugins/UnityExtension/RuntimeAPI/Supplements/Range3.cs:70-79 | the size becomes the value around the same center |
| Ranges3.Range3.SetCenter | Assets/Plugins/UnityExtension/RuntimeAPI/Supplements/Range3.cs:86-95 | the center becomes the value with the same size |
| Ranges3.Range3.SortMinMax | Assets/Plugins/UnityExtension/RuntimeAPI/Supplements/Range3.cs:101-106 | each axis sorted, swapped exactly when it was reversed |
| Ranges3.Range3.Closest | Assets/Plugins/UnityExtension/RuntimeAPI/Supplements/Range3.cs:121-127 | the closest value per axis: a point inside is its own closest point, and a sorted box holds the result |
| Ranges3.Range3.GetIntersection | Assets/Plugins/UnityExtension/RuntimeAPI/Supplements/Range3.cs:142-148 | the box of points held by both boxes |
| Ranges3.IntersectsIffShared3 | Assets/Plugins/UnityExtension/RuntimeAPI/Supplements/Range3.cs:133-136 | two sorted boxes intersect exactly when some point lies in both |
| Ranges3.Range3.SignedDistance3 | Assets/Plugins/UnityExtension/RuntimeAPI/Supplements/Range3.cs:154-160 | the per-axis signed distance, the point's offset from its closest point in a sorted box |
| Ranges3.Range3.Distance3 | Assets/Plugins/UnityExtension/RuntimeAPI/Supplements/Range3.cs:166-172 | the per-axis absolute distance |
| Ranges3.Range3.SqrDistance | Assets/Plugins/UnityExtension/RuntimeAPI/Supplements/Range3.cs:178-181 | the squared distance is never negative and is zero on the points of a sorted box |
| Ranges3.Range3.EncapsulatePoint | Assets/Plugins/UnityExtension/RuntimeAPI/Supplements/Range3.cs:196-201 | each axis grows to the point; a sorted box then holds the point and everything it held |
| Ranges3.Range3.EncapsulateRange | Assets/Plugins/UnityExtension/RuntimeAPI/Supplements/Range3.cs:207-212 | the box grows to hold everything either box held |
| Ranges3.Range3.Expand | Assets/Plugins/UnityExtension/RuntimeAPI/Supplements/Range3.cs:218-223 | each axis grows by its delta on both sides around the same center |
| Ranges3.Range3.ExpandEvenly | Assets/Plugins/UnityExtension/RuntimeAPI/Supplements/Range3.cs:229-234 | all axes grow by the same delta on both sides around the same center |
| Ranges3.Range3.Move | Assets/Plugins/UnityExtension/RuntimeAPI/Supplements/Range3.cs:240-245 | the box shifts by delta: p + delta is held exactly when p was |
| QuickLinkedLists.Store | Assets/Plugins/UnityExtensions/RuntimeAPI/Supplements/QuickLinkedList.cs:115-131 | Add reuses the slot on top of the free-id stack, popping it, or appends a slot when the stack is empty; no other slot changes |
| QuickLinkedLists.TakesFreeSlot | Assets/Plugins/UnityExtensions/RuntimeAPI/Supplements/QuickLinkedList.cs:115-131 | in a well-formed list the slot Add takes never holds a live node |
| QuickLinkedLists.InsertIntact | Assets/Plugins/UnityExtensions/RuntimeAPI/Supplements/QuickLinkedList.cs:164-265 | linking a new node between two neighbours keeps the list well formed and inserts its value at that position |
| QuickLinkedLists.RemoveIntact | Assets/Plugins/UnityExtensions/RuntimeAPI/Supplements/QuickLinkedList.cs:134-158 | unlinking a node and freeing its slot keeps the list well formed and removes its value at that position |
| QuickLinkedLists.RelabelIntact | Assets/Plugins/UnityExtensions/RuntimeAPI/Supplements/QuickLinkedList.cs:62-72 | changing a live node's value keeps the list well formed and changes only that position's value |
| QuickLinkedLists.AddFirstIntact | Assets/Plugins/UnityExtensions/RuntimeAPI/Supplements/QuickLinkedList.cs:164-179 | AddFirst's updates put the new id and value in front of the list and keep it well formed |
| QuickLinkedLists.AddLastIntact | Assets/Plugins/UnityExtensions/RuntimeAPI/Supplements/QuickLinkedList.cs:186-201 | AddLast's updates put the new id and value at the end of the list and keep it well formed |
| QuickLinkedLists.AddAfterIntact | Assets/Plugins/UnityExtensions/RuntimeAPI/Supplements/QuickLinkedList.cs:208-233 | AddAfter's updates put the new id and value right after id and keep the list well formed |
| QuickLinkedLists.AddBeforeIntact | Assets/Plugins/UnityExtensions/RuntimeAPI/Supplements/QuickLinkedList.cs:240-265 | AddBefore's updates put the new id and value right before id and keep the list well formed |
| QuickLinkedLists.UnlinkIntact | Assets/Plugins/UnityExtensions/RuntimeAPI/Supplements/QuickLinkedList.cs:134-158 | unlinking with the successor pointed at the removed node's predecessor keeps the list well formed, removes exactly that id and value, and pushes the id on the free stack |
| QuickLinkedLists.UnlinkNodesAsWritten | Assets/Plugins/UnityExtensions/RuntimeAPI/Supplements/QuickLinkedList.cs:134-158 | the private Remove's node updates in the order written: the node's previous is reset before the successor is relinked |
| QuickLinkedLists.UnlinkAsWrittenAtEnds | Assets/Plugins/UnityExtensions/RuntimeAPI/Supplements/QuickLinkedList.cs:134-158 | as written, removing the first or the last node still keeps the list well formed |
| QuickLinkedLists.UnlinkAsWrittenInMiddle | Assets/Plugins/UnityExtensions/RuntimeAPI/Supplements/QuickLinkedList.cs:134-158 | as written, removing a node with neighbours on both sides leaves its successor's previous at -1, so the links no longer chain the list; when that successor is last it then fails the indexer's validity test |
| QuickLinkedLists.QuickLinkedList.constructor | Assets/Plugins/UnityExtensions/RuntimeAPI/Supplements/QuickLinkedList.cs:79-85 | an empty list: no slots, no free ids, first and last -1 |
| QuickLinkedLists.QuickLinkedList.Count | Assets/Plugins/UnityExtensions/RuntimeAPI/Supplements/QuickLinkedList.cs:44 | slots minus free ids is the number of live nodes |
| QuickLinkedLists.QuickLinkedList.UsableIffLive | Assets/Plugins/UnityExtensions/RuntimeAPI/Supplements/QuickLinkedList.cs:50-73 | the indexer's test (previous != next or id is first) accepts exactly the live ids of a well-formed list |
| QuickLinkedLists.QuickLinkedList.Get | Assets/Plugins/UnityExtensions/RuntimeAPI/Supplements/QuickLinkedList.cs:52-61 | an id outside the slots throws out of range; a free slot throws "invalid id"; a live id gives its value |
| QuickLinkedLists.QuickLinkedList.GetNode | Assets/Plugins/UnityExtensions/RuntimeAPI/Supplements/QuickLinkedList.cs:91-94 | the slot's node for any slot, a cleared node for a free slot; out of range throws |
| QuickLinkedLists.QuickLinkedList.GetPrevious | Assets/Plugins/UnityExtensions/RuntimeAPI/Supplements/QuickLinkedList.cs:100-103 | a live id's previous is the id before it in list order, -1 for the first |
| QuickLinkedLists.QuickLinkedList.GetNext | Assets/Plugins/UnityExtensions/RuntimeAPI/Supplements/QuickLinkedList.cs:109-112 | a live id's next is the id after it in list order, -1 for the last |
| QuickLinkedLists.QuickLinkedList.Set | Assets/Plugins/UnityExtensions/RuntimeAPI/Supplements/QuickLinkedList.cs:62-72 | a live id gets the new value at its position and nothing else changes; any other id throws and changes nothing |
| QuickLinkedLists.QuickLinkedList.AddNode | Assets/Plugins/UnityExtensions/RuntimeAPI/Supplements/QuickLinkedList.cs:115-131 | Add's slot choice, as Store |
| QuickLinkedLists.QuickLinkedList.AddFirst | Assets/Plugins/UnityExtensions/RuntimeAPI/Supplements/QuickLinkedList.cs:164-179 | the new id, the reused free id or the next slot, goes in front with its value |
| QuickLinkedLists.QuickLinkedList.AddLast | Assets/Plugins/UnityExtensions/RuntimeAPI/Supplements/QuickLinkedList.cs:186-201 | the new id, the reused free id or the next slot, goes at the end with its value |
| QuickLinkedLists.QuickLinkedList.AddAfter | Assets/Plugins/UnityExtensions/RuntimeAPI/Supplements/QuickLinkedList.cs:208-233 | for a live id the new id and value go right after it; out of range or a free id throws and changes nothing |
| QuickLinkedLists.QuickLinkedList.LinkAfter | Assets/Plugins/UnityExtensions/RuntimeAPI/Supplements/QuickLinkedList.cs:214-232 | the new id and value go right after a live id |
| QuickLinkedLists.QuickLinkedList.AddBefore | Assets/Plugins/UnityExtensions/RuntimeAPI/Supplements/QuickLinkedList.cs:240-265 | for a live id the new id and value go right before it; out of range or a free id throws and changes nothing |
| QuickLinkedLists.QuickLinkedList.LinkBefore | Assets/Plugins/UnityExtensions/RuntimeAPI/Supplements/QuickLinkedList.cs:246-264 | the new id and value go right before a live id |
| QuickLinkedLists.QuickLinkedList.Clear | Assets/Plugins/UnityExtensions/RuntimeAPI/Supplements/QuickLinkedList.cs:271-277 | no slots, no free ids, empty list |
| QuickLinkedLists.QuickLinkedList.Unlink | Assets/Plugins/UnityExtensions/RuntimeAPI/Supplements/QuickLinkedList.cs:134-158 | the corrected private Remove: the id and its value leave the list, the slot is freed and its id pushed |
| QuickLinkedLists.QuickLinkedList.Remove | Assets/Plugins/UnityExtensions/RuntimeAPI/Supplements/QuickLinkedList.cs:283-291 | a live id and its value leave the list, by the corrected unlink (the unlink as written is UnlinkAsWrittenInMiddle, see Findings); out of range or a free id throws and changes nothing |
| QuickLinkedLists.QuickLinkedList.RemoveFirst | Assets/Plugins/UnityExtensions/RuntimeAPI/Supplements/QuickLinkedList.cs:297-305 | drops the first id and value; an empty list throws "empty list" and changes nothing |
| QuickLinkedLists.QuickLinkedList.RemoveLast | Assets/Plugins/UnityExtensions/RuntimeAPI/Supplements/QuickLinkedList.cs:311-319 | drops the last id and value; an empty list throws "empty list" and changes nothing |
| LegacyQuickLinkedLists.Count | Assets/Plugins/UnityExtension/RuntimeAPI/Supplements/QuickLinkedList.cs:44 | count plus the free ids is the number of slots, with nothing keeping it non-negative |
| LegacyQuickLinkedLists.Slot | Assets/Plugins/UnityExtension/RuntimeAPI/Supplements/QuickLinkedList.cs:114-130 | Add takes the top free id, or the next new slot exactly when no id is free |
| LegacyQuickLinkedLists.Store | Assets/Plugins/UnityExtension/RuntimeAPI/Supplements/QuickLinkedList.cs:114-130 | Add writes the node into that slot, changes no other slot and raises count by one |
| LegacyQuickLinkedLists.AddFirstState | Assets/Plugins/UnityExtension/RuntimeAPI/Supplements/QuickLinkedList.cs:151-157 | the new node, linked forward to the old first, becomes first, and last too when the list was empty; no neighbour is relinked |
| LegacyQuickLinkedLists.AddLastState | Assets/Plugins/UnityExtension/RuntimeAPI/Supplements/QuickLinkedList.cs:164-170 | the new node, linked back to the old last, becomes last, and first too when the list was empty; no neighbour is relinked |
| LegacyQuickLinkedLists.AddAfterState | Assets/Plugins/UnityExtension/RuntimeAPI/Supplements/QuickLinkedList.cs:177-192 | the new node copies id's next and points back at id; id's own node is not changed; last moves when id was last |
| LegacyQuickLinkedLists.AddBeforeState | Assets/Plugins/UnityExtension/RuntimeAPI/Supplements/QuickLinkedList.cs:199-214 | the new node copies id's previous and points on to id; id's own node is not changed; first moves when id was first |
| LegacyQuickLinkedLists.UnlinkState | Assets/Plugins/UnityExtension/RuntimeAPI/Supplements/QuickLinkedList.cs:133-143 | the slot is cleared and its id pushed, count falls by one, and no other slot changes |
| LegacyQuickLinkedLists.LegacyQuickLinkedList.constructor | Assets/Plugins/UnityExtension/RuntimeAPI/Supplements/QuickLinkedList.cs:79-85 | an empty list with count 0 |
| LegacyQuickLinkedLists.LegacyQuickLinkedList.Get | Assets/Plugins/UnityExtension/RuntimeAPI/Supplements/QuickLinkedList.cs:52-61 | out of range throws; a slot failing the validity test throws "invalid id"; otherwise the slot's value |
| LegacyQuickLinkedLists.LegacyQuickLinkedList.Set | Assets/Plugins/UnityExtension/RuntimeAPI/Supplements/QuickLinkedList.cs:62-72 | a slot passing the validity test gets the value; otherwise it throws and nothing changes |
| LegacyQuickLinkedLists.LegacyQuickLinkedList.GetNode | Assets/Plugins/UnityExtension/RuntimeAPI/Supplements/QuickLinkedList.cs:91-94 | the slot's node; out of range throws |
| LegacyQuickLinkedLists.LegacyQuickLinkedList.GetPrevious | Assets/Plugins/UnityExtension/RuntimeAPI/Supplements/QuickLinkedList.cs:100-103 | the `previous` link of the slot's node as GetNode gives it, out of range throws; under Bounded it is -1 or a slot. It is the stored link, not the list-order predecessor, which the older list does not maintain |
| LegacyQuickLinkedLists.LegacyQuickLinkedList.GetNext | Assets/Plugins/UnityExtension/RuntimeAPI/Supplements/QuickLinkedList.cs:109-112 | the `next` link of the slot's node as GetNode gives it, out of range throws; under Bounded it is -1 or a slot |
| LegacyQuickLinkedLists.LegacyQuickLinkedList.AddNode | Assets/Plugins/UnityExtension/RuntimeAPI/Supplements/QuickLinkedList.cs:114-130 | Add, as Store |
| LegacyQuickLinkedLists.LegacyQuickLinkedList.Unlink | Assets/Plugins/UnityExtension/RuntimeAPI/Supplements/QuickLinkedList.cs:133-143 | the private Remove, as UnlinkState |
| LegacyQuickLinkedLists.LegacyQuickLinkedList.AddFirst | Assets/Plugins/UnityExtension/RuntimeAPI/Supplements/QuickLinkedList.cs:151-157 | as AddFirstState, returning the slot taken |
| LegacyQuickLinkedLists.LegacyQuickLinkedList.AddLast | Assets/Plugins/UnityExtension/RuntimeAPI/Supplements/QuickLinkedList.cs:164-170 | as AddLastState, returning the slot taken |
| LegacyQuickLinkedLists.LegacyQuickLinkedList.AddAfter | Assets/Plugins/UnityExtension/RuntimeAPI/Supplements/QuickLinkedList.cs:177-192 | out of range or failing the validity test throws and changes nothing; otherwise as AddAfterState |
| LegacyQuickLinkedLists.LegacyQuickLinkedList.AddBefore | Assets/Plugins/UnityExtension/RuntimeAPI/Supplements/QuickLinkedList.cs:199-214 | out of range or failing the validity test throws and changes nothing; otherwise as AddBeforeState |
| LegacyQuickLinkedLists.LegacyQuickLinkedList.Clear | Assets/Plugins/UnityExtension/RuntimeAPI/Supplements/QuickLinkedList.cs:220-226 | the empty list |
| LegacyQuickLinkedLists.LegacyQuickLinkedList.Remove | Assets/Plugins/UnityExtension/RuntimeAPI/Supplements/QuickLinkedList.cs:232-240 | out of range or failing the validity test throws and changes nothing; otherwise as UnlinkState |
| LegacyQuickLinkedLists.LegacyQuickLinkedList.RemoveFirst | Assets/Plugins/UnityExtension/RuntimeAPI/Supplements/QuickLinkedList.cs:246-254 | an empty list throws "empty list"; otherwise frees first as UnlinkState |
| LegacyQuickLinkedLists.LegacyQuickLinkedList.RemoveLast | Assets/Plugins/UnityExtension/RuntimeAPI/Supplements/QuickLinkedList.cs:260-268 | an empty list throws "empty list"; otherwise frees last as UnlinkState |
| LegacyQuickLinkedLists.TwoAddLastsLeaveSecondUnreachable | Assets/Plugins/UnityExtension/RuntimeAPI/Supplements/QuickLinkedList.cs:164-170 | after two AddLast calls GetNext(first) is still -1, so the second node cannot be reached from first |
| LegacyQuickLinkedLists.CountGoesNegative | Assets/Plugins/UnityExtension/RuntimeAPI/Supplements/QuickLinkedList.cs:133-143 | AddFirst, AddFirst, RemoveLast, RemoveFirst, RemoveFirst frees one slot twice and leaves count at -1 |
| GameObjectPools.Fresh | Assets/Plugins/UnityExtension/Runtime/GameObjectPool.cs:54-66 | AddObjects instantiates count new objects, numbered on from the next id |
| GameObjectPools.Spawned | Assets/Plugins/UnityExtension/Runtime/GameObjectPool.cs:131-143 | Spawn pops the pool's top object, or a new one when the stack is empty, and records it as out of that pool |
| GameObjectPools.Despawned | Assets/Plugins/UnityExtension/Runtime/GameObjectPool.cs:146-153 | Despawn pushes the object back on its own pool's stack and forgets the record |
| GameObjectPools.SpawnedIsIdle | Assets/Plugins/UnityExtension/Runtime/GameObjectPool.cs:131-143 | the object Spawn hands out is never one already out, so the record's Add cannot throw |
| GameObjectPools.SpawnedKeepsStacked | Assets/Plugins/UnityExtension/Runtime/GameObjectPool.cs:131-143 | after Spawn every stacked object still belongs to the pool holding it |
| GameObjectPools.SpawnedKeepsNoRepeats | Assets/Plugins/UnityExtension/Runtime/GameObjectPool.cs:131-143 | after Spawn no object sits twice in the stacks |
| GameObjectPools.SpawnedKeepsKept | Assets/Plugins/UnityExtension/Runtime/GameObjectPool.cs:131-143 | after Spawn each object out is recorded against its own pool |
| GameObjectPools.SpawnedKeepsOwned | Assets/Plugins/UnityExtension/Runtime/GameObjectPool.cs:131-143 | Spawn keeps every object either stacked in its pool or recorded as out, never both |
| GameObjectPools.DespawnedKeepsStacked | Assets/Plugins/UnityExtension/Runtime/GameObjectPool.cs:146-153 | after Despawn every stacked object belongs to the pool holding it |
| GameObjectPools.DespawnedKeepsNoRepeats | Assets/Plugins/UnityExtension/Runtime/GameObjectPool.cs:146-153 | after Despawn no object sits twice in the stacks |
| GameObjectPools.DespawnedKeepsKept | Assets/Plugins/UnityExtension/Runtime/GameObjectPool.cs:146-153 | after Despawn each object out is recorded against its own pool |
| GameObjectPools.DespawnedKeepsOwned | Assets/Plugins/UnityExtension/Runtime/GameObjectPool.cs:146-153 | Despawn keeps every object either stacked in its pool or recorded as out |
| GameObjectPools.SpawnThenDespawnRestores | Assets/Plugins/UnityExtension/Runtime/GameObjectPool.cs:131-153 | despawning the object just spawned from a non-empty pool restores the pools and the records exactly |
| GameObjectPools.WithPoolKeepsOwned | Assets/Plugins/UnityExtension/Runtime/GameObjectPool.cs:68-93 | adding a pool of new objects keeps every object owned by exactly one pool |
| GameObjectPools.ResetLowersScheduled | Assets/Plugins/UnityExtension/Runtime/GameObjectPool.cs:107-127 | freeing a scheduled node lowers the number of scheduled entries, so the drain loop ends |
| GameObjectPools.Drain | Assets/Plugins/UnityExtension/Runtime/GameObjectPool.cs:107-127 | Update despawns the due entries from the front of the schedule that are still out, removing each, until the front is later than now or the schedule is empty |
| GameObjectPools.Walk | Assets/Plugins/UnityExtension/Runtime/GameObjectPool.cs:160-174 | the backward walk from last lands after the first node whose time is not later, at the front, or revisits a node and never ends |
| GameObjectPools.Insertion | Assets/Plugins/UnityExtension/Runtime/GameObjectPool.cs:156-181 | a delayed despawn is linked in where the walk lands, at the front when it falls off; a walk that revisits a node fails and changes nothing |
| GameObjectPools.UniqueIffDistinct | Assets/Plugins/UnityExtension/Runtime/GameObjectPool.cs:68-93 | Awake's repeated Dictionary.Add succeeds exactly when no two settings share a name |
| GameObjectPools.NameIndex | Assets/Plugins/UnityExtension/Runtime/GameObjectPool.cs:68-93 | every pool name comes from some setting |
| GameObjectPools.LayoutKeys | Assets/Plugins/UnityExtension/Runtime/GameObjectPool.cs:68-93 | Awake creates one pool per setting name |
| GameObjectPools.LayoutPool | Assets/Plugins/UnityExtension/Runtime/GameObjectPool.cs:68-93 | each pool starts with preallocateCount new objects, none when the count is not positive |
| GameObjectPools.Restrict | Assets/Plugins/UnityExtension/Runtime/GameObjectPool.cs:184-194 | the part of the records kept for the objects not yet pushed back |
| GameObjectPools.PushKeepsExtends | Assets/Plugins/UnityExtension/Runtime/GameObjectPool.cs:186-191 | pushing an object out onto its pool only grows that stack on top |
| GameObjectPools.PushKeepsPushing | Assets/Plugins/UnityExtension/Runtime/GameObjectPool.cs:186-191 | each step of DespawnAll's loop keeps the stacks grown by exactly the objects already pushed |
| GameObjectPools.PushKeepsOwned | Assets/Plugins/UnityExtension/Runtime/GameObjectPool.cs:186-191 | each step of DespawnAll's loop keeps every object owned by one pool |
| GameObjectPools.PushedAll | Assets/Plugins/UnityExtension/Runtime/GameObjectPool.cs:184-194 | when DespawnAll's loop ends every object that was out is on its own pool's stack |
| GameObjectPools.GameObjectPool.constructor | Assets/Plugins/UnityExtension/Runtime/GameObjectPool.cs:47-49 | no pools, no records, an empty schedule |
| GameObjectPools.GameObjectPool.AddObjects | Assets/Plugins/UnityExtension/Runtime/GameObjectPool.cs:54-66 | the stack grows by max(quantity, 0) new objects on top |
| GameObjectPools.GameObjectPool.Awake | Assets/Plugins/UnityExtension/Runtime/GameObjectPool.cs:68-93 | one pool per setting with its preallocated objects when the names are distinct; a repeated name throws (duplicate key), leaving the pools of the settings before the first repeat, with their objects, and the object count advanced by those and the repeated setting's own preallocated objects |
| GameObjectPools.GameObjectPool.PreallocateAll | Assets/Plugins/UnityExtension/Runtime/GameObjectPool.cs:78-91 | the loop completes exactly when the names are distinct, leaving pool i holding fresh objects numbered after those of pools 0..i-1; otherwise it fails with a duplicate key at the first setting whose name repeats, the pools before it in place and its own objects already instantiated |
| GameObjectPools.GameObjectPool.Preallocate | Assets/Plugins/UnityExtension/Runtime/GameObjectPool.cs:79-90 | instantiates the setting's objects, then adds the pool with them, or throws for a name already present, leaving the pools as they were |
| GameObjectPools.GameObjectPool.AddPool | Assets/Plugins/UnityExtension/Runtime/GameObjectPool.cs:90 | the pools map gains the name with its stack and every object of it is owned by that pool |
| GameObjectPools.GameObjectPool.Spawn | Assets/Plugins/UnityExtension/Runtime/GameObjectPool.cs:131-143 | a known name gives as Spawned, with a fresh object when its stack was empty; an unknown name throws (key not found) and changes nothing |
| GameObjectPools.GameObjectPool.Pop | Assets/Plugins/UnityExtension/Runtime/GameObjectPool.cs:133-137 | as Spawned, the object not already out |
| GameObjectPools.GameObjectPool.Despawn | Assets/Plugins/UnityExtension/Runtime/GameObjectPool.cs:146-153 | an object out is despawned as Despawned; any other throws (key not found) and changes nothing |
| GameObjectPools.GameObjectPool.DespawnDelayed | Assets/Plugins/UnityExtension/Runtime/GameObjectPool.cs:156-181 | a delay not above 0 despawns at once; otherwise the entry is scheduled as Insertion at delay + now, enabling Update when it is linked in |
| GameObjectPools.GameObjectPool.Enqueue | Assets/Plugins/UnityExtension/Runtime/GameObjectPool.cs:160-178 | the schedule becomes Insertion's result, and Update is enabled when the entry is linked in |
| GameObjectPools.GameObjectPool.Update | Assets/Plugins/UnityExtension/Runtime/GameObjectPool.cs:107-127 | the schedule and the pools become Drain's result; Update disables itself only when the schedule ran empty |
| GameObjectPools.GameObjectPool.DrainFront | Assets/Plugins/UnityExtension/Runtime/GameObjectPool.cs:119-124 | despawning a due entry's object when it is still spawned and removing the entry is one step of Drain, and it lowers the count of scheduled entries |
| GameObjectPools.GameObjectPool.DespawnAll | Assets/Plugins/UnityExtension/Runtime/GameObjectPool.cs:184-194 | every object out goes back on top of its own pool, nothing else is pushed, no record remains and the schedule is emptied |
| GameObjectPools.GameObjectPool.PushAll | Assets/Plugins/UnityExtension/Runtime/GameObjectPool.cs:186-191 | the loop over the records pushes every recorded object onto its pool's stack |
| GameObjectPoolScenarios.SpawnTwice | Assets/Plugins/UnityExtension/Runtime/GameObjectPool.cs:131-143 | two spawns from a one-object pool hand out the preallocated object, then a new one |
| GameObjectPoolScenarios.ScheduleFirst | Assets/Plugins/UnityExtension/Runtime/GameObjectPool.cs:156-181 | the first delayed despawn goes to the front of an empty schedule |
| GameObjectPoolScenarios.ScheduleSecond | Assets/Plugins/UnityExtension/Runtime/GameObjectPool.cs:156-181 | a later second entry is linked after the first, whose next stays -1 in the legacy list |
| GameObjectPoolScenarios.UpdateLosesSecond | Assets/Plugins/UnityExtension/Runtime/GameObjectPool.cs:107-127 | Update at a time between the two entries despawns the first and drops the second from the list with it |
| GameObjectPoolScenarios.DelayedDespawnIsLost | Assets/Plugins/UnityExtension/Runtime/GameObjectPool.cs:107-127 | afterwards the second object stays out and no later Update despawns it |
| GameObjectPoolScenarios.DelayedDespawnWalksInCircles | Assets/Plugins/UnityExtension/Runtime/GameObjectPool.cs:156-181 | two more delayed despawns leave two nodes pointing back at each other, and the next walk never ends |
| DespawnSchedules.InsertionPoint | Assets/Plugins/UnityExtension/Runtime/GameObjectPool.cs:160-174 | the backward walk stops just after the last entry not later than the new time, or at the front |
| DespawnSchedules.InsertKeepsSorted | Assets/Plugins/UnityExtension/Runtime/GameObjectPool.cs:156-181 | inserting where the walk stops keeps the schedule sorted by time |
| DespawnSchedules.NothingDueAfterFront | Assets/Plugins/UnityExtension/Runtime/GameObjectPool.cs:109-117 | in a sorted schedule, a front entry later than now means no entry is due |
| DespawnSchedules.Schedule.constructor | Assets/Plugins/UnityExtension/Runtime/GameObjectPool.cs:91 | an empty schedule |
| DespawnSchedules.Schedule.Insert | Assets/Plugins/UnityExtension/Runtime/GameObjectPool.cs:156-181 | the walk inserts the entry at its insertion point, on a list that keeps its links |
| DespawnSchedules.Schedule.InsertAfter | Assets/Plugins/UnityExtension/Runtime/GameObjectPool.cs:167-171 | AddAfter at the node the walk stopped at puts the entry at its insertion point |
| DespawnSchedules.Schedule.InsertFirst | Assets/Plugins/UnityExtension/Runtime/GameObjectPool.cs:177-178 | AddFirst when the walk falls off the front |
| DespawnSchedules.Schedule.Front | Assets/Plugins/UnityExtension/Runtime/GameObjectPool.cs:111 | the front entry of the schedule |
| DespawnSchedules.Schedule.DropFront | Assets/Plugins/UnityExtension/Runtime/GameObjectPool.cs:124 | RemoveFirst drops exactly the front entry |
| DespawnSchedules.Schedule.TakeDue | Assets/Plugins/UnityExtension/Runtime/GameObjectPool.cs:107-127 | the drain hands out exactly the due prefix, in order, and every entry left is later than now |
| StateMachines.Hook | Assets/Plugins/UnityExtension/RuntimeAPI/StateMachines/StateMachine/StateMachine.cs:59-67 | each user hook call is appended to the trace with the state time it sees; a hook that returns is Done, one that throws fails, and one that assigns a state hits the reentrancy guard |
| StateMachines.QuietAssignment | Assets/Plugins/UnityExtension/RuntimeAPI/StateMachines/StateMachine/StateMachine.cs:49-73 | with hooks that only return, assigning exits the old state, sets the new state with its time at 0, enters it, raises stateChanged(previous, current) and releases the guard |
| StateMachines.FailureLeavesGuardSet | Assets/Plugins/UnityExtension/RuntimeAPI/StateMachines/StateMachine/StateMachine.cs:51-71 | an assignment only adds to the trace, and one interrupted by an exception leaves the guard set, so every later assignment throws at once |
| StateMachines.AssignFromOnEnterThrows | Assets/Plugins/UnityExtension/RuntimeAPI/StateMachines/StateMachine/StateMachine.cs:52-65 | an assignment made from inside OnEnter throws "Shouldn't change state inside OnExit, OnEnter or stateChanged event!" |
| StateMachines.UpdateThenAssign | Assets/Plugins/UnityExtension/RuntimeAPI/StateMachines/StateMachine/StateMachine.cs:92-96 | OnUpdate advances the state time before calling the state's OnUpdate, which may itself assign the next state |
| StateMachines.StateMachine.constructor | Assets/Plugins/UnityExtension/RuntimeAPI/StateMachines/StateMachine/StateMachine.cs:10-39 | no state, time 0, guard clear, nothing called |
| StateMachines.StateMachine.SetCurrentState | Assets/Plugins/UnityExtension/RuntimeAPI/StateMachines/StateMachine/StateMachine.cs:49-73 | the currentState setter, as Assign |
| StateMachines.StateMachine.CallUserCode | Assets/Plugins/UnityExtension/RuntimeAPI/StateMachines/StateMachine/StateMachine.cs:59-67 | one user hook call, as Hook |
| StateMachines.StateMachine.OnUpdate | Assets/Plugins/UnityExtension/RuntimeAPI/StateMachines/StateMachine/StateMachine.cs:92-96 | as Update: the time grows by deltaTime and the current state, if any, is updated |
| StateMachines.StateMachine.OnEnter | Assets/Plugins/UnityExtension/RuntimeAPI/StateMachines/StateMachine/StateMachine.cs:79 | does nothing |
| StateMachines.StateMachine.OnExit | Assets/Plugins/UnityExtension/RuntimeAPI/StateMachines/StateMachine/StateMachine.cs:85 | does nothing |
| StackStateMachines.CurrentState | Assets/Plugins/UnityExtensions/RuntimeAPI/StateMachines/StackStateMachine/StackStateMachine.cs:45-48 | the top of the stack; an empty stack throws out of range |
| StackStateMachines.UnderState | Assets/Plugins/UnityExtensions/RuntimeAPI/StateMachines/StackStateMachine/StackStateMachine.cs:54-57 | the state just below the top; fewer than two states throws out of range |
| StackStateMachines.GetState | Assets/Plugins/UnityExtensions/RuntimeAPI/StateMachines/StackStateMachine/StackStateMachine.cs:63-66 | the state at the index; an index outside the stack throws out of range |
| StackStateMachines.Hook | Assets/Plugins/UnityExtensions/RuntimeAPI/StateMachines/StackStateMachine/StackStateMachine.cs:87-94 | each user hook call is appended to the trace; one that returns is Done, one that throws fails, and one that pushes or pops hits the reentrancy guard with that operation's message |
| StackStateMachines.QuietPush | Assets/Plugins/UnityExtensions/RuntimeAPI/StateMachines/StackStateMachine/StackStateMachine.cs:77-99 | with hooks that only return, a push exits the old top with Push, appends the state with its time at 0, enters it with Push, raises OnStatePushed and releases the guard |
| StackStateMachines.QuietPop | Assets/Plugins/UnityExtensions/RuntimeAPI/StateMachines/StackStateMachine/StackStateMachine.cs:105-129 | with hooks that only return, a pop exits the top with Pop, removes it, enters the uncovered state with Pop, raises OnStatePopped and releases the guard |
| StackStateMachines.PushThenPopRestores | Assets/Plugins/UnityExtensions/RuntimeAPI/StateMachines/StackStateMachine/StackStateMachine.cs:77-129 | a push followed by a pop gives back the same stack |
| StackStateMachines.PopEmptyLeavesGuardSet | Assets/Plugins/UnityExtensions/RuntimeAPI/StateMachines/StackStateMachine/StackStateMachine.cs:105-119 | popping an empty stack throws out of range with the guard left set, so every later push or pop throws |
| StackStateMachines.PushFailureLeavesGuardSet | Assets/Plugins/UnityExtensions/RuntimeAPI/StateMachines/StackStateMachine/StackStateMachine.cs:77-99 | a push only adds to the trace, and one interrupted by an exception leaves the guard set |
| StackStateMachines.PopFailureLeavesGuardSet | Assets/Plugins/UnityExtensions/RuntimeAPI/StateMachines/StackStateMachine/StackStateMachine.cs:105-129 | a pop only adds to the trace, and one interrupted by an exception leaves the guard set |
| StackStateMachines.QuietPopStates | Assets/Plugins/UnityExtensions/RuntimeAPI/StateMachines/StackStateMachine/StackStateMachine.cs:135-142 | PopStates(count) pops min(count, size) states when count fits, none for a negative count, and throws once the stack runs empty |
| StackStateMachines.PushKeepsUiConsistent | Assets/Plugins/UnityExtension/Test/Scripts/UIState.cs:15-41 | pushing a state not on the stack keeps exactly the stacked states shown and only the top one interactive |
| StackStateMachines.PopKeepsUiConsistent | Assets/Plugins/UnityExtension/Test/Scripts/UIState.cs:15-41 | popping keeps exactly the stacked states shown and only the new top interactive |
| StackStateMachines.RunKeepsUiConsistent | Assets/Plugins/UnityExtension/Test/Scripts/UIState.cs:15-41 | any run of pushes and pops keeps the shown and interactive tags in step with the stack |
| StackStateMachines.UiStateTagsStayConsistent | Assets/Plugins/UnityExtension/Test/Scripts/UIState.cs:15-41 | from a new machine, the stack-action tags always show exactly the stacked states and make only the top one interactive |
| StackStateMachines.StackStateMachine.constructor | Assets/Plugins/UnityExtensions/RuntimeAPI/StateMachines/StackStateMachine/StackStateMachine.cs:10-11 | an empty stack, time 0, guard clear, nothing called |
| StackStateMachines.StackStateMachine.PushState | Assets/Plugins/UnityExtensions/RuntimeAPI/StateMachines/StackStateMachine/StackStateMachine.cs:77-99 | as PushStep |
| StackStateMachines.StackStateMachine.PopState | Assets/Plugins/UnityExtensions/RuntimeAPI/StateMachines/StackStateMachine/StackStateMachine.cs:105-129 | as PopStep |
| StackStateMachines.StackStateMachine.CallUserCode | Assets/Plugins/UnityExtensions/RuntimeAPI/StateMachines/StackStateMachine/StackStateMachine.cs:87-94 | one user hook call, as Hook |
| StackStateMachines.StackStateMachine.PopStates | Assets/Plugins/UnityExtensions/RuntimeAPI/StateMachines/StackStateMachine/StackStateMachine.cs:135-142 | the loop of PopState calls, as PopSteps |
| StackStateMachines.StackStateMachine.PopAllStates | Assets/Plugins/UnityExtensions/RuntimeAPI/StateMachines/StackStateMachine/StackStateMachine.cs:148-151 | PopStates with the stack size |
| StackStateMachines.StackStateMachine.OnUpdate | Assets/Plugins/UnityExtensions/RuntimeAPI/StateMachines/StackStateMachine/StackStateMachine.cs:184-188 | as Update: the time grows by deltaTime and the top state, if any, is updated |
| StackStateMachines.StackStateMachine.OnEnter | Assets/Plugins/UnityExtensions/RuntimeAPI/StateMachines/StackStateMachine/StackStateMachine.cs:167-169 | does nothing |
| StackStateMachines.StackStateMachine.OnExit | Assets/Plugins/UnityExtensions/RuntimeAPI/StateMachines/StackStateMachine/StackStateMachine.cs:175-177 | does nothing |
| TreeNodes.Successor | Assets/Plugins/UnityExtension/RuntimeAPI/Supplements/TreeNode.cs:232-251 | the sibling after a position on the circular sibling ring, wrapping to the first |
| TreeNodes.RingInsert | Assets/Plugins/UnityExtension/RuntimeAPI/Supplements/TreeNode.cs:689-708 | linking a node before a sibling keeps the circular next/prev ring of the children, with the node at its new position |
| TreeNodes.RingRemove | Assets/Plugins/UnityExtension/RuntimeAPI/Supplements/TreeNode.cs:476-493 | unlinking a node keeps the ring of the remaining siblings and leaves the node a ring of its own |
| TreeNodes.DistinctInsert | Assets/Plugins/UnityExtension/RuntimeAPI/Supplements/TreeNode.cs:409-470 | a child list with the new node inserted holds distinct nodes, the old ones and the new one |
| TreeNodes.DistinctRemove | Assets/Plugins/UnityExtension/RuntimeAPI/Supplements/TreeNode.cs:476-493 | a child list with a node removed holds distinct nodes, the old ones but that one |
| TreeNodes.AttachedWellformed | Assets/Plugins/UnityExtension/RuntimeAPI/Supplements/TreeNode.cs:409-470 | every attach keeps the tree well formed: parents, first children, counts, sibling rings and ancestor lists agree |
| TreeNodes.DetachedWellformed | Assets/Plugins/UnityExtension/RuntimeAPI/Supplements/TreeNode.cs:476-493 | DetachParent keeps the tree well formed |
| TreeNodes.ChildrenDetachedWellformed | Assets/Plugins/UnityExtension/RuntimeAPI/Supplements/TreeNode.cs:499-516 | DetachChildren keeps the tree well formed |
| TreeNodes.DetachUndoesAttach | Assets/Plugins/UnityExtension/RuntimeAPI/Supplements/TreeNode.cs:409-493 | detaching a node just attached restores the tree exactly |
| TreeNodes.AddedWellformed | Assets/Plugins/UnityExtension/RuntimeAPI/Supplements/TreeNode.cs:213-217 | a new node is a well-formed root of its own |
| TreeNodes.SubtreeOrder | Assets/Plugins/UnityExtension/RuntimeAPI/Supplements/TreeNode.cs:542-556 | the walk of TraverseChildren starts at the node itself |
| TreeNodes.SubtreeOrderIsSubtree | Assets/Plugins/UnityExtension/RuntimeAPI/Supplements/TreeNode.cs:542-556 | TraverseChildren visits exactly the node and its descendants |
| TreeNodes.Forest.constructor | Assets/Plugins/UnityExtension/RuntimeAPI/Supplements/TreeNode.cs:213-217 | no nodes |
| TreeNodes.Forest.NewNode | Assets/Plugins/UnityExtension/RuntimeAPI/Supplements/TreeNode.cs:213-217 | a new root leaf, its own circular next and previous |
| TreeNodes.Forest.Next | Assets/Plugins/UnityExtension/RuntimeAPI/Supplements/TreeNode.cs:232-242 | the sibling after the node in its parent's child order, null for the last child or a root |
| TreeNodes.Forest.Previous | Assets/Plugins/UnityExtension/RuntimeAPI/Supplements/TreeNode.cs:257-267 | the sibling before the node, null for the first child or a root |
| TreeNodes.Forest.CircularNext | Assets/Plugins/UnityExtension/RuntimeAPI/Supplements/TreeNode.cs:248-251 | the sibling after the node, wrapping to the first; a root is its own |
| TreeNodes.Forest.CircularPrevious | Assets/Plugins/UnityExtension/RuntimeAPI/Supplements/TreeNode.cs:273-276 | the sibling before the node, wrapping to the last; a root is its own |
| TreeNodes.Forest.FirstChild | Assets/Plugins/UnityExtension/RuntimeAPI/Supplements/TreeNode.cs:282-285 | the first child, null for a leaf |
| TreeNodes.Forest.LastChild | Assets/Plugins/UnityExtension/RuntimeAPI/Supplements/TreeNode.cs:291-297 | the last child, null for a leaf |
| TreeNodes.Forest.Parent | Assets/Plugins/UnityExtension/RuntimeAPI/Supplements/TreeNode.cs:303-306 | the nearest ancestor, null for a root, and the node is among that parent's children |
| TreeNodes.Forest.DirectChildCount | Assets/Plugins/UnityExtension/RuntimeAPI/Supplements/TreeNode.cs:312-315 | the number of children |
| TreeNodes.Forest.Depth | Assets/Plugins/UnityExtension/RuntimeAPI/Supplements/TreeNode.cs:322-337 | the loop counts the ancestors: 0 for a root |
| TreeNodes.Forest.Root | Assets/Plugins/UnityExtension/RuntimeAPI/Supplements/TreeNode.cs:344-357 | the loop reaches the farthest ancestor, the node itself for a root |
| TreeNodes.Forest.IsRoot | Assets/Plugins/UnityExtension/RuntimeAPI/Supplements/TreeNode.cs:363-366 | true exactly when the node has no parent |
| TreeNodes.Forest.IsLeaf | Assets/Plugins/UnityExtension/RuntimeAPI/Supplements/TreeNode.cs:372-375 | true exactly when the node has no child |
| TreeNodes.Forest.IsChildOf | Assets/Plugins/UnityExtension/RuntimeAPI/Supplements/TreeNode.cs:522-534 | true exactly when other is the node or one of its ancestors; never for null |
| TreeNodes.Forest.TraverseParents | Assets/Plugins/UnityExtension/RuntimeAPI/Supplements/TreeNode.cs:564-574 | visits the node, then its ancestors nearest first |
| TreeNodes.Forest.FindParent | Assets/Plugins/UnityExtension/RuntimeAPI/Supplements/TreeNode.cs:623-635 | the first of the node and its ancestors, nearest first, whose value matches |
| TreeNodes.Forest.TraverseDirectChildren | Assets/Plugins/UnityExtension/RuntimeAPI/Supplements/TreeNode.cs:582-590 | visits the children in order |
| TreeNodes.Forest.FindDirectChildren | Assets/Plugins/UnityExtension/RuntimeAPI/Supplements/TreeNode.cs:642-651 | the first child in order whose value matches |
| TreeNodes.Forest.TraverseChildren | Assets/Plugins/UnityExtension/RuntimeAPI/Supplements/TreeNode.cs:542-556 | visits the node and its subtree in pre-order |
| TreeNodes.Forest.TraverseChildWalks | Assets/Plugins/UnityExtension/RuntimeAPI/Supplements/TreeNode.cs:542-556 | the same walk, child subtree after child subtree |
| TreeNodes.Forest.FindChild | Assets/Plugins/UnityExtension/RuntimeAPI/Supplements/TreeNode.cs:597-616 | the first node of the pre-order walk whose value matches |
| TreeNodes.Forest.FindInChildWalks | Assets/Plugins/UnityExtension/RuntimeAPI/Supplements/TreeNode.cs:597-616 | the same search, child subtree after child subtree, stopping at the first match |
| TreeNodes.Forest.InternalAttachChildless | Assets/Plugins/UnityExtension/RuntimeAPI/Supplements/TreeNode.cs:689-694 | the node's parent is set, the parent's count grows by one and the node becomes its first child |
| TreeNodes.Forest.InternalAttachBefore | Assets/Plugins/UnityExtension/RuntimeAPI/Supplements/TreeNode.cs:698-708 | the node is linked into the sibling ring just before the given sibling and the parent's count grows by one |
| TreeNodes.Forest.AttachError | Assets/Plugins/UnityExtension/RuntimeAPI/Supplements/TreeNode.cs:657-670 | an attached node throws "node is attached", a null parent throws ArgumentNullException; no check that the parent is not inside the node's own subtree |
| TreeNodes.Forest.ChildError | Assets/Plugins/UnityExtension/RuntimeAPI/Supplements/TreeNode.cs:674-684 | a null sibling throws ArgumentNullException and a sibling of another parent throws "node is not child of parent" |
| TreeNodes.Forest.AttachAsFirst | Assets/Plugins/UnityExtension/RuntimeAPI/Supplements/TreeNode.cs:409-422 | the node becomes the parent's first child, other children and the rest of the tree unchanged; a failed check throws and changes nothing |
| TreeNodes.Forest.AttachAsLast | Assets/Plugins/UnityExtension/RuntimeAPI/Supplements/TreeNode.cs:429-441 | the node becomes the parent's last child; a failed check throws and changes nothing |
| TreeNodes.Forest.AttachBefore | Assets/Plugins/UnityExtension/RuntimeAPI/Supplements/TreeNode.cs:448-458 | the node goes just before the sibling among the parent's children; a failed check throws and changes nothing |
| TreeNodes.Forest.AttachAfter | Assets/Plugins/UnityExtension/RuntimeAPI/Supplements/TreeNode.cs:465-470 | the node goes just after the sibling among the parent's children; a failed check throws and changes nothing |
| TreeNodes.Forest.Unlink | Assets/Plugins/UnityExtension/RuntimeAPI/Supplements/TreeNode.cs:476-493 | the node leaves its sibling ring and its parent, whose count falls and whose first child moves on when it was the node |
| TreeNodes.Forest.DetachParent | Assets/Plugins/UnityExtension/RuntimeAPI/Supplements/TreeNode.cs:476-493 | the node leaves its parent's children, keeping its own subtree; a root is left alone |
| TreeNodes.Forest.DetachChildren | Assets/Plugins/UnityExtension/RuntimeAPI/Supplements/TreeNode.cs:499-516 | every child becomes a root and the node becomes a leaf |
| TreeNodeEnumerators.NewChildrenCursor | Assets/Plugins/UnityExtension/RuntimeAPI/Supplements/TreeNode.cs:42-47 | a fresh subtree enumerator on the node, in its initial state |
| TreeNodeEnumerators.MoveNextChild | Assets/Plugins/UnityExtension/RuntimeAPI/Supplements/TreeNode.cs:54-94 | each call yields the first node of the pre-order walk still to come and returns false exactly when none is left |
| TreeNodeEnumerators.EnumerateChildren | Assets/Plugins/UnityExtension/RuntimeAPI/Supplements/TreeNode.cs:42-94 | enumerating to the end yields the node and its subtree in pre-order |
| TreeNodeEnumerators.MoveNextParent | Assets/Plugins/UnityExtension/RuntimeAPI/Supplements/TreeNode.cs:136-146 | each call yields the next of the node and its ancestors and returns false exactly when none is left |
| TreeNodeEnumerators.EnumerateParents | Assets/Plugins/UnityExtension/RuntimeAPI/Supplements/TreeNode.cs:125-146 | enumerating to the end yields the node, then its ancestors nearest first |
| TreeNodeEnumerators.MoveNextDirect | Assets/Plugins/UnityExtension/RuntimeAPI/Supplements/TreeNode.cs:187-193 | each call yields the next child in order and returns false exactly when none is left |
| TreeNodeEnumerators.DirectFirst | Assets/Plugins/UnityExtension/RuntimeAPI/Supplements/TreeNode.cs:187-193 | the first move reaches the first child, or the end for a node without children |
| TreeNodeEnumerators.DirectNext | Assets/Plugins/UnityExtension/RuntimeAPI/Supplements/TreeNode.cs:187-193 | a later move goes from a child to its next sibling, or to the end after the last |
| TreeNodeEnumerators.EnumerateDirectChildren | Assets/Plugins/UnityExtension/RuntimeAPI/Supplements/TreeNode.cs:176-193 | enumerating to the end yields the children in order |
| LinkedComponents.InListIff | Assets/Plugins/UnityExtensions/RuntimeAPI/BaseClasses/LinkedComponent.cs:35-35 | on a well-linked list the DEBUG "already at list" test (a previous, a next, or being first) holds exactly for the members of the list |
| LinkedComponents.Appended | Assets/Plugins/UnityExtensions/RuntimeAPI/BaseClasses/LinkedComponent.cs:38-41 | the links after attaching a component last; the component stays within the table (AppendedLinked states the list it forms) |
| LinkedComponents.Prepended | Assets/Plugins/UnityExtensions/RuntimeAPI/BaseClasses/LinkedComponent.cs:51-54 | the links after attaching a component first (PrependedLinked states the list it forms) |
| LinkedComponents.BeforeAsWritten | Assets/Plugins/UnityExtensions/RuntimeAPI/BaseClasses/LinkedComponent.cs:65-68 | the links AttachBefore writes: the new component's own links and the target's previous, but not the old previous component's next |
| LinkedComponents.AfterAsWritten | Assets/Plugins/UnityExtensions/RuntimeAPI/BaseClasses/LinkedComponent.cs:79-82 | the links AttachAfter writes: the new component's own links and the target's next, but not the old next component's previous |
| LinkedComponents.BeforeFixed | Assets/Plugins/UnityExtensions/RuntimeAPI/BaseClasses/LinkedComponent.cs:58-69 | the links AttachBefore is meant to write, the old previous component's next included |
| LinkedComponents.AfterFixed | Assets/Plugins/UnityExtensions/RuntimeAPI/BaseClasses/LinkedComponent.cs:72-83 | the links AttachAfter is meant to write, the old next component's previous included |
| LinkedComponents.Removed | Assets/Plugins/UnityExtensions/RuntimeAPI/BaseClasses/LinkedComponent.cs:92-97 | the links after detaching a component: its neighbours are joined and its own links cleared |
| LinkedComponents.AppendedLinked | Assets/Plugins/UnityExtensions/RuntimeAPI/BaseClasses/LinkedComponent.cs:32-42 | attaching a component not in the list last gives the list with the component appended |
| LinkedComponents.PrependedLinked | Assets/Plugins/UnityExtensions/RuntimeAPI/BaseClasses/LinkedComponent.cs:45-55 | attaching a component not in the list first gives the list with the component in front |
| LinkedComponents.BeforeFixedLinked | Assets/Plugins/UnityExtensions/RuntimeAPI/BaseClasses/LinkedComponent.cs:58-69 | the intended AttachBefore gives the list with the component inserted just before the target |
| LinkedComponents.AfterFixedLinked | Assets/Plugins/UnityExtensions/RuntimeAPI/BaseClasses/LinkedComponent.cs:72-83 | the intended AttachAfter gives the list with the component inserted just after the target |
| LinkedComponents.RemovedLinked | Assets/Plugins/UnityExtensions/RuntimeAPI/BaseClasses/LinkedComponent.cs:86-98 | detaching a member gives the list with that member removed |
| LinkedComponents.BeforeAsWrittenBroken | Assets/Plugins/UnityExtensions/RuntimeAPI/BaseClasses/LinkedComponent.cs:65-68 | AttachBefore on a target that is not first leaves links that form no list at all |
| LinkedComponents.AfterAsWrittenBroken | Assets/Plugins/UnityExtensions/RuntimeAPI/BaseClasses/LinkedComponent.cs:79-82 | AttachAfter on a target that is not last leaves links that form no list at all |
| LinkedComponents.BeforeAsWrittenAtHead | Assets/Plugins/UnityExtensions/RuntimeAPI/BaseClasses/LinkedComponent.cs:58-69 | AttachBefore on the first component is correct: the component becomes the new first |
| LinkedComponents.AfterAsWrittenAtTail | Assets/Plugins/UnityExtensions/RuntimeAPI/BaseClasses/LinkedComponent.cs:72-83 | AttachAfter on the last component is correct: the component becomes the new last |
| LinkedComponents.AttachBeforeCounterexample | Assets/Plugins/UnityExtensions/RuntimeAPI/BaseClasses/LinkedComponent.cs:58-69 | on the list 0, 1, attaching 2 before 1 leaves 0's next at 1, so 2 is in no list order |
| LinkedComponents.DetachUndoesAppend | Assets/Plugins/UnityExtensions/RuntimeAPI/BaseClasses/LinkedComponent.cs:32-98 | detaching a component just attached last restores the links exactly |
| LinkedComponents.DetachUndoesPrepend | Assets/Plugins/UnityExtensions/RuntimeAPI/BaseClasses/LinkedComponent.cs:45-98 | detaching a component just attached first restores the links exactly |
| LinkedComponents.DetachUndoesBefore | Assets/Plugins/UnityExtensions/RuntimeAPI/BaseClasses/LinkedComponent.cs:58-98 | detaching a component just attached (as intended) before a target restores the links exactly |
| LinkedComponents.DetachUndoesAfter | Assets/Plugins/UnityExtensions/RuntimeAPI/BaseClasses/LinkedComponent.cs:72-98 | detaching a component just attached (as intended) after a target restores the links exactly |
| LinkedComponents.ComponentList.constructor | Assets/Plugins/UnityExtensions/RuntimeAPI/BaseClasses/LinkedComponent.cs:13-17 | an empty list: no first, no last, no components |
| LinkedComponents.ComponentList.NewComponent | Assets/Plugins/UnityExtensions/RuntimeAPI/BaseClasses/LinkedComponent.cs:26-29 | a new component, not in the list, with no links; the list is unchanged |
| LinkedComponents.ComponentList.IsListEmpty | Assets/Plugins/UnityExtensions/RuntimeAPI/BaseClasses/LinkedComponent.cs:20-23 | true exactly when the list has no component |
| LinkedComponents.ComponentList.AttachAsListLast | Assets/Plugins/UnityExtensions/RuntimeAPI/BaseClasses/LinkedComponent.cs:32-42 | a component already in the list throws and changes nothing; otherwise it becomes the last, the rest in order |
| LinkedComponents.ComponentList.AttachAsListFirst | Assets/Plugins/UnityExtensions/RuntimeAPI/BaseClasses/LinkedComponent.cs:45-55 | a component already in the list throws and changes nothing; otherwise it becomes the first, the rest in order |
| LinkedComponents.ComponentList.CheckAttach | Assets/Plugins/UnityExtensions/RuntimeAPI/BaseClasses/LinkedComponent.cs:61-62 | throws "Node is already at list" for a member and "Target is not at list" for a target outside the list, in that order |
| LinkedComponents.ComponentList.AttachBefore | Assets/Plugins/UnityExtensions/RuntimeAPI/BaseClasses/LinkedComponent.cs:58-69 | the DEBUG checks as above; the links become BeforeAsWritten's, a valid list only when the target was first |
| LinkedComponents.ComponentList.AttachAfter | Assets/Plugins/UnityExtensions/RuntimeAPI/BaseClasses/LinkedComponent.cs:72-83 | the DEBUG checks as above; the links become AfterAsWritten's, a valid list only when the target was last |
| LinkedComponents.ComponentList.AttachBeforeFixed | Assets/Plugins/UnityExtensions/RuntimeAPI/BaseClasses/LinkedComponent.cs:58-69 | the intended AttachBefore: the component goes just before the target and the list stays valid |
| LinkedComponents.ComponentList.AttachAfterFixed | Assets/Plugins/UnityExtensions/RuntimeAPI/BaseClasses/LinkedComponent.cs:72-83 | the intended AttachAfter: the component goes just after the target and the list stays valid |
| LinkedComponents.ComponentList.DetachFromList | Assets/Plugins/UnityExtensions/RuntimeAPI/BaseClasses/LinkedComponent.cs:86-98 | a component not in the list throws and changes nothing; otherwise it leaves the list, the rest in order |
| BlendEffects.Weight | Assets/Plugins/UnityExtension/RuntimeAPI/BaseClasses/BlendEffectController.cs:136-139 | an event's weight is never negative and never below its curve's value at its progress |
| BlendEffects.StepEvent | Assets/Plugins/UnityExtension/RuntimeAPI/BaseClasses/BlendEffectController.cs:238-264 | one update of an event keeps its value and its duration (the lemmas below state the rest) |
| BlendEffects.StepWaits | Assets/Plugins/UnityExtension/RuntimeAPI/BaseClasses/BlendEffectController.cs:241-250 | while the delay outlasts the update, the event only counts its delay down and does not contribute |
| BlendEffects.StepStarts | Assets/Plugins/UnityExtension/RuntimeAPI/BaseClasses/BlendEffectController.cs:241-262 | on the update where the delay runs out, the event starts and advances by the leftover time over its duration, leaving the list when that reaches 1 |
| BlendEffects.StepRuns | Assets/Plugins/UnityExtension/RuntimeAPI/BaseClasses/BlendEffectController.cs:252-262 | a running event advances by deltaTime / duration and leaves the list exactly when its progress reaches 1 |
| BlendEffects.StepNeverStarts | Assets/Plugins/UnityExtension/RuntimeAPI/BaseClasses/BlendEffectController.cs:241-252 | an event created with a negative delay never starts: every update leaves it in the list and silent |
| BlendEffects.StepLeavesAtOne | Assets/Plugins/UnityExtension/RuntimeAPI/BaseClasses/BlendEffectController.cs:252-263 | an event leaves the list only on an update it contributes to, at progress exactly 1; one that stays and contributes is below 1 |
| BlendEffects.RunningEventEnds | Assets/Plugins/UnityExtension/RuntimeAPI/BaseClasses/BlendEffectController.cs:252-261 | a running event is gone after n updates once n steps of deltaTime / duration bring its progress to 1 |
| BlendEffects.Survivors | Assets/Plugins/UnityExtension/RuntimeAPI/BaseClasses/BlendEffectController.cs:236-265 | the events left after one update, in order, never more than before |
| BlendEffects.SurvivorsInProgress | Assets/Plugins/UnityExtension/RuntimeAPI/BaseClasses/BlendEffectController.cs:236-265 | with deltaTime not negative, every event left after an update has progress at least 0 and below 1 |
| BlendEffects.StepInProgress | Assets/Plugins/UnityExtension/RuntimeAPI/BaseClasses/BlendEffectController.cs:238-264 | an event in progress that stays after an update, with deltaTime not negative, is still at progress at least 0 and below 1 |
| BlendEffects.RemoveFirst | Assets/Plugins/UnityExtension/RuntimeAPI/BaseClasses/BlendEffectController.cs:119-119 | List.Remove: the first occurrence is removed, the rest kept; a missing id leaves the list as it is |
| BlendEffects.RemoveFirstOfDistinct | Assets/Plugins/UnityExtension/RuntimeAPI/BaseClasses/BlendEffectController.cs:119-119 | on a list without repeats, removing an id leaves exactly the other ids, still without repeats |
| BlendEffects.BlendEffectController.constructor | Assets/Plugins/UnityExtension/RuntimeAPI/BaseClasses/BlendEffectController.cs:68-81 | output scale 1, no channels and no events, the channel output to be computed |
| BlendEffects.BlendEffectController.CreateChannel | Assets/Plugins/UnityExtension/RuntimeAPI/BaseClasses/BlendEffectController.cs:206-211 | a new channel with the given value goes to the end of the channel list and the channel output is to be recomputed; nothing else changes |
| BlendEffects.BlendEffectController.SetChannelValue | Assets/Plugins/UnityExtension/RuntimeAPI/BaseClasses/BlendEffectController.cs:98-105 | a live channel whose value equals does not call equal is updated and the channel output is to be recomputed; otherwise nothing changes |
| BlendEffects.BlendEffectController.Dispose | Assets/Plugins/UnityExtension/RuntimeAPI/BaseClasses/BlendEffectController.cs:115-123 | a live channel leaves the channel list, is detached, and the output is to be recomputed; a disposed channel changes nothing |
| BlendEffects.BlendEffectController.SetBaseChannelValue | Assets/Plugins/UnityExtension/RuntimeAPI/BaseClasses/BlendEffectController.cs:164-174 | a value that equals does not call equal is stored and the channel output is to be recomputed; otherwise nothing changes |
| BlendEffects.BlendEffectController.SetOutputScale | Assets/Plugins/UnityExtension/RuntimeAPI/BaseClasses/BlendEffectController.cs:181-193 | the scale becomes max(value, 0), and the output is to be recomputed only when that differs from the old scale |
| BlendEffects.BlendEffectController.CreateEvent | Assets/Plugins/UnityExtension/RuntimeAPI/BaseClasses/BlendEffectController.cs:218-228 | a new event at progress 0 goes to the end of the event list; nothing else changes |
| BlendEffects.BlendEffectController.AdvanceEvent | Assets/Plugins/UnityExtension/RuntimeAPI/BaseClasses/BlendEffectController.cs:238-264 | the loop body on one event agrees with StepEvent |
| BlendEffects.BlendEffectController.StepAll | Assets/Plugins/UnityExtension/RuntimeAPI/BaseClasses/BlendEffectController.cs:236-265 | the loop leaves the surviving events, in order, and the output with every running event blended in, in list order |
| BlendEffects.BlendEffectController.UpdateEvents | Assets/Plugins/UnityExtension/RuntimeAPI/BaseClasses/BlendEffectController.cs:231-266 | the event list becomes the survivors and the output gets every running event's scaled value blended in; nothing else changes |
| BlendEffects.BlendEffectController.BlendChannels | Assets/Plugins/UnityExtension/RuntimeAPI/BaseClasses/BlendEffectController.cs:278-283 | the loop gives the base value blended with every channel's value in list order |
| BlendEffects.BlendEffectController.Refresh | Assets/Plugins/UnityExtension/RuntimeAPI/BaseClasses/BlendEffectController.cs:273-306 | recomputes the channel output only when a channel changed; returns true exactly when a channel, the scale or an event is pending, then outputs the events blended on the channel output, scaled |
| BlendEffects.BlendEffectController.RefreshChannels | Assets/Plugins/UnityExtension/RuntimeAPI/BaseClasses/BlendEffectController.cs:275-286 | when a channel changed, the channel output becomes the base blended with every channel's value in list order and the output is marked changed; the channel flag ends cleared |
| BlendEffects.BlendEffectController.RefreshOutput | Assets/Plugins/UnityExtension/RuntimeAPI/BaseClasses/BlendEffectController.cs:288-305 | true exactly when the output is marked changed or events are pending; then the output is the events blended on the channel output, scaled, and stays marked changed while events were pending; otherwise nothing changes |
| BlendKinds.EqualsVector2 | Assets/Plugins/UnityExtension/RuntimeAPI/BaseClasses/BlendEffectController.cs:410-413 | two vectors are equal exactly when both components are |
| BlendKinds.AdditiveFold | Assets/Plugins/UnityExtension/RuntimeAPI/BaseClasses/BlendEffectController.cs:452-455 | the additive float controller's channel output is the base plus the sum of the channel values |
| BlendKinds.MultiplyFold | Assets/Plugins/UnityExtension/RuntimeAPI/BaseClasses/BlendEffectController.cs:466-469 | the multiplying float controller's channel output is the base times the product of the channel values |
| BlendKinds.MaximumFold | Assets/Plugins/UnityExtension/RuntimeAPI/BaseClasses/BlendEffectController.cs:480-483 | the maximum float controller's channel output is at least the base and every value, and is one of them |
| BlendKinds.BlendsComponentwise | Assets/Plugins/UnityExtension/RuntimeAPI/BaseClasses/BlendEffectController.cs:494-525 | the Vector2 sum, Vector2.Scale and Vector2.Max are the float blends applied to each component |
| BlendKinds.ComponentwiseFold | Assets/Plugins/UnityExtension/RuntimeAPI/BaseClasses/BlendEffectController.cs:494-525 | a component-wise Vector2 blend folds each component on its own |
| BlendKinds.AdditiveVector2Fold | Assets/Plugins/UnityExtension/RuntimeAPI/BaseClasses/BlendEffectController.cs:494-497 | the additive Vector2 controller's channel output is the base plus the sum of the values, per component |
| BlendKinds.MultiplyVector2Fold | Assets/Plugins/UnityExtension/RuntimeAPI/BaseClasses/BlendEffectController.cs:508-511 | each component of the multiplying Vector2 controller's channel output is the multiplying float controller's output on that component, which MultiplyFold gives as the base times the product of the values |
| BlendKinds.MaximumVector2Fold | Assets/Plugins/UnityExtension/RuntimeAPI/BaseClasses/BlendEffectController.cs:522-525 | each component of the maximum Vector2 controller's channel output is at least the base's and every value's, and is the base's or some value's |

## Left out

- BitwiseKit: every member requires 0 <= bit < the type's width. For other bit indices C# masks the shift count (`& 31` for int-sized shifts, `& 63` for long) and the byte and short overloads drop the high bits when they narrow; those results are not modelled.
- Unity objects (GameObjects, components, Transforms, prefabs) are ids or tree values; `Instantiate`, activation, parenting, `DontDestroyOnLoad`, rendering and all editor drawing are engine calls and are not modelled.
- `Time.time` is the `now` parameter of the pool's methods, and `deltaTime` a parameter elsewhere.
- `float` and `double` are exact reals: rounding, NaN and infinity are not modelled.
- User callbacks (`Predicate`, `Comparison`, `bitToName`, `AnimationCurve.Evaluate`, state hooks) are function parameters or a `Behaviour` script. A callback that mutates the structure being walked is not modelled.
- Exceptions are values; an exception from user code is a `Throws` reaction of the `Behaviour`. Stack unwinding is only modelled to the point of skipping the remaining steps.
- The DEBUG-only checks (reentrancy guards, "invalid id", "Node is already at list") are always on.
- BlendEffects.BlendEffectController.CreateEvent: the duration must be positive (`Duration`); a zero or negative duration would make the source divide by zero or run time backwards, and is not modelled.
- BlendEffects.BlendEffectController.AdvanceEvent: the source writes a started event back to the list before deciding whether to remove it; the model writes the final event once, which gives the same list.
- The public `Channel` constructor (outside `CreateChannel`) and the `lastOutput` getter are not modelled; `finalOutput` is the field it reads.
- TreeNodes.Forest.AttachAsFirst: requires, when the attach would succeed, that the new parent is not inside the node's own subtree. The source's check for this is commented out, and such an attach would make a cycle that the model's tree invariant cannot describe.
- TreeNodes.Forest.AttachAsLast: requires, as AttachAsFirst does, that the new parent is not inside the node's own subtree, for the same reason.
- TreeNodes.Forest.AttachBefore: requires, as AttachAsFirst does, that the new parent is not inside the node's own subtree, for the same reason.
- TreeNodes.Forest.AttachAfter: requires, as AttachAsFirst does, that the new parent is not inside the node's own subtree, for the same reason.
- QuickLinkedLists.QuickLinkedList.Remove: runs the corrected unlink; the source's unlink leaves a middle node's successor with previous -1, which UnlinkAsWrittenInMiddle states (see Findings).
- ArrayExtension.Sort: after a throw, the writes of the passes before it are stated only as a rearrangement within the range (stable for a ranked comparer) that leaves the outside unchanged, not entry by entry. For a comparer that is not a consistent order, only the throw condition, the permutation and the unchanged outside are stated.
- ArrayExtension.SetValues2D: the indices are unbounded integers; with an empty column range and endRow = int.MaxValue the source's row counter would wrap and never stop, which the model does not reproduce.
- MaskGUIKit: a `bitToName` that returns null is modelled as returning "", which `string.IsNullOrEmpty` treats the same way.
- The enumerators' `Reset` is not modelled (a new cursor stands for it), and `Current` is the current node's id rather than its value.
- LinkedComponent's `null` is id -1, and Unity's destroyed-object equality is not modelled; the static head and tail of one component type are the fields of one `ComponentList`.
- GameObjectPool's inspector settings are a sequence of name and count pairs; the prefab is not modelled.
- GameObjectPools.GameObjectPool.Awake: after a repeated name the source throws before it creates `_objectToStack` and `_delayDespawnObjects`, so every later Spawn, Despawn, delayed Despawn, Update and DespawnAll throws a NullReferenceException (Spawn only after popping an object, which is then lost). The model instead keeps the empty record map and the empty schedule that its constructor made, so those later calls behave as on a pool that was set up completely.
- Union64's `Stream` overloads of Read and Write are I/O and are not modelled.
- Union64's float and double constructors and views (`floatValue`, `doubleValue`, `float0`, `float1`) reinterpret bits as IEEE 754 values, which exact reals cannot express; they are not modelled. The typed readers and writers for float and double are modelled only as moving 4 or 8 bytes.
- Ranges2.Range2.SqrDistance: states that the squared distance is never negative and is zero inside a sorted box, but not that it is positive outside one; the solver cannot carry that step of nonlinear real arithmetic.
- Ranges3.Range3.SqrDistance: the same as for Range2.
- BlendKinds.MultiplyVector2Fold: states each component as the float multiplying fold of that component, not directly as the base times the product; MultiplyFold makes that last step, which the solver does not take reliably inside one proof because it is nonlinear real arithmetic.
- `Range2.Distance` and `Range3.Distance` take a square root, which has no exact real counterpart here; the model stops at the squared distance.
- `AxisKit.ToVector(Axis, Transform)` applies a Transform rotation and is not modelled; `ToVector(Axis)` is.
- RandomExtension's geometric draws (`OnUnitCircle`, `InsideUnitSphere`, `InsideRange` and the like) and `Random`'s float draws other than `Next01` are floating-point geometry and are not modelled.
- `GeneralKit.SetTimeScaleAndFixedFrequency` and `GeneralKit.DestroySafely` are engine calls; `ArrayExtension.Traverse` and `ArrayExtension.ToCodeString` build text for the editor. None of them is modelled.
- The rest of `MathKit` (splines, projections, matrix decomposition) is floating-point geometry and is not modelled; `Normalize` and the dithering matrix are.
- MathKit.CreateOrderedDitheringMatrix: for a bad size the source also writes an error to Unity's log (`Debug.LogError`) before it returns null; logging is an effect on the engine and is not modelled, only the null result is.
- TextKit and ScriptGenerating: strings are sequences of Unicode scalar values (Dafny's `char`), while C# string and StringBuilder indices count UTF-16 code units. The indices that the scans, `IndexOf` and `LastIndexOf('.')` return therefore agree with the source only on text without characters above U+FFFF (surrogate pairs); on other text every such character before the match shifts the source's index by one more. A null string, on which the source throws (`s.Length`, `new List<char>(originalName)`), is not modelled.

## Findings

| source | as written | input that shows it | evidently intended | confidence | as-written member | corrected member |
|---|---|---|---|---|---|---|
| Assets/Plugins/UnityExtensions/RuntimeAPI/Supplements/QuickLinkedList.cs:139-152 | Remove sets `node.previous` to -1 before it copies `node.previous` into the successor | a list of three nodes; remove the middle one | the successor's previous becomes the removed node's predecessor | not executed | QuickLinkedLists.UnlinkAsWrittenInMiddle | QuickLinkedLists.QuickLinkedList.Unlink |
| Assets/Plugins/UnityExtension/RuntimeAPI/Supplements/QuickLinkedList.cs:164-170 | AddLast sets the new node's previous but never the old last node's next | AddLast twice on an empty list | the old last node's next points at the new node, so a walk from first reaches both | not executed | LegacyQuickLinkedLists.TwoAddLastsLeaveSecondUnreachable | QuickLinkedLists.QuickLinkedList.AddLast |
| Assets/Plugins/UnityExtension/RuntimeAPI/Supplements/QuickLinkedList.cs:133-143 | removal frees the slot and moves first/last to stale neighbours without relinking | AddFirst, AddFirst, RemoveLast, RemoveFirst, RemoveFirst | the last RemoveFirst throws "empty list" and count never goes below 0 | not executed | LegacyQuickLinkedLists.CountGoesNegative | QuickLinkedLists.QuickLinkedList.Count |
| Assets/Plugins/UnityExtension/Runtime/GameObjectPool.cs:107-127 | the delayed-despawn schedule lives in the older list, whose removal leaves the next entry unlinked | Despawn(a, 1), Despawn(b, 2), then Update at time 1.5 | every scheduled despawn happens once it is due | not executed | GameObjectPoolScenarios.DelayedDespawnIsLost | DespawnSchedules.Schedule.TakeDue |
| Assets/Plugins/UnityExtension/Runtime/GameObjectPool.cs:156-181 | the insertion walk follows previous links that the older list does not maintain | after the run above, Despawn(c, 3) then Despawn(d, 0.1) | the walk reaches the front or an earlier entry and ends | not executed | GameObjectPoolScenarios.DelayedDespawnWalksInCircles | DespawnSchedules.Schedule.Insert |
| Assets/Plugins/UnityExtension/RuntimeAPI/Supplements/Random.cs:95-98 | `maxValue - minValue` is computed in 32-bit int and wraps | Range(-2, int.MaxValue) with seed 0 returns -48272 | a value in [minValue, maxValue) | not executed | Randoms.RangeAsWrittenEscapes | Randoms.Random.RangeCorrected |
| Assets/Plugins/UnityExtensions/EditorAPI/Utilities/MaskGUIKit.cs:89-100 | in bit mode the hover line is clamped to [0, count - 1], which is -1 when no bit has a name | a bit popup with no named bit, then a mouse move and a click | the click finds no bit and keeps the value | not executed | MaskGUIKit.HoverLineEscapes | MaskGUIKit.HoverLineCorrected |
| Assets/Plugins/UnityExtensions/RuntimeAPI/BaseClasses/LinkedComponent.cs:58-69 | AttachBefore never sets the old predecessor's next to the new component | the list 0, 1; attach 2 before 1 | 2 sits between 0 and 1 in both directions | not executed | LinkedComponents.AttachBeforeCounterexample | LinkedComponents.ComponentList.AttachBeforeFixed |
| Assets/Plugins/UnityExtensions/RuntimeAPI/BaseClasses/LinkedComponent.cs:72-83 | AttachAfter never sets the old successor's previous to the new component | the list 0, 1; attach 2 after 0 | 2 sits between 0 and 1 in both directions | not executed | LinkedComponents.AfterAsWrittenBroken | LinkedComponents.ComponentList.AttachAfterFixed |

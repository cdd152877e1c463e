/** The player-behaviour flags: a 32-bit unsigned flags enum with one bit per
    controllable player feature, `None` (no bit) and `All` (every bit).

    A flags value is modelled by the set of the positions of its set bits, so
    bitwise or is union, bitwise and is intersection and the enum's
    `HasFlag(flag)` is inclusion. */
module BehaviourFlags {

  /** The number of bits of the enum's underlying type. */
  const Width: nat := 32

  /** A flags value: the positions of its set bits (each below `Width`). */
  type Flags = set<nat>

  const None: Flags := {}
  const Input: Flags := {0}
  const WalkingControls: Flags := {1}
  const CheatFlyControls: Flags := {2}
  const LookControls: Flags := {3}
  const ToolSelectionControls: Flags := {4}
  const PrimaryActionControl: Flags := {5}
  const SecondaryActionControl: Flags := {6}
  const ScrollControl: Flags := {7}
  const InteractionControl: Flags := {8}
  const EscapeControl: Flags := {9}
  const PilotingControls: Flags := {10}
  const InventoryControl: Flags := {11}
  const LeverControl: Flags := {12}
  const LeavableObjectControl: Flags := {13}
  const ShiftHoldControl: Flags := {14}
  const CheatControls: Flags := {15}
  const SwitchTabControls: Flags := {16}
  const ObjectInteractionDetector: Flags := {17}
  const PlugSocketDetector: Flags := {18}

  /** The enum's maximum value: all 32 bits set. */
  const All: Flags := set b | 0 <= b < Width

  /** The number of flags that map to a behaviour type. */
  const MappedCount: nat := 19

  /** The keys of the flag-to-behaviour-type table, in the table's order.
      The behaviour type of entry `t` is identified by the number `t`. */
  const Table: seq<Flags> := [
    Input, WalkingControls, CheatFlyControls, LookControls, ToolSelectionControls,
    PrimaryActionControl, SecondaryActionControl, ScrollControl, InteractionControl,
    EscapeControl, PilotingControls, InventoryControl, LeverControl, LeavableObjectControl,
    ShiftHoldControl, CheatControls, SwitchTabControls, ObjectInteractionDetector,
    PlugSocketDetector]

  /** The bits of all mapped flags. */
  const MappedMask: Flags := set b | 0 <= b < MappedCount

  /** The members of the two range masks: `MappedMask` holds the mapped
      bits and `All` every bit of the underlying type; the first is part of
      the second. */
  lemma MaskMembers()
    ensures forall b: nat :: b in MappedMask <==> b < MappedCount
    ensures forall b: nat :: b in All <==> b < Width
    ensures MappedMask <= All
  {
  }

  /** The behaviours an open overlay leaves on: `Input | EscapeControl`. */
  const InputAndEscape: Flags := Input + EscapeControl

  /** `Input | EscapeControl` is bits 0 and 9, both mapped. */
  lemma InputAndEscapeBits()
    ensures forall b: nat :: b in InputAndEscape <==> b == 0 || b == 9
    ensures InputAndEscape * MappedMask == InputAndEscape
    ensures IsValue(InputAndEscape)
  {
    MaskMembers();
  }

  /** The enum's `HasFlag`: every bit of `flag` is set in `f`. */
  predicate HasFlag(f: Flags, flag: Flags) {
    flag <= f
  }

  /** The flag of table entry `t`: bit `t`. */
  function Flag(t: nat): (r: Flags)
    requires t < MappedCount
    ensures IsValue(r) && t in r
  {
    {t}
  }

  /** The table's entries are bits 0 to 18 in ascending order; so they are
      distinct, and the enum's `None` and `All` are not among them. */
  lemma TableIsBits()
    ensures |Table| == MappedCount
    ensures forall t :: 0 <= t < MappedCount ==> Table[t] == Flag(t)
    ensures forall t :: 0 <= t < MappedCount ==> Table[t] != None && Table[t] != All
  {
    forall t | 0 <= t < MappedCount
      ensures Table[t] != All
    {
      assert 31 in All;
    }
  }

  /** A value of the enum: no bit beyond the underlying type's width. */
  predicate IsValue(f: Flags) {
    forall b :: b in f ==> b < Width
  }

  /** `None` has no flag, `All` has every flag of the enum. */
  lemma NoneAndAll(f: Flags)
    requires IsValue(f)
    ensures HasFlag(f, None)
    ensures f != None ==> !HasFlag(None, f)
    ensures HasFlag(All, f)
  {
  }
}

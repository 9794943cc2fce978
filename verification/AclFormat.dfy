/** The run-time ACL table: one flat array of transitions, and the step that
    the classifiers take from a transition and an input byte.

    A transition is kept here as a record.  `AclWord` packs the same record
    into the 64-bit word that the C code stores and shows when nothing is
    lost by working on records. */
module AclFormat {
  import opened Basics

  const DFA_SIZE := 256
  const GROUP_SIZE := 64
  const QUAD_MAX := 5

  datatype Kind = Dfa | Single | Quad | Match

  /** The upper 32 bits: four bytes, whose meaning depends on the node kind. */
  datatype Lanes = Lanes(l0: byte, l1: byte, l2: byte, l3: byte) {
    function At(i: int): byte
      requires 0 <= i < 4
    {
      if i == 0 then l0 else if i == 1 then l1 else if i == 2 then l2 else l3
    }
  }

  datatype Transition = Transition(lanes: Lanes, kind: Kind, addr: nat)

  const NO_LANES := Lanes(0, 0, 0, 0)
  const TOP_LANES := Lanes(0x7f, 0x7f, 0x7f, 0x7f)

  const NO_MATCH := Transition(NO_LANES, Match, 0)
  const IDLE := Transition(NO_LANES, Single, DFA_SIZE)

  /** Position of a byte in the order 0x80..0xff, 0x00..0x7f, that is, in the
      order of bytes read as signed numbers. */
  function Rank(b: byte): byte {
    if b < 128 then b + 128 else b - 128
  }

  function Beyond(boundary: byte, b: byte): nat {
    if Rank(boundary) < Rank(b) then 1 else 0
  }

  /** How many of the four signed boundaries lie below `b`. */
  function RangeOffset(lanes: Lanes, b: byte): nat {
    Beyond(lanes.l0, b) + Beyond(lanes.l1, b) + Beyond(lanes.l2, b) + Beyond(lanes.l3, b)
  }

  /** Index of the transition for `b` within the node; every kind other than
      Dfa is looked up by ranges. */
  function Offset(t: Transition, b: byte): int {
    if t.kind.Dfa? then b - t.lanes.At(b / GROUP_SIZE) else RangeOffset(t.lanes, b)
  }

  function StepAddr(t: Transition, b: byte): int {
    t.addr + Offset(t, b)
  }

  function Step(table: seq<Transition>, t: Transition, b: byte): Transition
    requires 0 <= StepAddr(t, b) < |table|
  {
    table[StepAddr(t, b)]
  }
}

/**
 * The packet-identifier ring as values: sixteen one-byte slots and a cursor.
 * An accepted send writes the command's identifier byte at the cursor and
 * moves the cursor on by one, back to 0 after the last slot. The class in
 * slip_radio.dfy keeps the same state in an array and an integer and is
 * specified by these functions.
 */
module PacketIds {
  import opened Frames

  /** Number of slots, `sizeof(packet_ids)`. */
  const RING_SIZE: int := 16

  datatype Ring = Ring(ids: seq<byte>, pos: int)

  predicate ValidRing(r: Ring)
  {
    |r.ids| == RING_SIZE && 0 <= r.pos < RING_SIZE
  }

  /** The slot write a send command does first, before anything is decoded. */
  function Record(r: Ring, id: byte): (r': Ring)
    requires ValidRing(r)
  {
    Ring(r.ids[r.pos := id], r.pos)
  }

  /** Cursor step: increment, and back to 0 once it reaches the ring size. */
  function Advance(pos: int): (next: int)
    requires 0 <= pos < RING_SIZE
    ensures 0 <= next < RING_SIZE
    ensures next == (pos + 1) % RING_SIZE
  {
    if pos + 1 >= RING_SIZE then 0 else pos + 1
  }

  /** One accepted send: the slot write followed by the cursor step. */
  function Accept(r: Ring, id: byte): (r': Ring)
    requires ValidRing(r)
    ensures ValidRing(r')
    ensures r'.ids[r.pos] == id
    ensures forall k :: 0 <= k < RING_SIZE && k != r.pos ==> r'.ids[k] == r.ids[k]
    ensures r'.pos == (r.pos + 1) % RING_SIZE
  {
    var w := Record(r, id);
    Ring(w.ids, Advance(w.pos))
  }

  /** A run of accepted sends, in order, carrying the identifiers `ids`. */
  function AcceptAll(r: Ring, ids: seq<byte>): (r': Ring)
    requires ValidRing(r)
    ensures ValidRing(r')
    decreases |ids|
  {
    if ids == [] then r
    else Accept(AcceptAll(r, ids[..|ids| - 1]), ids[|ids| - 1])
  }

  /** The cursor after `j` steps from `p`. */
  function Slot(p: int, j: nat): (k: int)
    requires 0 <= p < RING_SIZE
    ensures 0 <= k < RING_SIZE
  {
    if j == 0 then p else Advance(Slot(p, j - 1))
  }

  /** Within one turn the cursor is the start plus the steps, less 16 once past the end. */
  lemma {:induction false} SlotWithinTurn(p: int, j: nat)
    requires 0 <= p < RING_SIZE && j < RING_SIZE
    ensures Slot(p, j) == if p + j < RING_SIZE then p + j else p + j - RING_SIZE
  {
    if j > 0 {
      SlotWithinTurn(p, j - 1);
    }
  }

  /** Sixteen more steps lead back to the same slot. */
  lemma {:induction false} SlotPeriodic(p: int, j: nat)
    requires 0 <= p < RING_SIZE
    ensures Slot(p, j + RING_SIZE) == Slot(p, j)
  {
    if j == 0 {
      SlotWithinTurn(p, RING_SIZE - 1);
    } else {
      SlotPeriodic(p, j - 1);
    }
  }

  /** Sixteen consecutive cursor positions are sixteen different slots. */
  lemma {:induction false} SlotsDistinct(p: int, i: nat, j: nat)
    requires 0 <= p < RING_SIZE
    requires i < j < i + RING_SIZE
    ensures Slot(p, i) != Slot(p, j)
  {
    if i >= RING_SIZE {
      SlotsDistinct(p, i - RING_SIZE, j - RING_SIZE);
      SlotPeriodic(p, i - RING_SIZE);
      SlotPeriodic(p, j - RING_SIZE);
    } else if j < RING_SIZE {
      SlotWithinTurn(p, i);
      SlotWithinTurn(p, j);
    } else {
      SlotPeriodic(p, j - RING_SIZE);
      SlotWithinTurn(p, i);
      SlotWithinTurn(p, j - RING_SIZE);
    }
  }

  /** The cursor after `j` steps is `(p + j) mod 16`. */
  lemma {:induction false} SlotIsSum(p: int, j: nat)
    requires 0 <= p < RING_SIZE
    ensures Slot(p, j) == (p + j) % RING_SIZE
  {
    if j < RING_SIZE {
      SlotWithinTurn(p, j);
    } else {
      SlotIsSum(p, j - RING_SIZE);
      SlotPeriodic(p, j - RING_SIZE);
      assert p + j == (p + j - RING_SIZE) + RING_SIZE;
    }
  }

  /** Distance, going forward round the ring, from slot `from` to slot `k`. */
  function Offset(from: int, k: int): (d: int)
    requires 0 <= from < RING_SIZE && 0 <= k < RING_SIZE
    ensures 0 <= d < RING_SIZE
    ensures Slot(from, d) == k
  {
    SlotWithinTurn(from, if from <= k then k - from else k + RING_SIZE - from);
    if from <= k then k - from else k + RING_SIZE - from
  }

  /**
   * After a run of sends the cursor has moved on by the number of sends;
   * each of the last sixteen identifiers sits in the slot that was the
   * cursor when it was sent; a slot that no send of the run reached keeps
   * its old byte.
   */
  lemma {:induction false} AcceptAllEffect(r: Ring, ids: seq<byte>)
    requires ValidRing(r)
    ensures AcceptAll(r, ids).pos == Slot(r.pos, |ids|)
    ensures forall j :: 0 <= j < |ids| && |ids| - j <= RING_SIZE ==>
              AcceptAll(r, ids).ids[Slot(r.pos, j)] == ids[j]
    ensures forall k :: 0 <= k < RING_SIZE && Offset(r.pos, k) >= |ids| ==>
              AcceptAll(r, ids).ids[k] == r.ids[k]
    decreases |ids|
  {
    if ids != [] {
      var n := |ids|;
      var init := ids[..n - 1];
      AcceptAllEffect(r, init);
      var mid := AcceptAll(r, init);
      var fin := AcceptAll(r, ids);
      assert fin == Accept(mid, ids[n - 1]);
      forall j | 0 <= j < n && n - j <= RING_SIZE
        ensures fin.ids[Slot(r.pos, j)] == ids[j]
      {
        if j < n - 1 {
          assert init[j] == ids[j];
          SlotsDistinct(r.pos, j, n - 1);
        }
      }
      forall k | 0 <= k < RING_SIZE && Offset(r.pos, k) >= n
        ensures fin.ids[k] == r.ids[k]
      {
        if k == mid.pos {
          SlotsDistinct(r.pos, n - 1, Offset(r.pos, k));
        }
      }
    }
  }

  /** Sixteen sends bring the cursor back where it was and fill every slot. */
  lemma FullTurn(r: Ring, ids: seq<byte>)
    requires ValidRing(r)
    requires |ids| == RING_SIZE
    ensures AcceptAll(r, ids).pos == r.pos
    ensures forall j :: 0 <= j < RING_SIZE ==> AcceptAll(r, ids).ids[Slot(r.pos, j)] == ids[j]
  {
    AcceptAllEffect(r, ids);
    SlotPeriodic(r.pos, 0);
  }

  /**
   * Starting from slot 0, the seventeenth send overwrites slot 0 with its
   * own identifier and leaves the cursor at 1.
   */
  lemma SeventeenthSendOverwritesSlotZero(r: Ring, ids: seq<byte>)
    requires ValidRing(r) && r.pos == 0
    requires |ids| == RING_SIZE + 1
    ensures AcceptAll(r, ids).ids[0] == ids[RING_SIZE]
    ensures AcceptAll(r, ids).pos == 1
  {
    AcceptAllEffect(r, ids);
    SlotPeriodic(0, 0);
    SlotPeriodic(0, 1);
  }

  /**
   * The identifier of an accepted send stays in its slot, and so is what
   * the completion callback reports, for up to fifteen further accepted
   * sends; the sixteenth one after it reuses the slot.
   */
  lemma IdentifierLifetime(r: Ring, id: byte, later: seq<byte>)
    requires ValidRing(r)
    ensures |later| < RING_SIZE ==> AcceptAll(Accept(r, id), later).ids[r.pos] == id
    ensures |later| == RING_SIZE ==> AcceptAll(Accept(r, id), later).ids[r.pos] == later[RING_SIZE - 1]
  {
    var r1 := Accept(r, id);
    AcceptAllEffect(r1, later);
    var back := Offset(r1.pos, r.pos);
    assert back == RING_SIZE - 1 by {
      SlotWithinTurn(r1.pos, back);
    }
  }
}

/**
 * Connection admission and input ingestion of old/server.py's `handle_client`: the
 * registry mapping connections to player slots, and how each received line updates the
 * two players' inputs. Sockets and threads are not modelled; a connection is an opaque
 * number, and decoding a line (JSON parsing and the `int` conversion) is a parameter.
 */
module Sessions {
  import opened Wrappers
  import opened GameModel

  type Conn = nat

  /** The connections currently registered, each with its player slot. */
  type Registry = map<Conn, int>

  datatype Admission = Admitted(slot: int, registry: Registry) | Rejected

  /**
   * The slot a connection is given. A connection already registered keeps its slot;
   * otherwise the slot is chosen from how many connections are registered, not from
   * which slot is free, and a third connection is closed without being registered.
   */
  function Connect(reg: Registry, c: Conn): (a: Admission)
    ensures c in reg ==> a == Admitted(reg[c], reg)
    ensures c !in reg ==> (a.Admitted? <==> |reg| < 2)
    ensures a.Admitted? ==> a.registry == reg[c := a.slot]
    ensures c !in reg && a.Admitted? ==> a.slot == |reg| + 1
  {
    if c in reg then Admitted(reg[c], reg)
    else if |reg| == 0 then Admitted(1, reg[c := 1])
    else if |reg| == 1 then Admitted(2, reg[c := 2])
    else Rejected
  }

  /** The connection leaves the registry; leaving twice is the same as leaving once. */
  function Disconnect(reg: Registry, c: Conn): (r: Registry)
    ensures c !in r
    ensures forall d :: d in reg && d != c ==> d in r && r[d] == reg[d]
    ensures forall d :: d in r ==> d in reg
  {
    reg - {c}
  }

  predicate WellFormed(reg: Registry) {
    |reg| <= 2 && forall c :: c in reg ==> reg[c] == 1 || reg[c] == 2
  }

  lemma {:induction false} DisconnectShrinks(reg: Registry, c: Conn)
    ensures |Disconnect(reg, c)| <= |reg|
    ensures c in reg ==> |Disconnect(reg, c)| == |reg| - 1
  {
    var r := Disconnect(reg, c);
    assert r.Keys == reg.Keys - {c};
    if c in reg {
      assert reg.Keys == r.Keys + {c};
    } else {
      assert r.Keys == reg.Keys;
    }
  }

  /** Admission and departure keep at most two registered connections, each in slot 1 or 2. */
  lemma RegistryStaysWellFormed(reg: Registry, c: Conn)
    requires WellFormed(reg)
    ensures Connect(reg, c).Admitted? ==> WellFormed(Connect(reg, c).registry)
    ensures WellFormed(Disconnect(reg, c))
    ensures Disconnect(Disconnect(reg, c), c) == Disconnect(reg, c)
  {
    DisconnectShrinks(reg, c);
  }

  /** A third connection is refused and leaves the registry, and so every existing session, untouched. */
  lemma ThirdConnectionRejected(reg: Registry, c: Conn)
    requires WellFormed(reg) && |reg| == 2 && c !in reg
    ensures Connect(reg, c) == Rejected
  {
  }

  /**
   * Slots are not always distinct: after player 1 leaves, the next connection is given
   * slot 2 again, so both remaining connections drive player 2's paddle.
   */
  lemma SlotReusedAfterPlayerOneLeaves()
    ensures var r1 := Connect(map[], 10);
            var r2 := Connect(r1.registry, 11);
            var r3 := Connect(Disconnect(r2.registry, 10), 12);
            && r1.Admitted? && r1.slot == 1
            && r2.Admitted? && r2.slot == 2
            && r3.Admitted? && r3.slot == 2
            && r3.registry == map[11 := 2, 12 := 2]
            && !DistinctSlots(r3.registry)
  {
    var r1 := Connect(map[], 10);
    assert r1.registry == map[10 := 1];
    var r2 := Connect(r1.registry, 11);
    assert r2.registry == map[10 := 1, 11 := 2];
    var left := Disconnect(r2.registry, 10);
    assert left == map[11 := 2];
    assert |left| == 1;
    var r3 := Connect(left, 12);
    assert r3.registry[11] == r3.registry[12];
  }

  /** No two registered connections share a slot. */
  predicate DistinctSlots(reg: Registry) {
    forall c, d :: c in reg && d in reg && c != d ==> reg[c] != reg[d]
  }

  /**
   * Slot assignment as evidently intended: a new connection takes the slot no registered
   * connection holds, rather than the slot numbered after the registry's size.
   */
  function ConnectFreeSlot(reg: Registry, c: Conn): (a: Admission)
    ensures c in reg ==> a == Admitted(reg[c], reg)
    ensures c !in reg ==> (a.Admitted? <==> |reg| < 2)
    ensures a.Admitted? ==> a.registry == reg[c := a.slot]
    ensures c !in reg && a.Admitted? ==> forall d :: d in reg ==> reg[d] != a.slot
  {
    if c in reg then Admitted(reg[c], reg)
    else if |reg| >= 2 then Rejected
    else
      var slot := if 1 in reg.Values then 2 else 1;
      assert slot == 2 ==> forall d :: d in reg ==> reg[d] == 1 by {
        if slot == 2 {
          var d0 :| d0 in reg && reg[d0] == 1;
          forall d | d in reg ensures reg[d] == 1 {
            SingletonKeys(reg, d0, d);
          }
        }
      }
      Admitted(slot, reg[c := slot])
  }

  /** A registry with one entry has one key. */
  lemma SingletonKeys(reg: Registry, d0: Conn, d: Conn)
    requires |reg| <= 1 && d0 in reg && d in reg
    ensures d == d0
  {
    if d != d0 {
      assert {d0, d} <= reg.Keys;
      assert |{d0, d}| == 2;
      SubsetSize({d0, d}, reg.Keys);
    }
  }

  lemma SubsetSize(a: set<Conn>, b: set<Conn>)
    requires a <= b
    ensures |a| <= |b|
  {
    assert b == a + (b - a);
  }

  /** With the free-slot rule, connecting and leaving keep the two slots distinct. */
  lemma FreeSlotKeepsSlotsDistinct(reg: Registry, c: Conn)
    requires WellFormed(reg) && DistinctSlots(reg)
    ensures ConnectFreeSlot(reg, c).Admitted? ==>
              WellFormed(ConnectFreeSlot(reg, c).registry) && DistinctSlots(ConnectFreeSlot(reg, c).registry)
    ensures DistinctSlots(Disconnect(reg, c))
  {
    var a := ConnectFreeSlot(reg, c);
    if a.Admitted? && c !in reg {
      FreshSlotKeepsSlotsDistinct(reg, c, a.slot);
    }
  }

  /** Registering a new connection in a slot nobody holds keeps the slots distinct. */
  lemma FreshSlotKeepsSlotsDistinct(reg: Registry, c: Conn, slot: int)
    requires WellFormed(reg) && DistinctSlots(reg) && c !in reg && |reg| < 2
    requires slot == 1 || slot == 2
    requires forall d :: d in reg ==> reg[d] != slot
    ensures WellFormed(reg[c := slot]) && DistinctSlots(reg[c := slot])
  {
    var r := reg[c := slot];
    assert r.Keys == reg.Keys + {c};
    assert |r| == |reg| + 1;
  }

  /** A decoded input message: the `direction` field when present. */
  datatype Message = Message(direction: Option<int>)

  datatype Inputs = Inputs(p1: PlayerInput, p2: PlayerInput)

  /** The input a slot currently holds (slot 1, otherwise slot 2). */
  function InputOf(inputs: Inputs, slot: int): PlayerInput {
    if slot == 1 then inputs.p1 else inputs.p2
  }

  /**
   * One received line: empty lines are skipped, a line that does not decode changes nothing,
   * and a decoded message overwrites the input of this connection's slot with its direction,
   * 0 when the field is missing, with no range check.
   */
  function HandleLine(inputs: Inputs, slot: int, line: string, decode: string -> Option<Message>): (r: Inputs)
    ensures line == "" || decode(line).None? ==> r == inputs
    ensures slot != 1 ==> r.p1 == inputs.p1
    ensures slot != 2 ==> r.p2 == inputs.p2
    ensures line != "" && decode(line).Some? && (slot == 1 || slot == 2) ==>
              InputOf(r, slot) == PlayerInput(decode(line).value.direction.GetOr(0))
  {
    if line == "" then inputs
    else match decode(line)
      case None => inputs
      case Some(m) =>
        var input := PlayerInput(m.direction.GetOr(0));
        if slot == 1 then inputs.(p1 := input)
        else if slot == 2 then inputs.(p2 := input)
        else inputs
  }

  /** All lines of one connection, in order. */
  function Ingest(inputs: Inputs, slot: int, lines: seq<string>, decode: string -> Option<Message>): (r: Inputs)
    ensures slot != 1 ==> r.p1 == inputs.p1
    ensures slot != 2 ==> r.p2 == inputs.p2
    decreases |lines|
  {
    if |lines| == 0 then inputs
    else Ingest(HandleLine(inputs, slot, lines[0], decode), slot, lines[1..], decode)
  }

  /** The direction carried by the last line that is non-empty and decodes, if any. */
  function LastDirection(lines: seq<string>, decode: string -> Option<Message>): Option<int>
    decreases |lines|
  {
    if |lines| == 0 then None
    else
      var last := lines[|lines| - 1];
      if last != "" && decode(last).Some? then Some(decode(last).value.direction.GetOr(0))
      else LastDirection(lines[..|lines| - 1], decode)
  }

  lemma {:induction false} IngestSnoc(inputs: Inputs, slot: int, lines: seq<string>, line: string,
                                      decode: string -> Option<Message>)
    ensures Ingest(inputs, slot, lines + [line], decode)
         == HandleLine(Ingest(inputs, slot, lines, decode), slot, line, decode)
    decreases |lines|
  {
    if |lines| == 0 {
      assert [line][1..] == [];
    } else {
      assert (lines + [line])[1..] == lines[1..] + [line];
      IngestSnoc(HandleLine(inputs, slot, lines[0], decode), slot, lines[1..], line, decode);
    }
  }

  /**
   * Last write wins: after a connection's lines, its slot holds the direction of the last
   * line that decoded (or what it held before, if none did), and the other slot is untouched.
   */
  lemma {:induction false} LastWriteWins(inputs: Inputs, slot: int, lines: seq<string>,
                                         decode: string -> Option<Message>)
    requires slot == 1 || slot == 2
    ensures var r := Ingest(inputs, slot, lines, decode);
            && InputOf(r, slot) == (match LastDirection(lines, decode)
                                    case Some(d) => PlayerInput(d)
                                    case None => InputOf(inputs, slot))
            && InputOf(r, 3 - slot) == InputOf(inputs, 3 - slot)
    decreases |lines|
  {
    if |lines| > 0 {
      var init := lines[..|lines| - 1];
      assert lines == init + [lines[|lines| - 1]];
      IngestSnoc(inputs, slot, init, lines[|lines| - 1], decode);
      LastWriteWins(inputs, slot, init, decode);
    }
  }
}

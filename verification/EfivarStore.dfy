/** The attribute-prefixed variable store and the boot-order operations on it. */
module EfivarStore {
  import opened BootOrder
  import opened Sorting

  /** Raw file content per variable: four attribute bytes, then the payload. */
  type Store = map<string, seq<Byte>>

  /** `fs::write` opens with create and truncate, then writes: it succeeds, fails before touching
      the file, or fails with the first `kept` bytes stored. */
  datatype WriteOutcome = Done | Refused | Torn(kept: nat)

  /** Which of the reads of one operation fail, and how its write ends. */
  datatype Io = Io(read: bool, reread: bool, write: WriteOutcome)

  const NV_BS_RT: U32 := 0x07

  function RawEntry(attrs: EfiAttributes, payload: seq<Byte>): seq<Byte> {
    Le32(AttributesToU32(attrs)) + payload
  }

  function ReadVar(s: Store, name: string, ioFails: bool): Result<seq<Byte>> {
    if ioFails || name !in s || |s[name]| < 4 then Err(EspScanFailed) else Ok(s[name][4..])
  }

  /** What a torn write leaves of an entry: less than all of it. */
  function Cut(entry: seq<Byte>, kept: nat): seq<Byte> {
    if kept < |entry| then entry[..kept] else []
  }

  function WriteVar(s: Store, name: string, payload: seq<Byte>, attrs: EfiAttributes, write: WriteOutcome)
    : (Store, Result<()>)
  {
    var entry := RawEntry(attrs, payload);
    match write
    case Done => (s[name := entry], Ok(()))
    case Refused => (s, Err(EspScanFailed))
    case Torn(kept) => (s[name := Cut(entry, kept)], Err(EspScanFailed))
  }

  /** Deleting an absent variable succeeds without touching anything. */
  function DeleteVar(s: Store, name: string, ioFails: bool): (Store, Result<()>) {
    if name !in s then (s, Ok(())) else if ioFails then (s, Err(EspScanFailed)) else (s - {name}, Ok(()))
  }

  /** The boot order as a reader would decode it. */
  function ReadOrder(s: Store, ioFails: bool): Result<seq<U16>> {
    var payload := ReadVar(s, "BootOrder", ioFails);
    if payload.Err? then Err(payload.error) else ParseBootOrder(payload.value)
  }

  predicate IndexLess(a: U16, b: U16) {
    a < b
  }

  /** `sort_unstable`. */
  function Sorted(xs: seq<U16>): seq<U16> {
    Sort(IndexLess, xs)
  }

  /** The checks of `set_boot_order`, in the order they are made. */
  function CheckOrder(current: seq<U16>, newOrder: seq<U16>): Result<()> {
    if !NoDuplicates(newOrder) then Err(MalformedValue)
    else if Sorted(current) != Sorted(newOrder) then Err(MalformedValue)
    else Ok(())
  }

  function SetOrderEffect(s: Store, newOrder: seq<U16>, readFails: bool, write: WriteOutcome): (Store, Result<()>) {
    var current := ReadOrder(s, readFails);
    if current.Err? then (s, Err(current.error))
    else
      var check := CheckOrder(current.value, newOrder);
      if check.Err? then (s, check)
      else WriteVar(s, "BootOrder", EncodedOrder(newOrder), AttributesFrom(NV_BS_RT), write)
  }

  function MoveEffect(s: Store, from: nat, to: nat, io: Io): (Store, Result<seq<U16>>) {
    var current := ReadOrder(s, io.read);
    if current.Err? then (s, Err(current.error))
    else if from >= |current.value| then (s, Err(KeyNotFound))
    else
      var order := Moved(current.value, from, to);
      var (s', r) := SetOrderEffect(s, order, io.reread, io.write);
      (s', if r.Err? then Err(r.error) else Ok(order))
  }

  function SetNextEffect(s: Store, index: U16, enforceOrder: bool, io: Io): (Store, Result<()>) {
    var order := ReadOrder(s, io.read);
    if enforceOrder && order.Err? then (s, Err(order.error))
    else if enforceOrder && index !in order.value then (s, Err(KeyNotFound))
    else WriteVar(s, "BootNext", Le16(index), AttributesFrom(NV_BS_RT), io.write)
  }

  /** The attribute bytes in front of a written variable: non-volatile, boot-service and run-time
      access, little-endian. */
  lemma WrittenAttributes(payload: seq<Byte>)
    ensures RawEntry(AttributesFrom(NV_BS_RT), payload) == [7, 0, 0, 0] + payload
  {
    DecodeAttributes(NV_BS_RT);
  }

  /** What the operations leave in the files of the two variables. */
  lemma WrittenFiles(s: Store, newOrder: seq<U16>, index: U16, enforceOrder: bool, io: Io)
    ensures SetOrderEffect(s, newOrder, io.read, io.write).1.Ok? ==>
      SetOrderEffect(s, newOrder, io.read, io.write).0 == s["BootOrder" := [7, 0, 0, 0] + EncodedOrder(newOrder)]
    ensures SetNextEffect(s, index, enforceOrder, io).1.Ok? ==>
      SetNextEffect(s, index, enforceOrder, io).0 == s["BootNext" := [7, 0, 0, 0, index % 0x100, index / 0x100]]
  {
    WrittenAttributes(EncodedOrder(newOrder));
    WrittenAttributes(Le16(index));
    assert [7, 0, 0, 0] + Le16(index) == [7, 0, 0, 0, index % 0x100, index / 0x100];
  }

  /** `EfivarFsReader`: the directory of variable files, changed in place. */
  class EfivarFs {
    var files: Store

    constructor (initial: Store)
      ensures files == initial
    {
      files := initial;
    }

    method ReadGlobal(name: string, ioFails: bool) returns (r: Result<seq<Byte>>)
      ensures r == ReadVar(files, name, ioFails)
    {
      if ioFails || name !in files {
        return Err(EspScanFailed);
      }
      var raw := files[name];
      if |raw| < 4 {
        return Err(EspScanFailed);
      }
      return Ok(raw[4..]);
    }

    method WriteGlobal(name: string, payload: seq<Byte>, attrs: EfiAttributes, write: WriteOutcome)
      returns (r: Result<()>)
      modifies this
      ensures (files, r) == WriteVar(old(files), name, payload, attrs, write)
    {
      var buffer := Le32(AttributesToU32(attrs));
      buffer := buffer + payload;
      match write {
        case Done =>
          files := files[name := buffer];
          return Ok(());
        case Refused =>
          return Err(EspScanFailed);
        case Torn(kept) =>
          files := files[name := Cut(buffer, kept)];
          return Err(EspScanFailed);
      }
    }

    method DeleteGlobal(name: string, ioFails: bool) returns (r: Result<()>)
      modifies this
      ensures (files, r) == DeleteVar(old(files), name, ioFails)
    {
      if name !in files {
        return Ok(());
      }
      if ioFails {
        return Err(EspScanFailed);
      }
      files := files - {name};
      return Ok(());
    }

    method SetBootOrder(newOrder: seq<U16>, readFails: bool, write: WriteOutcome) returns (r: Result<()>)
      modifies this
      ensures (files, r) == SetOrderEffect(old(files), newOrder, readFails, write)
    {
      var payload := ReadGlobal("BootOrder", readFails);
      if payload.Err? {
        return Err(payload.error);
      }
      var current := ParseBootOrder(payload.value);
      if current.Err? {
        return Err(current.error);
      }
      var seen: set<U16> := {};
      for i := 0 to |newOrder|
        invariant NoDuplicates(newOrder[..i])
        invariant forall x :: x in seen <==> x in newOrder[..i]
      {
        assert newOrder[..i + 1] == newOrder[..i] + [newOrder[i]];
        if newOrder[i] in seen {
          DuplicateFound(newOrder, i);
          return Err(MalformedValue);
        }
        seen := seen + {newOrder[i]};
      }
      assert newOrder[..|newOrder|] == newOrder;
      if Sorted(current.value) != Sorted(newOrder) {
        return Err(MalformedValue);
      }
      var encoded := EncodeBootOrder(newOrder);
      r := WriteGlobal("BootOrder", encoded, AttributesFrom(NV_BS_RT), write);
    }

    method MoveBootOrderEntry(from: nat, to: nat, io: Io) returns (r: Result<seq<U16>>)
      modifies this
      ensures (files, r) == MoveEffect(old(files), from, to, io)
    {
      var payload := ReadGlobal("BootOrder", io.read);
      if payload.Err? {
        return Err(payload.error);
      }
      var current := ParseBootOrder(payload.value);
      if current.Err? {
        return Err(current.error);
      }
      var order := current.value;
      if from >= |order| {
        return Err(KeyNotFound);
      }
      var target := if to < |order| - 1 then to else |order| - 1;
      var entry := order[from];
      order := Without(order, from);
      order := WithAt(order, target, entry);
      var set' := SetBootOrder(order, io.reread, io.write);
      if set'.Err? {
        return Err(set'.error);
      }
      return Ok(order);
    }

    method SetBootNext(index: U16, enforceOrder: bool, io: Io) returns (r: Result<()>)
      modifies this
      ensures (files, r) == SetNextEffect(old(files), index, enforceOrder, io)
    {
      if enforceOrder {
        var payload := ReadGlobal("BootOrder", io.read);
        if payload.Err? {
          return Err(payload.error);
        }
        var order := ParseBootOrder(payload.value);
        if order.Err? {
          return Err(order.error);
        }
        if index !in order.value {
          return Err(KeyNotFound);
        }
      }
      r := WriteGlobal("BootNext", Le16(index), AttributesFrom(NV_BS_RT), io.write);
    }

    method ClearBootNext(ioFails: bool) returns (r: Result<()>)
      modifies this
      ensures (files, r) == DeleteVar(old(files), "BootNext", ioFails)
    {
      r := DeleteGlobal("BootNext", ioFails);
    }
  }

  lemma DuplicateFound(xs: seq<U16>, i: nat)
    requires i < |xs| && xs[i] in xs[..i]
    ensures !NoDuplicates(xs)
  {
    var j :| 0 <= j < i && xs[..i][j] == xs[i];
    assert xs[j] == xs[i];
  }

  // ---------------------------------------------------------------------------
  // Sorting decides permutation
  // ---------------------------------------------------------------------------

  /** The checks accept exactly the permutations of a current order without duplicates. */
  lemma CheckOrderExact(current: seq<U16>, newOrder: seq<U16>)
    ensures CheckOrder(current, newOrder).Ok? <==> NoDuplicates(current) && multiset(newOrder) == multiset(current)
  {
    SortDuplicates(IndexLess, current);
    SortDuplicates(IndexLess, newOrder);
    SortIsSorted(IndexLess, current);
    SortIsSorted(IndexLess, newOrder);
    SortHolds(IndexLess, current);
    SortHolds(IndexLess, newOrder);
    if multiset(newOrder) == multiset(current) {
      SortedIsUnique(IndexLess, Sorted(current), Sorted(newOrder));
    }
  }

  // ---------------------------------------------------------------------------
  // The store over whole runs
  // ---------------------------------------------------------------------------

  datatype Op =
    | SetOrder(order: seq<U16>, io: Io)
    | Move(from: nat, to: nat, io: Io)
    | SetNext(index: U16, io: Io)
    | ClearNext(ioFails: bool)

  /** One call, successful or failing. `SetNext` is the enforced form. */
  function Apply(s: Store, op: Op): Store {
    match op
    case SetOrder(order, io) => SetOrderEffect(s, order, io.read, io.write).0
    case Move(from, to, io) => MoveEffect(s, from, to, io).0
    case SetNext(index, io) => SetNextEffect(s, index, true, io).0
    case ClearNext(ioFails) => DeleteVar(s, "BootNext", ioFails).0
  }

  function Run(s: Store, ops: seq<Op>): Store
    decreases |ops|
  {
    if ops == [] then s else Run(Apply(s, ops[0]), ops[1..])
  }

  function OrderOf(s: Store): Result<seq<U16>> {
    ReadOrder(s, false)
  }

  /** `BootNext` is absent, or decodes to an index of the boot order. */
  predicate NextIsListed(s: Store) {
    "BootNext" in s ==>
      OrderOf(s).Ok? && ReadVar(s, "BootNext", false).Ok? &&
      ParseSingle(ReadVar(s, "BootNext", false).value).Ok? &&
      ParseSingle(ReadVar(s, "BootNext", false).value).value in OrderOf(s).value
  }

  /** What every call keeps: the multiset of boot-order indices (or its unreadability), and,
      once it holds, that `BootNext` names one of them. */
  ghost predicate Keeps(s: Store, s': Store) {
    && (OrderOf(s).Ok? <==> OrderOf(s').Ok?)
    && (OrderOf(s).Ok? ==> multiset(OrderOf(s').value) == multiset(OrderOf(s).value))
    && (NextIsListed(s) ==> NextIsListed(s'))
  }

  /** A written payload is read back, whatever attributes go before it. */
  lemma WrittenReadsBack(s: Store, name: string, payload: seq<Byte>, attrs: EfiAttributes)
    ensures ReadVar(WriteVar(s, name, payload, attrs, Done).0, name, false) == Ok(payload)
  {
    assert RawEntry(attrs, payload)[4..] == payload;
  }

  /** What is read after a torn write is a proper prefix of the payload, or nothing. */
  lemma TornReadsBack(s: Store, name: string, payload: seq<Byte>, attrs: EfiAttributes, kept: nat)
    ensures
      var r := ReadVar(WriteVar(s, name, payload, attrs, Torn(kept)).0, name, false);
      r.Ok? ==> |r.value| < |payload| && r.value == payload[..|r.value|]
  {
    var entry := RawEntry(attrs, payload);
    assert kept < |entry| && kept >= 4 ==> Cut(entry, kept)[4..] == payload[..kept - 4];
  }

  /** The order may be set: it is readable, without duplicates, and the new one a permutation. */
  predicate MaySetOrder(s: Store, newOrder: seq<U16>, readFails: bool) {
    !readFails && OrderOf(s).Ok? && NoDuplicates(OrderOf(s).value) && multiset(newOrder) == multiset(OrderOf(s).value)
  }

  /** `set_boot_order` succeeds exactly on permutations of a readable order without duplicates
      (when no I/O fails), and then the order read back is the new one; a failure that does not
      tear the write changes nothing. */
  lemma SetOrderExact(s: Store, newOrder: seq<U16>, readFails: bool, write: WriteOutcome)
    ensures var (s', r) := SetOrderEffect(s, newOrder, readFails, write);
      && (r.Ok? <==> MaySetOrder(s, newOrder, readFails) && write.Done?)
      && (r.Ok? ==> OrderOf(s') == Ok(newOrder) && s' - {"BootOrder"} == s - {"BootOrder"})
      && (r.Err? ==> s' == s || (MaySetOrder(s, newOrder, readFails) && write.Torn?))
  {
    if ReadOrder(s, readFails).Ok? {
      CheckOrderExact(OrderOf(s).value, newOrder);
      WrittenReadsBack(s, "BootOrder", EncodedOrder(newOrder), AttributesFrom(NV_BS_RT));
      ParseInvertsEncode(newOrder);
    }
  }

  /** `set_boot_next` succeeds exactly when the index is listed, or listing is not enforced, and
      the write is done; then it is the index read back. */
  lemma SetNextExact(s: Store, index: U16, enforceOrder: bool, io: Io)
    ensures var (s', r) := SetNextEffect(s, index, enforceOrder, io);
      && (r.Ok? <==> (enforceOrder ==> !io.read && OrderOf(s).Ok? && index in OrderOf(s).value) && io.write.Done?)
      && (r.Ok? ==> ReadVar(s', "BootNext", false).Ok?
                    && ParseSingle(ReadVar(s', "BootNext", false).value) == Ok(index)
                    && s' - {"BootNext"} == s - {"BootNext"})
      && (r.Err? && !io.write.Torn? ==> s' == s)
  {
    WrittenReadsBack(s, "BootNext", Le16(index), AttributesFrom(NV_BS_RT));
    assert ParseSingle(Le16(index)) == Ok(index);
  }

  /** An index out of place, in a move or for the next boot, is told apart from an order that cannot
      be read and from one that is no permutation. */
  lemma IndexErrors(s: Store, newOrder: seq<U16>, from: nat, to: nat, index: U16, io: Io)
    ensures
      var readable := !io.read && OrderOf(s).Ok?;
      && (MoveEffect(s, from, to, io).1 == Err(KeyNotFound) <==> readable && from >= |OrderOf(s).value|)
      && (SetNextEffect(s, index, true, io).1 == Err(KeyNotFound) <==> readable && index !in OrderOf(s).value)
      && (readable && (!NoDuplicates(OrderOf(s).value) || multiset(newOrder) != multiset(OrderOf(s).value)) ==>
            SetOrderEffect(s, newOrder, io.read, io.write) == (s, Err(MalformedValue)))
  {
    if ReadOrder(s, io.read).Ok? { CheckOrderExact(OrderOf(s).value, newOrder); }
  }

  /** `clear_boot_next` fails only on a present variable, and leaves no `BootNext` otherwise. */
  lemma ClearNextExact(s: Store, ioFails: bool)
    ensures var (s', r) := DeleteVar(s, "BootNext", ioFails);
      && (r.Err? <==> "BootNext" in s && ioFails)
      && s' == (if r.Ok? then s - {"BootNext"} else s) && Apply(s, ClearNext(ioFails)) == s'
  {
    assert "BootNext" !in s ==> s - {"BootNext"} == s;
  }

  lemma SetOrderKeeps(s: Store, newOrder: seq<U16>, readFails: bool, write: WriteOutcome)
    requires MaySetOrder(s, newOrder, readFails) ==> !write.Torn?
    ensures Keeps(s, SetOrderEffect(s, newOrder, readFails, write).0)
  {
    SetOrderExact(s, newOrder, readFails, write);
    var (s', r) := SetOrderEffect(s, newOrder, readFails, write);
    if r.Ok? {
      SameMembers(newOrder, OrderOf(s).value);
      if "BootNext" in s' {
        assert "BootNext" in s - {"BootOrder"} && "BootNext" in s' - {"BootOrder"};
        assert (s - {"BootOrder"})["BootNext"] == (s' - {"BootOrder"})["BootNext"];
      }
    }
  }

  /** A torn order is unreadable or shorter. */
  lemma TornOrderIsLost(s: Store, newOrder: seq<U16>, readFails: bool, kept: nat)
    requires MaySetOrder(s, newOrder, readFails)
    ensures !Keeps(s, SetOrderEffect(s, newOrder, readFails, Torn(kept)).0)
  {
    var (s', _) := SetOrderEffect(s, newOrder, readFails, Torn(kept));
    CheckOrderExact(OrderOf(s).value, newOrder);
    TornReadsBack(s, "BootOrder", EncodedOrder(newOrder), AttributesFrom(NV_BS_RT), kept);
    ParseInvertsEncode(newOrder);
    assert |OrderOf(s).value| == |multiset(OrderOf(s).value)| == |multiset(newOrder)| == |newOrder|;
    if OrderOf(s').Ok? {
      var payload := ReadVar(s', "BootOrder", false).value;
      EncodeInvertsParse(payload);
      ParseInvertsEncode(OrderOf(s').value);
      assert |multiset(OrderOf(s').value)| == |OrderOf(s').value| < |newOrder|;
    }
  }

  lemma SameMembers(a: seq<U16>, b: seq<U16>)
    requires multiset(a) == multiset(b)
    ensures forall x :: x in a <==> x in b
  {
    forall x ensures x in a <==> x in b {
      assert x in multiset(a) <==> x in multiset(b);
    }
  }

  lemma SetNextKeeps(s: Store, index: U16, io: Io)
    requires !io.read && OrderOf(s).Ok? && index in OrderOf(s).value ==> !io.write.Torn?
    ensures Keeps(s, SetNextEffect(s, index, true, io).0)
  {
    SetNextExact(s, index, true, io);
  }

  lemma TornNextIsLost(s: Store, index: U16, io: Io)
    requires !io.read && OrderOf(s).Ok? && index in OrderOf(s).value && io.write.Torn?
    ensures !NextIsListed(SetNextEffect(s, index, true, io).0)
  {
    TornReadsBack(s, "BootNext", Le16(index), AttributesFrom(NV_BS_RT), io.write.kept);
  }

  /** The call reaches its write, and the write is torn. */
  predicate Tears(s: Store, op: Op) {
    match op
    case SetOrder(order, io) => MaySetOrder(s, order, io.read) && io.write.Torn?
    case Move(from, to, io) =>
      !io.read && OrderOf(s).Ok? && from < |OrderOf(s).value|
      && MaySetOrder(s, Moved(OrderOf(s).value, from, to), io.reread) && io.write.Torn?
    case SetNext(index, io) => !io.read && OrderOf(s).Ok? && index in OrderOf(s).value && io.write.Torn?
    case ClearNext(_) => false
  }

  /** A call keeps the invariant unless it tears its write. */
  lemma StepKeeps(s: Store, op: Op)
    requires !Tears(s, op)
    ensures Keeps(s, Apply(s, op))
  {
    match op
    case SetOrder(order, io) => SetOrderKeeps(s, order, io.read, io.write);
    case Move(from, to, io) =>
      if ReadOrder(s, io.read).Ok? && from < |ReadOrder(s, io.read).value| {
        SetOrderKeeps(s, Moved(ReadOrder(s, io.read).value, from, to), io.reread, io.write);
      }
    case SetNext(index, io) => SetNextKeeps(s, index, io);
    case ClearNext(_) =>
  }

  /** From a store whose `BootNext` is absent or listed, a call keeps the invariant exactly when it
      does not tear its write. */
  lemma StepKeepsExactly(s: Store, op: Op)
    requires NextIsListed(s)
    ensures Keeps(s, Apply(s, op)) <==> !Tears(s, op)
  {
    if !Tears(s, op) {
      StepKeeps(s, op);
    } else {
      match op
      case SetOrder(order, io) => TornOrderIsLost(s, order, io.read, io.write.kept);
      case Move(from, to, io) => TornOrderIsLost(s, Moved(OrderOf(s).value, from, to), io.reread, io.write.kept);
      case SetNext(index, io) => TornNextIsLost(s, index, io);
      case ClearNext(_) =>
    }
  }

  predicate NeverTears(s: Store, ops: seq<Op>)
    decreases |ops|
  {
    ops == [] || (!Tears(s, ops[0]) && NeverTears(Apply(s, ops[0]), ops[1..]))
  }

  ghost predicate EveryStepKeeps(s: Store, ops: seq<Op>)
    decreases |ops|
  {
    ops == [] || (Keeps(s, Apply(s, ops[0])) && EveryStepKeeps(Apply(s, ops[0]), ops[1..]))
  }

  /** Over any run of calls, successful or failing, whose writes are not torn, the multiset of
      boot-order indices never changes, and a `BootNext` that is initially absent or listed always
      stays so. */
  lemma {:induction false} RunKeepsOrder(s: Store, ops: seq<Op>)
    requires NeverTears(s, ops)
    ensures Keeps(s, Run(s, ops))
    decreases |ops|
  {
    if ops != [] {
      StepKeeps(s, ops[0]);
      RunKeepsOrder(Apply(s, ops[0]), ops[1..]);
    }
  }

  /** And that is exactly when every call of the run keeps it. */
  lemma {:induction false} RunKeepsExactly(s: Store, ops: seq<Op>)
    requires NextIsListed(s)
    ensures EveryStepKeeps(s, ops) <==> NeverTears(s, ops)
    decreases |ops|
  {
    if ops != [] {
      StepKeepsExactly(s, ops[0]);
      if Keeps(s, Apply(s, ops[0])) { RunKeepsExactly(Apply(s, ops[0]), ops[1..]); }
    }
  }

  /** A move that is reported done is the move asked for; it is done exactly when its source
      position exists and the order has no duplicates (when no I/O fails). */
  lemma MoveExact(s: Store, from: nat, to: nat, io: Io)
    ensures var (s', r) := MoveEffect(s, from, to, io);
      && (r.Ok? <==> (!io.read && !io.reread && io.write.Done? && OrderOf(s).Ok? &&
                      from < |OrderOf(s).value| && NoDuplicates(OrderOf(s).value)))
      && (r.Ok? ==> r.value == Moved(OrderOf(s).value, from, to) && OrderOf(s') == r)
      && (r.Err? && !io.write.Torn? ==> s' == s)
  {
    var current := ReadOrder(s, io.read);
    if current.Ok? && from < |current.value| {
      MoveLaws(current.value, from, to);
      SetOrderExact(s, Moved(current.value, from, to), io.reread, io.write);
    }
  }
}

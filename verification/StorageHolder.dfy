/**
 Storage holders: move-only owners of a storage index in a disk subsystem. A holder that
 goes away, is reset or is assigned over gives its index back with remove_torrent.
 */
module StorageHolders {

  import opened Wrappers

  /** A storage: its disk subsystem and the index it has there. */
  datatype Storage = Storage(disk: DiskInterface, idx: int)

  /** The storages handed out and not yet given back, of all disk subsystems. */
  class Ledger {
    var live: set<Storage>

    constructor ()
      ensures live == {}
    {
      live := {};
    }
  }

  /** A disk subsystem; it records what it hands out in the ledger. */
  class DiskInterface {
    const ledger: Ledger

    constructor (ledger: Ledger)
      ensures this.ledger == ledger
    {
      this.ledger := ledger;
    }

    /** A new index is handed out. */
    method NewTorrent(idx: int)
      requires Storage(this, idx) !in ledger.live
      modifies ledger
      ensures ledger.live == old(ledger.live) + {Storage(this, idx)}
    {
      ledger.live := ledger.live + {Storage(this, idx)};
    }

    /** Only an index that is handed out may be given back. */
    method RemoveTorrent(idx: int)
      requires Storage(this, idx) in ledger.live
      modifies ledger
      ensures ledger.live == old(ledger.live) - {Storage(this, idx)}
    {
      ledger.live := ledger.live - {Storage(this, idx)};
    }
  }

  class StorageHolder {
    var mDiskIo: DiskInterface?
    var mIdx: int

    /** storage_holder() */
    constructor Empty()
      ensures mDiskIo == null
    {
      mDiskIo, mIdx := null, 0;
    }

    /** storage_holder(idx, disk_io) */
    constructor (idx: int, diskIo: DiskInterface)
      ensures mDiskIo == diskIo && mIdx == idx
    {
      mDiskIo, mIdx := diskIo, idx;
    }

    /** storage_holder(storage_holder&& rhs) */
    constructor Move(rhs: StorageHolder)
      modifies rhs
      ensures mDiskIo == old(rhs.mDiskIo) && mIdx == old(rhs.mIdx)
      ensures rhs.mDiskIo == null
    {
      mDiskIo, mIdx := rhs.mDiskIo, rhs.mIdx;
      new;
      rhs.mDiskIo := null;
    }

    ghost function Owned(): Option<Storage>
      reads this
    {
      if mDiskIo == null then None else Some(Storage(mDiskIo, mIdx))
    }

    ghost function Ledgers(): set<Ledger>
      reads this
    {
      if mDiskIo == null then {} else {mDiskIo.ledger}
    }

    ghost predicate Holds()
      reads this, Ledgers()
    {
      mDiskIo != null ==> Storage(mDiskIo, mIdx) in mDiskIo.ledger.live
    }

    /** What the destructor, reset and assignment do first. */
    method GiveBack()
      requires Holds()
      modifies Ledgers()
      ensures mDiskIo != null ==> mDiskIo.ledger.live == old(mDiskIo.ledger.live) - {Storage(mDiskIo, mIdx)}
    {
      if mDiskIo != null {
        mDiskIo.RemoveTorrent(mIdx);
      }
    }

    method Reset()
      requires Holds()
      modifies this, Ledgers()
      ensures mDiskIo == null && mIdx == old(mIdx)
      ensures old(mDiskIo) != null ==>
        old(mDiskIo).ledger.live == old(mDiskIo.ledger.live) - {old(Storage(mDiskIo, mIdx))}
    {
      GiveBack();
      mDiskIo := null;
    }

    /** operator=(storage_holder&& rhs) */
    method MoveAssign(rhs: StorageHolder)
      requires Holds()
      modifies this, rhs, Ledgers()
      ensures rhs == this ==> mDiskIo == old(mDiskIo) && mIdx == old(mIdx)
      ensures rhs == this && mDiskIo != null ==> mDiskIo.ledger.live == old(mDiskIo.ledger.live)
      ensures rhs != this ==> mDiskIo == old(rhs.mDiskIo) && mIdx == old(rhs.mIdx) && rhs.mDiskIo == null
      ensures rhs != this && old(mDiskIo) != null ==>
        old(mDiskIo).ledger.live == old(mDiskIo.ledger.live) - {old(Storage(mDiskIo, mIdx))}
    {
      if rhs == this { return; }
      GiveBack();
      mDiskIo := rhs.mDiskIo;
      mIdx := rhs.mIdx;
      rhs.mDiskIo := null;
    }
  }

  // ---------- all holders together ----------

  /** Which storage each holder owns; which are handed out; and how often each was handed out
      and given back so far. The holders may belong to different disk subsystems. */
  datatype State = State(
    owner: map<StorageHolder, Option<Storage>>, live: set<Storage>,
    handed: multiset<Storage>, removed: multiset<Storage>)

  /** Every storage handed out has exactly one owner, and was handed out once more often than
      it was given back. */
  ghost predicate Exclusive(s: State) {
    OwnersExclusive(s) && s.handed == s.removed + multiset(s.live)
  }

  ghost predicate OwnersExclusive(s: State) {
    && (forall h <- s.owner :: OwnsLive(s, h))
    && (forall h <- s.owner, g <- s.owner :: Apart(s, h, g))
    && (forall i <- s.live :: HasOwner(s, i))
  }

  predicate OwnsLive(s: State, h: StorageHolder)
    requires h in s.owner
  {
    s.owner[h].Some? ==> s.owner[h].value in s.live
  }

  predicate Apart(s: State, h: StorageHolder, g: StorageHolder)
    requires h in s.owner && g in s.owner
  {
    h != g && s.owner[h].Some? ==> s.owner[h] != s.owner[g]
  }

  ghost predicate HasOwner(s: State, i: Storage) {
    exists h: StorageHolder :: h in s.owner && s.owner[h] == Some(i)
  }

  datatype Op =
    | Construct(h: StorageHolder, i: Storage)
    | ConstructEmpty(h: StorageHolder)
    | MoveConstruct(h: StorageHolder, rhs: StorageHolder)
    | MoveAssign(h: StorageHolder, rhs: StorageHolder)
    | Reset(h: StorageHolder)
    | Destroy(h: StorageHolder)

  predicate Enabled(s: State, op: Op) {
    match op
    case Construct(h, i) => h !in s.owner && i !in s.live
    case ConstructEmpty(h) => h !in s.owner
    case MoveConstruct(h, rhs) => h !in s.owner && rhs in s.owner
    case MoveAssign(h, rhs) => h in s.owner && rhs in s.owner
    case Reset(h) => h in s.owner
    case Destroy(h) => h in s.owner
  }

  function GivenBack(s: State, h: StorageHolder): State
    requires h in s.owner
  {
    match s.owner[h]
    case None => s
    case Some(i) => s.(owner := s.owner[h := None], live := s.live - {i}, removed := s.removed + multiset{i})
  }

  /** h takes over what rhs owns. */
  function Taken(s: State, h: StorageHolder, rhs: StorageHolder): State
    requires rhs in s.owner
  {
    s.(owner := s.owner[h := s.owner[rhs]][rhs := None])
  }

  function Step(s: State, op: Op): State
    requires Enabled(s, op)
  {
    match op
    case Construct(h, i) => s.(owner := s.owner[h := Some(i)], live := s.live + {i}, handed := s.handed + multiset{i})
    case ConstructEmpty(h) => s.(owner := s.owner[h := None])
    case MoveConstruct(h, rhs) => Taken(s, h, rhs)
    case MoveAssign(h, rhs) => if h == rhs then s else Taken(GivenBack(s, h), h, rhs)
    case Reset(h) => GivenBack(s, h)
    case Destroy(h) => var t := GivenBack(s, h); t.(owner := t.owner - {h})
  }

  lemma GiveBackKeeps(s: State, h: StorageHolder)
    requires Exclusive(s) && h in s.owner
    ensures Exclusive(GivenBack(s, h)) && GivenBack(s, h).owner == s.owner[h := None]
  {
    var r := GivenBack(s, h);
    assert OwnsLive(s, h);
    forall g <- r.owner
      ensures OwnsLive(r, g)
    {
      assert OwnsLive(s, g) && Apart(s, h, g);
    }
    forall g <- r.owner, f <- r.owner
      ensures Apart(r, g, f)
    {
      assert Apart(s, g, f);
    }
    forall i <- r.live
      ensures HasOwner(r, i)
    {
      assert HasOwner(s, i);
      var g: StorageHolder :| g in s.owner && s.owner[g] == Some(i);
      assert g in r.owner && r.owner[g] == Some(i);
    }
  }

  lemma TakeKeeps(s: State, h: StorageHolder, rhs: StorageHolder)
    requires Exclusive(s) && rhs in s.owner && h != rhs && (h in s.owner ==> s.owner[h] == None)
    ensures Exclusive(Taken(s, h, rhs))
  {
    var r := Taken(s, h, rhs);
    forall g <- r.owner
      ensures OwnsLive(r, g)
    {
      assert OwnsLive(s, rhs);
      assert g in s.owner ==> OwnsLive(s, g);
    }
    forall g <- r.owner, f <- r.owner
      ensures Apart(r, g, f)
    {
      assert g in s.owner && f in s.owner ==> Apart(s, g, f);
      assert g in s.owner ==> Apart(s, g, rhs) && Apart(s, rhs, g);
      assert f in s.owner ==> Apart(s, f, rhs) && Apart(s, rhs, f);
    }
    forall i <- r.live
      ensures HasOwner(r, i)
    {
      assert HasOwner(s, i);
      var g: StorageHolder :| g in s.owner && s.owner[g] == Some(i);
      assert r.owner[if g == rhs then h else g] == Some(i);
    }
  }

  lemma DropKeeps(s: State, h: StorageHolder)
    requires Exclusive(s) && h in s.owner && s.owner[h] == None
    ensures Exclusive(s.(owner := s.owner - {h}))
  {
    var r := s.(owner := s.owner - {h});
    forall g <- r.owner
      ensures OwnsLive(r, g)
    {
      assert OwnsLive(s, g);
    }
    forall g <- r.owner, f <- r.owner
      ensures Apart(r, g, f)
    {
      assert Apart(s, g, f);
    }
    forall i <- r.live
      ensures HasOwner(r, i)
    {
      assert HasOwner(s, i);
      var g: StorageHolder :| g in s.owner && s.owner[g] == Some(i);
      assert g in r.owner;
    }
  }

  lemma AddKeeps(s: State, op: Op)
    requires Exclusive(s) && Enabled(s, op) && (op.Construct? || op.ConstructEmpty?)
    ensures Exclusive(Step(s, op))
  {
    var r := Step(s, op);
    forall g <- r.owner
      ensures OwnsLive(r, g)
    {
      assert g in s.owner ==> OwnsLive(s, g);
    }
    forall g <- r.owner, f <- r.owner
      ensures Apart(r, g, f)
    {
      assert g in s.owner ==> OwnsLive(s, g);
      assert f in s.owner ==> OwnsLive(s, f);
      assert g in s.owner && f in s.owner ==> Apart(s, g, f);
    }
    forall i <- r.live
      ensures HasOwner(r, i)
    {
      if i in s.live {
        assert HasOwner(s, i);
        var g: StorageHolder :| g in s.owner && s.owner[g] == Some(i);
        assert r.owner[g] == Some(i);
      } else {
        assert r.owner[op.h] == Some(i);
      }
    }
  }

  /** Every operation on holders keeps every storage handed out with exactly one owner. */
  lemma StepKeeps(s: State, op: Op)
    requires Exclusive(s) && Enabled(s, op)
    ensures Exclusive(Step(s, op))
  {
    match op {
      case MoveConstruct(h, rhs) => TakeKeeps(s, h, rhs);
      case MoveAssign(h, rhs) =>
        if h != rhs {
          GiveBackKeeps(s, h);
          TakeKeeps(GivenBack(s, h), h, rhs);
        }
      case Reset(h) => GiveBackKeeps(s, h);
      case Destroy(h) =>
        GiveBackKeeps(s, h);
        DropKeeps(GivenBack(s, h), h);
      case _ => AddKeeps(s, op);
    }
    hide Exclusive;
  }

  /** What giving back does to the disk side of the state. */
  predicate GaveBack(s: State, r: State, owned: Option<Storage>) {
    (r.live, r.removed, r.handed) ==
    match owned
    case None => (s.live, s.removed, s.handed)
    case Some(i) => (s.live - {i}, s.removed + multiset{i}, s.handed)
  }

  lemma MoveAssignStep(s: State, h: StorageHolder, rhs: StorageHolder)
    requires h in s.owner && rhs in s.owner
    ensures var r := Step(s, Op.MoveAssign(h, rhs));
      if h == rhs then r == s
      else r.owner == s.owner[h := s.owner[rhs]][rhs := None] && GaveBack(s, r, s.owner[h])
  {
  }

  lemma NewHolderStep(s: State, op: Op)
    requires Enabled(s, op)
    ensures match op
      case Construct(h, i) =>
        Step(s, op) == State(s.owner[h := Some(i)], s.live + {i}, s.handed + multiset{i}, s.removed)
      case ConstructEmpty(h) => Step(s, op) == s.(owner := s.owner[h := None])
      case MoveConstruct(h, rhs) => Step(s, op) == s.(owner := s.owner[h := s.owner[rhs]][rhs := None])
      case _ => true
  {
  }

  lemma ResetStep(s: State, h: StorageHolder)
    requires h in s.owner
    ensures var r := Step(s, Op.Reset(h)); r.owner == s.owner[h := None] && GaveBack(s, r, s.owner[h])
  {
  }

  lemma DestroyStep(s: State, h: StorageHolder)
    requires h in s.owner
    ensures var r := Step(s, Op.Destroy(h)); r.owner == s.owner - {h} && GaveBack(s, r, s.owner[h])
  {
    var t := GivenBack(s, h);
    assert t.owner - {h} == s.owner - {h};
  }

  predicate Runs(s: State, ops: seq<Op>)
    decreases ops
  {
    ops == [] || (Enabled(s, ops[0]) && Runs(Step(s, ops[0]), ops[1..]))
  }

  function After(s: State, ops: seq<Op>): State
    requires Runs(s, ops)
    decreases ops
  {
    if ops == [] then s else After(Step(s, ops[0]), ops[1..])
  }

  lemma {:induction false} RunKeeps(s: State, ops: seq<Op>)
    requires Exclusive(s) && Runs(s, ops)
    ensures Exclusive(After(s, ops))
    decreases ops
  {
    if ops != [] {
      StepKeeps(s, ops[0]);
      RunKeeps(Step(s, ops[0]), ops[1..]);
    }
  }

  /** Over any run from nothing, each storage handed out has exactly one owner until it is
      given back; and when all holders are gone, everything handed out was given back
      exactly as often as it was handed out. */
  lemma EveryStorageGivenBackOnce(ops: seq<Op>)
    requires Runs(State(map[], {}, multiset{}, multiset{}), ops)
    ensures var s := After(State(map[], {}, multiset{}, multiset{}), ops);
      Exclusive(s) && ((forall h <- s.owner :: s.owner[h] == None) ==> s.live == {} && s.handed == s.removed)
  {
    var s0: State := State(map[], {}, multiset{}, multiset{});
    assert Exclusive(s0);
    RunKeeps(s0, ops);
    var s := After(s0, ops);
    if forall h <- s.owner :: s.owner[h] == None {
      NothingOwned(s);
    }
  }

  lemma NothingOwned(s: State)
    requires Exclusive(s) && forall h <- s.owner :: s.owner[h] == None
    ensures s.live == {} && s.handed == s.removed
  {
    assert forall i :: !HasOwner(s, i);
    assert forall i :: i !in s.live;
  }

  // ---------- programs ----------

  /** A statement of a program that names its holders by the order in which it made them. */
  datatype Cmd =
    | Make(disk: DiskInterface, idx: int) | MakeEmpty | MakeFrom(n: nat)
    | Assign(n: nat, m: nat) | Empty(n: nat) | Drop(n: nat)

  predicate Alive(s: State, vars: seq<StorageHolder>, n: nat) {
    n < |vars| && vars[n] in s.owner
  }

  /** The holders named exist, and an index handed out is a new one. */
  predicate Possible(s: State, vars: seq<StorageHolder>, cmd: Cmd) {
    match cmd
    case Make(disk, idx) => Storage(disk, idx) !in s.live
    case MakeEmpty => true
    case Assign(n, m) => Alive(s, vars, n) && Alive(s, vars, m)
    case _ => Alive(s, vars, cmd.n)
  }

  /** The operation of a statement; h is the holder it makes, if it makes one. */
  function OpOf(s: State, vars: seq<StorageHolder>, cmd: Cmd, h: StorageHolder): Op
    requires Possible(s, vars, cmd)
  {
    match cmd
    case Make(disk, idx) => Op.Construct(h, Storage(disk, idx))
    case MakeEmpty => Op.ConstructEmpty(h)
    case MakeFrom(n) => Op.MoveConstruct(h, vars[n])
    case Assign(n, m) => Op.MoveAssign(vars[n], vars[m])
    case Empty(n) => Op.Reset(vars[n])
    case Drop(n) => Op.Destroy(vars[n])
  }

  predicate Makes(cmd: Cmd) {
    cmd.Make? || cmd.MakeEmpty? || cmd.MakeFrom?
  }

  /** The operations are those of the statements in order, up to the first impossible one. */
  predicate Performs(s: State, vars: seq<StorageHolder>, cmds: seq<Cmd>, ops: seq<Op>)
    decreases cmds
  {
    if cmds == [] || !Possible(s, vars, cmds[0]) then ops == []
    else
      && ops != [] && ops[0] == OpOf(s, vars, cmds[0], ops[0].h) && Enabled(s, ops[0])
      && Performs(Step(s, ops[0]), if Makes(cmds[0]) then vars + [ops[0].h] else vars, cmds[1..], ops[1..])
  }

  lemma {:induction false} PerformsRuns(s: State, vars: seq<StorageHolder>, cmds: seq<Cmd>, ops: seq<Op>)
    requires Performs(s, vars, cmds, ops)
    ensures Runs(s, ops)
    decreases ops
  {
    if ops != [] {
      PerformsRuns(Step(s, ops[0]), if Makes(cmds[0]) then vars + [ops[0].h] else vars, cmds[1..], ops[1..]);
    }
  }

  /** All holders of the disk subsystems that share a ledger. */
  class Program {
    const ledger: Ledger
    var holders: set<StorageHolder>
    ghost var handed: multiset<Storage>
    ghost var removed: multiset<Storage>

    ghost function View(): State
      reads this, holders, ledger
    {
      State(map h | h in holders :: h.Owned(), ledger.live, handed, removed)
    }

    ghost predicate Valid()
      reads this, holders, ledger
    {
      Exclusive(View()) && forall h <- holders :: h.mDiskIo == null || h.mDiskIo.ledger == ledger
    }

    constructor (ledger: Ledger)
      requires ledger.live == {}
      ensures Valid() && View() == State(map[], {}, multiset{}, multiset{}) && this.ledger == ledger
    {
      this.ledger := ledger;
      holders, handed, removed := {}, multiset{}, multiset{};
    }

    ghost function Released(h: StorageHolder): multiset<Storage>
      reads h
    {
      match h.Owned()
      case None => multiset{}
      case Some(i) => multiset{i}
    }

    lemma HolderHolds(h: StorageHolder)
      requires Valid() && h in holders
      ensures h.Holds()
    {
      assert View().owner[h] == h.Owned() && OwnsLive(View(), h);
    }

    method Construct(idx: int, disk: DiskInterface) returns (h: StorageHolder)
      requires Valid() && disk.ledger == ledger && Storage(disk, idx) !in ledger.live
      modifies this, ledger
      ensures fresh(h) && View() == Step(old(View()), Op.Construct(h, Storage(disk, idx))) && Valid()
      ensures holders == old(holders) + {h}
    {
      hide Exclusive, Step;
      ghost var s, i := View(), Storage(disk, idx);
      disk.NewTorrent(idx);
      h := new StorageHolder(idx, disk);
      holders := holders + {h};
      handed := handed + multiset{i};
      assert View().owner == s.owner[h := Some(i)];
      StepKeeps(s, Op.Construct(h, i));
      NewHolderStep(s, Op.Construct(h, i));
    }

    method ConstructEmpty() returns (h: StorageHolder)
      requires Valid()
      modifies this
      ensures fresh(h) && View() == Step(old(View()), Op.ConstructEmpty(h)) && Valid()
      ensures holders == old(holders) + {h}
    {
      hide Exclusive, Step;
      ghost var s := View();
      h := new StorageHolder.Empty();
      holders := holders + {h};
      assert View().owner == s.owner[h := None];
      StepKeeps(s, Op.ConstructEmpty(h));
      NewHolderStep(s, Op.ConstructEmpty(h));
    }

    method MoveConstruct(rhs: StorageHolder) returns (h: StorageHolder)
      requires Valid() && rhs in holders
      modifies this, rhs
      ensures fresh(h) && View() == Step(old(View()), Op.MoveConstruct(h, rhs)) && Valid()
      ensures holders == old(holders) + {h}
    {
      hide Exclusive, Step;
      ghost var s := View();
      h := new StorageHolder.Move(rhs);
      holders := holders + {h};
      assert View().owner == s.owner[h := s.owner[rhs]][rhs := None];
      StepKeeps(s, Op.MoveConstruct(h, rhs));
      NewHolderStep(s, Op.MoveConstruct(h, rhs));
    }

    method MoveAssign(h: StorageHolder, rhs: StorageHolder)
      requires Valid() && h in holders && rhs in holders
      modifies this, holders, ledger
      ensures View() == Step(old(View()), Op.MoveAssign(h, rhs)) && Valid()
      ensures holders == old(holders)
    {
      ghost var s := View();
      hide Exclusive, Step;
      HolderHolds(h);
      if h != rhs {
        removed := removed + Released(h);
      }
      h.MoveAssign(rhs);
      Assigned(s.owner, h, rhs);
      StepKeeps(s, Op.MoveAssign(h, rhs));
      MoveAssignStep(s, h, rhs);
    }

    /** The owners after an assignment, read off the objects. */
    lemma Assigned(before: map<StorageHolder, Option<Storage>>, h: StorageHolder, rhs: StorageHolder)
      requires h in holders && rhs in holders && before.Keys == holders
      requires forall g <- holders ::
        g.Owned() == (if h == rhs || (g != h && g != rhs) then before[g] else if g == h then before[rhs] else None)
      ensures View().owner == if h == rhs then before else before[h := before[rhs]][rhs := None]
    {
    }

    method Reset(h: StorageHolder)
      requires Valid() && h in holders
      modifies this, holders, ledger
      ensures View() == Step(old(View()), Op.Reset(h)) && Valid()
      ensures holders == old(holders)
    {
      ghost var s := View();
      hide Exclusive, Step;
      HolderHolds(h);
      removed := removed + Released(h);
      h.Reset();
      assert View().owner == s.owner[h := None];
      StepKeeps(s, Op.Reset(h));
      ResetStep(s, h);
    }

    lemma Dropped(before: map<StorageHolder, Option<Storage>>, h: StorageHolder)
      requires before.Keys - {h} == holders && forall g <- holders :: g.Owned() == before[g]
      ensures View().owner == before - {h}
    {
    }

    /** The destructor. */
    method Destroy(h: StorageHolder)
      requires Valid() && h in holders
      modifies this, ledger
      ensures View() == Step(old(View()), Op.Destroy(h)) && Valid()
      ensures holders == old(holders) - {h}
    {
      ghost var s := View();
      hide Exclusive, Step;
      HolderHolds(h);
      removed := removed + Released(h);
      h.GiveBack();
      holders := holders - {h};
      Dropped(s.owner, h);
      StepKeeps(s, Op.Destroy(h));
      DestroyStep(s, h);
    }

    /** One statement. */
    method Perform(cmd: Cmd, vars: seq<StorageHolder>) returns (now: seq<StorageHolder>, ghost op: Op)
      requires Valid() && Possible(View(), vars, cmd) && (cmd.Make? ==> cmd.disk.ledger == ledger)
      modifies this, holders, ledger
      ensures Enabled(old(View()), op) && op == OpOf(old(View()), vars, cmd, op.h)
      ensures View() == Step(old(View()), op) && Valid()
      ensures now == if Makes(cmd) then vars + [op.h] else vars
      ensures forall h <- holders :: h in old(holders) || fresh(h)
    {
      hide Valid, Step;
      var h: StorageHolder;
      match cmd {
        case Make(disk, idx) => h := Construct(idx, disk); now := vars + [h];
        case MakeEmpty => h := ConstructEmpty(); now := vars + [h];
        case MakeFrom(n) => h := MoveConstruct(vars[n]); now := vars + [h];
        case Assign(n, m) => h := vars[n]; MoveAssign(h, vars[m]); now := vars;
        case Empty(n) => h := vars[n]; Reset(h); now := vars;
        case Drop(n) => h := vars[n]; Destroy(h); now := vars;
      }
      op := OpOf(old(View()), vars, cmd, h);
    }

    /** Any program, run until it ends or a statement is impossible, performs its operations one
        by one; and when every holder is gone or empty, everything handed out was given back. */
    method Run(cmds: seq<Cmd>, vars: seq<StorageHolder>) returns (ghost ops: seq<Op>)
      requires Valid() && forall cmd <- cmds | cmd.Make? :: cmd.disk.ledger == ledger
      modifies this, holders, ledger
      ensures Performs(old(View()), vars, cmds, ops) && Runs(old(View()), ops)
      ensures View() == After(old(View()), ops) && Valid()
      ensures (forall h <- holders :: h.mDiskIo == null) ==> ledger.live == {} && handed == removed
      decreases cmds
    {
      hide Step, Exclusive, Enabled, OpOf, Possible;
      ghost var s := View();
      var possible := false;
      if cmds != [] {
        possible := CanPerform(cmds[0], vars);
      }
      if possible {
        var now: seq<StorageHolder>;
        ghost var op: Op, rest: seq<Op>;
        now, op := Perform(cmds[0], vars);
        rest := Run(cmds[1..], now);
        ops := [op] + rest;
        assert ops[1..] == rest;
        PerformsRuns(s, vars, cmds, ops);
      } else {
        ops := [];
        if forall h <- holders :: h.mDiskIo == null {
          NothingOwned(s);
        }
      }
    }

    method CanPerform(cmd: Cmd, vars: seq<StorageHolder>) returns (r: bool)
      ensures r == Possible(View(), vars, cmd)
    {
      match cmd {
        case Make(disk, idx) => r := Storage(disk, idx) !in ledger.live;
        case MakeEmpty => r := true;
        case Assign(n, m) => r := n < |vars| && m < |vars| && vars[n] in holders && vars[m] in holders;
        case _ => r := cmd.n < |vars| && vars[cmd.n] in holders;
      }
    }
  }
}

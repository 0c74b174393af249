/**
 Intrusive lists with constant-time removal: a session keeps several lists of torrents, and
 every torrent keeps, for every list, the position at which that list holds it.
 */
module LinkLists {

  class Torrent {
    /** m_links[k].index for every list k: the position in list k, or -1. */
    var links: seq<int>

    constructor (lists: nat)
      ensures links == seq(lists, _ => -1)
    {
      links := seq(lists, _ => -1);
    }
  }

  /** The lists, and the positions each torrent records. */
  datatype State = State(lists: seq<seq<Torrent>>, links: map<Torrent, seq<int>>)

  /** Every recorded position and every list entry point at each other. */
  ghost predicate Consistent(s: State) {
    && (forall t <- s.links :: |s.links[t]| == |s.lists|)
    && (forall t <- s.links, k | 0 <= k < |s.lists| :: PositionRight(s, t, k))
    && (forall k, i | 0 <= k < |s.lists| && 0 <= i < |s.lists[k]| :: EntryRight(s, k, i))
  }

  predicate PositionRight(s: State, t: Torrent, k: nat)
    requires t in s.links && k < |s.lists| && k < |s.links[t]|
  {
    var i := s.links[t][k];
    i == -1 || (0 <= i < |s.lists[k]| && s.lists[k][i] == t)
  }

  predicate EntryRight(s: State, k: nat, i: nat)
    requires k < |s.lists| && i < |s.lists[k]|
  {
    var t := s.lists[k][i];
    t in s.links && k < |s.links[t]| && s.links[t][k] == i
  }

  predicate Has(s: State, t: Torrent, k: nat)
    requires t in s.links && k < |s.links[t]|
  {
    s.links[t][k] >= 0
  }

  predicate InRange(s: State, t: Torrent, k: nat) {
    t in s.links && |s.links[t]| == |s.lists| && k < |s.lists|
  }

  function Inserted(s: State, t: Torrent, k: nat): State
    requires InRange(s, t, k)
  {
    if Has(s, t, k) then s
    else State(s.lists[k := s.lists[k] + [t]], s.links[t := s.links[t][k := |s.lists[k]|]])
  }

  /** The list after its entry at i was overwritten by the last entry and the end cut off. */
  function SwapRemove<T>(s: seq<T>, i: nat): (r: seq<T>)
    requires i < |s|
    ensures |r| == |s| - 1
    ensures forall j | 0 <= j < |s| - 1 :: r[j] == if j == i then s[|s| - 1] else s[j]
  {
    s[i := s[|s| - 1]][..|s| - 1]
  }

  lemma SwapRemoveDrops<T>(s: seq<T>, i: nat)
    requires i < |s|
    ensures multiset(SwapRemove(s, i)) == multiset(s) - multiset{s[i]}
  {
    var last := |s| - 1;
    assert s == s[..last] + [s[last]];
    if i < last {
      var front := s[..last];
      assert SwapRemove(s, i) == front[i := s[last]];
      assert front == front[..i] + [front[i]] + front[i + 1..];
      assert front[i := s[last]] == front[..i] + [s[last]] + front[i + 1..];
    }
  }

  function Unlinked(s: State, t: Torrent, k: nat): State
    requires Consistent(s) && InRange(s, t, k)
  {
    assert PositionRight(s, t, k);
    var i := s.links[t][k];
    if i == -1 then s
    else
      var moved := s.lists[k][|s.lists[k]| - 1];
      assert EntryRight(s, k, |s.lists[k]| - 1);
      State(s.lists[k := SwapRemove(s.lists[k], i)],
            s.links[moved := s.links[moved][k := i]][t := s.links[t][k := -1]])
  }

  /** A torrent's position in list k is i exactly when list k holds it at i; so no list
      holds a torrent twice, and none holds one that does not point back. */
  lemma PositionExact(s: State, t: Torrent, k: nat, i: int)
    requires Consistent(s) && InRange(s, t, k)
    ensures (0 <= i < |s.lists[k]| && s.lists[k][i] == t) <==> (s.links[t][k] == i && i != -1)
    ensures t in s.lists[k] <==> Has(s, t, k)
  {
    assert PositionRight(s, t, k);
    assert 0 <= i < |s.lists[k]| ==> EntryRight(s, k, i);
    if t in s.lists[k] {
      var j :| 0 <= j < |s.lists[k]| && s.lists[k][j] == t;
      assert EntryRight(s, k, j);
    }
    assert Has(s, t, k) ==> s.lists[k][s.links[t][k]] == t;
  }

  lemma InsertKeepsConsistent(s: State, t: Torrent, k: nat)
    requires Consistent(s) && InRange(s, t, k)
    ensures Consistent(Inserted(s, t, k))
  {
    var r := Inserted(s, t, k);
    assert PositionRight(s, t, k);
    forall u <- r.links, j | 0 <= j < |r.lists|
      ensures PositionRight(r, u, j)
    {
      assert PositionRight(s, u, j);
    }
    forall j, i | 0 <= j < |r.lists| && 0 <= i < |r.lists[j]|
      ensures EntryRight(r, j, i)
    {
      assert i < |s.lists[j]| ==> EntryRight(s, j, i);
    }
  }

  lemma UnlinkKeepsConsistent(s: State, t: Torrent, k: nat)
    requires Consistent(s) && InRange(s, t, k)
    ensures Consistent(Unlinked(s, t, k))
  {
    var r := Unlinked(s, t, k);
    if Has(s, t, k) {
      hide SwapRemove;
      var last := |s.lists[k]| - 1;
      assert PositionRight(s, t, k) && EntryRight(s, k, last);
      forall u <- r.links, j | 0 <= j < |r.lists|
        ensures PositionRight(r, u, j)
      {
        assert PositionRight(s, u, j);
      }
      forall j, i | 0 <= j < |r.lists| && 0 <= i < |r.lists[j]|
        ensures EntryRight(r, j, i)
      {
        assert EntryRight(s, j, i);
      }
    } else {
      assert PositionRight(s, t, k);
    }
  }

  /** Unlinking takes exactly that torrent out of exactly that list. */
  lemma UnlinkTakesOut(s: State, t: Torrent, k: nat)
    requires Consistent(s) && InRange(s, t, k) && Has(s, t, k)
    ensures multiset(Unlinked(s, t, k).lists[k]) == multiset(s.lists[k]) - multiset{t}
    ensures forall j | 0 <= j < |s.lists| && j != k :: Unlinked(s, t, k).lists[j] == s.lists[j]
  {
    assert PositionRight(s, t, k);
    SwapRemoveDrops(s.lists[k], s.links[t][k]);
  }

  /** List k emptied, and the position in list k reset in every torrent. */
  function Cleared(s: State, k: nat): State
    requires Consistent(s) && k < |s.lists|
  {
    State(s.lists[k := []], map t | t in s.links :: s.links[t][k := -1])
  }

  /** Clearing is right when the whole list goes: then every torrent is out of list k, and in
      the same other lists as before. */
  lemma ClearedKeepsConsistent(s: State, k: nat)
    requires Consistent(s) && k < |s.lists|
    ensures Consistent(Cleared(s, k))
    ensures forall t <- s.links, j | 0 <= j < |s.lists| :: Has(Cleared(s, k), t, j) <==> j != k && Has(s, t, j)
  {
    var r := Cleared(s, k);
    forall u <- r.links, j | 0 <= j < |r.lists|
      ensures PositionRight(r, u, j)
    {
      assert PositionRight(s, u, j);
    }
    forall j, i | 0 <= j < |r.lists| && 0 <= i < |r.lists[j]|
      ensures EntryRight(r, j, i)
    {
      assert EntryRight(s, j, i);
    }
  }

  // ---------- runs ----------

  datatype Op = Insert(t: Torrent, k: nat) | Unlink(t: Torrent, k: nat)

  /** Which torrents are in which lists, as a set of pairs, after one operation. */
  ghost function Apply(op: Op, s: set<(Torrent, nat)>): set<(Torrent, nat)> {
    match op
    case Insert(t, k) => s + {(t, k)}
    case Unlink(t, k) => s - {(t, k)}
  }

  ghost function ApplyAll(ops: seq<Op>, s: set<(Torrent, nat)>): set<(Torrent, nat)> {
    if ops == [] then s else ApplyAll(ops[1..], Apply(ops[0], s))
  }

  /** The torrents in the lists are those of the set of pairs. */
  ghost predicate Agrees(s: State, pairs: set<(Torrent, nat)>)
    requires Consistent(s)
  {
    forall t <- s.links, k | 0 <= k < |s.lists| :: Has(s, t, k) <==> (t, k) in pairs
  }

  function Next(s: State, op: Op): State
    requires Consistent(s) && InRange(s, op.t, op.k)
  {
    match op
    case Insert(t, k) => Inserted(s, t, k)
    case Unlink(t, k) => Unlinked(s, t, k)
  }

  lemma InsertAgrees(s: State, t: Torrent, k: nat, pairs: set<(Torrent, nat)>)
    requires Consistent(s) && InRange(s, t, k) && Agrees(s, pairs)
    ensures Consistent(Inserted(s, t, k)) && Agrees(Inserted(s, t, k), pairs + {(t, k)})
    ensures Inserted(s, t, k).links.Keys == s.links.Keys
  {
    InsertKeepsConsistent(s, t, k);
    assert Inserted(s, t, k).links.Keys == s.links.Keys;
    hide Consistent;
  }

  lemma UnlinkAgrees(s: State, t: Torrent, k: nat, pairs: set<(Torrent, nat)>)
    requires Consistent(s) && InRange(s, t, k) && Agrees(s, pairs)
    ensures Consistent(Unlinked(s, t, k)) && Agrees(Unlinked(s, t, k), pairs - {(t, k)})
    ensures Unlinked(s, t, k).links.Keys == s.links.Keys
  {
    UnlinkKeepsConsistent(s, t, k);
    assert PositionRight(s, t, k);
    assert Has(s, t, k) ==> EntryRight(s, k, |s.lists[k]| - 1);
    assert Unlinked(s, t, k).links.Keys == s.links.Keys;
  }

  lemma NextAgrees(s: State, op: Op, pairs: set<(Torrent, nat)>)
    requires Consistent(s) && InRange(s, op.t, op.k) && Agrees(s, pairs)
    ensures Consistent(Next(s, op)) && Agrees(Next(s, op), Apply(op, pairs))
    ensures Next(s, op).links.Keys == s.links.Keys && |Next(s, op).lists| == |s.lists|
  {
    match op {
      case Insert(t, k) => InsertAgrees(s, t, k, pairs);
      case Unlink(t, k) => UnlinkAgrees(s, t, k, pairs);
    }
    hide Consistent, Agrees;
  }

  method ResetPositions(list: seq<Torrent>, k: nat)
    requires forall i | 0 <= i < |list| :: k < |list[i].links|
    requires forall i, j | 0 <= i < j < |list| :: list[i] != list[j]
    modifies list
    ensures forall i | 0 <= i < |list| :: list[i].links == old(list[i].links)[k := -1]
  {
    for n := 0 to |list|
      invariant forall i | 0 <= i < |list| ::
        list[i].links == (if i < n then old(list[i].links)[k := -1] else old(list[i].links))
    {
      list[n].links := list[n].links[k := -1];
    }
  }

  class Session {
    var lists: seq<seq<Torrent>>
    ghost var torrents: set<Torrent>

    ghost function View(): State
      reads this, torrents
    {
      State(lists, map t | t in torrents :: t.links)
    }

    constructor (lists: nat)
      ensures Consistent(View()) && torrents == {} && this.lists == seq(lists, _ => [])
    {
      this.lists := seq(lists, _ => []);
      torrents := {};
    }

    method Add(t: Torrent)
      requires Consistent(View()) && t !in torrents && t.links == seq(|lists|, _ => -1)
      modifies this`torrents
      ensures Consistent(View()) && torrents == old(torrents) + {t} && lists == old(lists)
    {
      ghost var s := View();
      torrents := torrents + {t};
      ghost var r := View();
      assert r == State(s.lists, s.links[t := t.links]);
      forall u <- r.links, k | 0 <= k < |r.lists|
        ensures PositionRight(r, u, k)
      {
        assert u != t ==> PositionRight(s, u, k);
      }
      forall k, i | 0 <= k < |r.lists| && 0 <= i < |r.lists[k]|
        ensures EntryRight(r, k, i)
      {
        assert EntryRight(s, k, i);
      }
    }

    /** link::insert */
    method Insert(t: Torrent, k: nat)
      requires Consistent(View()) && InRange(View(), t, k)
      modifies this`lists, t
      ensures View() == Inserted(old(View()), t, k)
    {
      if t.links[k] >= 0 { return; }
      lists := lists[k := lists[k] + [t]];
      t.links := t.links[k := |lists[k]| - 1];
    }

    /** link::unlink */
    method Unlink(t: Torrent, k: nat)
      requires Consistent(View()) && InRange(View(), t, k)
      modifies this`lists, torrents
      ensures View() == Unlinked(old(View()), t, k)
    {
      var index := t.links[k];
      ghost var s := View();
      assert index == s.links[t][k] && PositionRight(s, t, k);
      if index == -1 { return; }
      var last := |lists[k]| - 1;
      assert EntryRight(s, k, last) && EntryRight(s, k, index);
      if index < last {
        var moved := lists[k][last];
        moved.links := moved.links[k := index];
        lists := lists[k := lists[k][index := moved]];
      }
      lists := lists[k := lists[k][..last]];
      t.links := t.links[k := -1];
      hide Consistent;
      assert lists == Unlinked(s, t, k).lists;
      assert View().links == Unlinked(s, t, k).links;
    }

    /** link::clear resets the position and leaves the list alone: by itself right only for a
        torrent that is not in the list. ClearList has the use for torrents that are. */
    method Clear(t: Torrent, k: nat)
      requires Consistent(View()) && InRange(View(), t, k)
      modifies t
      ensures t.links == old(t.links)[k := -1]
      ensures Consistent(View()) <==> !old(Has(View(), t, k))
    {
      ghost var i := t.links[k];
      ghost var s := View();
      assert i == s.links[t][k] && PositionRight(s, t, k);
      t.links := t.links[k := -1];
      ghost var r := View();
      assert r == State(s.lists, s.links[t := s.links[t][k := -1]]);
      if i >= 0 {
        assert !EntryRight(r, k, i);
      } else {
        assert s.links[t][k := -1] == s.links[t] && r.links == s.links;
      }
    }

    /** Clears the position of every torrent that list k holds, and empties the list. */
    method ClearList(k: nat)
      requires Consistent(View()) && k < |lists|
      modifies this`lists, torrents
      ensures View() == Cleared(old(View()), k) && Consistent(View())
    {
      ghost var s := View();
      ClearedKeepsConsistent(s, k);
      forall i | 0 <= i < |lists[k]|
        ensures lists[k][i] in torrents && s.links[lists[k][i]][k] == i
      {
        assert EntryRight(s, k, i);
      }
      forall t <- torrents
        ensures k < |t.links| && (t !in lists[k] ==> t.links[k := -1] == t.links)
      {
        assert PositionRight(s, t, k);
      }
      hide Consistent;
      ResetPositions(lists[k], k);
      lists := lists[k := []];
      assert View().links == Cleared(s, k).links;
    }

    /** Any run of inserts and unlinks keeps all positions and lists consistent, and a torrent
        ends up in exactly the lists it was last inserted into. */
    method Run(ops: seq<Op>, ghost pairs: set<(Torrent, nat)>)
      requires Consistent(View()) && Agrees(View(), pairs)
      requires forall op <- ops :: op.t in torrents && op.k < |lists|
      modifies this`lists, torrents
      ensures Consistent(View()) && |lists| == old(|lists|)
      ensures Agrees(View(), ApplyAll(ops, pairs))
    {
      ghost var now := pairs;
      for n := 0 to |ops|
        invariant Consistent(View()) && |lists| == old(|lists|) && Agrees(View(), now)
        invariant ApplyAll(ops[n..], now) == ApplyAll(ops, pairs)
      {
        assert ops[n] in ops && ops[n..][1..] == ops[n + 1..];
        assert InRange(View(), ops[n].t, ops[n].k);
        hide Consistent, Agrees, Inserted, Unlinked;
        NextAgrees(View(), ops[n], now);
        match ops[n] {
          case Insert(t, k) => Insert(t, k);
          case Unlink(t, k) => Unlink(t, k);
        }
        now := Apply(ops[n], now);
      }
    }
  }
}

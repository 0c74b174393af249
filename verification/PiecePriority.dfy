/**
 The order in which the piece picker considers a piece, and the reverse states of a piece
 that is only requested from slow peers.
 */
module PiecePriority {

  datatype Queue =
    | Downloading | Full | Finished | ZeroPrio | Open | DownloadingReverse | FullReverse

  const PRIORITY_LEVELS := 8
  const PRIO_FACTOR := 3
  const WE_HAVE_INDEX := -1
  const FILTER_PRIORITY := 0
  const DEFAULT_PRIORITY := 4

  /** The fields of a piece, in the widths of their bit fields. */
  datatype Piece = Piece(peerCount: nat, state: Queue, piecePriority: nat, index: int) {

    predicate Valid() {
      peerCount < 0x400_0000 && piecePriority < PRIORITY_LEVELS
    }

    function DownloadQueue(): Queue {
      match state
      case DownloadingReverse => Downloading
      case FullReverse => Full
      case q => q
    }

    predicate Reverse() {
      state == DownloadingReverse || state == FullReverse
    }

    predicate Have() {
      index == WE_HAVE_INDEX
    }

    predicate Filtered() {
      piecePriority == FILTER_PRIORITY
    }

    /** The position of the piece in the pick order; -1 keeps it out of the list. */
    function Priority(seeds: nat): int {
      if Filtered() || Have() || peerCount + seeds == 0 || state == Full || state == Finished then -1
      else
        var adjustment := if Reverse() then -1 else if state != Open then -3 else -2;
        var availability := peerCount + 1;
        availability * (PRIORITY_LEVELS - piecePriority) * PRIO_FACTOR + adjustment
    }

    /** A piece worth asking for: wanted, missing, and somebody has it. */
    predicate Obtainable(seeds: nat) {
      !Filtered() && !Have() && peerCount + seeds > 0
    }

    /** A piece that can be picked: one worth asking for with a block left to request. In the
        full and the finished queue every block is requested or received. */
    predicate Pickable(seeds: nat) {
      Obtainable(seeds) && DownloadQueue() != Full && DownloadQueue() != Finished
    }

    function MadeReverse(): Piece {
      match state
      case Downloading => this.(state := DownloadingReverse)
      case Full => this.(state := FullReverse)
      case _ => this
    }

    function Unreversed(): Piece {
      match state
      case DownloadingReverse => this.(state := Downloading)
      case FullReverse => this.(state := Full)
      case _ => this
    }

    /** Availability weighed by the priority that was set for the piece. */
    function Weight(): int {
      (peerCount + 1) * (PRIORITY_LEVELS - piecePriority)
    }

    /** Downloading before open before reverse. */
    function Stage(): nat {
      if Reverse() then 2 else if state == Open then 1 else 0
    }
  }

  /** The priority puts a piece into the pick list exactly when it can be picked, except for
      one family: a full piece requested from reverse peers only is listed all the same. The
      priority always fits an int. */
  lemma PriorityExact(p: Piece, seeds: nat)
    requires p.Valid()
    ensures (p.Priority(seeds) >= 0 <==> p.Pickable(seeds)) <==> !(p.Obtainable(seeds) && p.state == FullReverse)
    ensures -1 <= p.Priority(seeds) < 0x8000_0000
  {
    ListedExact(p, seeds);
  }

  /** A piece that is listed though all its blocks are requested. */
  lemma FullReverseListed()
    ensures var p := Piece(1, FullReverse, DEFAULT_PRIORITY, 0);
      p.Valid() && p.DownloadQueue() == Full && !p.Pickable(0) && p.Priority(0) == 23
  {
  }

  /** Which pieces are listed, and where: three stages to every weight. */
  lemma ListedExact(p: Piece, seeds: nat)
    requires p.Valid()
    ensures p.Priority(seeds) >= 0 <==> p.Pickable(seeds) || (p.Obtainable(seeds) && p.state == FullReverse)
    ensures p.Priority(seeds) == if p.Priority(seeds) >= 0 then 3 * p.Weight() + p.Stage() - 3 else -1
    ensures p.Obtainable(seeds) ==> 1 <= p.Weight()
    ensures p.Priority(seeds) < 0x8000_0000
  {
    if p.Obtainable(seeds) {
      WeightBounds(p.peerCount + 1, PRIORITY_LEVELS - p.piecePriority);
    }
  }

  /** A piece that we have, one that is filtered and one that nobody has stay out of the list. */
  lemma KeptOut(p: Piece, seeds: nat)
    requires p.index == -1 || p.piecePriority == 0 || (p.peerCount == 0 && seeds == 0)
    ensures p.Priority(seeds) == -1
  {
  }

  /** The priority of every other piece, state by state. */
  lemma PriorityOfState(p: Piece, seeds: nat)
    requires p.index != -1 && p.piecePriority != 0 && (p.peerCount > 0 || seeds > 0)
    ensures var base := 3 * (p.peerCount + 1) * (8 - p.piecePriority);
      p.Priority(seeds) ==
      match p.state
      case Full => -1
      case Finished => -1
      case Downloading => base - 3
      case ZeroPrio => base - 3
      case Open => base - 2
      case DownloadingReverse => base - 1
      case FullReverse => base - 1
  {
    var a, l := p.peerCount + 1, 8 - p.piecePriority;
    assert 3 * a * l == a * l * 3;
  }

  lemma WeightBounds(a: int, l: int)
    requires 1 <= a <= 0x400_0000 && 1 <= l <= 7
    ensures 1 <= a * l <= 7 * 0x400_0000
  {
    assert 1 * l <= a * l <= 0x400_0000 * l;
  }

  /** Among listed pieces the order is lexicographic: first the weight, then the stage; the
      number of seeds plays no part. */
  lemma PriorityOrder(p: Piece, q: Piece, seeds: nat, seedsThen: nat)
    requires p.Valid() && q.Valid() && p.Priority(seeds) >= 0 && q.Priority(seedsThen) >= 0
    ensures p.Priority(seeds) < q.Priority(seedsThen) <==>
      p.Weight() < q.Weight() || (p.Weight() == q.Weight() && p.Stage() < q.Stage())
    ensures p.Priority(seeds) == q.Priority(seedsThen) <==> p.Weight() == q.Weight() && p.Stage() == q.Stage()
  {
    ListedExact(p, seeds);
    ListedExact(q, seedsThen);
  }

  /** Among listed pieces of the same set priority the rarer one comes first, and among equally
      rare ones the one of higher set priority, whatever their stages. */
  lemma RarestFirst(p: Piece, q: Piece, seeds: nat)
    requires p.Valid() && q.Valid() && p.Priority(seeds) >= 0 && q.Priority(seeds) >= 0
    ensures p.piecePriority == q.piecePriority && p.peerCount < q.peerCount ==> p.Priority(seeds) < q.Priority(seeds)
    ensures p.peerCount == q.peerCount && p.piecePriority > q.piecePriority ==> p.Priority(seeds) < q.Priority(seeds)
  {
    PriorityOrder(p, q, seeds, seeds);
    WeightLess(p, q);
    hide Piece.Priority, Piece.Weight;
  }

  lemma WeightLess(p: Piece, q: Piece)
    requires p.Valid() && q.Valid()
    ensures p.piecePriority == q.piecePriority && p.peerCount < q.peerCount ==> p.Weight() < q.Weight()
    ensures p.peerCount == q.peerCount && p.piecePriority > q.piecePriority ==> p.Weight() < q.Weight()
  {
    var a, b := p.peerCount + 1, q.peerCount + 1;
    var k, l := PRIORITY_LEVELS - p.piecePriority, PRIORITY_LEVELS - q.piecePriority;
    if a < b && k == l {
      assert b * l - a * l == (b - a) * l >= 1;
    } else if a == b && k < l {
      assert a * l - a * k == a * (l - k) >= 1;
    }
  }

  /** Beyond that the set priority takes no precedence: a piece of low priority that nobody but
      a seed has is picked before one of the highest priority that nine more peers have. */
  lemma SetPriorityYields()
    ensures var high, low := Piece(9, Open, 7, 0), Piece(0, Open, 1, 1);
      high.Valid() && low.Valid() && 0 <= low.Priority(1) < high.Priority(1)
  {
  }

  /** make_reverse moves a downloading piece back by two stages, takes a full piece into the
      list behind the downloading and open ones of its weight, and moves nothing else;
      unreverse undoes it. */
  lemma ReverseMoves(p: Piece, seeds: nat)
    requires p.Valid()
    ensures var r := p.MadeReverse();
      && r.DownloadQueue() == p.DownloadQueue() && r.Pickable(seeds) == p.Pickable(seeds)
      && r.Priority(seeds) ==
         (if !p.Obtainable(seeds) then -1
          else if p.state == Downloading then p.Priority(seeds) + 2
          else if p.state == Full then 3 * p.Weight() - 1
          else p.Priority(seeds))
      && ((r.Priority(seeds) >= 0) != (p.Priority(seeds) >= 0) <==> p.Obtainable(seeds) && p.state == Full)
    ensures !p.Reverse() ==> p.MadeReverse().Unreversed() == p
    ensures p.Reverse() ==> p.Unreversed().MadeReverse() == p
    ensures p.Unreversed().Priority(seeds) ==
      (if !p.Obtainable(seeds) || p.state == FullReverse then -1
       else if p.state == DownloadingReverse then p.Priority(seeds) - 2
       else p.Priority(seeds))
  {
    ListedExact(p, seeds);
    ListedExact(p.MadeReverse(), seeds);
  }

  class PiecePos {
    var peerCount: nat
    var downloadState: Queue
    var piecePriority: nat
    var index: int

    ghost function View(): Piece
      reads this
    {
      Piece(peerCount, downloadState, piecePriority, index)
    }

    constructor (peerCount: nat, index: int)
      ensures View() == Piece(peerCount, Open, DEFAULT_PRIORITY, index)
    {
      this.peerCount, downloadState, piecePriority, this.index := peerCount, Open, DEFAULT_PRIORITY, index;
    }

    /** Makes a reverse piece an ordinary one, in the same download queue. */
    method Unreverse()
      modifies this`downloadState
      ensures View() == old(View()).Unreversed()
      ensures View().DownloadQueue() == old(View().DownloadQueue()) && !View().Reverse()
    {
      if downloadState == DownloadingReverse {
        downloadState := Downloading;
      } else if downloadState == FullReverse {
        downloadState := Full;
      }
    }

    /** Makes a downloading or full piece a reverse one, in the same download queue. */
    method MakeReverse()
      modifies this`downloadState
      ensures View() == old(View()).MadeReverse()
      ensures View().DownloadQueue() == old(View().DownloadQueue())
      ensures View().Reverse() <==> View().DownloadQueue() == Downloading || View().DownloadQueue() == Full
    {
      if downloadState == Downloading {
        downloadState := DownloadingReverse;
      } else if downloadState == Full {
        downloadState := FullReverse;
      }
    }
  }
}

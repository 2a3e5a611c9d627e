/**
  One buffer of the quantile sketch: 16384 counters in 128 pieces that are
  allocated on first use, a saturating increment that probes outwards for a
  free counter, and the scan that lists the used buckets in value order.
*/
module SketchBuffer {
  import opened Integers
  import opened FloatCodec

  const PIECES: int := 128
  const PIECE_SIZE: int := 128
  const NEAR_MAX: int := 4290000000

  datatype Piece = Absent | Present(counts: seq<nat>)
  datatype Entry = Entry(index: int, count: nat)

  function Zeros(n: nat): seq<nat> { seq(n, _ => 0) }

  function PieceCounts(piece: Piece): seq<nat> { if piece.Present? then piece.counts else Zeros(PIECE_SIZE) }

  predicate WellFormed(pieces: seq<Piece>)
  {
    forall p :: 0 <= p < |pieces| ==> |PieceCounts(pieces[p])| == PIECE_SIZE
  }

  /** The counters of a sequence of pieces; an absent piece reads as zeros. */
  function Flatten(pieces: seq<Piece>): seq<nat>
  {
    if |pieces| == 0 then [] else Flatten(pieces[..|pieces| - 1]) + PieceCounts(pieces[|pieces| - 1])
  }

  lemma {:induction false} FlattenLength(pieces: seq<Piece>)
    requires WellFormed(pieces)
    ensures |Flatten(pieces)| == |pieces| * 128
  {
    if |pieces| > 0 { FlattenLength(pieces[..|pieces| - 1]); }
  }

  lemma {:induction false} FlattenAt(pieces: seq<Piece>, p: int, k: int)
    requires WellFormed(pieces) && 0 <= p < |pieces| && 0 <= k < PIECE_SIZE
    ensures p * 128 + k < |Flatten(pieces)|
    ensures Flatten(pieces)[p * 128 + k] == PieceCounts(pieces[p])[k]
  {
    var n := |pieces| - 1;
    FlattenLength(pieces);
    FlattenLength(pieces[..n]);
    if p < n { FlattenAt(pieces[..n], p, k); }
  }

  lemma {:induction false} FlattenUpdate(pieces: seq<Piece>, p: int, k: int, v: nat)
    requires WellFormed(pieces) && 0 <= p < |pieces| && 0 <= k < PIECE_SIZE
    ensures p * 128 + k < |Flatten(pieces)|
    ensures
      var r := pieces[p := Present(PieceCounts(pieces[p])[k := v])];
      WellFormed(r) && Flatten(r) == Flatten(pieces)[p * 128 + k := v]
  {
    hide Flatten;
    var piece := Present(PieceCounts(pieces[p])[k := v]);
    var r := pieces[p := piece];
    var n := |pieces| - 1;
    FlattenLength(pieces);
    FlattenLength(pieces[..n]);
    FlattenLast(pieces);
    FlattenLast(r);
    if p < n {
      FlattenUpdate(pieces[..n], p, k, v);
      assert r[..n] == pieces[..n][p := piece];
      UpdateLeft(Flatten(pieces[..n]), PieceCounts(pieces[n]), p * 128 + k, v);
    } else {
      assert r[..n] == pieces[..n];
      UpdateRight(Flatten(pieces[..n]), PieceCounts(pieces[n]), k, v);
    }
  }

  lemma FlattenLast(pieces: seq<Piece>)
    requires |pieces| > 0
    ensures Flatten(pieces) == Flatten(pieces[..|pieces| - 1]) + PieceCounts(pieces[|pieces| - 1])
  {
  }

  lemma UpdateLeft(s: seq<nat>, t: seq<nat>, k: nat, v: nat)
    requires k < |s|
    ensures s[k := v] + t == (s + t)[k := v]
  {
  }

  lemma UpdateRight(s: seq<nat>, t: seq<nat>, k: nat, v: nat)
    requires k < |t|
    ensures s + t[k := v] == (s + t)[|s| + k := v]
  {
  }

  // ----- bucket totals in value order -----

  function Reverse(s: seq<nat>): (r: seq<nat>)
    ensures |r| == |s|
  {
    if |s| == 0 then [] else [s[|s| - 1]] + Reverse(s[..|s| - 1])
  }

  lemma {:induction false} ReverseAt(s: seq<nat>, k: nat)
    requires k < |s|
    ensures Reverse(s)[k] == s[|s| - 1 - k]
  {
    if k > 0 { ReverseAt(s[..|s| - 1], k - 1); }
  }

  /** The counters rearranged so that position `p` holds ordered index `p - HALF`. */
  function InOrder(c: seq<nat>): (v: seq<nat>)
    requires |c| == BUCKETS
    ensures |v| == BUCKETS
  {
    Reverse(c[HALF..]) + c[..HALF]
  }

  lemma InOrderAt(c: seq<nat>, raw: RawIndex)
    requires |c| == BUCKETS
    ensures InOrder(c)[OrderedOf(raw) + HALF] == c[raw]
  {
    if raw >= HALF { ReverseAt(c[HALF..], OrderedOf(raw) + HALF); }
  }

  lemma InOrderUpdate(c: seq<nat>, raw: RawIndex, x: nat)
    requires |c| == BUCKETS
    ensures InOrder(c[raw := x]) == InOrder(c)[OrderedOf(raw) + HALF := x]
  {
    var d, v := c[raw := x], InOrder(c)[OrderedOf(raw) + HALF := x];
    forall p | 0 <= p < BUCKETS
      ensures InOrder(d)[p] == v[p]
    {
      InOrderAt(d, RawOf(p - HALF));
      InOrderAt(c, RawOf(p - HALF));
      assert OrderedOf(RawOf(p - HALF)) == p - HALF;
    }
  }

  function Sum(s: seq<nat>): nat
  {
    if |s| == 0 then 0 else Sum(s[..|s| - 1]) + s[|s| - 1]
  }

  /** The number of counted observations in buckets below ordered index `o`. */
  function CountBelow(c: seq<nat>, o: int): nat
    requires |c| == BUCKETS && -HALF <= o <= HALF
  {
    Sum(InOrder(c)[..o + HALF])
  }

  /** The used buckets of a prefix of the ordered counters. */
  function Emit(v: seq<nat>): (r: seq<Entry>)
  {
    if |v| == 0 then []
    else
      var n := |v| - 1;
      if v[n] > 0 then Emit(v[..n]) + [Entry(n - HALF, v[n])] else Emit(v[..n])
  }

  /** `r` lists, strictly ascending, buckets of the ordered counters `v` with their positive counts. */
  predicate Listing(r: seq<Entry>, v: seq<nat>)
  {
    && (forall k :: 0 <= k < |r| ==> 0 <= r[k].index + HALF < |v| && r[k].count == v[r[k].index + HALF] > 0)
    && (forall k, l :: 0 <= k < l < |r| ==> r[k].index < r[l].index)
  }

  lemma {:induction false} EmitIsListing(v: seq<nat>)
    ensures Listing(Emit(v), v)
  {
    if |v| > 0 {
      var n := |v| - 1;
      EmitIsListing(v[..n]);
      ListingExtends(Emit(v[..n]), v);
    }
  }

  lemma ListingExtends(r: seq<Entry>, v: seq<nat>)
    requires |v| > 0 && Listing(r, v[..|v| - 1])
    ensures Listing(r, v)
    ensures v[|v| - 1] > 0 ==> Listing(r + [Entry(|v| - 1 - HALF, v[|v| - 1])], v)
  {
  }

  function SumCounts(es: seq<Entry>): nat
  {
    if |es| == 0 then 0 else SumCounts(es[..|es| - 1]) + es[|es| - 1].count
  }

  lemma {:induction false} SumOfEmitted(v: seq<nat>)
    ensures SumCounts(Emit(v)) == Sum(v)
  {
    if |v| > 0 {
      SumOfEmitted(v[..|v| - 1]);
      if v[|v| - 1] > 0 {
        assert Emit(v)[..|Emit(v)| - 1] == Emit(v[..|v| - 1]);
      }
    }
  }

  lemma EmitStep(v: seq<nat>, k: nat)
    requires k < |v|
    ensures Emit(v[..k + 1]) == if v[k] > 0 then Emit(v[..k]) + [Entry(k - HALF, v[k])] else Emit(v[..k])
  {
    assert v[..k + 1][..k] == v[..k];
  }

  lemma {:induction false} EmitZeros(v: seq<nat>, lo: nat, hi: nat)
    requires lo <= hi <= |v|
    requires forall k :: lo <= k < hi ==> v[k] == 0
    ensures Emit(v[..hi]) == Emit(v[..lo])
  {
    if lo < hi {
      EmitZeros(v, lo, hi - 1);
      EmitStep(v, hi - 1);
    }
  }

  lemma {:induction false} SumUpdate(v: seq<nat>, k: nat, x: nat)
    requires k < |v|
    ensures Sum(v[k := x]) == Sum(v) + x - v[k]
  {
    var w, n := v[k := x], |v| - 1;
    if k < n {
      assert w[..n] == v[..n][k := x];
      SumUpdate(v[..n], k, x);
    } else {
      assert w[..n] == v[..n];
    }
  }

  lemma CountBelowUpdate(c: seq<nat>, raw: RawIndex, x: nat, o: int)
    requires |c| == BUCKETS && -HALF <= o <= HALF
    ensures CountBelow(c[raw := x], o) == CountBelow(c, o) + if OrderedOf(raw) < o then x - c[raw] else 0
  {
    var v, k, n := InOrder(c), OrderedOf(raw) + HALF, o + HALF;
    InOrderUpdate(c, raw, x);
    InOrderAt(c, raw);
    if k < n {
      assert v[k := x][..n] == v[..n][k := x];
      SumUpdate(v[..n], k, x);
    } else {
      assert v[k := x][..n] == v[..n];
    }
  }

  // ----- the saturating increment -----

  predicate Free(c: seq<nat>, j: RawIndex) requires |c| == BUCKETS { c[j] <= NEAR_MAX }

  function Lower(pos: RawIndex): int { if pos < HALF then 0 else HALF }
  function Upper(pos: RawIndex): int { if pos < HALF then HALF else BUCKETS }
  function Distance(i: int, j: int): nat { if i < j then j - i else i - j }

  /** `j` is the free bucket of the sign half of `pos` nearest to it, the upper one on a tie. */
  ghost predicate Nearest(c: seq<nat>, pos: RawIndex, j: int)
    requires |c| == BUCKETS
  {
    && Lower(pos) <= j < Upper(pos) && Free(c, j)
    && forall k :: Lower(pos) <= k < Upper(pos) && Free(c, k) ==>
         Distance(pos, j) < Distance(pos, k) || (Distance(pos, j) == Distance(pos, k) && k <= j)
  }

  ghost predicate Saturated(c: seq<nat>, pos: RawIndex)
    requires |c| == BUCKETS
  {
    forall k :: Lower(pos) <= k < Upper(pos) ==> !Free(c, k)
  }

  ghost predicate Bounded(c: seq<nat>) { forall i :: 0 <= i < |c| ==> c[i] <= NEAR_MAX + 1 }

  /** What one narrow increment does to the counters: a unit at `j`, or nothing when `j` is negative. */
  ghost predicate Increased(c: seq<nat>, pos: RawIndex, j: int, d: seq<nat>)
    requires |c| == BUCKETS
  {
    if j < 0 then Saturated(c, pos) && d == c else Nearest(c, pos, j) && d == c[j := c[j] + 1]
  }

  /** The increment adds one unit to the half of its sign, or nothing at all when
      that half is full, and leaves the other half alone. */
  lemma IncreaseConservesHalves(c: seq<nat>, pos: RawIndex, j: int, d: seq<nat>)
    requires |c| == BUCKETS && Increased(c, pos, j, d)
    ensures |d| == BUCKETS
    ensures
      var unit := if Saturated(c, pos) then 0 else 1;
      && CountBelow(d, 0) == CountBelow(c, 0) + (if pos >= HALF then unit else 0)
      && CountBelow(d, HALF) == CountBelow(c, HALF) + unit
  {
    if j >= 0 {
      assert Free(c, j);
      CountBelowUpdate(c, j, c[j] + 1, 0);
      CountBelowUpdate(c, j, c[j] + 1, HALF);
    }
  }

  /** Where an increment lands is determined by the counters. */
  lemma NearestUnique(c: seq<nat>, pos: RawIndex, j: int, k: int)
    requires |c| == BUCKETS && Nearest(c, pos, j) && Nearest(c, pos, k)
    ensures j == k
  {
    assert Free(c, j) && Free(c, k);
  }

  ghost predicate NoneWithin(c: seq<nat>, pos: RawIndex, delta: nat)
    requires |c| == BUCKETS
  {
    forall k :: Lower(pos) <= k < Upper(pos) && pos - delta < k < pos + delta ==> !Free(c, k)
  }

  lemma ProbeOutcome(c: seq<nat>, pos: RawIndex, delta: nat)
    requires |c| == BUCKETS && NoneWithin(c, pos, delta)
    ensures
      var up, down := pos + delta, pos - delta;
      if up < Upper(pos) && Free(c, up) then Nearest(c, pos, up)
      else if down >= Lower(pos) && Free(c, down) then Nearest(c, pos, down)
      else NoneWithin(c, pos, delta + 1)
  {
  }

  lemma AllProbed(c: seq<nat>, pos: RawIndex, delta: nat)
    requires |c| == BUCKETS && NoneWithin(c, pos, delta)
    requires pos + delta >= Upper(pos) && pos - delta < Lower(pos)
    ensures Saturated(c, pos)
  {
  }

  /** The place of a counter of a piece in the ordered view. */
  function Place(i: int, j: int): (k: int)
    requires 0 <= i < PIECES && 0 <= j < PIECE_SIZE
    ensures 0 <= k < BUCKETS
  {
    OrderedOf(i * 128 + j) + HALF
  }

  /** A counter seen through its piece and through the ordered view. */
  lemma PieceView(pieces: seq<Piece>, i: int, j: int)
    requires WellFormed(pieces) && |pieces| == PIECES && 0 <= i < PIECES && 0 <= j < PIECE_SIZE
    ensures |Flatten(pieces)| == BUCKETS
    ensures InOrder(Flatten(pieces))[Place(i, j)] == PieceCounts(pieces[i])[j]
  {
    FlattenLength(pieces);
    FlattenAt(pieces, i, j);
    InOrderAt(Flatten(pieces), i * 128 + j);
  }

  /** `v` is the ordered view of the pieces. */
  ghost predicate IsView(pieces: seq<Piece>, v: seq<nat>)
  {
    && |v| == BUCKETS && |pieces| == PIECES && WellFormed(pieces)
    && forall i, j :: 0 <= i < PIECES && 0 <= j < PIECE_SIZE ==>
         PieceCounts(pieces[i])[j] == v[Place(i, j)]
  }

  lemma ViewSize(pieces: seq<Piece>, v: seq<nat>)
    requires IsView(pieces, v)
    ensures |v| == BUCKETS && |pieces| == PIECES
  {
  }

  /** What the scan finds at one counter: its count and its place in the view. */
  lemma CounterSeen(pieces: seq<Piece>, v: seq<nat>, i: int, j: int)
    requires IsView(pieces, v) && 0 <= i < PIECES && 0 <= j < PIECE_SIZE
    ensures |v| == BUCKETS && |pieces| == PIECES && |PieceCounts(pieces[i])| == PIECE_SIZE
    ensures PieceCounts(pieces[i])[j] == v[Place(i, j)]
    ensures 0 <= i * 128 + j < BUCKETS && GetOrderedIndex(i * 128 + j) == Place(i, j) - HALF
  {
    hide GetOrderedIndex, PieceCounts;
    UnwrappedOrdered(i * 128 + j);
  }

  lemma EmitNothing(v: seq<nat>)
    ensures Emit(v[..0]) == [] && SumCounts([]) == 0
  {
  }

  lemma ViewOfPieces(pieces: seq<Piece>)
    requires WellFormed(pieces) && |pieces| == PIECES
    ensures |Flatten(pieces)| == BUCKETS && IsView(pieces, InOrder(Flatten(pieces)))
  {
    FlattenLength(pieces);
    forall i, j | 0 <= i < PIECES && 0 <= j < PIECE_SIZE
      ensures PieceCounts(pieces[i])[j] == InOrder(Flatten(pieces))[Place(i, j)]
    {
      PieceView(pieces, i, j);
    }
  }

  lemma AppendEntry(es: seq<Entry>, e: Entry)
    ensures SumCounts(es + [e]) == SumCounts(es) + e.count
  {
    assert (es + [e])[..|es|] == es;
  }

  lemma AbsentPiece(pieces: seq<Piece>, v: seq<nat>, i: int, lo: int)
    requires IsView(pieces, v) && 0 <= i < PIECES && pieces[i].Absent? && lo == PieceStart(i)
    ensures Emit(v[..lo + PIECE_SIZE]) == Emit(v[..lo])
  {
    forall k | lo <= k < lo + PIECE_SIZE
      ensures v[k] == 0
    {
      var j := if i < PIECES / 2 then k - lo else PIECE_SIZE - 1 - (k - lo);
      assert PieceCounts(pieces[i])[j] == v[Place(i, j)];
    }
    EmitZeros(v, lo, lo + PIECE_SIZE);
  }

  /** Where the ordered view reaches piece `i`. */
  function PieceStart(i: int): int
  {
    if i < PIECES / 2 then HALF + i * 128 else BUCKETS - (i + 1) * 128
  }

  lemma PieceRange(i: int)
    requires 0 <= i < PIECES
    ensures 0 <= PieceStart(i) <= BUCKETS - PIECE_SIZE
  {
  }

  lemma CounterPosition(i: int, k: int)
    requires 0 <= i < PIECES && 0 <= k < PIECE_SIZE
    ensures
      var j := if i < PIECES / 2 then k else PIECE_SIZE - 1 - k;
      Place(i, j) == PieceStart(i) + k
  {
  }

  class Buffer {
    const narrow: bool          // 32-bit counters, else 64-bit
    var pieces: seq<Piece>

    ghost predicate Valid()
      reads this
    {
      |pieces| == PIECES && WellFormed(pieces) && (narrow ==> Bounded(Flatten(pieces)))
    }

    ghost function Counts(): (c: seq<nat>)
      requires |pieces| == PIECES && WellFormed(pieces)
      reads this
      ensures |c| == BUCKETS
    {
      FlattenLength(pieces);
      Flatten(pieces)
    }

    function Modulus(): int { if narrow then TWO_32 else TWO_64 }

    constructor (narrow: bool)
      ensures Valid() && this.narrow == narrow
      ensures Counts() == Zeros(BUCKETS)
    {
      this.narrow := narrow;
      pieces := seq(PIECES, _ => Absent);
      new;
      AllZero(pieces);
    }

    method FetchAdd(i: RawIndex) returns (res: nat)
      requires |pieces| == PIECES && WellFormed(pieces)
      modifies this
      ensures |pieces| == PIECES && WellFormed(pieces) && res == old(Counts())[i]
      ensures Counts() == old(Counts())[i := (res + 1) % Modulus()]
    {
      var p, k := i / 128, i % 128;
      FlattenAt(pieces, p, k);
      res := PieceCounts(pieces[p])[k];
      FlattenUpdate(pieces, p, k, (res + 1) % Modulus());
      pieces := pieces[p := Present(PieceCounts(pieces[p])[k := (res + 1) % Modulus()])];
    }

    method FetchSub(i: RawIndex) returns (res: nat)
      requires |pieces| == PIECES && WellFormed(pieces)
      modifies this
      ensures |pieces| == PIECES && WellFormed(pieces) && res == old(Counts())[i]
      ensures Counts() == old(Counts())[i := (res - 1) % Modulus()]
    {
      var p, k := i / 128, i % 128;
      FlattenAt(pieces, p, k);
      res := PieceCounts(pieces[p])[k];
      FlattenUpdate(pieces, p, k, (res - 1) % Modulus());
      pieces := pieces[p := Present(PieceCounts(pieces[p])[k := (res - 1) % Modulus()])];
    }

    /** One probe: add a unit to a bounded narrow counter and take it back if the counter was full. */
    method Probe(i: RawIndex) returns (taken: bool)
      requires Valid() && narrow
      modifies this
      ensures Valid() && taken == Free(old(Counts()), i)
      ensures Counts() == if taken then old(Counts())[i := old(Counts())[i] + 1] else old(Counts())
    {
      var res := FetchAdd(i);
      taken := res <= NEAR_MAX;
      if !taken {
        var _ := FetchSub(i);
        assert Counts() == old(Counts());
      }
    }

    /** The two buckets at one distance, the upper one first. */
    method ProbePair(pos: RawIndex, delta: nat) returns (taken: bool, ghost landed: int)
      requires Valid() && narrow && NoneWithin(Counts(), pos, delta)
      modifies this
      ensures Valid()
      ensures taken ==> landed >= 0 && Increased(old(Counts()), pos, landed, Counts())
      ensures !taken ==> Counts() == old(Counts()) && NoneWithin(Counts(), pos, delta + 1)
    {
      ProbeOutcome(Counts(), pos, delta);
      taken, landed := false, pos + delta;
      if pos + delta < Upper(pos) {
        taken := Probe(pos + delta);
      }
      if !taken && pos - delta >= Lower(pos) {
        landed := pos - delta;
        taken := Probe(pos - delta);
      }
    }

    method Increase(pos: RawIndex) returns (ghost landed: int)
      requires Valid()
      modifies this
      ensures Valid()
      ensures narrow ==> Increased(old(Counts()), pos, landed, Counts())
      ensures !narrow ==> Counts() == old(Counts())[pos := (old(Counts())[pos] + 1) % 0x1_0000_0000_0000_0000]
    {
      landed := pos;
      if !narrow {
        var _ := FetchAdd(pos);
        return;
      }
      ghost var c := Counts();
      ProbeOutcome(c, pos, 0);
      var taken := Probe(pos);
      var delta, lim := 1, Max(Upper(pos) - pos, pos - Lower(pos) + 1);
      while !taken && delta < lim
        invariant 1 <= delta
        invariant Valid()
        invariant taken ==> Increased(c, pos, landed, Counts())
        invariant !taken ==> Counts() == c && NoneWithin(c, pos, delta)
      {
        taken, landed := ProbePair(pos, delta);
        delta := delta + 1;
      }
      if !taken {
        landed := -1;
        AllProbed(c, pos, delta);
      }
    }

    method Refresh()
      requires Valid()
      modifies this
      ensures Valid()
      ensures Counts() == Zeros(BUCKETS)
    {
      var p := 0;
      while p < PIECES
        invariant 0 <= p <= PIECES && |pieces| == PIECES && WellFormed(pieces)
        invariant forall q :: 0 <= q < p ==> PieceCounts(pieces[q]) == Zeros(PIECE_SIZE)
      {
        if pieces[p].Present? {
          pieces := pieces[p := Present(Zeros(PIECE_SIZE))];
        }
        p := p + 1;
      }
      AllZero(pieces);
    }

    /** One counter of a present piece, appended to the listing if it is used. */
    method StatCounter(i: int, j: int, count: nat, result: seq<Entry>, ghost v: seq<nat>, ghost k: int)
      returns (count': nat, result': seq<Entry>)
      requires IsView(pieces, v) && 0 <= i < PIECES && 0 <= j < PIECE_SIZE
      requires k == Place(i, j) && result == Emit(v[..k])
      ensures result' == Emit(v[..k + 1])
      ensures count' + SumCounts(result) == count + SumCounts(result')
    {
      CounterSeen(pieces, v, i, j);
      hide IsView, Emit, SumCounts, PieceCounts, GetOrderedIndex, Place;
      count', result' := count, result;
      var value := PieceCounts(pieces[i])[j];
      EmitStep(v, k);
      if value != 0 {
        var index := GetOrderedIndex(i * 128 + j);
        AppendEntry(result, Entry(index, value));
        result' := result + [Entry(index, value)];
        count' := count + value;
      }
    }

    /** One piece, forwards or backwards, appended to the listing. */
    method StatPiece(incOrder: bool, count: nat, result: seq<Entry>, i: int, ghost v: seq<nat>)
      returns (count': nat, result': seq<Entry>)
      requires IsView(pieces, v) && 0 <= i < PIECES && (incOrder <==> i < PIECES / 2)
      requires result == Emit(v[..PieceStart(i)])
      ensures result' == Emit(v[..PieceStart(i) + PIECE_SIZE])
      ensures count' + SumCounts(result) == count + SumCounts(result')
    {
      ViewSize(pieces, v);
      PieceRange(i);
      hide IsView, Emit, SumCounts, Place, PieceStart;
      count', result' := count, result;
      if pieces[i].Absent? {
        AbsentPiece(pieces, v, i, PieceStart(i));
        return;
      }
      var k := 0;
      ghost var q := PieceStart(i);
      while k < PIECE_SIZE
        invariant 0 <= k <= PIECE_SIZE && q == PieceStart(i) + k
        invariant result' == Emit(v[..q])
        invariant count' + SumCounts(result) == count + SumCounts(result')
      {
        var j := if incOrder then k else PIECE_SIZE - 1 - k;
        CounterPosition(i, k);
        count', result' := StatCounter(i, j, count', result', v, q);
        k, q := k + 1, q + 1;
      }
    }

    /** The used buckets in value order, and their total: the negative half read
        backwards, then the other half forwards. */
    method StatPieces(count: nat, ghost v: seq<nat>) returns (count': nat, result: seq<Entry>)
      requires IsView(pieces, v)
      ensures result == Emit(v)
      ensures count' == count + SumCounts(result)
    {
      ViewSize(pieces, v);
      EmitNothing(v);
      hide IsView, Emit, SumCounts;
      count', result := count, [];
      var i := PIECES - 1;
      while i >= PIECES / 2
        invariant PIECES / 2 - 1 <= i < PIECES
        invariant result == Emit(v[..BUCKETS - (i + 1) * 128])
        invariant count' == count + SumCounts(result)
      {
        count', result := StatPiece(false, count', result, i, v);
        i := i - 1;
      }
      i := 0;
      while i < PIECES / 2
        invariant 0 <= i <= PIECES / 2
        invariant result == Emit(v[..HALF + i * 128])
        invariant count' == count + SumCounts(result)
      {
        count', result := StatPiece(true, count', result, i, v);
        i := i + 1;
      }
      assert v[..BUCKETS] == v;
    }

    method Stat(count: nat) returns (count': nat, result: seq<Entry>)
      requires Valid()
      ensures result == Emit(InOrder(Counts()))
      ensures count' == count + Sum(InOrder(Counts()))
    {
      ViewOfPieces(pieces);
      count', result := StatPieces(count, InOrder(Counts()));
      SumOfEmitted(InOrder(Counts()));
    }
  }

  lemma AllZero(pieces: seq<Piece>)
    requires |pieces| == PIECES && forall p :: 0 <= p < PIECES ==> PieceCounts(pieces[p]) == Zeros(PIECE_SIZE)
    ensures WellFormed(pieces) && Flatten(pieces) == Zeros(BUCKETS)
  {
    FlattenLength(pieces);
    forall i | 0 <= i < BUCKETS
      ensures Flatten(pieces)[i] == 0
    {
      FlattenAt(pieces, i / 128, i % 128);
    }
  }
}

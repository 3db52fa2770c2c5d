/** A session's open gates: a projection inside the catalog record, and one deadline
    intent per gate in its own row, written by two compare-and-swaps with nothing
    between them that could make them one. */
module Gates {
  import opened Wrappers
  import opened Bytes
  import opened Clock
  import opened Storage

  const MAX_OPEN_GATES: nat := 16

  datatype Gate = Gate(gateID: Text, openedEventID: Text, openedSeq: uint64, deadline: Instant)

  datatype GateIntent = GateIntent(gate: Gate, recordedAt: Instant)

  datatype GateError = Superseded(mark: nat) | GateConflict | SequenceClash | TooMany | IntentDeleted | IntentConflict | Lost | InvalidGates

  function GateDue(deadline: Instant): Due { DueAt(UnixMilli(deadline)) }

  /** A deadline that has passed is in the due view, and none is a millisecond early. */
  lemma DueOnceTheDeadlinePasses(g: Gate, now: Instant)
    ensures g.deadline <= now ==> GateDue(g.deadline).unixMillis <= UnixMilli(now)
    ensures GateDue(g.deadline).unixMillis <= UnixMilli(now) ==> g.deadline - now < 1_000_000
  {
    FiledToTheMillisecond(g.deadline, now);
  }

  // ---- the canonical order ----------------------------------------------------------

  predicate TextBefore(a: Text, b: Text) {
    if b == [] then false
    else if a == [] then true
    else a[0] < b[0] || (a[0] == b[0] && TextBefore(a[1..], b[1..]))
  }

  predicate Before(a: Gate, b: Gate) {
    if a.openedSeq != b.openedSeq then a.openedSeq < b.openedSeq else TextBefore(a.gateID, b.gateID)
  }

  function Insert(gates: seq<Gate>, g: Gate): seq<Gate> {
    if gates == [] || Before(g, gates[0]) then [g] + gates else [gates[0]] + Insert(gates[1..], g)
  }

  function Sorted(gates: seq<Gate>): seq<Gate> {
    if gates == [] then [] else Insert(Sorted(gates[..|gates| - 1]), gates[|gates| - 1])
  }

  predicate NeighboursDiffer(gates: seq<Gate>) {
    forall i :: 0 < i < |gates| ==> gates[i].gateID != gates[i - 1].gateID
  }

  /** The order a projection is stored in, and the one check made of it: no two
      neighbours of one name. */
  function CanonicalOrder(gates: seq<Gate>): Result<seq<Gate>, GateError> {
    if NeighboursDiffer(Sorted(gates)) then Ok(Sorted(gates)) else Err(InvalidGates)
  }

  predicate AllValid(validGate: Gate -> bool, gates: seq<Gate>) { forall i :: 0 <= i < |gates| ==> validGate(gates[i]) }

  /** What every catalog write stores: each gate valid by Core's rules, then ordered. */
  function CanonicalGates(validGate: Gate -> bool, gates: seq<Gate>): Result<seq<Gate>, GateError> {
    if AllValid(validGate, gates) then CanonicalOrder(gates) else Err(InvalidGates)
  }

  // ---- what the order means ------------------------------------------------------------

  lemma {:induction false} TextOrder(a: Text, b: Text, c: Text)
    ensures !TextBefore(a, a)
    ensures a == b || TextBefore(a, b) || TextBefore(b, a)
    ensures !(TextBefore(a, b) && TextBefore(b, a))
    ensures TextBefore(a, b) && TextBefore(b, c) ==> TextBefore(a, c)
  {
    if a != [] { TextOrder(a[1..], if b == [] then [] else b[1..], if c == [] then [] else c[1..]); }
    if a != [] && b != [] && a[0] == b[0] && a[1..] == b[1..] { assert a == [a[0]] + a[1..] && b == [b[0]] + b[1..]; }
  }

  /** A strict order on (opening event, name): gates neither before the other share both. */
  lemma GateOrder(x: Gate, y: Gate, z: Gate)
    ensures !Before(x, x) && !(Before(x, y) && Before(y, x))
    ensures Before(x, y) && Before(y, z) ==> Before(x, z)
    ensures !Before(x, y) && !Before(y, x) ==> x.openedSeq == y.openedSeq && x.gateID == y.gateID
  {
    TextOrder(x.gateID, y.gateID, z.gateID);
  }

  ghost predicate Ordered(gates: seq<Gate>) { forall i, j :: 0 <= i < j < |gates| ==> !Before(gates[j], gates[i]) }

  lemma {:induction false} InsertOrders(gates: seq<Gate>, g: Gate)
    requires Ordered(gates)
    ensures Ordered(Insert(gates, g)) && multiset(Insert(gates, g)) == multiset(gates) + multiset{g}
  {
    if gates == [] {
    } else if Before(g, gates[0]) {
      forall j | 0 <= j < |gates| ensures !Before(gates[j], g) {
        GateOrder(g, gates[0], gates[j]);
        GateOrder(gates[j], g, gates[0]);
      }
    } else {
      assert gates == [gates[0]] + gates[1..];
      InsertOrders(gates[1..], g);
      var rest := Insert(gates[1..], g);
      forall j | 0 <= j < |rest| ensures !Before(rest[j], gates[0]) {
        assert rest[j] in multiset(rest);
        assert rest[j] == g || rest[j] in gates[1..];
      }
    }
  }

  /** The stored order is ordered, and loses and invents nothing. */
  lemma {:induction false} SortedMeaning(gates: seq<Gate>)
    ensures Ordered(Sorted(gates)) && multiset(Sorted(gates)) == multiset(gates)
  {
    if gates != [] {
      SortedMeaning(gates[..|gates| - 1]);
      InsertOrders(Sorted(gates[..|gates| - 1]), gates[|gates| - 1]);
      assert gates == gates[..|gates| - 1] + [gates[|gates| - 1]];
    }
  }

  lemma {:induction false} TwoOf(gates: seq<Gate>, x: Gate) returns (a: nat, b: nat)
    requires multiset(gates)[x] >= 2
    ensures a < b < |gates| && gates[a] == x == gates[b]
  {
    assert gates == [gates[0]] + gates[1..];
    if gates[0] == x {
      assert x in multiset(gates[1..]);
      var d :| 0 <= d < |gates[1..]| && gates[1..][d] == x;
      a, b := 0, d + 1;
    } else {
      a, b := TwoOf(gates[1..], x);
      a, b := a + 1, b + 1;
    }
  }

  lemma HeldTwice(gates: seq<Gate>, lo: nat, hi: nat)
    requires lo < hi < |gates| && gates[lo] == gates[hi]
    ensures multiset(gates)[gates[lo]] >= 2
  {
    assert gates == gates[..hi] + gates[hi..];
    assert gates[lo] in multiset(gates[..hi]) by { assert gates[..hi][lo] == gates[lo]; }
    assert gates[hi] in multiset(gates[hi..]) by { assert gates[hi..][0] == gates[hi]; }
  }

  lemma TwoPlaces(gates: seq<Gate>, other: seq<Gate>, i: nat, j: nat) returns (a: nat, b: nat)
    requires multiset(gates) == multiset(other) && i < |gates| && j < |gates| && i != j
    ensures a < |other| && b < |other| && a != b && other[a] == gates[i] && other[b] == gates[j]
  {
    if gates[i] == gates[j] {
      HeldTwice(gates, if i < j then i else j, if i < j then j else i);
      a, b := TwoOf(other, gates[i]);
    } else {
      assert gates[i] in multiset(other) && gates[j] in multiset(other);
      a :| 0 <= a < |other| && other[a] == gates[i];
      b :| 0 <= b < |other| && other[b] == gates[j];
    }
  }

  /** Some gate of another name belongs strictly between these two. */
  ghost predicate Separates(gates: seq<Gate>, x: Gate, y: Gate) {
    exists k :: 0 <= k < |gates| && gates[k].gateID != x.gateID && Before(x, gates[k]) && Before(gates[k], y)
  }

  /** Every two places of one name, taken in order, have such a gate between. */
  ghost predicate EveryRepeatSeparated(gates: seq<Gate>) {
    forall i, j :: 0 <= i < |gates| && 0 <= j < |gates| && i != j && gates[i].gateID == gates[j].gateID && !Before(gates[j], gates[i]) ==>
      Separates(gates, gates[i], gates[j])
  }

  lemma NothingBetweenNeighbours(gates: seq<Gate>, sorted: seq<Gate>, p: nat)
    requires Ordered(sorted) && multiset(gates) == multiset(sorted) && 0 < p < |sorted|
    ensures !Separates(gates, sorted[p - 1], sorted[p])
  {
    forall k | 0 <= k < |gates| ensures !(Before(sorted[p - 1], gates[k]) && Before(gates[k], sorted[p])) {
      assert gates[k] in multiset(sorted);
      var q :| 0 <= q < |sorted| && sorted[q] == gates[k];
      GateOrder(sorted[q], sorted[q], sorted[q]);
    }
  }

  lemma SeparatedNeighboursDiffer(gates: seq<Gate>, p: nat)
    requires EveryRepeatSeparated(gates) && 0 < p < |Sorted(gates)|
    ensures Sorted(gates)[p].gateID != Sorted(gates)[p - 1].gateID
  {
    SortedMeaning(gates);
    NothingBetweenNeighbours(gates, Sorted(gates), p);
    var i, j := TwoPlaces(Sorted(gates), gates, p - 1, p);
  }

  lemma RepeatsAreApart(sorted: seq<Gate>, a: nat, b: nat)
    requires Ordered(sorted) && NeighboursDiffer(sorted) && a < b < |sorted| && sorted[a].gateID == sorted[b].gateID
    ensures a + 1 < b && sorted[a + 1].gateID != sorted[a].gateID
    ensures Before(sorted[a], sorted[a + 1]) && Before(sorted[a + 1], sorted[b]) && Before(sorted[a], sorted[b])
  {
    assert sorted[a + 1].gateID != sorted[a].gateID;
    GateOrder(sorted[a], sorted[a + 1], sorted[b]);
    GateOrder(sorted[a + 1], sorted[b], sorted[a]);
  }

  lemma DifferingNeighboursSeparate(gates: seq<Gate>, i: nat, j: nat)
    requires NeighboursDiffer(Sorted(gates)) && i < |gates| && j < |gates| && i != j
    requires gates[i].gateID == gates[j].gateID && !Before(gates[j], gates[i])
    ensures Separates(gates, gates[i], gates[j])
  {
    SortedMeaning(gates);
    var sorted := Sorted(gates);
    var a, b := TwoPlaces(gates, sorted, i, j);
    if b < a {
      RepeatsAreApart(sorted, b, a);
    } else {
      RepeatsAreApart(sorted, a, b);
      assert sorted[a + 1] in multiset(gates);
      var k :| 0 <= k < |gates| && gates[k] == sorted[a + 1];
    }
  }

  /** The neighbour check is not a uniqueness check: of valid gates the canonical form
      accepts a name twice if and only if, between every two places that hold it, a
      gate of another name belongs. */
  lemma RepeatsPassExactlyWhenSeparated(validGate: Gate -> bool, gates: seq<Gate>)
    ensures CanonicalGates(validGate, gates).Ok? <==> AllValid(validGate, gates) && EveryRepeatSeparated(gates)
  {
    if EveryRepeatSeparated(gates) {
      forall p: nat | 0 < p < |Sorted(gates)| ensures Sorted(gates)[p].gateID != Sorted(gates)[p - 1].gateID {
        SeparatedNeighboursDiffer(gates, p);
      }
    }
    if NeighboursDiffer(Sorted(gates)) {
      forall i, j | 0 <= i < |gates| && 0 <= j < |gates| && i != j && gates[i].gateID == gates[j].gateID && !Before(gates[j], gates[i])
        ensures Separates(gates, gates[i], gates[j])
      {
        DifferingNeighboursSeparate(gates, i, j);
      }
    }
  }

  /** So one name passes twice whatever Core's rules are, wherever three valid gates
      open in turn and only the middle one is called something else. */
  lemma ANameCanPassTwice(validGate: Gate -> bool, x: Gate, y: Gate, z: Gate)
    requires validGate(x) && validGate(y) && validGate(z)
    requires x.openedSeq < y.openedSeq < z.openedSeq && x.gateID == z.gateID != y.gateID
    ensures CanonicalGates(validGate, [x, y, z]).Ok?
  {
    var gates := [x, y, z];
    forall i, j | 0 <= i < |gates| && 0 <= j < |gates| && i != j && gates[i].gateID == gates[j].gateID && !Before(gates[j], gates[i])
      ensures Separates(gates, gates[i], gates[j])
    {
      assert gates[1] == y;
    }
    RepeatsPassExactlyWhenSeparated(validGate, gates);
  }

  /** Bounded, each name and each opening event once, in ascending event order. */
  ghost predicate GatesGood(gates: seq<Gate>) {
    && |gates| <= MAX_OPEN_GATES
    && (forall i, j :: 0 <= i < j < |gates| ==> gates[i].openedSeq < gates[j].openedSeq)
    && (forall i, j :: 0 <= i < j < |gates| ==> gates[i].gateID != gates[j].gateID)
  }

  predicate Names(gates: seq<Gate>, id: Text) { exists i :: 0 <= i < |gates| && gates[i].gateID == id }

  predicate HoldsSeq(gates: seq<Gate>, n: nat) { exists i :: 0 <= i < |gates| && gates[i].openedSeq == n }

  lemma {:induction false} InsertHolds(gates: seq<Gate>, g: Gate, x: Gate)
    ensures x in Insert(gates, g) <==> x == g || x in gates
    ensures |Insert(gates, g)| == |gates| + 1
  {
    if !(gates == [] || Before(g, gates[0])) { InsertHolds(gates[1..], g, x); }
  }

  /** Inserting an event of its own keeps the ascending order. */
  lemma {:induction false} InsertAscends(gates: seq<Gate>, g: Gate)
    requires forall i, j :: 0 <= i < j < |gates| ==> gates[i].openedSeq < gates[j].openedSeq
    requires !HoldsSeq(gates, g.openedSeq)
    ensures var all := Insert(gates, g); forall i, j :: 0 <= i < j < |all| ==> all[i].openedSeq < all[j].openedSeq
  {
    var all := Insert(gates, g);
    if gates != [] && !Before(g, gates[0]) {
      assert gates[0].openedSeq != g.openedSeq;
      assert forall i :: 0 <= i < |gates[1..]| ==> gates[1..][i] == gates[i + 1];
      assert !HoldsSeq(gates[1..], g.openedSeq);
      InsertAscends(gates[1..], g);
      forall i | 0 < i < |all| ensures gates[0].openedSeq < all[i].openedSeq {
        assert all[i] in Insert(gates[1..], g);
        InsertHolds(gates[1..], g, all[i]);
      }
    }
  }

  lemma {:induction false} SortedIsFixed(gates: seq<Gate>)
    requires forall i, j :: 0 <= i < j < |gates| ==> gates[i].openedSeq < gates[j].openedSeq
    ensures Sorted(gates) == gates
  {
    if gates != [] {
      SortedIsFixed(gates[..|gates| - 1]);
      InsertLast(gates[..|gates| - 1], gates[|gates| - 1]);
      assert gates == gates[..|gates| - 1] + [gates[|gates| - 1]];
    }
  }

  lemma {:induction false} InsertLast(gates: seq<Gate>, g: Gate)
    requires forall i :: 0 <= i < |gates| ==> gates[i].openedSeq < g.openedSeq
    ensures Insert(gates, g) == gates + [g]
  {
    if gates != [] { InsertLast(gates[1..], g); }
  }

  /** Appending a fresh gate to a good projection stores a good projection. */
  lemma AppendStaysGood(gates: seq<Gate>, g: Gate)
    requires GatesGood(gates) && |gates| < MAX_OPEN_GATES && !Names(gates, g.gateID) && !HoldsSeq(gates, g.openedSeq)
    ensures CanonicalOrder(gates + [g]) == Ok(Insert(gates, g)) && GatesGood(Insert(gates, g))
    ensures forall x :: x in Insert(gates, g) <==> x == g || x in gates
  {
    var all := Insert(gates, g);
    assert (gates + [g])[..|gates|] == gates;
    SortedIsFixed(gates);
    InsertAscends(gates, g);
    forall x ensures x in all <==> x == g || x in gates { InsertHolds(gates, g, x); }
    InsertHolds(gates, g, g);
    forall i, j | 0 <= i < j < |all| ensures all[i].gateID != all[j].gateID {
      assert all[i] in all && all[j] in all;
      assert all[i].openedSeq < all[j].openedSeq;
    }
  }

  // ---- the local loops ----------------------------------------------------------------

  function Without(gates: seq<Gate>, id: Text): seq<Gate> {
    if gates == [] then []
    else
      var front := Without(gates[..|gates| - 1], id);
      if gates[|gates| - 1].gateID == id then front else front + [gates[|gates| - 1]]
  }

  lemma {:induction false} WithoutMeaning(gates: seq<Gate>, id: Text)
    ensures !Names(Without(gates, id), id)
    ensures forall x :: x in Without(gates, id) <==> x in gates && x.gateID != id
    ensures |Without(gates, id)| <= |gates|
  {
    if gates != [] {
      WithoutMeaning(gates[..|gates| - 1], id);
      assert gates == gates[..|gates| - 1] + [gates[|gates| - 1]];
      var last, kept := gates[|gates| - 1], Without(gates, id);
      forall i | 0 <= i < |kept| ensures kept[i].gateID != id { assert kept[i] in kept; }
    }
  }

  lemma {:induction false} WithoutShrinks(gates: seq<Gate>, id: Text)
    requires Names(gates, id)
    ensures |Without(gates, id)| < |gates|
  {
    var front := gates[..|gates| - 1];
    if gates[|gates| - 1].gateID == id {
      WithoutMeaning(front, id);
    } else {
      var i :| 0 <= i < |gates| && gates[i].gateID == id;
      assert front[i].gateID == id;
      WithoutShrinks(front, id);
    }
  }

  lemma {:induction false} WithoutNothing(gates: seq<Gate>, id: Text)
    requires !Names(gates, id)
    ensures Without(gates, id) == gates
  {
    if gates != [] {
      var front := gates[..|gates| - 1];
      assert gates[|gates| - 1].gateID != id;
      WithoutNothing(front, id);
      assert gates == front + [gates[|gates| - 1]];
    }
  }

  lemma {:induction false} WithoutStaysGood(gates: seq<Gate>, id: Text)
    requires GatesGood(gates)
    ensures GatesGood(Without(gates, id))
  {
    if gates != [] {
      var front := gates[..|gates| - 1];
      WithoutStaysGood(front, id);
      WithoutMeaning(front, id);
      var kept := Without(front, id);
      forall i | 0 <= i < |kept|
        ensures kept[i].openedSeq < gates[|gates| - 1].openedSeq && kept[i].gateID != gates[|gates| - 1].gateID
      {
        assert kept[i] in front;
      }
    }
  }

  method WithoutGate(open: seq<Gate>, id: Text) returns (remaining: seq<Gate>, found: bool)
    ensures remaining == Without(open, id) && found == Names(open, id)
  {
    remaining, found := [], false;
    for i := 0 to |open|
      invariant remaining == Without(open[..i], id) && found == Names(open[..i], id)
    {
      assert open[..i + 1][..i] == open[..i];
      if open[i].gateID == id {
        found := true;
        assert open[..i + 1][i].gateID == id;
      } else {
        remaining := remaining + [open[i]];
        if Names(open[..i], id) {
          var k :| 0 <= k < i && open[..i][k].gateID == id;
          assert open[..i + 1][k].gateID == id;
        }
      }
    }
    assert open[..|open|] == open;
  }

  /** The highest opening event, zero for none. */
  function PageTip(open: seq<Gate>): nat {
    if open == [] then 0
    else
      var rest, last := PageTip(open[..|open| - 1]), open[|open| - 1].openedSeq;
      if last > rest then last else rest
  }

  /** It bounds every open gate's event and is one of them; of a good projection, the last. */
  lemma {:induction false} PageTipMeaning(open: seq<Gate>)
    ensures forall i :: 0 <= i < |open| ==> open[i].openedSeq <= PageTip(open)
    ensures PageTip(open) == 0 || HoldsSeq(open, PageTip(open))
    ensures GatesGood(open) && open != [] ==> PageTip(open) == open[|open| - 1].openedSeq
  {
    if open != [] {
      var front := open[..|open| - 1];
      PageTipMeaning(front);
      assert open[|open| - 1].openedSeq == PageTip(open) || HoldsSeq(front, PageTip(open)) || PageTip(open) == 0;
      if HoldsSeq(front, PageTip(open)) {
        var i :| 0 <= i < |front| && front[i].openedSeq == PageTip(open);
        assert open[i].openedSeq == PageTip(open);
      }
    }
  }

  /** The tip a disposition session's gate page vouches for. */
  method GatePageTip(open: seq<Gate>) returns (tip: nat)
    ensures tip == PageTip(open)
    ensures forall i :: 0 <= i < |open| ==> open[i].openedSeq <= tip
    ensures if open == [] then tip == 0 else HoldsSeq(open, tip) || tip == 0
    ensures GatesGood(open) && open != [] ==> tip == open[|open| - 1].openedSeq
  {
    tip := 0;
    for i := 0 to |open|
      invariant tip == PageTip(open[..i])
    {
      assert open[..i + 1][..i] == open[..i];
      tip := if open[i].openedSeq > tip then open[i].openedSeq else tip;
    }
    assert open[..|open|] == open;
    PageTipMeaning(open);
  }

  // ---- what an open decides on the record it read ---------------------------------------

  datatype Catalog = Catalog(mark: nat, gates: seq<Gate>, revision: nat)

  datatype OpenPlan = Replay | Append

  /** The first open gate that settles the question, in projection order. */
  function FirstClash(gates: seq<Gate>, g: Gate): Option<Result<OpenPlan, GateError>> {
    if gates == [] then None
    else if gates[0].gateID == g.gateID then Some(if gates[0] == g then Ok(Replay) else Err(GateConflict))
    else if gates[0].openedSeq == g.openedSeq then Some(Err(SequenceClash))
    else FirstClash(gates[1..], g)
  }

  function PlanOpen(cat: Catalog, g: Gate, grant: nat): Result<OpenPlan, GateError> {
    if grant < cat.mark then Err(Superseded(cat.mark))
    else
      var clash := FirstClash(cat.gates, g);
      if clash.Some? then clash.value
      else if |cat.gates| + 1 > MAX_OPEN_GATES then Err(TooMany)
      else Ok(Append)
  }

  lemma {:induction false} ClashMeaning(gates: seq<Gate>, g: Gate)
    ensures FirstClash(gates, g).None? <==> !Names(gates, g.gateID) && !HoldsSeq(gates, g.openedSeq)
    ensures FirstClash(gates, g) == Some(Ok(Replay)) ==> g in gates
    ensures FirstClash(gates, g) != Some(Ok(Append))
  {
    if gates != [] {
      assert forall i :: 0 <= i < |gates[1..]| ==> gates[1..][i] == gates[i + 1];
      ClashMeaning(gates[1..], g);
    }
  }

  /** This gate's own name or event met first, in projection order, at a gate that is not it. */
  ghost predicate ClashesAt(gates: seq<Gate>, g: Gate, i: nat) {
    && i < |gates| && gates[i] != g && (gates[i].gateID == g.gateID || gates[i].openedSeq == g.openedSeq)
    && forall j :: 0 <= j < i ==> gates[j].gateID != g.gateID && gates[j].openedSeq != g.openedSeq
  }

  lemma {:induction false} FirstClashIs(gates: seq<Gate>, g: Gate, i: nat)
    requires i < |gates| && (gates[i].gateID == g.gateID || gates[i].openedSeq == g.openedSeq)
    requires forall j :: 0 <= j < i ==> gates[j].gateID != g.gateID && gates[j].openedSeq != g.openedSeq
    ensures FirstClash(gates, g) ==
              Some(if gates[i] == g then Ok(Replay) else if gates[i].gateID == g.gateID then Err(GateConflict) else Err(SequenceClash))
  {
    if i > 0 {
      assert forall j :: 0 <= j < i - 1 ==> gates[1..][j] == gates[j + 1];
      FirstClashIs(gates[1..], g, i - 1);
    }
  }

  lemma {:induction false} FirstMeeting(gates: seq<Gate>, g: Gate) returns (i: nat)
    requires Names(gates, g.gateID) || HoldsSeq(gates, g.openedSeq)
    ensures i < |gates| && (gates[i].gateID == g.gateID || gates[i].openedSeq == g.openedSeq)
    ensures forall j :: 0 <= j < i ==> gates[j].gateID != g.gateID && gates[j].openedSeq != g.openedSeq
  {
    i := 0;
    if gates[0].gateID != g.gateID && gates[0].openedSeq != g.openedSeq {
      assert forall j :: 0 <= j < |gates[1..]| ==> gates[1..][j] == gates[j + 1];
      assert Names(gates[1..], g.gateID) || HoldsSeq(gates[1..], g.openedSeq) by {
        if k :| 0 <= k < |gates| && (gates[k].gateID == g.gateID || gates[k].openedSeq == g.openedSeq) {
          assert gates[1..][k - 1] == gates[k];
        }
      }
      i := FirstMeeting(gates[1..], g);
      i := i + 1;
    }
  }

  /** What an open decides on the record it read: an open of the very gate that is there
      replays; a fresh name and a fresh event append while there is room; a name or event
      held by another gate is refused for whichever comes first; and a superseded grant
      before all of it. */
  lemma PlanExactlyWhen(cat: Catalog, g: Gate, grant: nat)
    requires GatesGood(cat.gates)
    ensures var plan, unheld := PlanOpen(cat, g, grant), !Names(cat.gates, g.gateID) && !HoldsSeq(cat.gates, g.openedSeq);
            if grant < cat.mark then plan == Err(Superseded(cat.mark))
            else
              && (plan == Ok(Replay) <==> g in cat.gates)
              && (plan == Ok(Append) <==> unheld && |cat.gates| < 16)
              && (plan == Err(TooMany) <==> unheld && |cat.gates| >= 16)
              && (plan == Err(GateConflict) <==> exists i: nat :: ClashesAt(cat.gates, g, i) && cat.gates[i].gateID == g.gateID)
              && (plan == Err(SequenceClash) <==> exists i: nat :: ClashesAt(cat.gates, g, i) && cat.gates[i].gateID != g.gateID)
  {
    ClashMeaning(cat.gates, g);
    if Names(cat.gates, g.gateID) || HoldsSeq(cat.gates, g.openedSeq) {
      var i := FirstMeeting(cat.gates, g);
      FirstClashIs(cat.gates, g, i);
      if g in cat.gates {
        var k :| 0 <= k < |cat.gates| && cat.gates[k] == g;
        assert k == i;
      }
      assert cat.gates[i] != g ==> ClashesAt(cat.gates, g, i);
      forall j: nat | ClashesAt(cat.gates, g, j) ensures j == i && cat.gates[i] != g {}
    } else {
      forall x | x in cat.gates ensures x != g { var k :| 0 <= k < |cat.gates| && cat.gates[k] == x; }
    }
  }

  // ---- the intent row --------------------------------------------------------------------

  type IntentRow = Row<GateIntent>

  /** What meeting an existing row leaves to do: nothing, or one more write. A
      parked row is filed due again whatever its instant; an instant only rises. */
  function Meet(row: IntentRow, g: Gate, reading: Instant): Result<Option<GateIntent>, GateError> {
    if row.deleted then Err(IntentDeleted)
    else if row.value.gate != g then Err(IntentConflict)
    else if row.due == NotDue then Ok(Some(if reading > row.value.recordedAt then GateIntent(g, reading) else row.value))
    else if reading > row.value.recordedAt then Ok(Some(GateIntent(g, reading)))
    else Ok(None)
  }

  /** A tombstone and another gate's row are refused; otherwise one more write is left
      exactly when the row is parked or recorded before this reading, and it never lowers
      the instant. */
  lemma MeetExactlyWhen(row: IntentRow, g: Gate, reading: Instant)
    ensures var met := Meet(row, g, reading);
            && (met == Err(IntentDeleted) <==> row.deleted)
            && (met == Err(IntentConflict) <==> !row.deleted && row.value.gate != g)
            && (met == Ok(None) <==> !row.deleted && row.value.gate == g && row.due.DueAt? && reading <= row.value.recordedAt)
            && (met.Ok? && met.value.Some? ==>
                  met.value.value == GateIntent(g, if reading > row.value.recordedAt then reading else row.value.recordedAt))
  {
  }

  predicate Live(row: IntentRow, g: Gate) { !row.deleted && row.value.gate == g && row.due == GateDue(g.deadline) && row.rank == Unranked }

  class GateIntents {
    const index: OrderedIndex<GateIntent>

    constructor ()
      ensures fresh(index) && index.rows == map[]
    {
      index := new OrderedIndex<GateIntent>();
    }

    /** Makes one gate's deadline durable. Success leaves a live row for exactly
        this gate, recorded at or after this attempt's own reading and never
        before what was recorded; a refusal changes nothing. */
    method CommitGateIntent(g: Gate, reading: Instant) returns (r: Option<GateError>)
      requires g.gateID in index.rows && !index.rows[g.gateID].deleted && index.rows[g.gateID].due != NotDue ==>
                 index.rows[g.gateID].due == GateDue(index.rows[g.gateID].value.gate.deadline)
      requires g.gateID in index.rows && !index.rows[g.gateID].deleted ==> index.rows[g.gateID].rank == Unranked
      modifies index
      ensures forall k :: k in old(index.rows) && k != g.gateID ==> k in index.rows && index.rows[k] == old(index.rows)[k]
      ensures index.rows.Keys <= old(index.rows).Keys + {g.gateID}
      ensures r.Some? ==> index.rows == old(index.rows)
      ensures r == (if g.gateID in old(index.rows) && old(index.rows)[g.gateID].deleted then Some(IntentDeleted)
                    else if g.gateID in old(index.rows) && old(index.rows)[g.gateID].value.gate != g then Some(IntentConflict)
                    else None)
      ensures r.None? ==>
                && g.gateID in index.rows && Live(index.rows[g.gateID], g)
                && index.rows[g.gateID].value.recordedAt >= reading
                && (g.gateID in old(index.rows) ==>
                      && index.rows[g.gateID].value.recordedAt >= old(index.rows)[g.gateID].value.recordedAt
                      && (index.rows[g.gateID].value.recordedAt == reading
                          || index.rows[g.gateID].value == old(index.rows)[g.gateID].value))
    {
      var stored, created := index.Create(g.gateID, GateIntent(g, reading), Unranked, GateDue(g.deadline));
      if created {
        return None;
      }
      if stored.deleted {
        return Some(IntentDeleted);
      }
      if stored.value.gate != g {
        return Some(IntentConflict);
      }
      var next := GateIntent(g, reading);
      if stored.due == NotDue {
        if !(reading > stored.value.recordedAt) {
          next := stored.value;
        }
      } else if !(reading > stored.value.recordedAt) {
        return None;
      }
      var moved := index.Update(g.gateID, stored.revision, next, Unranked, GateDue(g.deadline));
      r := None;
    }

    /** Idempotent: an intent that never was, or is a tombstone, is retired already. */
    method RetireGateIntent(id: Text)
      modifies index
      ensures forall k :: k in old(index.rows) && k != id ==> k in index.rows && index.rows[k] == old(index.rows)[k]
      ensures index.rows.Keys == old(index.rows).Keys
      ensures id in index.rows ==> index.rows[id].deleted && index.rows[id].value == old(index.rows)[id].value
    {
      var stored := index.Get(id);
      if stored.Some? && !stored.value.deleted {
        var gone := index.Delete(id, stored.value.revision);
      }
    }
  }

  // ---- the store's own calls, with a crash between any two writes ---------------------------

  /** Bounded and distinct gates, each with its own live deadline. */
  ghost predicate Covers(gates: seq<Gate>, rows: Rows<GateIntent>) {
    GatesGood(gates) && (forall g :: g in gates ==> g.gateID in rows && Live(rows[g.gateID], g)) && RowsFiled(rows)
  }

  ghost predicate RowsFiled(rows: Rows<GateIntent>) {
    forall id :: id in rows ==> rows[id].value.gate.gateID == id && (!rows[id].deleted ==> Live(rows[id], rows[id].value.gate))
  }

  /** A row touched for one gate leaves every other gate covered. */
  lemma CoversAfterCommit(gates: seq<Gate>, rows: Rows<GateIntent>, next: Rows<GateIntent>, g: Gate)
    requires Covers(gates, rows) && g.gateID in next && Live(next[g.gateID], g)
    requires next.Keys == rows.Keys + {g.gateID} && forall k :: k in rows && k != g.gateID ==> next[k] == rows[k]
    requires g.gateID in rows ==> rows[g.gateID].value.gate == g
    ensures Covers(gates, next)
  {
  }

  lemma CoversAfterAppend(gates: seq<Gate>, rows: Rows<GateIntent>, g: Gate)
    requires Covers(gates, rows) && g.gateID in rows && Live(rows[g.gateID], g) && FirstClash(gates, g).None? && |gates| < MAX_OPEN_GATES
    ensures CanonicalOrder(gates + [g]).Ok? && Covers(CanonicalOrder(gates + [g]).value, rows)
    ensures forall x :: x in CanonicalOrder(gates + [g]).value <==> x == g || x in gates
  {
    ClashMeaning(gates, g);
    AppendStaysGood(gates, g);
  }

  lemma CoversAfterClear(gates: seq<Gate>, rows: Rows<GateIntent>, id: Text)
    requires Covers(gates, rows)
    ensures CanonicalOrder(Without(gates, id)) == Ok(Without(gates, id)) && Covers(Without(gates, id), rows)
    ensures CanonicalOrder(gates) == Ok(gates)
  {
    WithoutMeaning(gates, id);
    WithoutStaysGood(gates, id);
    SortedIsFixed(Without(gates, id));
    SortedIsFixed(gates);
  }

  lemma CoversAfterRetire(gates: seq<Gate>, rows: Rows<GateIntent>, next: Rows<GateIntent>, id: Text)
    requires Covers(gates, rows) && !Names(gates, id) && next.Keys == rows.Keys
    requires forall k :: k in rows && k != id ==> next[k] == rows[k]
    requires id in next ==> next[id].deleted && next[id].value == rows[id].value
    ensures Covers(gates, next)
  {
    forall g | g in gates ensures g.gateID in next && Live(next[g.gateID], g) {
      var i :| 0 <= i < |gates| && gates[i] == g;
      assert g.gateID != id;
    }
  }

  lemma StillValid(validGate: Gate -> bool, gates: seq<Gate>, kept: seq<Gate>)
    requires AllValid(validGate, gates) && forall x :: x in kept ==> x in gates
    ensures AllValid(validGate, kept)
  {
    forall i | 0 <= i < |kept| ensures validGate(kept[i]) { assert kept[i] in gates; }
  }

  lemma ValidWithin(validGate: Gate -> bool, gates: seq<Gate>, g: Gate, all: seq<Gate>)
    requires AllValid(validGate, gates) && validGate(g) && forall x :: x in all ==> x == g || x in gates
    ensures AllValid(validGate, all) && AllValid(validGate, gates + [g])
  {
    forall i | 0 <= i < |all| ensures validGate(all[i]) { assert all[i] == g || all[i] in gates; }
  }

  lemma NamesMeansHeld(gates: seq<Gate>, id: Text)
    ensures Names(gates, id) <==> exists x :: x in gates && x.gateID == id
  {
    if Names(gates, id) {
      var i :| 0 <= i < |gates| && gates[i].gateID == id;
      assert gates[i] in gates;
    }
  }

  /** An open goes through exactly when its gate is one the record can hold, its grant is
      not superseded, the gate is there already or there is room and nothing else has its
      name or event, and its intent is nobody else's and not a tombstone. */
  ghost predicate Openable(validGate: Gate -> bool, cat: Catalog, rows: Rows<GateIntent>, g: Gate, grant: nat) {
    && validGate(g) && Rankable(g.deadline) && cat.mark <= grant
    && (g in cat.gates || (|cat.gates| < 16 && !Names(cat.gates, g.gateID) && !HoldsSeq(cat.gates, g.openedSeq)))
    && (g.gateID in rows ==> !rows[g.gateID].deleted && rows[g.gateID].value.gate == g)
  }

  /** One disposition session's catalog record and its gate intents. Each call makes
      its provider writes in order, and `budget` is how many it survives to make. */
  class GateStore {
    const validGate: Gate -> bool
    var cat: Catalog
    const intents: GateIntents

    ghost predicate Valid()
      reads this, intents.index
    {
      Covers(cat.gates, Rows()) && AllValid(validGate, cat.gates)
    }

    function Rows(): Rows<GateIntent>
      reads intents.index
    {
      intents.index.rows
    }

    constructor (validGate: Gate -> bool)
      ensures Valid() && fresh(intents.index) && cat == Catalog(0, [], 1) && this.validGate == validGate
    {
      this.validGate := validGate;
      cat := Catalog(0, [], 1);
      intents := new GateIntents();
    }

    /** The deadline first, the projection second. A crash leaves at most a deadline
        with no gate; success leaves the gate projected, its deadline live and the
        mark at this grant. */
    method OpenGate(g: Gate, grant: nat, reading: Instant, budget: nat) returns (r: Result<Catalog, GateError>)
      requires Valid()
      modifies this`cat, intents.index
      ensures Valid() && old(cat).mark <= cat.mark && old(cat).revision <= cat.revision
      ensures r.Err? ==> cat == old(cat)
      ensures !validGate(g) || !Rankable(g.deadline) ==> r == Err(InvalidGates) && Rows() == old(Rows())
      ensures validGate(g) && Rankable(g.deadline) && PlanOpen(old(cat), g, grant).Err? ==>
                r == Err(PlanOpen(old(cat), g, grant).error) && Rows() == old(Rows())
      ensures r.Ok? ==>
                && validGate(g) && Rankable(g.deadline) && r.value == cat && cat.mark == grant && g in cat.gates
                && Rows()[g.gateID].value.recordedAt >= reading
                && forall x :: x in cat.gates <==> x == g || x in old(cat).gates
      ensures budget >= 2 ==> (r.Ok? <==> Openable(validGate, old(cat), old(Rows()), g, grant))
      ensures validGate(g) && Rankable(g.deadline) && grant < old(cat).mark ==> r == Err(Superseded(old(cat).mark))
      ensures r.Ok? ==> cat.revision == old(cat).revision + if g in old(cat).gates && grant == old(cat).mark then 0 else 1
    {
      if !validGate(g) || !Rankable(g.deadline) {
        return Err(InvalidGates);
      }
      PlanExactlyWhen(cat, g, grant);
      var plan := PlanOpen(cat, g, grant);
      if plan.Err? {
        return Err(plan.error);
      }
      if budget == 0 {
        return Err(Lost);
      }
      var refused := intents.CommitGateIntent(g, reading);
      if refused.Some? {
        return Err(refused.value);
      }
      CoversAfterCommit(cat.gates, old(Rows()), Rows(), g);
      if budget == 1 {
        return Err(Lost);
      }
      ProjectGate(g, grant, plan.value);
      r := Ok(cat);
    }

    /** The projection's half of an open: the gate there, the mark at this grant. */
    method ProjectGate(g: Gate, grant: nat, plan: OpenPlan)
      requires Valid() && validGate(g) && PlanOpen(cat, g, grant) == Ok(plan)
      requires g.gateID in Rows() && Live(Rows()[g.gateID], g)
      modifies this`cat
      ensures Valid() && cat.mark == grant && g in cat.gates && forall x :: x in cat.gates <==> x == g || x in old(cat).gates
      ensures cat.revision == old(cat).revision + if g in old(cat).gates && grant == old(cat).mark then 0 else 1
    {
      ClashMeaning(cat.gates, g);
      PlanExactlyWhen(cat, g, grant);
      match plan {
        case Replay =>
          if grant > cat.mark {
            cat := Catalog(grant, cat.gates, cat.revision + 1);
          }
        case Append =>
          CoversAfterAppend(cat.gates, Rows(), g);
          ValidWithin(validGate, cat.gates, g, CanonicalOrder(cat.gates + [g]).value);
          cat := Catalog(grant, CanonicalGates(validGate, cat.gates + [g]).value, cat.revision + 1);
      }
    }

    /** The projection first, the deadline second. A crash leaves at most a deadline
        with no gate, and a repeat finishes the job. */
    method ResolveGate(id: Text, grant: nat, budget: nat) returns (r: Result<Catalog, GateError>)
      requires Valid()
      modifies this`cat, intents.index
      ensures Valid() && old(cat).mark <= cat.mark && old(cat).revision <= cat.revision
      ensures grant < old(cat).mark ==> r == Err(Superseded(old(cat).mark)) && cat == old(cat) && Rows() == old(Rows())
      ensures r.Ok? ==>
                && r.value == cat && cat.mark == grant && !Names(cat.gates, id)
                && (forall x :: x in cat.gates <==> x in old(cat).gates && x.gateID != id)
                && (id in Rows() ==> Rows()[id].deleted)
      ensures budget >= 2 && grant >= old(cat).mark ==> r.Ok?
      ensures r.Ok? ==> cat.revision == old(cat).revision + if !Names(old(cat).gates, id) && grant == old(cat).mark then 0 else 1
    {
      if grant < cat.mark {
        return Err(Superseded(cat.mark));
      }
      if budget == 0 {
        return Err(Lost);
      }
      ClearGate(id, grant);
      if budget == 1 {
        return Err(Lost);
      }
      ghost var before := Rows();
      intents.RetireGateIntent(id);
      CoversAfterRetire(cat.gates, before, Rows(), id);
      r := Ok(cat);
    }

    /** The projection's half of a resolve: the gate gone, the mark at this grant. */
    method ClearGate(id: Text, grant: nat)
      requires Valid() && grant >= cat.mark
      modifies this`cat
      ensures Valid() && cat.mark == grant
      ensures cat.revision == old(cat).revision + if !Names(old(cat).gates, id) && grant == old(cat).mark then 0 else 1
      ensures !Names(cat.gates, id) && forall x :: x in cat.gates <==> x in old(cat).gates && x.gateID != id
    {
      CoversAfterClear(cat.gates, Rows(), id);
      WithoutMeaning(cat.gates, id);
      NamesMeansHeld(cat.gates, id);
      var remaining, found := WithoutGate(cat.gates, id);
      StillValid(validGate, cat.gates, remaining);
      if found {
        cat := Catalog(grant, CanonicalGates(validGate, remaining).value, cat.revision + 1);
      } else if grant > cat.mark {
        cat := Catalog(grant, CanonicalGates(validGate, cat.gates).value, cat.revision + 1);
      }
    }
  }
}

/** Recognising anonymous unions by equal field offsets
    (SetAnonymousUnionData, Components/DiaProcessor/DiaInterface.cpp). */
module AnonymousUnions {
  import opened Symbols

  // A field whose symbol could not be created is pushed with id 0; a pair with such a
  // field in it is passed over.
  predicate Compared(fields: seq<FieldSymbol>, k: nat) {
    k + 1 < |fields| && fields[k].id != 0 && fields[k + 1].id != 0
  }

  predicate Links(fields: seq<FieldSymbol>, k: nat) {
    Compared(fields, k) && fields[k].offset == fields[k + 1].offset
  }

  predicate Parts(fields: seq<FieldSymbol>, k: nat) {
    Compared(fields, k) && fields[k].offset != fields[k + 1].offset
  }

  predicate Flagged(fields: seq<FieldSymbol>, k: nat) {
    Links(fields, k) || (k > 0 && Links(fields, k - 1))
  }

  /** wasLastUnion when pair k is reached. */
  predicate WasLastUnion(fields: seq<FieldSymbol>, k: nat) {
    k > 0 && !Parts(fields, k - 1) && (Links(fields, k - 1) || WasLastUnion(fields, k - 1))
  }

  /** unionId when pair k is reached. */
  function UnionIdAt(fields: seq<FieldSymbol>, k: nat): (id: nat)
    ensures id <= k
  {
    if k == 0 then 0
    else UnionIdAt(fields, k - 1) + if Parts(fields, k - 1) && WasLastUnion(fields, k - 1) then 1 else 0
  }

  function InUnion(f: FieldSymbol, unionId: u32): FieldSymbol {
    f.(isAnonymousUnion := true, unionId := unionId)
  }

  /** Field k once the first n pairs have been compared. */
  function MarkedField(fields: seq<FieldSymbol>, n: nat, k: nat): FieldSymbol
    requires k < |fields| < 0x1_0000_0000
  {
    if (k < n && Links(fields, k)) || (0 < k <= n && Links(fields, k - 1))
    then InUnion(fields[k], UnionIdAt(fields, k))
    else fields[k]
  }

  function Marked(fields: seq<FieldSymbol>): seq<FieldSymbol>
    requires |fields| < 0x1_0000_0000
  {
    seq(|fields|, k requires 0 <= k < |fields| => MarkedField(fields, |fields|, k))
  }

  method SetAnonymousUnionData(symbol: TypeSymbol) returns (marked: TypeSymbol)
    requires |symbol.fields| < 0x1_0000_0000
    ensures marked == symbol.(fields := Marked(symbol.fields))
  {
    var fields := symbol.fields;
    var count := |fields|;
    var unionId: u32 := 0;
    var wasLastUnion := false;
    for i := 0 to count
      invariant |fields| == count
      invariant i < count ==> unionId == UnionIdAt(symbol.fields, i)
      invariant i < count ==> wasLastUnion == WasLastUnion(symbol.fields, i)
      invariant forall k :: 0 <= k < count ==> fields[k] == MarkedField(symbol.fields, i, k)
    {
      if i + 1 == count {
        break;
      }
      var current := fields[i];
      if current.id == 0 {
        continue;
      }
      var next := fields[i + 1];
      if next.id == 0 {
        continue;
      }
      if current.offset == next.offset {
        fields := fields[i := InUnion(current, unionId)][i + 1 := InUnion(next, unionId)];
        wasLastUnion := true;
      } else if wasLastUnion {
        unionId := unionId + 1;
        wasLastUnion := false;
      }
    }
    assert fields == Marked(symbol.fields);
    marked := symbol.(fields := fields);
  }

  // ---------------------------------------------------------------- what it means

  /** Two flagged fields get one union id exactly when no two neighbouring fields between
      them were compared and found at different offsets. */
  lemma {:induction false} SharedUnionId(fields: seq<FieldSymbol>, k: nat, l: nat)
    requires k < l < |fields| < 0x1_0000_0000
    requires Flagged(fields, k) && Flagged(fields, l)
    ensures Marked(fields)[k].unionId == Marked(fields)[l].unionId
            <==> forall i :: k <= i < l ==> !Parts(fields, i)
  {
    IdsBetween(fields, k, l);
  }

  lemma {:induction false} IdsBetween(fields: seq<FieldSymbol>, k: nat, l: nat)
    requires k < l && Flagged(fields, k)
    ensures UnionIdAt(fields, k) <= UnionIdAt(fields, l)
    ensures UnionIdAt(fields, k) == UnionIdAt(fields, l) <==> forall i :: k <= i < l ==> !Parts(fields, i)
    ensures (forall i :: k <= i < l ==> !Parts(fields, i)) ==> WasLastUnion(fields, l)
  {
    if l > k + 1 {
      IdsBetween(fields, k, l - 1);
    }
  }

  /** Field i is the last of two or more fields at one offset. */
  ghost predicate RunEnds(fields: seq<FieldSymbol>, i: nat) {
    && 0 < i && i + 1 < |fields|
    && fields[i - 1].offset == fields[i].offset
    && fields[i].offset != fields[i + 1].offset
  }

  /** Ends of the maximal runs of two or more fields at one offset that end before field k. */
  ghost function RunsBefore(fields: seq<FieldSymbol>, k: nat): set<nat>
    requires k < |fields|
  {
    set i: nat | 0 < i < k && RunEnds(fields, i)
  }

  ghost predicate AllCreated(fields: seq<FieldSymbol>) {
    forall i :: 0 <= i < |fields| ==> fields[i].id != 0
  }

  lemma RunsBeforeStep(fields: seq<FieldSymbol>, k: nat)
    requires 0 < k < |fields|
    ensures |RunsBefore(fields, k)| == |RunsBefore(fields, k - 1)| + if RunEnds(fields, k - 1) then 1 else 0
  {
    if RunEnds(fields, k - 1) {
      assert RunsBefore(fields, k) == RunsBefore(fields, k - 1) + {k - 1};
    } else {
      assert RunsBefore(fields, k) == RunsBefore(fields, k - 1);
    }
  }

  lemma {:induction false} UnionIdCountsRuns(fields: seq<FieldSymbol>, k: nat)
    requires AllCreated(fields) && k < |fields|
    ensures UnionIdAt(fields, k) == |RunsBefore(fields, k)|
    ensures WasLastUnion(fields, k) <==> k > 0 && fields[k - 1].offset == fields[k].offset
  {
    if k > 0 {
      UnionIdCountsRuns(fields, k - 1);
      RunsBeforeStep(fields, k);
    }
  }

  /** When every field was created, a field is flagged exactly when a neighbour has its offset,
      its union id is the number of runs of equal offsets that ended before it, two
      flagged fields share the id exactly when they share the run, and nothing else changes. */
  lemma MarkedMeansRuns(fields: seq<FieldSymbol>, k: nat)
    requires AllCreated(fields) && k < |fields| < 0x1_0000_0000
    ensures var neighbour := || (k > 0 && fields[k - 1].offset == fields[k].offset)
                             || (k + 1 < |fields| && fields[k].offset == fields[k + 1].offset);
            var m := Marked(fields)[k];
            && (!neighbour ==> m == fields[k])
            && (neighbour ==> m.isAnonymousUnion && m.unionId == |RunsBefore(fields, k)|)
            && (m.id, m.name, m.underlyingTypeId, m.offset)
               == (fields[k].id, fields[k].name, fields[k].underlyingTypeId, fields[k].offset)
    ensures forall l :: k < l < |fields| && Flagged(fields, k) && Flagged(fields, l) ==>
              (Marked(fields)[k].unionId == Marked(fields)[l].unionId
               <==> forall i :: k <= i <= l ==> fields[i].offset == fields[k].offset)
  {
    UnionIdCountsRuns(fields, k);
    forall l | k < l < |fields| && Flagged(fields, k) && Flagged(fields, l)
      ensures Marked(fields)[k].unionId == Marked(fields)[l].unionId
              <==> forall i :: k <= i <= l ==> fields[i].offset == fields[k].offset
    {
      SharedUnionId(fields, k, l);
      NoPartMeansEqual(fields, k, l);
    }
  }

  lemma {:induction false} NoPartMeansEqual(fields: seq<FieldSymbol>, k: nat, l: nat)
    requires AllCreated(fields) && k <= l < |fields|
    ensures (forall i :: k <= i < l ==> !Parts(fields, i))
            <==> forall i :: k <= i <= l ==> fields[i].offset == fields[k].offset
  {
    if k < l {
      NoPartMeansEqual(fields, k, l - 1);
      if forall i :: k <= i <= l ==> fields[i].offset == fields[k].offset {
        assert fields[l - 1].offset == fields[k].offset;
      }
      if forall i :: k <= i < l ==> !Parts(fields, i) {
        assert !Parts(fields, l - 1);
      }
    }
  }

  /** Fields k to l were all created and have one offset. */
  ghost predicate OneRun(fields: seq<FieldSymbol>, k: nat, l: nat) {
    l < |fields| && forall i :: k <= i <= l ==> fields[i].id != 0 && fields[i].offset == fields[k].offset
  }

  /** What the union ids are for. */
  ghost predicate IdsTellRuns(fields: seq<FieldSymbol>)
    requires |fields| < 0x1_0000_0000
  {
    forall k: nat, l: nat :: k < l < |fields| && Flagged(fields, k) && Flagged(fields, l) ==>
      (Marked(fields)[k].unionId == Marked(fields)[l].unionId <==> OneRun(fields, k, l))
  }

  ghost predicate FailedBetween(fields: seq<FieldSymbol>, k: nat, l: nat) {
    exists i :: k < i < l && i < |fields| && fields[i].id == 0
  }

  ghost predicate PartedBetween(fields: seq<FieldSymbol>, k: nat, l: nat) {
    exists i :: k <= i < l && Parts(fields, i)
  }

  /** Between flagged fields with a failed one among them there are also two neighbours that were
      created with different offsets. */
  ghost predicate GapsAreParted(fields: seq<FieldSymbol>) {
    forall k: nat, l: nat ::
      k < l < |fields| && Flagged(fields, k) && Flagged(fields, l) && FailedBetween(fields, k, l)
      ==> PartedBetween(fields, k, l)
  }

  lemma {:induction false} OneRunIff(fields: seq<FieldSymbol>, k: nat, l: nat)
    requires k <= l < |fields| && fields[k].id != 0 && fields[l].id != 0
    ensures OneRun(fields, k, l) <==> !PartedBetween(fields, k, l) && !FailedBetween(fields, k, l)
  {
    if OneRun(fields, k, l) {
      assert forall i :: k <= i < l ==> fields[i].offset == fields[i + 1].offset;
    }
    if !PartedBetween(fields, k, l) && !FailedBetween(fields, k, l) {
      forall i | k <= i <= l
        ensures fields[i].id != 0
      {}
      SameOffsetUpTo(fields, k, l);
    }
  }

  lemma {:induction false} SameOffsetUpTo(fields: seq<FieldSymbol>, k: nat, l: nat)
    requires k <= l < |fields| && forall i :: k <= i <= l ==> fields[i].id != 0
    requires !PartedBetween(fields, k, l)
    ensures forall i :: k <= i <= l ==> fields[i].offset == fields[k].offset
  {
    if k < l {
      assert !Parts(fields, l - 1);
      SameOffsetUpTo(fields, k, l - 1);
    }
  }

  /** Whichever fields failed: flagged fields share an id exactly when they share a run, for all of
      them, if and only if every gap is parted. */
  lemma {:induction false} IdsTellRunsIff(fields: seq<FieldSymbol>)
    requires |fields| < 0x1_0000_0000
    ensures IdsTellRuns(fields) <==> GapsAreParted(fields)
  {
    forall k: nat, l: nat | k < l < |fields| && Flagged(fields, k) && Flagged(fields, l)
      ensures Marked(fields)[k].unionId == Marked(fields)[l].unionId <==> !PartedBetween(fields, k, l)
      ensures OneRun(fields, k, l) <==> !PartedBetween(fields, k, l) && !FailedBetween(fields, k, l)
    {
      SharedUnionId(fields, k, l);
      OneRunIff(fields, k, l);
    }
  }

  /** With a field that failed between them, two unions at different offsets get one id:
      the loop passes over the gap without closing the first union. */
  lemma FailedFieldJoinsUnions(fields: seq<FieldSymbol>)
    requires fields == [EMPTY_FIELD.(id := 1), EMPTY_FIELD.(id := 2), EMPTY_FIELD,
                        EMPTY_FIELD.(id := 3, offset := 8), EMPTY_FIELD.(id := 4, offset := 8)]
    ensures fields[0].offset != fields[3].offset
    ensures Flagged(fields, 0) && Flagged(fields, 3)
    ensures Marked(fields)[0].unionId == Marked(fields)[3].unionId
    ensures !IdsTellRuns(fields)
  {
    SharedUnionId(fields, 0, 3);
  }
}

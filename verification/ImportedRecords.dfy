/** What an import stores for each kind of symbol, said of the record's fields and of what DIA shows
    (the Create functions of Components/DiaProcessor/DiaInterface.cpp). */
module ImportedRecords {
  import opened Symbols
  import opened AnonymousUnions
  import opened DiaGraph

  // ---------------------------------------------------------------- fields

  ghost predicate FieldMatches(m: Member, f: FieldSymbol) {
    f.id == m.id && f.name == m.name && f.offset == m.offset && m.ofType == Some(f.underlyingTypeId)
  }

  ghost predicate FieldIsEmpty(f: FieldSymbol) {
    && (f.id, f.name, f.underlyingTypeId, f.offset) == (0, [], 0, 0)
    && !f.isAnonymousUnion && f.unionId == 0
  }

  /** Field i is made from member i; it is empty if the member has no type, and may be if no record
      could be made for the type. */
  ghost predicate MembersShown(g: Graph, members: seq<Member>, fields: seq<FieldSymbol>) {
    && |fields| == |members|
    && forall i :: 0 <= i < |members| ==> MemberShown(g, members[i], fields[i])
  }

  ghost predicate MemberShown(g: Graph, m: Member, f: FieldSymbol) {
    match m.ofType
    case None => FieldIsEmpty(f)
    case Some(id) => FieldMatches(m, f) || (FieldIsEmpty(f) && !Supported(g, id))
  }

  /** Fields k and k + 1 were both created, at one offset. */
  ghost predicate SharesWithNext(fields: seq<FieldSymbol>, k: int) {
    && 0 <= k && k + 1 < |fields| && fields[k].id != 0 && fields[k + 1].id != 0
    && fields[k].offset == fields[k + 1].offset
  }

  /** The fields that share an offset with a neighbour are flagged. If all were created, a flagged
      field's union id is the number of such groups before its own. */
  ghost predicate UnionsFlagged(fields: seq<FieldSymbol>) {
    && (forall k :: 0 <= k < |fields| ==> FlagShown(fields, k))
    && (AllCreated(fields) ==>
          forall k :: 0 <= k < |fields| && fields[k].isAnonymousUnion ==>
            fields[k].unionId == |GroupsBefore(fields, k)|)
  }

  ghost predicate FlagShown(fields: seq<FieldSymbol>, k: nat)
    requires k < |fields|
  {
    && (fields[k].isAnonymousUnion <==> SharesWithNext(fields, k) || SharesWithNext(fields, k - 1))
    && (!fields[k].isAnonymousUnion ==> fields[k].unionId == 0)
  }

  ghost function GroupsBefore(fields: seq<FieldSymbol>, k: nat): set<nat>
    requires k < |fields|
  {
    set i: nat | i < k && GroupEnds(fields, i)
  }

  /** Field i is the last of a group. */
  ghost predicate GroupEnds(fields: seq<FieldSymbol>, i: nat) {
    SharesWithNext(fields, i - 1) && !SharesWithNext(fields, i)
  }

  ghost predicate NoneFlagged(fields: seq<FieldSymbol>) {
    forall k :: 0 <= k < |fields| ==> !fields[k].isAnonymousUnion && fields[k].unionId == 0
  }

  // ---------------------------------------------------------------- types

  ghost predicate TypeIsEmpty(t: TypeSymbol) {
    && (t.id, t.name, t.kind, t.length) == (0, [], Unknown, 0)
    && (t.fieldCount, t.fields, t.typedefSource) == (0, [], 0)
  }

  /** t has these parts, no fields and no typedef source. */
  ghost predicate IsPlain(t: TypeSymbol, id: u32, name: Str, kind: Kind, length: u64) {
    && (t.id, t.name, t.kind, t.length) == (id, name, kind, length)
    && (t.fieldCount, t.fields, t.typedefSource) == (0, [], 0)
  }

  ghost predicate HasFields(g: Graph, t: TypeSymbol, id: u32, name: Str, length: u64, members: seq<Member>) {
    && (t.id, t.name, t.length, t.typedefSource) == (id, name, length, 0)
    && t.fieldCount == |members| && MembersShown(g, members, t.fields)
  }

  ghost predicate KindShown(udtKind: UdtKind, kind: Kind) {
    && (udtKind == UdtStruct ==> kind == Struct)
    && (udtKind == UdtClass ==> kind == Class)
    && (udtKind == UdtUnion ==> kind == Union)
    && (udtKind == UdtInterface ==> kind == Interface)
    && (udtKind == UdtOther ==> kind == Unknown)
  }

  function DecimalValue(digits: Str): int {
    if digits == [] then 0
    else 10 * DecimalValue(digits[..|digits| - 1]) + digits[|digits| - 1] as int - 0x30
  }

  /** "pUnk" and n in decimal. */
  ghost predicate NamesPointer(name: Str, n: nat) {
    && |name| > 4 && name[..4] == [0x70, 0x55, 0x6e, 0x6b]
    && (forall k :: 4 <= k < |name| ==> 0x30 <= name[k] <= 0x39)
    && (n > 0 ==> name[4] != 0x30)
    && DecimalValue(name[4..]) == n
  }

  /** t is what is stored for a symbol of the graph once `pointers` pointers have been named. */
  ghost predicate RecordShown(g: Graph, id: u32, t: TypeSymbol, pointers: nat)
    requires id in g
  {
    var s := g[id];
    match s.tag
    case TagBaseType =>
      if s.baseName.None? || s.length.None? then TypeIsEmpty(t)
      else IsPlain(t, id, s.baseName.value, Base, s.length.value)
    case TagUdt =>
      if s.udtKind.None? || s.length.None? then TypeIsEmpty(t)
      else
        && HasFields(g, t, id, s.name, s.length.value, s.members) && KindShown(s.udtKind.value, t.kind)
        && if s.udtKind.value == UdtUnion then NoneFlagged(t.fields) else UnionsFlagged(t.fields)
    case TagEnum =>
      if s.length.None? then TypeIsEmpty(t)
      else HasFields(g, t, id, s.name, s.length.value, s.members) && t.kind == Enum && NoneFlagged(t.fields)
    case TagPointerType =>
      if s.length.None? then TypeIsEmpty(t)
      else
        && IsPlain(t, id, t.name, Pointer, s.length.value)
        && exists n: nat :: 1 <= n <= pointers && NamesPointer(t.name, n)
    case TagArrayType =>
      if s.length.None? then TypeIsEmpty(t) else IsPlain(t, id, s.name, Array, s.length.value)
    case TagTypedef =>
      if s.ofType.None? || s.ofType.value !in g then TypeIsEmpty(t)
      else if g[s.ofType.value].tag.TagFunctionType? then IsPlain(t, id, s.name, Typedef, 0)
      else if g[s.ofType.value].length.None? then TypeIsEmpty(t)
      else
        && (t.id, t.name, t.kind, t.length) == (id, s.name, Typedef, g[s.ofType.value].length.value)
        && (t.fieldCount, t.fields, t.typedefSource) == (0, [], s.ofType.value)
    case TagFunctionType => TypeIsEmpty(t)
    case TagOther => TypeIsEmpty(t)
  }

  // ---------------------------------------------------------------- the records of an import

  /** Marking changes no more than the marks, and the marks as the fields' places say. */
  lemma {:induction false} MarkedField(fields: seq<FieldSymbol>, k: nat)
    requires k < |fields| < 0x1_0000_0000
    ensures |Marked(fields)| == |fields|
    ensures var f, m := fields[k], Marked(fields)[k];
            && (m.id, m.name, m.underlyingTypeId, m.offset) == (f.id, f.name, f.underlyingTypeId, f.offset)
            && (if SharesWithNext(fields, k) || SharesWithNext(fields, k - 1) then m.isAnonymousUnion
                else m.isAnonymousUnion == f.isAnonymousUnion && m.unionId == f.unionId)
  {}

  lemma {:induction false} SharingStays(fields: seq<FieldSymbol>, k: int)
    requires |fields| < 0x1_0000_0000
    ensures SharesWithNext(Marked(fields), k) <==> SharesWithNext(fields, k)
  {
    if 0 <= k && k + 1 < |fields| {
      MarkedField(fields, k);
      MarkedField(fields, k + 1);
    }
  }

  lemma {:induction false} GroupsAreRuns(fields: seq<FieldSymbol>, k: nat)
    requires AllCreated(fields) && k < |fields|
    ensures GroupsBefore(fields, k) == RunsBefore(fields, k)
  {
    assert forall i: nat :: i < k ==> (GroupEnds(fields, i) <==> RunEnds(fields, i));
  }

  lemma {:induction false} GroupsStay(fields: seq<FieldSymbol>, k: nat)
    requires k < |fields| < 0x1_0000_0000
    ensures |Marked(fields)| == |fields|
    ensures GroupsBefore(Marked(fields), k) == GroupsBefore(fields, k)
  {
    forall i: nat
      ensures GroupEnds(Marked(fields), i) <==> GroupEnds(fields, i)
    {
      SharingStays(fields, i);
      SharingStays(fields, i - 1);
    }
  }

  lemma {:induction false} MarkedAreFlagged(fields: seq<FieldSymbol>)
    requires NoneFlagged(fields) && |fields| < 0x1_0000_0000
    ensures UnionsFlagged(Marked(fields))
  {
    var marked := Marked(fields);
    forall k | 0 <= k < |marked|
      ensures FlagShown(marked, k)
    {
      MarkedField(fields, k);
      SharingStays(fields, k);
      SharingStays(fields, k - 1);
    }
    if AllCreated(marked) {
      forall k | 0 <= k < |fields|
        ensures fields[k].id != 0
      {
        MarkedField(fields, k);
        assert marked[k].id != 0;
      }
      forall k | 0 <= k < |marked| && marked[k].isAnonymousUnion
        ensures marked[k].unionId == |GroupsBefore(marked, k)|
      {
        MarkedField(fields, k);
        MarkedMeansRuns(fields, k);
        GroupsAreRuns(fields, k);
        GroupsStay(fields, k);
      }
    }
  }

  lemma {:induction false} FieldsAreShown(g: Graph, members: seq<Member>, fields: seq<FieldSymbol>)
    requires FieldsFor(g, members, fields)
    ensures MembersShown(g, members, fields) && NoneFlagged(fields)
  {
    forall i | 0 <= i < |members|
      ensures MemberShown(g, members[i], fields[i]) && !fields[i].isAnonymousUnion && fields[i].unionId == 0
    {
      assert FieldFor(g, members[i], fields[i]);
    }
  }

  /** An empty field has id 0, so it is never marked. */
  lemma {:induction false} MarkedAreShown(g: Graph, members: seq<Member>, fields: seq<FieldSymbol>)
    requires MembersShown(g, members, fields) && |fields| < 0x1_0000_0000
    ensures MembersShown(g, members, Marked(fields))
  {
    forall i | 0 <= i < |members|
      ensures MemberShown(g, members[i], Marked(fields)[i])
    {
      assert MemberShown(g, members[i], fields[i]);
      MarkedField(fields, i);
    }
  }

  lemma {:induction false} DecimalHasValue(n: nat)
    ensures DecimalValue(Decimal(n)) == n
    ensures forall k :: 0 <= k < |Decimal(n)| ==> 0x30 <= Decimal(n)[k] <= 0x39
    ensures n > 0 ==> Decimal(n)[0] != 0x30
  {
    if n < 10 {
      assert Decimal(n)[..0] == [];
    } else {
      DecimalHasValue(n / 10);
      assert Decimal(n)[..|Decimal(n)| - 1] == Decimal(n / 10);
    }
  }

  lemma {:induction false} PointerIsNamed(n: nat)
    ensures NamesPointer(PointerName(n), n)
  {
    DecimalHasValue(n);
    assert PointerName(n)[4..] == Decimal(n);
    assert PointerName(n)[..4] == P_UNK;
    assert forall k :: 4 <= k < |PointerName(n)| ==> PointerName(n)[k] == Decimal(n)[k - 4];
  }

  lemma {:induction false} MemberRecordIsShown(g: Graph, id: u32, t: TypeSymbol, pointers: nat)
    requires HasMembers(g, id) && Supported(g, id) && RecordFor(g, id, t, pointers)
    ensures RecordShown(g, id, t, pointers)
  {
    var fields :| FieldsFor(g, g[id].members, fields) && |fields| < 0x8000_0000 && t == MemberRecord(g, id, fields);
    FieldsAreShown(g, g[id].members, fields);
    MarkedAreFlagged(fields);
    MarkedAreShown(g, g[id].members, fields);
  }

  /** Every record that an import may store is shown so. */
  lemma {:induction false} RecordIsShown(g: Graph, id: u32, t: TypeSymbol, pointers: nat)
    requires id in g && RecordFor(g, id, t, pointers)
    ensures RecordShown(g, id, t, pointers)
  {
    if HasMembers(g, id) && Supported(g, id) {
      MemberRecordIsShown(g, id, t, pointers);
    } else if g[id].tag.TagPointerType? && Supported(g, id) {
      var n :| 1 <= n <= pointers && t == PlainRecord(g, id, PointerName(n));
      PointerIsNamed(n);
    }
  }

  /** No field with a type is missing. */
  ghost predicate ShowsAllMembers(members: seq<Member>, fields: seq<FieldSymbol>) {
    && |fields| == |members|
    && forall i :: 0 <= i < |members| ==>
         if members[i].ofType.Some? then FieldMatches(members[i], fields[i]) else FieldIsEmpty(fields[i])
  }

  lemma {:induction false} AllMembersAreThere(g: Graph, id: u32, t: TypeSymbol, pointers: nat)
    requires HasMembers(g, id) && Supported(g, id) && RecordShown(g, id, t, pointers)
    requires forall to :: Edge(g, id, to) ==> Supported(g, to)
    ensures ShowsAllMembers(g[id].members, t.fields)
  {
    var members := g[id].members;
    forall i | 0 <= i < |members|
      ensures if members[i].ofType.Some? then FieldMatches(members[i], t.fields[i]) else FieldIsEmpty(t.fields[i])
    {
      assert MemberShown(g, members[i], t.fields[i]);
      if members[i].ofType.Some? {
        assert Edge(g, id, members[i].ofType.value);
      }
    }
  }
}

/** What a PDB file shows through DIA, as an immutable graph, and what the importer is
    to make of it (Components/DiaProcessor/DiaInterface.cpp). */
module DiaGraph {
  import opened Symbols
  import opened AnonymousUnions

  datatype Tag =
    | TagBaseType | TagUdt | TagEnum | TagPointerType | TagTypedef | TagArrayType
    | TagFunctionType
    | TagOther

  datatype UdtKind = UdtStruct | UdtClass | UdtUnion | UdtInterface | UdtOther

  /** A data child of a class or enum. ofType is None when DIA gives no type. */
  datatype Member = Member(id: u32, name: Str, offset: u64, ofType: Option<u32>)

  /** A getter that fails is a None. noType tells the base type btNoType from the others. */
  datatype DiaSymbol = DiaSymbol(
    tag: Tag, name: Str, length: Option<u64>, baseName: Option<Str>, noType: bool,
    udtKind: Option<UdtKind>, members: seq<Member>, ofType: Option<u32>)

  type Graph = map<u32, DiaSymbol>

  datatype FunctionType = FunctionType(
    returnType: Option<u32>, argumentCount: Option<u32>, thisType: Option<u32>, arguments: seq<u32>,
    callingConvention: Option<CallingConvention>)

  datatype DiaFunction = DiaFunction(
    id: u32, name: Str, ofType: Option<FunctionType>, virtualAddress: Option<u64>)

  /** Every symbol DIA hands out can be asked for; counts are LONGs. */
  ghost predicate GraphOk(g: Graph) {
    forall id :: id in g ==>
      && |g[id].members| < 0x8000_0000
      && (g[id].ofType.Some? ==> g[id].ofType.value in g)
      && forall i :: 0 <= i < |g[id].members| && g[id].members[i].ofType.Some? ==> g[id].members[i].ofType.value in g
  }

  function Ids(ids: seq<u32>): set<u32> {
    set id | id in ids
  }

  // ---------------------------------------------------------------- which types, which edges

  /** The type a typedef is followed to, which is any but a function type. */
  function TypedefTarget(g: Graph, id: u32): Option<u32> {
    if && id in g && g[id].tag.TagTypedef? && g[id].ofType.Some?
       && g[id].ofType.value in g && !g[g[id].ofType.value].tag.TagFunctionType?
    then Some(g[id].ofType.value)
    else None
  }

  /** A record can be made for this symbol: its tag is known and no getter it needs fails. */
  predicate Supported(g: Graph, id: u32) {
    && id in g
    && match g[id].tag
       case TagBaseType => g[id].baseName.Some? && g[id].length.Some?
       case TagUdt => g[id].udtKind.Some? && g[id].length.Some?
       case TagEnum | TagPointerType | TagArrayType => g[id].length.Some?
       case TagTypedef =>
         && g[id].ofType.Some? && g[id].ofType.value in g
         && (g[g[id].ofType.value].tag.TagFunctionType? || g[g[id].ofType.value].length.Some?)
       case TagFunctionType | TagOther => false
  }

  predicate HasMembers(g: Graph, id: u32) {
    id in g && (g[id].tag.TagUdt? || g[id].tag.TagEnum?)
  }

  ghost predicate Edge(g: Graph, from: u32, to: u32) {
    || TypedefTarget(g, from) == Some(to)
    || (HasMembers(g, from) && Supported(g, from)
        && exists i :: 0 <= i < |g[from].members| && g[from].members[i].ofType == Some(to))
  }

  ghost predicate ClosedUnderEdges(g: Graph, s: set<u32>) {
    forall from, to :: from in s && Edge(g, from, to) ==> to in s
  }

  // ---------------------------------------------------------------- reachability

  ghost predicate IsPath(g: Graph, roots: set<u32>, path: seq<u32>) {
    && path != [] && path[|path| - 1] in g
    && if |path| == 1 then path[0] in roots
       else IsPath(g, roots, path[..|path| - 1]) && Edge(g, path[|path| - 2], path[|path| - 1])
  }

  ghost predicate Reaches(g: Graph, roots: set<u32>, id: u32) {
    exists path :: IsPath(g, roots, path) && path[|path| - 1] == id
  }

  /** The ids that can be reached from the roots through field and typedef edges. */
  ghost function Reachable(g: Graph, roots: set<u32>): set<u32> {
    set id | id in g && Reaches(g, roots, id)
  }

  lemma RootsAreReachable(g: Graph, roots: set<u32>)
    requires roots <= g.Keys
    ensures roots <= Reachable(g, roots)
  {
    forall id | id in roots
      ensures id in Reachable(g, roots)
    {
      assert IsPath(g, roots, [id]);
    }
  }

  lemma {:induction false} LongerPath(g: Graph, roots: set<u32>, path: seq<u32>, to: u32)
    requires IsPath(g, roots, path) && Edge(g, path[|path| - 1], to) && to in g
    ensures IsPath(g, roots, path + [to])
  {
    assert (path + [to])[..|path|] == path;
  }

  lemma {:induction false} EdgeStaysInGraph(g: Graph, from: u32, to: u32)
    requires GraphOk(g) && Edge(g, from, to)
    ensures to in g
  {}

  lemma {:induction false} ReachableIsClosed(g: Graph, roots: set<u32>)
    requires GraphOk(g)
    ensures ClosedUnderEdges(g, Reachable(g, roots))
  {
    forall from, to | from in Reachable(g, roots) && Edge(g, from, to)
      ensures to in Reachable(g, roots)
    {
      var path :| IsPath(g, roots, path) && path[|path| - 1] == from;
      EdgeStaysInGraph(g, from, to);
      LongerPath(g, roots, path, to);
      assert (path + [to])[|path + [to]| - 1] == to;
    }
  }

  lemma {:induction false} PathStaysInside(g: Graph, roots: set<u32>, path: seq<u32>, s: set<u32>)
    requires IsPath(g, roots, path) && roots <= s && ClosedUnderEdges(g, s)
    ensures path[|path| - 1] in s
    decreases |path|
  {
    if |path| > 1 {
      PathStaysInside(g, roots, path[..|path| - 1], s);
    }
  }

  /** Reachable is the least set that contains the roots and is closed under the edges. */
  lemma ReachableIsLeast(g: Graph, roots: set<u32>, s: set<u32>)
    requires roots <= s && ClosedUnderEdges(g, s)
    ensures Reachable(g, roots) <= s
  {
    forall id | id in Reachable(g, roots)
      ensures id in s
    {
      var path :| IsPath(g, roots, path) && path[|path| - 1] == id;
      PathStaysInside(g, roots, path, s);
    }
  }

  // ---------------------------------------------------------------- typedef chains

  /** The id n typedef steps further, if the chain is that long. */
  function Follow(g: Graph, id: u32, n: nat): Option<u32>
    decreases n
  {
    if n == 0 then Some(id)
    else
      var next := TypedefTarget(g, id);
      if next.None? then None else Follow(g, next.value, n - 1)
  }

  ghost predicate TypedefsAcyclic(g: Graph, s: set<u32>) {
    forall id, n: nat :: id in s && n > 0 ==> Follow(g, id, n) != Some(id)
  }

  ghost predicate TypedefChainsEnd(g: Graph, s: set<u32>) {
    forall id :: id in s ==> exists n: nat :: Follow(g, id, n).None?
  }

  lemma {:induction false} FollowFurther(g: Graph, id: u32, n: nat, m: nat)
    requires Follow(g, id, n).Some?
    ensures Follow(g, id, n + m) == Follow(g, Follow(g, id, n).value, m)
    decreases n
  {
    if n > 0 {
      FollowFurther(g, TypedefTarget(g, id).value, n - 1, m);
    }
  }

  lemma {:induction false} FollowStaysInside(g: Graph, s: set<u32>, id: u32, n: nat)
    requires ClosedUnderEdges(g, s) && id in s && Follow(g, id, n).Some?
    ensures Follow(g, id, n).value in s
    decreases n
  {
    if n > 0 {
      var next := TypedefTarget(g, id).value;
      assert Edge(g, id, next);
      FollowStaysInside(g, s, next, n - 1);
    }
  }

  lemma {:induction false} FollowShorter(g: Graph, id: u32, n: nat, m: nat)
    requires m <= n && Follow(g, id, n).Some?
    ensures Follow(g, id, m).Some?
    decreases n
  {
    if m > 0 {
      FollowShorter(g, TypedefTarget(g, id).value, n - 1, m - 1);
    }
  }

  lemma {:induction false} Pigeonhole(s: set<u32>, f: nat -> u32, n: nat)
    requires n > |s| && forall i: nat :: i < n ==> f(i) in s
    ensures exists i: nat, j: nat :: i < j < n && f(i) == f(j)
    decreases n
  {
    if i: nat :| i < n - 1 && f(i) == f(n - 1) {
      assert i < n - 1 < n;
    } else {
      var smaller := s - {f(n - 1)};
      assert f(n - 1) in s;
      assert |smaller| == |s| - 1;
      Pigeonhole(smaller, f, n - 1);
    }
  }

  lemma LongChainRepeats(g: Graph, s: set<u32>, id: u32)
    requires ClosedUnderEdges(g, s) && id in s
    requires Follow(g, id, |s|).Some?
    ensures !TypedefsAcyclic(g, s)
  {
    var at := (n: nat) => if Follow(g, id, n).Some? then Follow(g, id, n).value else 0;
    forall n: nat | n < |s| + 1
      ensures Follow(g, id, n) == Some(at(n)) && at(n) in s
    {
      FollowShorter(g, id, |s|, n);
      FollowStaysInside(g, s, id, n);
    }
    Pigeonhole(s, at, |s| + 1);
    var i: nat, j: nat :| i < j < |s| + 1 && at(i) == at(j);
    FollowFurther(g, id, i, j - i);
    assert Follow(g, at(i), j - i) == Some(at(i));
  }

  lemma {:induction false} CycleGoesOn(g: Graph, id: u32, k: nat, n: nat)
    requires k > 0 && Follow(g, id, k) == Some(id)
    ensures Follow(g, id, n).Some?
    decreases n
  {
    if n <= k {
      FollowShorter(g, id, k, n);
    } else {
      CycleGoesOn(g, id, k, n - k);
      FollowFurther(g, id, k, n - k);
    }
  }

  /** The importer follows a typedef without looking whether its target is known already.
      That recursion ends from every type exactly when no typedef leads back to itself. */
  lemma TypedefRecursionEndsIff(g: Graph, s: set<u32>)
    requires ClosedUnderEdges(g, s)
    ensures TypedefChainsEnd(g, s) <==> TypedefsAcyclic(g, s)
  {
    if TypedefsAcyclic(g, s) {
      forall id | id in s
        ensures exists n: nat :: Follow(g, id, n).None?
      {
        if Follow(g, id, |s|).Some? {
          LongChainRepeats(g, s, id);
        }
      }
    }
    if TypedefChainsEnd(g, s) {
      forall id, k: nat | id in s && k > 0
        ensures Follow(g, id, k) != Some(id)
      {
        if Follow(g, id, k) == Some(id) {
          var n: nat :| Follow(g, id, n).None?;
          CycleGoesOn(g, id, k, n);
        }
      }
    }
  }

  /** A number for every id that falls along typedefs. */
  ghost predicate IsRank(g: Graph, s: set<u32>, rank: map<u32, nat>) {
    && rank.Keys == s
    && forall id :: id in s && TypedefTarget(g, id).Some? ==>
         TypedefTarget(g, id).value in s && rank[TypedefTarget(g, id).value] < rank[id]
  }

  function StepsLeft(g: Graph, id: u32, bound: nat): nat
    decreases bound
  {
    if bound == 0 || TypedefTarget(g, id).None? then 0
    else 1 + StepsLeft(g, TypedefTarget(g, id).value, bound - 1)
  }

  lemma {:induction false} StepsLeftSettles(g: Graph, id: u32, bound: nat)
    requires Follow(g, id, bound).None?
    ensures StepsLeft(g, id, bound + 1) == StepsLeft(g, id, bound)
    decreases bound
  {
    if TypedefTarget(g, id).Some? {
      StepsLeftSettles(g, TypedefTarget(g, id).value, bound - 1);
    }
  }

  lemma AcyclicHasRank(g: Graph, s: set<u32>) returns (rank: map<u32, nat>)
    requires ClosedUnderEdges(g, s) && TypedefsAcyclic(g, s)
    ensures IsRank(g, s, rank)
  {
    rank := map id | id in s :: StepsLeft(g, id, |s| + 1);
    forall id | id in s && TypedefTarget(g, id).Some?
      ensures TypedefTarget(g, id).value in s && rank[TypedefTarget(g, id).value] < rank[id]
    {
      var next := TypedefTarget(g, id).value;
      assert Edge(g, id, next);
      if Follow(g, next, |s|).Some? {
        LongChainRepeats(g, s, next);
      }
      StepsLeftSettles(g, next, |s|);
    }
  }

  // ---------------------------------------------------------------- records

  function Digit(n: nat): u8
    requires n < 10
  {
    0x30 + n
  }

  /** n in decimal, as std::format writes it. */
  function Decimal(n: nat): (s: Str)
    ensures s != []
  {
    if n < 10 then [Digit(n)] else Decimal(n / 10) + [Digit(n % 10)]
  }

  lemma {:induction false} DecimalInjective(m: nat, n: nat)
    requires Decimal(m) == Decimal(n)
    ensures m == n
  {
    var a, b := Decimal(m), Decimal(n);
    assert a[|a| - 1] == Digit(m % 10) && b[|b| - 1] == Digit(n % 10);
    if m >= 10 && n >= 10 {
      assert Decimal(m / 10) == a[..|a| - 1] && Decimal(n / 10) == b[..|b| - 1];
      DecimalInjective(m / 10, n / 10);
    }
  }

  const P_UNK: Str := [0x70, 0x55, 0x6e, 0x6b]

  function PointerName(n: nat): Str {
    P_UNK + Decimal(n)
  }

  lemma PointerNameInjective(m: nat, n: nat)
    requires PointerName(m) == PointerName(n)
    ensures m == n
  {
    assert Decimal(m) == PointerName(m)[4..] && Decimal(n) == PointerName(n)[4..];
    DecimalInjective(m, n);
  }

  function KindOfUdt(k: UdtKind): Kind {
    match k
    case UdtStruct => Struct
    case UdtClass => Class
    case UdtUnion => Union
    case UdtInterface => Interface
    case UdtOther => Unknown
  }

  function FieldOf(m: Member): FieldSymbol
    requires m.ofType.Some?
  {
    FieldSymbol(m.id, m.name, m.ofType.value, m.offset, false, 0)
  }

  /** A field is the member's, or empty if the member has no type. One whose type is not
      supported may be either: empty the first time that type is met, filled later. */
  ghost predicate FieldFor(g: Graph, m: Member, f: FieldSymbol) {
    if m.ofType.None? then f == EMPTY_FIELD
    else f == FieldOf(m) || (f == EMPTY_FIELD && !Supported(g, m.ofType.value))
  }

  ghost predicate FieldsFor(g: Graph, members: seq<Member>, fields: seq<FieldSymbol>) {
    |fields| == |members| && forall i :: 0 <= i < |members| ==> FieldFor(g, members[i], fields[i])
  }

  function WithUnions(kind: Kind, fields: seq<FieldSymbol>): seq<FieldSymbol>
    requires |fields| < 0x1_0000_0000
  {
    if kind != Union && kind != Enum then Marked(fields) else fields
  }

  /** The record of a class or enum, from its fields as they were built. */
  function MemberRecord(g: Graph, id: u32, fields: seq<FieldSymbol>): TypeSymbol
    requires HasMembers(g, id) && Supported(g, id) && |fields| < 0x8000_0000
  {
    var kind := if g[id].tag.TagUdt? then KindOfUdt(g[id].udtKind.value) else Enum;
    TypeSymbol(id, g[id].name, kind, g[id].length.value, |fields|, WithUnions(kind, fields), 0)
  }

  /** The record of any other supported symbol; a pointer's name is made up. */
  function PlainRecord(g: Graph, id: u32, pointerName: Str): TypeSymbol
    requires Supported(g, id) && !HasMembers(g, id)
  {
    var s := g[id];
    if s.tag.TagBaseType? then TypeSymbol(id, s.baseName.value, Base, s.length.value, 0, [], 0)
    else if s.tag.TagPointerType? then TypeSymbol(id, pointerName, Pointer, s.length.value, 0, [], 0)
    else if s.tag.TagArrayType? then TypeSymbol(id, s.name, Array, s.length.value, 0, [], 0)
    else if g[s.ofType.value].tag.TagFunctionType? then TypeSymbol(id, s.name, Typedef, 0, 0, [], 0)
    else TypeSymbol(id, s.name, Typedef, g[s.ofType.value].length.value, 0, [], s.ofType.value)
  }

  /** t is what the importer should store for id after handing out `pointers` pointer names.
      A symbol that is not supported keeps the empty record it was first entered with. */
  ghost predicate RecordFor(g: Graph, id: u32, t: TypeSymbol, pointers: nat) {
    if !Supported(g, id) then t == EMPTY_TYPE
    else if HasMembers(g, id) then
      exists fields ::
        FieldsFor(g, g[id].members, fields) && |fields| < 0x8000_0000 && t == MemberRecord(g, id, fields)
    else if g[id].tag.TagPointerType? then
      exists n :: 1 <= n <= pointers && t == PlainRecord(g, id, PointerName(n))
    else t == PlainRecord(g, id, [])
  }

  // ---------------------------------------------------------------- the complete record

  function FieldsOf(members: seq<Member>): seq<FieldSymbol> {
    seq(|members|, i requires 0 <= i < |members| =>
      if members[i].ofType.Some? then FieldOf(members[i]) else EMPTY_FIELD)
  }

  /** When everything a class refers to is supported, its record is determined by the graph. */
  lemma CompleteMemberRecord(g: Graph, id: u32, t: TypeSymbol, pointers: nat)
    requires GraphOk(g) && HasMembers(g, id) && Supported(g, id) && RecordFor(g, id, t, pointers)
    requires forall to :: Edge(g, id, to) ==> Supported(g, to)
    ensures t == MemberRecord(g, id, FieldsOf(g[id].members))
  {
    var members := g[id].members;
    var fields :| FieldsFor(g, members, fields) && |fields| < 0x8000_0000 && t == MemberRecord(g, id, fields);
    forall i | 0 <= i < |members|
      ensures fields[i] == FieldsOf(members)[i]
    {
      assert FieldFor(g, members[i], fields[i]);
      if members[i].ofType.Some? {
        assert Edge(g, id, members[i].ofType.value);
      }
    }
    assert fields == FieldsOf(members);
  }

  /** Only an unsupported symbol is left with the placeholder. */
  lemma PlaceholderOnlyIfUnsupported(g: Graph, id: u32, t: TypeSymbol, pointers: nat)
    requires RecordFor(g, id, t, pointers) && id != 0
    ensures t == EMPTY_TYPE <==> !Supported(g, id)
  {}
}
